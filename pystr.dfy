// The Python string and sequence semantics that the DICOM reader and the GUI
// callbacks depend on: slicing, the `in` substring test, `str.isdigit`,
// `int(text)` and `str(n)`.
module PyStr {
  import opened Wrappers

  /** Python's `s[:n]` for n >= 0: clamped to the length of s. */
  function Take<T>(s: seq<T>, n: nat): (r: seq<T>)
    ensures |r| == if n <= |s| then n else |s|
    ensures r <= s
  {
    if n <= |s| then s[..n] else s
  }

  /** Python's `s[n:]` for n >= 0: empty once n reaches the length. */
  function Drop<T(==)>(s: seq<T>, n: nat): (r: seq<T>)
    ensures |r| == if n <= |s| then |s| - n else 0
    ensures Take(s, n) + r == s
    ensures IsSuffix(r, s)
  {
    if n <= |s| then s[n..] else []
  }

  /** r is what is left of s after some prefix of it is consumed. */
  predicate IsSuffix<T(==)>(r: seq<T>, s: seq<T>)
  {
    |r| <= |s| && s[|s| - |r|..] == r
  }

  lemma SuffixTransitive<T>(a: seq<T>, b: seq<T>, c: seq<T>)
    requires IsSuffix(a, b) && IsSuffix(b, c)
    ensures IsSuffix(a, c)
  {
    assert c[|c| - |a|..] == c[|c| - |b|..][|b| - |a|..];
  }

  /** How Python normalises one bound of a slice of a sequence of length n. */
  function SliceIndex(i: int, n: nat): (k: nat)
    ensures k <= n
    ensures 0 <= i <= n ==> k == i
  {
    if i < 0 then (if i + n < 0 then 0 else i + n)
    else if i > n then n
    else i
  }

  /** Python's `s[lo:hi]` with step 1: negative bounds count from the end,
      out-of-range bounds are clamped, and crossed bounds give []. */
  function Slice<T>(s: seq<T>, lo: int, hi: int): (r: seq<T>)
    ensures 0 <= lo <= hi <= |s| ==> r == s[lo..hi]
    ensures |r| <= |s| && (lo <= hi ==> |r| <= hi - lo)
  {
    var a, b := SliceIndex(lo, |s|), SliceIndex(hi, |s|);
    if a <= b then s[a..b] else []
  }

  /** Python's `needle in hay` on two strings: a substring test. */
  predicate Contains(hay: string, needle: string)
  {
    exists i | 0 <= i <= |hay| - |needle| :: needle <= hay[i..]
  }

  /** Python's `" ".join(words)`. */
  function Join(words: seq<string>): string
  {
    if words == [] then ""
    else if |words| == 1 then words[0]
    else words[0] + " " + Join(words[1..])
  }

  /** A two-character code without blanks, such as a DICOM VR. */
  predicate IsCode(w: string)
  {
    |w| == 2 && w[0] != ' ' && w[1] != ' '
  }

  /** A two-character code is a prefix of the text from i on exactly when
      the two characters at i are the code's. */
  lemma CodeAt(s: string, i: int, code: string)
    requires IsCode(code) && 0 <= i <= |s| - 2
    ensures code <= s[i..] <==> s[i] == code[0] && s[i + 1] == code[1]
  {
    if s[i] == code[0] && s[i + 1] == code[1] {
      assert s[i..][..2] == code;
    }
  }

  /** Where a two-character code occurs in `x + " " + y`: inside x or inside y. */
  lemma ContainsAcrossBlank(x: string, y: string, code: string)
    requires IsCode(code) && Contains(x + " " + y, code)
    ensures Contains(x, code) || Contains(y, code)
  {
    var h := x + " " + y;
    var i :| 0 <= i <= |h| - 2 && code <= h[i..];
    CodeAt(h, i, code);
    if i + 1 < |x| {
      CodeAt(x, i, code);
    } else {
      assert i >= |x| + 1;
      CodeAt(y, i - |x| - 1, code);
    }
  }

  /** An occurrence in x is an occurrence in any text that starts with x. */
  lemma ContainsInHead(x: string, y: string, code: string)
    requires IsCode(code) && Contains(x, code)
    ensures Contains(x + y, code)
  {
    var i :| 0 <= i <= |x| - 2 && code <= x[i..];
    CodeAt(x, i, code);
    CodeAt(x + y, i, code);
  }

  /** An occurrence in y is an occurrence in any text that ends with y. */
  lemma ContainsInTail(x: string, y: string, code: string)
    requires IsCode(code) && Contains(y, code)
    ensures Contains(x + y, code)
  {
    var i :| 0 <= i <= |y| - 2 && code <= y[i..];
    CodeAt(y, i, code);
    CodeAt(x + y, i + |x|, code);
  }

  /** A blank splits the text for a two-character code: the code occurs in
      `x + " " + y` exactly when it occurs in x or in y. */
  lemma ContainsAroundBlank(x: string, y: string, code: string)
    requires IsCode(code)
    ensures Contains(x + " " + y, code) <==> Contains(x, code) || Contains(y, code)
  {
    if Contains(x + " " + y, code) {
      ContainsAcrossBlank(x, y, code);
    }
    if Contains(x, code) {
      ContainsInHead(x, " " + y, code);
      assert x + " " + y == x + (" " + y);
    }
    if Contains(y, code) {
      ContainsInTail(x + " ", y, code);
    }
  }

  /** A code alone: the substring test is equality. */
  lemma ContainsSingle(w: string, code: string)
    requires IsCode(w) && IsCode(code)
    ensures Contains(w, code) <==> code == w
  {
    if Contains(w, code) {
      var i :| 0 <= i <= |w| - 2 && code <= w[i..];
      CodeAt(w, i, code);
    }
    if code == w {
      CodeAt(w, 0, code);
    }
  }

  /** For a list of two-character codes joined by blanks, the substring test on a
      two-character code is exactly membership in the list. */
  lemma {:induction false} JoinContainsCode(words: seq<string>, code: string)
    requires forall k | 0 <= k < |words| :: IsCode(words[k])
    requires IsCode(code)
    ensures Contains(Join(words), code) <==> code in words
  {
    if words == [] {
    } else if |words| == 1 {
      ContainsSingle(words[0], code);
    } else {
      JoinContainsCode(words[1..], code);
      ContainsAroundBlank(words[0], Join(words[1..]), code);
      ContainsSingle(words[0], code);
      assert code in words <==> code == words[0] || code in words[1..];
    }
  }

  // ----- digits -----

  predicate IsDigit(c: char)
  {
    '0' <= c <= '9'
  }

  predicate AllDigits(s: string)
  {
    forall i | 0 <= i < |s| :: IsDigit(s[i])
  }

  /** Python's `s.isdigit()` on ASCII text: non-empty and only decimal digits. */
  predicate IsDigits(s: string)
  {
    |s| > 0 && AllDigits(s)
  }

  function DigitValue(c: char): (d: nat)
    requires IsDigit(c)
    ensures d < 10
  {
    (c as int) - ('0' as int)
  }

  function DigitChar(d: nat): (c: char)
    requires d < 10
    ensures IsDigit(c) && DigitValue(c) == d
  {
    (('0' as int) + d) as char
  }

  /** The value of a string of decimal digits, leading zeros allowed. */
  function DecimalValue(s: string): nat
    requires AllDigits(s)
  {
    if s == [] then 0 else DecimalValue(s[..|s| - 1]) * 10 + DigitValue(s[|s| - 1])
  }

  /** The shortest decimal spelling of a natural number. */
  function NatStr(n: nat): string
    decreases n
  {
    if n < 10 then [DigitChar(n)] else NatStr(n / 10) + [DigitChar(n % 10)]
  }

  /** Python's `str(n)` for an integer. */
  function Str(n: int): string
  {
    if n < 0 then "-" + NatStr(-n) else NatStr(n)
  }

  /** `str(n)` of a natural number is a digit string whose value is n. */
  lemma {:induction false} NatStrRoundTrip(n: nat)
    ensures IsDigits(NatStr(n)) && DecimalValue(NatStr(n)) == n
    decreases n
  {
    if n >= 10 {
      NatStrRoundTrip(n / 10);
      var s := NatStr(n);
      assert s[..|s| - 1] == NatStr(n / 10);
    }
  }

  // ----- int(text) -----

  /** The characters Python's `int()` strips from both ends of ASCII text:
      tab, line feed, vertical tab, form feed, carriage return, the four
      separators 0x1C-0x1F, and the blank. */
  predicate IsSpace(c: char)
  {
    9 <= c as int <= 13 || 28 <= c as int <= 32
  }

  function LStrip(s: string): (r: string)
    ensures |r| > 0 ==> !IsSpace(r[0])
  {
    if |s| > 0 && IsSpace(s[0]) then LStrip(s[1..]) else s
  }

  function RStrip(s: string): (r: string)
    ensures |r| > 0 ==> !IsSpace(r[|r| - 1])
    ensures r <= s
  {
    if |s| > 0 && IsSpace(s[|s| - 1]) then RStrip(s[..|s| - 1]) else s
  }

  function Strip(s: string): string
  {
    RStrip(LStrip(s))
  }

  /** The digit part accepted by `int()` in base 10: digits, with single
      underscores allowed between two digits. */
  predicate IsDigitRun(s: string)
  {
    && |s| > 0 && IsDigit(s[0]) && IsDigit(s[|s| - 1])
    && (forall i | 0 <= i < |s| :: IsDigit(s[i]) || s[i] == '_')
    && (forall i | 0 <= i < |s| - 1 :: s[i] == '_' ==> s[i + 1] != '_')
  }

  function RemoveUnderscores(s: string): (r: string)
    requires forall i | 0 <= i < |s| :: IsDigit(s[i]) || s[i] == '_'
    ensures AllDigits(r)
    ensures AllDigits(s) ==> r == s
  {
    if s == [] then []
    else if s[0] == '_' then RemoveUnderscores(s[1..])
    else [s[0]] + RemoveUnderscores(s[1..])
  }

  /** Python's `int(text)` on ASCII text, None where it raises ValueError:
      surrounding white space is ignored, one sign is allowed, and the rest
      must be a digit run. */
  function PyInt(s: string): Option<int>
  {
    var t := Strip(s);
    if |t| > 0 && (t[0] == '+' || t[0] == '-') then
      if IsDigitRun(t[1..]) then
        var v: int := DecimalValue(RemoveUnderscores(t[1..]));
        Some(if t[0] == '-' then -v else v)
      else None
    else if IsDigitRun(t) then Some(DecimalValue(RemoveUnderscores(t)))
    else None
  }

  lemma RStripPadding(s: string, pad: string)
    requires |s| > 0 && !IsSpace(s[|s| - 1])
    requires forall i | 0 <= i < |pad| :: IsSpace(pad[i])
    ensures RStrip(s + pad) == s
    decreases |pad|
  {
    if pad != [] {
      var p := pad[..|pad| - 1];
      assert (s + pad)[..|s + pad| - 1] == s + p;
      RStripPadding(s, p);
    } else {
      assert s + pad == s;
    }
  }

  /** `int()` of a digit string is its decimal value (used for `isdigit()`
      followed by `int()`). */
  lemma PyIntOfDigits(s: string)
    requires IsDigits(s)
    ensures PyInt(s) == Some(DecimalValue(s))
  {
    assert LStrip(s) == s;
    assert RStrip(s) == s;
    assert IsDigitRun(s);
  }

  /** `str(n)` neither starts nor ends with white space. */
  lemma StrHasNoOuterSpace(n: int)
    ensures |Str(n)| > 0 && !IsSpace(Str(n)[0]) && !IsSpace(Str(n)[|Str(n)| - 1])
  {
    var m: nat := if n < 0 then -n else n;
    NatStrRoundTrip(m);
  }

  /** Stripping `str(n)` followed by white-space padding leaves `str(n)`. */
  lemma StripStr(n: int, pad: string)
    requires forall i | 0 <= i < |pad| :: IsSpace(pad[i])
    ensures Strip(Str(n) + pad) == Str(n)
  {
    var s := Str(n);
    StrHasNoOuterSpace(n);
    assert LStrip(s + pad) == s + pad by {
      assert (s + pad)[0] == s[0];
    }
    RStripPadding(s, pad);
  }

  /** The digits of `str(n)` form a run `int()` accepts, with nothing to remove. */
  lemma NatStrIsDigitRun(m: nat)
    ensures IsDigitRun(NatStr(m)) && RemoveUnderscores(NatStr(m)) == NatStr(m)
    ensures DecimalValue(NatStr(m)) == m
  {
    NatStrRoundTrip(m);
  }

  /** `int(str(n) + pad)` gives back n for any trailing white-space padding:
      the round trip of Python's integer text format. */
  lemma PyIntOfStr(n: int, pad: string)
    requires forall i | 0 <= i < |pad| :: IsSpace(pad[i])
    ensures PyInt(Str(n) + pad) == Some(n)
  {
    var m: nat := if n < 0 then -n else n;
    StripStr(n, pad);
    NatStrIsDigitRun(m);
    var t := Str(n);
    if n < 0 {
      assert t[0] == '-' && t[1..] == NatStr(m);
    } else {
      assert t == NatStr(m) && IsDigit(t[0]);
    }
  }
}
