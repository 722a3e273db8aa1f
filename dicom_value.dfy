// decode_value: turning the raw bytes of one data element into a value,
// dispatched on the element's two-letter value representation (VR).
module DicomValue {
  import opened Wrappers
  import opened PyStr
  import opened ByteCodec

  /** What decode_value returns. */
  datatype Value =
    | Text(text: string)       // a Python str: text VRs, and the hex rendering of AT
    | Int(number: int)         // IS, SL, SS, SV, UL, US
    | Float(raw: seq<Byte>)    // FL, FD: an IEEE-754 number, kept as its bytes
    | Bytes(bytes: seq<Byte>)  // any other VR: the bytes unchanged

  /** The exceptions the DICOM reader lets escape. */
  datatype DicomError =
    | RecursionError       // decode_value stripped its input down to nothing
    | UnicodeDecodeError   // an element's VR field is not ASCII
    | KeyError(key: string)
    | TypeError
    | ValueError

  /** The text decode_value searches for the VRs decoded as ASCII text,
      "AE AS CS DA DS DT LO LT PN SH ST TM UC UI UR UT UV", written in runs
      of four or five codes. */
  const TextVRs := "AE AS CS DA" + " " + "DS DT LO LT" + " " + "PN SH ST TM" + " " + "UC UI UR UT UV"

  /** Python's `vr in TextVRs`: a substring test, not a list lookup. */
  predicate IsTextVR(vr: string)
  {
    Contains(TextVRs, vr)
  }

  /** The codes in TextVRs, run by run. */
  const TextVRList: seq<string> := TextA + TextB + TextC + TextD
  const TextA: seq<string> := ["AE", "AS", "CS", "DA"]
  const TextB: seq<string> := ["DS", "DT", "LO", "LT"]
  const TextC: seq<string> := ["PN", "SH", "ST", "TM"]
  const TextD: seq<string> := ["UC", "UI", "UR", "UT", "UV"]

  lemma TextRunA(vr: string)
    requires IsCode(vr)
    ensures Contains("AE AS CS DA", vr) <==> vr in TextA
  {
    assert Join(TextA) == "AE AS CS DA";
    JoinContainsCode(TextA, vr);
  }

  lemma TextRunB(vr: string)
    requires IsCode(vr)
    ensures Contains("DS DT LO LT", vr) <==> vr in TextB
  {
    assert Join(TextB) == "DS DT LO LT";
    JoinContainsCode(TextB, vr);
  }

  lemma TextRunC(vr: string)
    requires IsCode(vr)
    ensures Contains("PN SH ST TM", vr) <==> vr in TextC
  {
    assert Join(TextC) == "PN SH ST TM";
    JoinContainsCode(TextC, vr);
  }

  lemma TextRunD(vr: string)
    requires IsCode(vr)
    ensures Contains("UC UI UR UT UV", vr) <==> vr in TextD
  {
    assert Join(TextD) == "UC UI UR UT UV";
    JoinContainsCode(TextD, vr);
  }

  /** For a two-character code the substring test is exactly membership in
      the list of text VRs. */
  lemma TextVRCode(vr: string)
    requires IsCode(vr)
    ensures IsTextVR(vr) <==> vr in TextVRList
  {
    TextRunA(vr);
    TextRunB(vr);
    TextRunC(vr);
    TextRunD(vr);
    var a, b, c, d := "AE AS CS DA", "DS DT LO LT", "PN SH ST TM", "UC UI UR UT UV";
    ContainsAroundBlank(a + " " + b + " " + c, d, vr);
    ContainsAroundBlank(a + " " + b, c, vr);
    ContainsAroundBlank(a, b, vr);
  }

  /** A two-letter code outside the list is not a text VR. */
  lemma NotTextVR(vr: string)
    requires IsCode(vr) && vr !in TextVRList
    ensures !IsTextVR(vr)
  {
    TextVRCode(vr);
  }

  /** `bs.decode("ascii")`, None where it raises: every byte must be below 128. */
  function AsciiDecode(bs: seq<Byte>): (r: Option<string>)
    ensures r.Some? <==> forall i | 0 <= i < |bs| :: bs[i] < 128
    ensures r.Some? ==> |r.value| == |bs| && forall i | 0 <= i < |bs| :: r.value[i] as int == bs[i]
  {
    if bs == [] then Some("")
    else if bs[0] >= 128 then None
    else
      match AsciiDecode(bs[1..])
      case None => None
      case Some(t) => Some([bs[0] as char] + t)
  }

  predicate IsAscii(s: string)
  {
    forall i | 0 <= i < |s| :: s[i] as int < 128
  }

  /** The ASCII bytes of a text (the inverse of AsciiDecode). */
  function AsciiEncode(s: string): (bs: seq<Byte>)
    requires IsAscii(s)
    ensures |bs| == |s|
  {
    if s == [] then [] else [s[0] as int] + AsciiEncode(s[1..])
  }

  lemma {:induction false} AsciiRoundTrip(s: string)
    requires IsAscii(s)
    ensures AsciiDecode(AsciiEncode(s)) == Some(s)
  {
    if s != [] {
      AsciiRoundTrip(s[1..]);
      var bs := AsciiEncode(s);
      assert bs[0] == s[0] as int && bs[1..] == AsciiEncode(s[1..]);
      assert [s[0]] + s[1..] == s;
    }
  }

  /** The branches of decode_value's dispatch. */
  datatype Kind = TextKind | ATKind | FLKind | FDKind | ISKind | SLKind | SSKind | SVKind | UnsignedKind | OtherKind

  /** The branch of the `match` for a VR that is not a text VR. */
  function CodeKind(vr: string): Kind
  {
    if vr == "AT" then ATKind
    else if vr == "FL" then FLKind
    else if vr == "FD" then FDKind
    else if vr == "IS" then ISKind
    else if vr == "SL" then SLKind
    else if vr == "SS" then SSKind
    else if vr == "SV" then SVKind
    else if vr == "UL" || vr == "US" then UnsignedKind
    else OtherKind
  }

  /** The branch a VR takes: the substring test first, then the exact codes. */
  function KindOf(vr: string): Kind
  {
    if IsTextVR(vr) then TextKind else CodeKind(vr)
  }

  /** One attempt of decode_value's try block for a branch; None where Python
      raises. FL, FD, SL, SS and SV need exactly their width (struct.unpack)
      and are read big-endian; UL and US take every byte, little-endian. */
  function Attempt(kind: Kind, value: seq<Byte>): Option<Value>
  {
    match kind
    case TextKind => (match AsciiDecode(value) case Some(t) => Some(Text(t)) case None => None)
    case ATKind => Some(Text(Hex(value)))
    case FLKind => if |value| == 4 then Some(Float(value)) else None
    case FDKind => if |value| == 8 then Some(Float(value)) else None
    case ISKind =>
      (match AsciiDecode(value)
       case Some(t) => (match PyInt(t) case Some(n) => Some(Int(n)) case None => None)
       case None => None)
    case SLKind => if |value| == 4 then Some(Int(SignedBigEndian(value))) else None
    case SSKind => if |value| == 2 then Some(Int(SignedBigEndian(value))) else None
    case SVKind => if |value| == 8 then Some(Int(SignedBigEndian(value))) else None
    case UnsignedKind => Some(Int(LittleEndian(value)))
    case OtherKind => Some(Bytes(value))
  }

  function DecodeOnce(vr: string, value: seq<Byte>): Option<Value>
  {
    Attempt(KindOf(vr), value)
  }

  /** Python's `value[:-2]`. */
  function StripLastTwo(value: seq<Byte>): (r: seq<Byte>)
    ensures r == Slice(value, 0, -2)
    ensures |r| == if |value| >= 2 then |value| - 2 else 0
  {
    value[..if |value| >= 2 then |value| - 2 else 0]
  }

  /** decode_value: on any failure, retry with the last two bytes dropped. Once
      the input is empty a failure repeats forever in the source; here it is
      the RecursionError that ends it. */
  function DecodeValue(vr: string, value: seq<Byte>): (r: Result<Value, DicomError>)
    ensures r.Err? ==> r.error == RecursionError
    ensures KindOf(vr) == OtherKind ==> r == Ok(Bytes(value))
    decreases |value|
  {
    match DecodeOnce(vr, value)
    case Some(v) => Ok(v)
    case None =>
      if value == [] then Err(RecursionError) else DecodeValue(vr, StripLastTwo(value))
  }

  /** The same retry loop on a branch already chosen. */
  function Retry(kind: Kind, value: seq<Byte>): Result<Value, DicomError>
    decreases |value|
  {
    match Attempt(kind, value)
    case Some(v) => Ok(v)
    case None =>
      if value == [] then Err(RecursionError) else Retry(kind, StripLastTwo(value))
  }

  /** Every retry of decode_value takes the branch of the first attempt. */
  lemma {:induction false} DecodeValueRetry(vr: string, value: seq<Byte>)
    ensures DecodeValue(vr, value) == Retry(KindOf(vr), value)
    decreases |value|
  {
    if value != [] {
      DecodeValueRetry(vr, StripLastTwo(value));
    }
  }

  /** An input the first attempt decodes is returned without a retry. */
  lemma DecodeFirstAttempt(vr: string, value: seq<Byte>, v: Value)
    requires Attempt(KindOf(vr), value) == Some(v)
    ensures DecodeValue(vr, value) == Ok(v)
  {
  }

  // ----- the retry -----

  /** The input of the j-th attempt: `value` with its last 2j bytes dropped. */
  function Candidate(value: seq<Byte>, j: nat): seq<Byte>
  {
    value[..if |value| >= 2 * j then |value| - 2 * j else 0]
  }

  lemma {:induction false} RetryIsFirstSuccess(kind: Kind, value: seq<Byte>, j: nat)
    requires forall i | 0 <= i < j :: Attempt(kind, Candidate(value, i)).None?
    requires Attempt(kind, Candidate(value, j)).Some?
    ensures Retry(kind, value) == Ok(Attempt(kind, Candidate(value, j)).value)
    decreases j
  {
    assert Candidate(value, 0) == value;
    if j > 0 {
      assert Attempt(kind, Candidate(value, 0)).None?;
      if value != [] {
        var rest := StripLastTwo(value);
        forall i | 0 <= i <= j - 1 ensures Candidate(rest, i) == Candidate(value, i + 1) {
        }
        RetryIsFirstSuccess(kind, rest, j - 1);
      }
    }
  }

  /** decode_value returns the result of the first attempt that succeeds. */
  lemma DecodeIsFirstSuccess(vr: string, value: seq<Byte>, j: nat)
    requires forall i | 0 <= i < j :: DecodeOnce(vr, Candidate(value, i)).None?
    requires DecodeOnce(vr, Candidate(value, j)).Some?
    ensures DecodeValue(vr, value) == Ok(DecodeOnce(vr, Candidate(value, j)).value)
  {
    DecodeValueRetry(vr, value);
    RetryIsFirstSuccess(KindOf(vr), value, j);
  }

  lemma {:induction false} RetryFailsOnlyIfAllFail(kind: Kind, value: seq<Byte>, j: nat)
    requires Retry(kind, value).Err?
    ensures Attempt(kind, Candidate(value, j)).None?
    decreases |value|
  {
    if value == [] {
      assert Candidate(value, j) == value;
    } else if j == 0 {
      assert Candidate(value, 0) == value;
    } else {
      var rest := StripLastTwo(value);
      assert Candidate(rest, j - 1) == Candidate(value, j);
      RetryFailsOnlyIfAllFail(kind, rest, j - 1);
    }
  }

  /** decode_value fails only when every attempt, down to the empty input, fails. */
  lemma DecodeFailsOnlyIfAllFail(vr: string, value: seq<Byte>, j: nat)
    requires DecodeValue(vr, value).Err?
    ensures DecodeOnce(vr, Candidate(value, j)).None?
  {
    DecodeValueRetry(vr, value);
    RetryFailsOnlyIfAllFail(KindOf(vr), value, j);
  }

  // ----- the branches -----

  /** The nine codes of the `match` are not caught by the substring test. */
  lemma KindOfCode(vr: string)
    requires vr in ["AT", "FL", "FD", "IS", "SL", "SS", "SV", "UL", "US"]
    ensures KindOf(vr) == CodeKind(vr)
  {
    NotTextVR(vr);
  }

  lemma KindIS(vr: string)
    requires vr == "IS"
    ensures KindOf(vr) == ISKind
  {
    KindOfCode(vr);
  }

  /** The branches whose attempt fails on the empty input. */
  predicate FailsOnEmpty(kind: Kind)
  {
    kind in {FLKind, FDKind, ISKind, SLKind, SSKind, SVKind}
  }

  /** The VRs whose decoding can exhaust the input. */
  const FailOnEmpty: seq<string> := ["FL", "FD", "IS", "SL", "SS", "SV"]

  lemma KindFailsOnEmpty(vr: string)
    ensures FailsOnEmpty(KindOf(vr)) <==> vr in FailOnEmpty
  {
    if vr in FailOnEmpty {
      KindOfCode(vr);
    }
  }

  lemma {:induction false} RetryTotal(kind: Kind, value: seq<Byte>)
    requires !FailsOnEmpty(kind)
    ensures Retry(kind, value).Ok?
    decreases |value|
  {
    if value != [] && Attempt(kind, value).None? {
      RetryTotal(kind, StripLastTwo(value));
    }
  }

  /** Text, AT, UL, US and every unrecognised VR never exhaust their input:
      the empty input decodes, so decode_value always returns a value. */
  lemma DecodeTotal(vr: string, value: seq<Byte>)
    requires vr !in FailOnEmpty
    ensures DecodeValue(vr, value).Ok?
  {
    KindFailsOnEmpty(vr);
    DecodeValueRetry(vr, value);
    RetryTotal(KindOf(vr), value);
  }

  /** The other VRs exhaust the empty input: decode_value raises. */
  lemma DecodeEmptyFails(vr: string)
    requires vr in FailOnEmpty
    ensures DecodeValue(vr, []).Err?
  {
    KindOfCode(vr);
    DecodeValueRetry(vr, []);
    assert Strip("") == "";
  }

  /** Text VRs give the ASCII text of an ASCII value. */
  lemma DecodeText(vr: string, s: string)
    requires IsTextVR(vr) && IsAscii(s)
    ensures DecodeValue(vr, AsciiEncode(s)) == Ok(Text(s))
  {
    AsciiRoundTrip(s);
  }

  /** AT gives the lower-case hex text of all the bytes, from which they can be read back. */
  lemma DecodeAT(value: seq<Byte>)
    ensures DecodeValue("AT", value) == Ok(Text(Hex(value)))
    ensures forall i | 0 <= i < |Hex(value)| :: IsHexDigit(Hex(value)[i])
    ensures UnHex(Hex(value)) == value
  {
    KindOfCode("AT");
    DecodeValueRetry("AT", value);
    HexRoundTrip(value);
  }

  /** UL and US give the little-endian unsigned value of all the bytes: it is
      below 256^|value| and re-encodes to the same bytes. */
  lemma DecodeUnsigned(vr: string, value: seq<Byte>)
    requires vr == "UL" || vr == "US"
    ensures DecodeValue(vr, value) == Ok(Int(LittleEndian(value)))
    ensures LittleEndian(value) < Pow256(|value|)
    ensures EncodeLittleEndian(LittleEndian(value), |value|) == value
  {
    KindOfCode(vr);
    DecodeValueRetry(vr, value);
    LittleEndianBound(value);
    LittleEndianRoundTrip(value);
  }

  /** The byte width struct.unpack needs for a fixed-width VR. */
  function Width(vr: string): nat
  {
    if vr == "SS" then 2 else if vr == "SL" || vr == "FL" then 4 else 8
  }

  predicate IsFixedWidthVR(vr: string)
  {
    vr in ["FL", "FD", "SL", "SS", "SV"]
  }

  /** What a fixed-width VR decodes its first Width(vr) bytes to. */
  function FixedValue(vr: string, bs: seq<Byte>): Value
    requires |bs| > 0
  {
    if vr == "FL" || vr == "FD" then Float(bs) else Int(SignedBigEndian(bs))
  }

  lemma {:induction false} RetryFixedWidth(vr: string, value: seq<Byte>)
    requires IsFixedWidthVR(vr)
    ensures Retry(CodeKind(vr), value) ==
            if |value| >= Width(vr) && |value| % 2 == 0 then Ok(FixedValue(vr, value[..Width(vr)]))
            else Err(RecursionError)
    decreases |value|
  {
    var w, kind := Width(vr), CodeKind(vr);
    AttemptFixedWidth(vr, value);
    if |value| == w {
      assert value[..w] == value;
      assert Retry(kind, value) == Ok(FixedValue(vr, value));
    } else if value != [] {
      var rest := StripLastTwo(value);
      assert Retry(kind, value) == Retry(kind, rest);
      RetryFixedWidth(vr, rest);
      if |value| >= w + 2 {
        assert rest[..w] == value[..w];
      }
    }
  }

  /** One attempt of a fixed-width VR succeeds exactly on its width. */
  lemma AttemptFixedWidth(vr: string, value: seq<Byte>)
    requires IsFixedWidthVR(vr)
    ensures Attempt(CodeKind(vr), value) ==
            if |value| == Width(vr) then Some(FixedValue(vr, value)) else None
  {
  }

  /** A VR outside both lists (OB and OW among them, the pixel data's VRs)
      falls to the `case _` default: the bytes come back unchanged. */
  lemma DecodeOther(vr: string, value: seq<Byte>)
    requires IsCode(vr) && vr !in TextVRList
    requires vr !in ["AT", "FL", "FD", "IS", "SL", "SS", "SV", "UL", "US"]
    ensures DecodeValue(vr, value) == Ok(Bytes(value))
  {
    NotTextVR(vr);
  }

  /** A fixed-width VR succeeds exactly on inputs of an even length of at least
      its width, and then decodes only the first Width(vr) bytes: a 2+2k-byte SS
      gives the signed value of its first two bytes. */
  lemma DecodeFixedWidth(vr: string, value: seq<Byte>)
    requires IsFixedWidthVR(vr)
    ensures DecodeValue(vr, value) ==
            if |value| >= Width(vr) && |value| % 2 == 0 then Ok(FixedValue(vr, value[..Width(vr)]))
            else Err(RecursionError)
  {
    KindOfCode(vr);
    DecodeValueRetry(vr, value);
    RetryFixedWidth(vr, value);
  }

  /** The numeric VRs round-trip: decoding the two's-complement big-endian
      encoding of x at the VR's width gives back x. */
  lemma DecodeSignedRoundTrip(vr: string, x: int)
    requires vr in ["SL", "SS", "SV"]
    requires -HalfRange(Width(vr)) <= x < HalfRange(Width(vr))
    ensures DecodeValue(vr, EncodeSignedBigEndian(x, Width(vr))) == Ok(Int(x))
  {
    var w := Width(vr);
    assert w == 2 || w == 4 || w == 8;
    var bs := EncodeSignedBigEndian(x, w);
    SignedRoundTrip(x, w);
    DecodeFixedWidth(vr, bs);
    assert bs[..w] == bs;
  }

  /** `str(n)` followed by blanks is ASCII text. */
  lemma StrIsAscii(n: int, pad: string)
    requires forall i | 0 <= i < |pad| :: pad[i] == ' '
    ensures IsAscii(Str(n) + pad)
  {
    var m: nat := if n < 0 then -n else n;
    NatStrRoundTrip(m);
    var t, s := Str(n), Str(n) + pad;
    forall i | 0 <= i < |s| ensures s[i] as int < 128 {
      if i >= |t| {
        assert s[i] == pad[i - |t|];
      } else if n < 0 && i > 0 {
        assert s[i] == NatStr(m)[i - 1];
      } else if n >= 0 {
        assert s[i] == NatStr(m)[i];
      }
    }
  }

  /** `str(n)` padded with blanks, as ASCII bytes, decodes as text and
      `int()` reads n back from it. */
  lemma IntText(n: int, pad: string)
    requires forall i | 0 <= i < |pad| :: pad[i] == ' '
    ensures IsAscii(Str(n) + pad)
    ensures AsciiDecode(AsciiEncode(Str(n) + pad)) == Some(Str(n) + pad)
    ensures PyInt(Str(n) + pad) == Some(n)
  {
    StrIsAscii(n, pad);
    AsciiRoundTrip(Str(n) + pad);
    PyIntOfStr(n, pad);
  }

  /** IS is the text `str(n)`, padded with blanks (DICOM pads to an even
      length), and decodes back to n. */
  lemma DecodeIS(vr: string, n: int, pad: string)
    requires vr == "IS"
    requires forall i | 0 <= i < |pad| :: pad[i] == ' '
    ensures IsAscii(Str(n) + pad)
    ensures DecodeValue(vr, AsciiEncode(Str(n) + pad)) == Ok(Int(n))
  {
    IntText(n, pad);
    var bs := AsciiEncode(Str(n) + pad);
    KindIS(vr);
    assert Attempt(ISKind, bs) == Some(Int(n));
    DecodeFirstAttempt(vr, bs, Int(n));
  }
}
