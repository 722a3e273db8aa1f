// parse_binary and rearrange_tag: walking the explicit-VR little-endian element
// stream of a DICOM file (DICOM PS3.10 section 7.1, PS3.5 section 7.1.2) up to
// the pixel data.
module DicomParse {
  import opened Wrappers
  import opened PyStr
  import opened ByteCodec
  import opened DicomValue

  /** The 128-byte preamble and the 4-byte "DICM" prefix before the first element. */
  const HeaderSize: nat := 132

  /** The pixel-data tag (7FE0,0010) as rearrange_tag spells it. */
  const PixelDataTag := "7fe00010"

  /** The name given to a tag missing from the dictionary, spelled as in the source. */
  const Unknown := "UNKOWN"

  // ----- rearrange_tag -----

  /** rearrange_tag: `tag[2:4] + tag[0:2] + tag[6:] + tag[4:6]`. */
  function RearrangeTag(tag: string): (r: string)
    ensures |r| == |tag|
  {
    Slice(tag, 2, 4) + Slice(tag, 0, 2) + Slice(tag, 6, |tag|) + Slice(tag, 4, 6)
  }

  /** An eight-digit tag swaps the digit pairs inside each half. */
  lemma RearrangeEight(a: string, b: string, c: string, d: string)
    requires |a| == |b| == |c| == |d| == 2
    ensures RearrangeTag(a + b + c + d) == b + a + d + c
  {
    var t := a + b + c + d;
    assert t[0..2] == a && t[2..4] == b && t[4..6] == c && t[6..8] == d;
  }

  lemma RearrangeSix(a: string, b: string, c: string)
    requires |a| == |b| == |c| == 2
    ensures RearrangeTag(a + b + c) == b + a + c
  {
    var t := a + b + c;
    assert t[0..2] == a && t[2..4] == b && t[4..6] == c;
    assert Slice(t, 6, 6) == [];
  }

  lemma RearrangeFour(a: string, b: string)
    requires |a| == |b| == 2
    ensures RearrangeTag(a + b) == b + a
  {
    var t := a + b;
    assert t[0..2] == a && t[2..4] == b;
    assert Slice(t, 6, 4) == [] && Slice(t, 4, 6) == [];
  }

  /** On the tags the reader builds (at most eight hex digits, an even number
      of them) rearranging twice gives the tag back. */
  lemma RearrangeTagInvolution(tag: string)
    requires |tag| <= 8 && |tag| % 2 == 0
    ensures RearrangeTag(RearrangeTag(tag)) == tag
  {
    if |tag| == 8 {
      var a, b, c, d := tag[0..2], tag[2..4], tag[4..6], tag[6..8];
      assert tag == a + b + c + d;
      RearrangeEight(a, b, c, d);
      RearrangeEight(b, a, d, c);
    } else if |tag| == 6 {
      var a, b, c := tag[0..2], tag[2..4], tag[4..6];
      assert tag == a + b + c;
      RearrangeSix(a, b, c);
      RearrangeSix(b, a, c);
    } else if |tag| == 4 {
      var a, b := tag[0..2], tag[2..4];
      assert tag == a + b;
      RearrangeFour(a, b);
      RearrangeFour(b, a);
    } else {
      assert RearrangeTag(tag) == tag;
    }
  }

  /** The hex text of two bytes, byte by byte. */
  lemma HexTwo(b0: Byte, b1: Byte)
    ensures Hex([b0, b1]) == HexByte(b0) + HexByte(b1)
  {
    assert [b0, b1][1..] == [b1];
    assert Hex([b1]) == HexByte(b1) + Hex([]);
  }

  /** The four tag bytes are the group and the element, each little-endian:
      the rearranged hex text is the group, then the element, each written
      most significant byte first. */
  lemma TagOfBytes(b0: Byte, b1: Byte, b2: Byte, b3: Byte)
    ensures RearrangeTag(Hex([b0, b1, b2, b3])) == Hex([b1, b0]) + Hex([b3, b2])
  {
    var h := Hex([b0, b1, b2, b3]);
    HexFour(b0, b1, b2, b3);
    HexTwo(b1, b0);
    HexTwo(b3, b2);
    assert RearrangeTag(h) == h[2..4] + h[0..2] + h[6..8] + h[4..6];
    assert h[0..2] == HexByte(b0) && h[2..4] == HexByte(b1);
    assert h[4..6] == HexByte(b2) && h[6..8] == HexByte(b3);
  }

  /** The bytes E0 7F 10 00 that open the pixel-data element give PixelDataTag. */
  lemma PixelTagBytes()
    ensures RearrangeTag(Hex([0xE0, 0x7F, 0x10, 0x00])) == PixelDataTag
  {
    TagOfBytes(0xE0, 0x7F, 0x10, 0x00);
    HexTwo(0x7F, 0xE0);
    HexTwo(0x00, 0x10);
    assert HexByte(0x7F) == "7f" && HexByte(0xE0) == "e0";
    assert HexByte(0x00) == "00" && HexByte(0x10) == "10";
    assert "7f" + "e0" + ("00" + "10") == PixelDataTag;
  }

  // ----- the short-length VRs -----

  /** The text parse_binary searches for the VRs with a 2-byte length field,
      "AE AS AT CS DA DS DT FL FD IS LO LT PN SH SL ST SS TM UI UL US",
      written in runs of four or five codes. */
  const ShortVRs := "AE AS AT CS" + " " + "DA DS DT FL" + " " + "FD IS LO LT" + " " + "PN SH SL ST" + " " + "SS TM UI UL US"

  /** Python's `vr in ShortVRs`: a substring test. */
  predicate IsShortVR(vr: string)
  {
    Contains(ShortVRs, vr)
  }

  /** The codes in ShortVRs, run by run. */
  const ShortVRList: seq<string> := ShortA + ShortB + ShortC + ShortD + ShortE
  const ShortA: seq<string> := ["AE", "AS", "AT", "CS"]
  const ShortB: seq<string> := ["DA", "DS", "DT", "FL"]
  const ShortC: seq<string> := ["FD", "IS", "LO", "LT"]
  const ShortD: seq<string> := ["PN", "SH", "SL", "ST"]
  const ShortE: seq<string> := ["SS", "TM", "UI", "UL", "US"]

  lemma ShortRunA(vr: string)
    requires IsCode(vr)
    ensures Contains("AE AS AT CS", vr) <==> vr in ShortA
  {
    assert Join(ShortA) == "AE AS AT CS";
    JoinContainsCode(ShortA, vr);
  }

  lemma ShortRunB(vr: string)
    requires IsCode(vr)
    ensures Contains("DA DS DT FL", vr) <==> vr in ShortB
  {
    assert Join(ShortB) == "DA DS DT FL";
    JoinContainsCode(ShortB, vr);
  }

  lemma ShortRunC(vr: string)
    requires IsCode(vr)
    ensures Contains("FD IS LO LT", vr) <==> vr in ShortC
  {
    assert Join(ShortC) == "FD IS LO LT";
    JoinContainsCode(ShortC, vr);
  }

  lemma ShortRunD(vr: string)
    requires IsCode(vr)
    ensures Contains("PN SH SL ST", vr) <==> vr in ShortD
  {
    assert Join(ShortD) == "PN SH SL ST";
    JoinContainsCode(ShortD, vr);
  }

  lemma ShortRunE(vr: string)
    requires IsCode(vr)
    ensures Contains("SS TM UI UL US", vr) <==> vr in ShortE
  {
    assert Join(ShortE) == "SS TM UI UL US";
    JoinContainsCode(ShortE, vr);
  }

  /** For a two-character code the substring test is exactly membership in
      the list of short-length VRs. */
  lemma ShortVRCode(vr: string)
    requires IsCode(vr)
    ensures IsShortVR(vr) <==> vr in ShortVRList
  {
    ShortRunA(vr);
    ShortRunB(vr);
    ShortRunC(vr);
    ShortRunD(vr);
    ShortRunE(vr);
    var a, b, c, d, e := "AE AS AT CS", "DA DS DT FL", "FD IS LO LT", "PN SH SL ST", "SS TM UI UL US";
    ContainsAroundBlank(a + " " + b + " " + c + " " + d, e, vr);
    ContainsAroundBlank(a + " " + b + " " + c, d, vr);
    ContainsAroundBlank(a + " " + b, c, vr);
    ContainsAroundBlank(a, b, vr);
  }

  // ----- one element -----

  /** What the loop stores for one element: `[vr, length, value]`. */
  datatype RawElement = RawElement(vr: string, length: nat, value: Value)

  /** A dictionary entry once named: `[vr, length, value, name]`. */
  datatype Entry = Entry(vr: string, length: nat, value: Value, name: string)

  /** The declared length of an element and the bytes after its length field,
      read from the bytes after the VR: a 2-byte field for the short-length
      VRs, otherwise 2 reserved bytes and a 4-byte field. */
  function LengthField(vr: string, data: seq<Byte>): (nat, seq<Byte>)
  {
    if IsShortVR(vr) then (LittleEndian(Take(data, 2)), Drop(data, 2))
    else (LittleEndian(Take(Drop(data, 2), 4)), Drop(Drop(data, 2), 4))
  }

  /** One pass of parse_binary's loop on a non-empty buffer: the element's tag,
      what is stored for it, and the bytes left. The value is at most `length`
      bytes, fewer where the buffer ends first. */
  function ReadElement(data: seq<Byte>): (r: Result<(string, RawElement, seq<Byte>), DicomError>)
    requires |data| > 0
    ensures r.Ok? ==> IsSuffix(r.value.2, data) && |r.value.2| < |data|
  {
    var tag := RearrangeTag(Hex(Take(data, 4)));
    var afterTag := Drop(data, 4);
    match AsciiDecode(Take(afterTag, 2))
    case None => Err(UnicodeDecodeError)
    case Some(vr) =>
      var afterVR := Drop(afterTag, 2);
      var (length, afterLength) := LengthField(vr, afterVR);
      SuffixTransitive(afterVR, afterTag, data);
      assert IsSuffix(afterLength, afterVR) by {
        if !IsShortVR(vr) {
          SuffixTransitive(afterLength, Drop(afterVR, 2), afterVR);
        }
      }
      SuffixTransitive(afterLength, afterVR, data);
      SuffixTransitive(Drop(afterLength, length), afterLength, data);
      match DecodeValue(vr, Take(afterLength, length))
      case Err(e) => Err(e)
      case Ok(value) => Ok((tag, RawElement(vr, length, value), Drop(afterLength, length)))
  }

  // ----- the element stream -----

  /** The elements read before the loop ends, in order, and the pixel data if
      the loop stopped at it. */
  datatype Walk = Walk(elements: seq<(string, RawElement)>, pixel: Option<Value>)

  /** Elements already read, in front of the outcome of reading the rest. */
  function Prepend(seen: seq<(string, RawElement)>, rest: Result<Walk, DicomError>): Result<Walk, DicomError>
  {
    match rest
    case Err(e) => Err(e)
    case Ok(w) => Ok(Walk(seen + w.elements, w.pixel))
  }

  /** A reader of one element: it takes an element off the front of any
      non-empty buffer and, when it succeeds, leaves fewer bytes. */
  type Reader = seq<Byte> --> Result<(string, RawElement, seq<Byte>), DicomError>

  ghost predicate Shrinks(read: Reader)
  {
    forall data: seq<Byte> | |data| > 0 :: read.requires(data) && (read(data).Ok? ==> |read(data).value.2| < |data|)
  }

  /** parse_binary's loop over any reader: read elements until the buffer is
      empty or the pixel-data element has been read; an exception ends the
      whole parse. */
  function Stream(read: Reader, data: seq<Byte>): Result<Walk, DicomError>
    requires Shrinks(read)
    decreases |data|
  {
    if data == [] then Ok(Walk([], None))
    else
      match read(data)
      case Err(e) => Err(e)
      case Ok((tag, element, rest)) =>
        if tag == PixelDataTag then Ok(Walk([], Some(element.value)))
        else Prepend([(tag, element)], Stream(read, rest))
  }

  lemma ReadElementShrinks()
    ensures Shrinks(ReadElement)
  {
  }

  /** parse_binary's loop with its own element reader. */
  function Elements(data: seq<Byte>): Result<Walk, DicomError>
  {
    ReadElementShrinks();
    Stream(ReadElement, data)
  }

  /** The dictionary the loop fills, element by element: a later element with
      the same tag overwrites an earlier one. */
  function Collect(elements: seq<(string, RawElement)>): map<string, RawElement>
  {
    if elements == [] then map[]
    else
      var last := elements[|elements| - 1];
      Collect(elements[..|elements| - 1])[last.0 := last.1]
  }

  /** The name the dictionary gives a tag, or the missing-name label. */
  function Name(names: map<string, string>, tag: string): string
  {
    if tag in names then names[tag] else Unknown
  }

  /** The second loop: every stored element gets its name appended. */
  function Annotate(parsed: map<string, RawElement>, names: map<string, string>): map<string, Entry>
  {
    map tag | tag in parsed :: Entry(parsed[tag].vr, parsed[tag].length, parsed[tag].value, Name(names, tag))
  }

  /** What parse_binary returns: the metadata dictionary and the pixel data,
      None standing for the empty list it starts from. */
  datatype Parsed = Parsed(metadata: map<string, Entry>, pixel: Option<Value>)

  /** parse_binary on a whole file, the tag dictionary given as a map. */
  function Parse(file: seq<Byte>, names: map<string, string>): (r: Result<Parsed, DicomError>)
    ensures r.Ok? ==> PixelDataTag !in r.value.metadata
    ensures r.Ok? ==> forall tag | tag in r.value.metadata :: r.value.metadata[tag].name == Name(names, tag)
  {
    match Elements(Drop(file, HeaderSize))
    case Err(e) => Err(e)
    case Ok(w) =>
      NoPixelStored(Drop(file, HeaderSize), w);
      WalkMetadata(w, names, PixelDataTag);
      Ok(Parsed(Annotate(Collect(w.elements), names), w.pixel))
  }

  // ----- parse_binary -----

  lemma PrependTwice(seen: seq<(string, RawElement)>, more: seq<(string, RawElement)>, rest: Result<Walk, DicomError>)
    ensures Prepend(seen, Prepend(more, rest)) == Prepend(seen + more, rest)
  {
    if rest.Ok? {
      assert seen + (more + rest.value.elements) == (seen + more) + rest.value.elements;
    }
  }

  /** ReadElement in the steps the loop body takes them. */
  lemma ReadElementSteps(data: seq<Byte>, vr: Option<string>, length: nat, rest: seq<Byte>, value: Result<Value, DicomError>)
    requires |data| > 0
    requires vr == AsciiDecode(Take(Drop(data, 4), 2))
    requires vr.Some? ==> (length, rest) == LengthField(vr.value, Drop(Drop(data, 4), 2))
    requires vr.Some? ==> value == DecodeValue(vr.value, Take(rest, length))
    ensures vr.None? ==> ReadElement(data) == Err(UnicodeDecodeError)
    ensures vr.Some? && value.Err? ==> ReadElement(data) == Err(value.error)
    ensures vr.Some? && value.Ok? ==>
              ReadElement(data) == Ok((RearrangeTag(Hex(Take(data, 4))), RawElement(vr.value, length, value.value), Drop(rest, length)))
  {
  }

  /** The body of parse_binary's loop up to the pixel-data test: read the
      tag, the VR, the length field and the value off the front of the buffer. */
  method ReadNext(data: seq<Byte>) returns (r: Result<(string, RawElement, seq<Byte>), DicomError>)
    requires |data| > 0
    ensures r == ReadElement(data)
  {
    var tag := RearrangeTag(Hex(Take(data, 4)));
    var rest := Drop(data, 4);
    var vr := AsciiDecode(Take(rest, 2));
    if vr.None? {
      ReadElementSteps(data, vr, 0, [], Err(UnicodeDecodeError));
      return Err(UnicodeDecodeError);
    }
    rest := Drop(rest, 2);
    ghost var afterVR := rest;
    var length: nat;
    if IsShortVR(vr.value) {
      length := LittleEndian(Take(rest, 2));
      rest := Drop(rest, 2);
    } else {
      rest := Drop(rest, 2);
      length := LittleEndian(Take(rest, 4));
      rest := Drop(rest, 4);
    }
    assert (length, rest) == LengthField(vr.value, afterVR);
    var value := DecodeValue(vr.value, Take(rest, length));
    ReadElementSteps(data, vr, length, rest, value);
    if value.Err? {
      return Err(value.error);
    }
    r := Ok((tag, RawElement(vr.value, length, value.value), Drop(rest, length)));
  }

  /** What the first loop leaves behind: the dictionary of stored elements
      and the pixel data. */
  function Stored(data: seq<Byte>): Result<(map<string, RawElement>, Option<Value>), DicomError>
  {
    match Elements(data)
    case Err(e) => Err(e)
    case Ok(w) => Ok((Collect(w.elements), w.pixel))
  }

  /** parse_binary: skip the header, read elements into a dictionary until
      the buffer runs out or the pixel data is reached, then append each
      stored element's name. */
  method ParseBinary(file: seq<Byte>, names: map<string, string>) returns (r: Result<Parsed, DicomError>)
    ensures r == Parse(file, names)
  {
    var data := Drop(file, 128);
    data := Drop(data, 4);
    assert data == Drop(file, HeaderSize);
    var stored := ReadElements(data);
    if stored.Err? {
      return Err(stored.error);
    }
    var metadata := NameElements(stored.value.0, names);
    r := Ok(Parsed(metadata, stored.value.1));
  }

  /** The loop after reading one element. */
  lemma StreamUnfold(read: Reader, data: seq<Byte>, tag: string, element: RawElement, rest: seq<Byte>)
    requires Shrinks(read) && |data| > 0 && read(data) == Ok((tag, element, rest))
    ensures Stream(read, data) == if tag == PixelDataTag then Ok(Walk([], Some(element.value)))
                                  else Prepend([(tag, element)], Stream(read, rest))
  {
  }

  /** The first loop's invariant after one more element that is not the
      pixel data. */
  lemma StreamStep(read: Reader, input: seq<Byte>, seen: seq<(string, RawElement)>, data: seq<Byte>, tag: string, element: RawElement, rest: seq<Byte>)
    requires Shrinks(read) && |data| > 0 && read(data) == Ok((tag, element, rest)) && tag != PixelDataTag
    requires Stream(read, input) == Prepend(seen, Stream(read, data))
    ensures Stream(read, input) == Prepend(seen + [(tag, element)], Stream(read, rest))
  {
    StreamUnfold(read, data, tag, element, rest);
    PrependTwice(seen, [(tag, element)], Stream(read, rest));
  }

  /** The first loop's result when it reaches the pixel data. */
  lemma StreamAtPixel(read: Reader, input: seq<Byte>, seen: seq<(string, RawElement)>, data: seq<Byte>, element: RawElement, rest: seq<Byte>)
    requires Shrinks(read) && |data| > 0 && read(data) == Ok((PixelDataTag, element, rest))
    requires Stream(read, input) == Prepend(seen, Stream(read, data))
    ensures Stream(read, input) == Ok(Walk(seen, Some(element.value)))
  {
    StreamUnfold(read, data, PixelDataTag, element, rest);
    assert seen + [] == seen;
  }

  /** The first loop's invariant at its start and at its end. */
  lemma StreamEnds(read: Reader, input: seq<Byte>, seen: seq<(string, RawElement)>, data: seq<Byte>)
    requires Shrinks(read)
    ensures Prepend([], Stream(read, input)) == Stream(read, input)
    ensures data == [] ==> Prepend(seen, Stream(read, data)) == Ok(Walk(seen, None))
  {
    if Stream(read, input).Ok? {
      assert [] + Stream(read, input).value.elements == Stream(read, input).value.elements;
    }
    assert seen + [] == seen;
  }

  lemma CollectSnoc(seen: seq<(string, RawElement)>, tag: string, element: RawElement)
    ensures Collect(seen + [(tag, element)]) == Collect(seen)[tag := element]
  {
    assert (seen + [(tag, element)])[..|seen|] == seen;
  }

  /** parse_binary's first loop, over the bytes after the header. */
  method ReadElements(input: seq<Byte>) returns (r: Result<(map<string, RawElement>, Option<Value>), DicomError>)
    ensures r == Stored(input)
  {
    var parsed: map<string, RawElement> := map[];
    var image: Option<Value> := None;
    var data := input;
    ghost var seen: seq<(string, RawElement)> := [];
    ReadElementShrinks();
    StreamEnds(ReadElement, input, seen, data);
    while |data| > 0
      invariant Stream(ReadElement, input) == Prepend(seen, Stream(ReadElement, data))
      invariant parsed == Collect(seen)
      invariant image == None
      decreases |data|
    {
      var next := ReadNext(data);
      if next.Err? {
        return Err(next.error);
      }
      var (tag, element, rest) := next.value;
      if tag == PixelDataTag {
        StreamAtPixel(ReadElement, input, seen, data, element, rest);
        image := Some(element.value);
        data := [];
        break;
      }
      StreamStep(ReadElement, input, seen, data, tag, element, rest);
      CollectSnoc(seen, tag, element);
      data := rest;
      parsed := parsed[tag := element];
      seen := seen + [(tag, element)];
    }
    if image.None? {
      StreamEnds(ReadElement, input, seen, data);
    }
    r := Ok((parsed, image));
  }

  /** parse_binary's second loop: append to each stored element the name
      the dictionary gives its tag, or the missing-name label. */
  method NameElements(parsed: map<string, RawElement>, names: map<string, string>) returns (metadata: map<string, Entry>)
    ensures metadata == Annotate(parsed, names)
  {
    metadata := map[];
    var keys := parsed.Keys;
    while keys != {}
      invariant keys <= parsed.Keys
      invariant metadata.Keys == parsed.Keys - keys
      invariant forall tag | tag in metadata :: metadata[tag] == Annotate(parsed, names)[tag]
      decreases keys
    {
      var tag :| tag in keys;
      var e := parsed[tag];
      if tag in names {
        metadata := metadata[tag := Entry(e.vr, e.length, e.value, names[tag])];
      } else {
        metadata := metadata[tag := Entry(e.vr, e.length, e.value, Unknown)];
      }
      keys := keys - {tag};
    }
    assert metadata == Annotate(parsed, names);
  }

  // ----- what parse_binary returns -----

  /** A tag is in the dictionary exactly when some element read has it. */
  lemma {:induction false} CollectKeys(elements: seq<(string, RawElement)>, tag: string)
    ensures tag in Collect(elements) <==> exists i | 0 <= i < |elements| :: elements[i].0 == tag
  {
    if elements != [] {
      var init := elements[..|elements| - 1];
      CollectKeys(init, tag);
      if exists i | 0 <= i < |init| :: init[i].0 == tag {
        var i :| 0 <= i < |init| && init[i].0 == tag;
        assert elements[i].0 == tag;
      }
      if exists i | 0 <= i < |elements| :: elements[i].0 == tag {
        var i :| 0 <= i < |elements| && elements[i].0 == tag;
        if i < |init| {
          assert init[i].0 == tag;
        }
      }
    }
  }

  /** A later duplicate overwrites an earlier one: the dictionary holds the
      last element read with each tag. */
  lemma {:induction false} CollectLast(elements: seq<(string, RawElement)>, i: nat)
    requires i < |elements|
    requires forall j | i < j < |elements| :: elements[j].0 != elements[i].0
    ensures elements[i].0 in Collect(elements)
    ensures Collect(elements)[elements[i].0] == elements[i].1
  {
    var init := elements[..|elements| - 1];
    if i < |init| {
      assert init[i] == elements[i];
      CollectLast(init, i);
    }
  }

  /** No element with the pixel-data tag is among the elements the loop
      stores, whatever the reader. */
  lemma {:induction false} StreamNoPixel(read: Reader, data: seq<Byte>, w: Walk)
    requires Shrinks(read) && Stream(read, data) == Ok(w)
    ensures forall i | 0 <= i < |w.elements| :: w.elements[i].0 != PixelDataTag
    decreases |data|
  {
    if data != [] && read(data).Ok? {
      var (tag, element, rest) := read(data).value;
      if tag != PixelDataTag {
        var w' := Stream(read, rest).value;
        StreamNoPixel(read, rest, w');
        assert w.elements == [(tag, element)] + w'.elements;
      }
    }
  }

  lemma NoPixelStored(data: seq<Byte>, w: Walk)
    requires Elements(data) == Ok(w)
    ensures forall i | 0 <= i < |w.elements| :: w.elements[i].0 != PixelDataTag
  {
    ReadElementShrinks();
    StreamNoPixel(ReadElement, data, w);
  }

  /** The named dictionary built from a walk without the pixel-data tag:
      one entry per tag read and never the pixel-data tag; each entry is the
      last element read with that tag, with its dictionary name or the
      missing-name label. */
  lemma WalkMetadata(w: Walk, names: map<string, string>, tag: string)
    requires forall i | 0 <= i < |w.elements| :: w.elements[i].0 != PixelDataTag
    ensures PixelDataTag !in Annotate(Collect(w.elements), names)
    ensures tag in Annotate(Collect(w.elements), names) <==> exists i | 0 <= i < |w.elements| :: w.elements[i].0 == tag
    ensures forall i | 0 <= i < |w.elements| && w.elements[i].0 == tag && (forall j | i < j < |w.elements| :: w.elements[j].0 != tag) ::
              Annotate(Collect(w.elements), names)[tag] ==
              Entry(w.elements[i].1.vr, w.elements[i].1.length, w.elements[i].1.value, Name(names, tag))
  {
    CollectKeys(w.elements, PixelDataTag);
    CollectKeys(w.elements, tag);
    forall i | 0 <= i < |w.elements| && w.elements[i].0 == tag && (forall j | i < j < |w.elements| :: w.elements[j].0 != tag)
      ensures Collect(w.elements)[tag] == w.elements[i].1
    {
      CollectLast(w.elements, i);
    }
  }

  /** What parse_binary returns when the elements after the header read as w:
      the pixel data of w, and a dictionary holding, for each tag read before
      the pixel data (never the pixel-data tag itself), the last element read
      with it and its name. */
  lemma ParseMetadata(file: seq<Byte>, names: map<string, string>, w: Walk, tag: string)
    requires Elements(Drop(file, HeaderSize)) == Ok(w)
    ensures Parse(file, names).Ok? && Parse(file, names).value.pixel == w.pixel
    ensures PixelDataTag !in Parse(file, names).value.metadata
    ensures tag in Parse(file, names).value.metadata <==> exists i | 0 <= i < |w.elements| :: w.elements[i].0 == tag
    ensures forall i | 0 <= i < |w.elements| && w.elements[i].0 == tag && (forall j | i < j < |w.elements| :: w.elements[j].0 != tag) ::
              Parse(file, names).value.metadata[tag] ==
              Entry(w.elements[i].1.vr, w.elements[i].1.length, w.elements[i].1.value, Name(names, tag))
  {
    NoPixelStored(Drop(file, HeaderSize), w);
    WalkMetadata(w, names, tag);
    assert Parse(file, names) == Ok(Parsed(Annotate(Collect(w.elements), names), w.pixel));
  }

  /** A file no longer than the header holds no elements. */
  lemma ParseHeaderOnly(file: seq<Byte>, names: map<string, string>)
    requires |file| <= HeaderSize
    ensures Parse(file, names) == Ok(Parsed(map[], None))
  {
    assert Annotate(map[], names) == map[];
  }

  // ----- writing elements: the inverse of the reader -----

  /** An element as it is written: four tag bytes (group then element, each
      little-endian), a two-letter VR and the value bytes. */
  datatype WireElement = WireElement(tag: seq<Byte>, vr: string, bytes: seq<Byte>)

  /** An element the explicit-VR little-endian encoding can hold: a four-byte
      tag, an ASCII two-letter VR, and a value whose length fits the VR's
      length field. */
  predicate WellFormed(e: WireElement)
  {
    && |e.tag| == 4 && IsCode(e.vr) && IsAscii(e.vr)
    && |e.bytes| < (if IsShortVR(e.vr) then Pow256(2) else Pow256(4))
  }

  /** The length field written after the VR. */
  function LengthBytes(vr: string, n: nat): (bs: seq<Byte>)
    ensures |bs| == if IsShortVR(vr) then 2 else 6
  {
    if IsShortVR(vr) then EncodeLittleEndian(n, 2) else [0, 0] + EncodeLittleEndian(n, 4)
  }

  /** The bytes of one element. */
  function Encode(e: WireElement): seq<Byte>
    requires WellFormed(e)
  {
    e.tag + AsciiEncode(e.vr) + LengthBytes(e.vr, |e.bytes|) + e.bytes
  }

  /** The tag text the reader gives an element's tag bytes. */
  function TagText(e: WireElement): string
  {
    RearrangeTag(Hex(e.tag))
  }

  /** Splitting a concatenation where its first part ends. */
  lemma TakeDropAppend(a: seq<Byte>, b: seq<Byte>)
    ensures Take(a + b, |a|) == a && Drop(a + b, |a|) == b
  {
    assert (a + b)[..|a|] == a;
  }

  /** The length field reads back the length written, and leaves what follows it. */
  lemma LengthFieldRoundTrip(vr: string, n: nat, after: seq<Byte>)
    requires n < (if IsShortVR(vr) then Pow256(2) else Pow256(4))
    ensures LengthField(vr, LengthBytes(vr, n) + after) == (n, after)
  {
    if IsShortVR(vr) {
      var field := EncodeLittleEndian(n, 2);
      EncodeLittleEndianRoundTrip(n, 2);
      TakeDropAppend(field, after);
    } else {
      var field := EncodeLittleEndian(n, 4);
      EncodeLittleEndianRoundTrip(n, 4);
      assert [0, 0] + field + after == [0, 0] + (field + after);
      TakeDropAppend([0, 0], field + after);
      TakeDropAppend(field, after);
    }
  }

  /** An element the reader takes back: well formed, with a value decode_value accepts. */
  predicate Readable(e: WireElement)
  {
    WellFormed(e) && DecodeValue(e.vr, e.bytes).Ok?
  }

  /** What the reader stores for a readable element. */
  function Decoded(e: WireElement): (string, RawElement)
    requires Readable(e)
  {
    (TagText(e), RawElement(e.vr, |e.bytes|, DecodeValue(e.vr, e.bytes).value))
  }

  /** An element header (tag, VR, length field) in front of any bytes: the
      reader takes the value from at most `declared` of those bytes, stores
      the declared length, and leaves the rest. */
  lemma ReadFramed(tag: seq<Byte>, vr: string, declared: nat, after: seq<Byte>)
    requires |tag| == 4 && IsCode(vr) && IsAscii(vr)
    requires declared < (if IsShortVR(vr) then Pow256(2) else Pow256(4))
    ensures var data := tag + AsciiEncode(vr) + LengthBytes(vr, declared) + after;
      var value := DecodeValue(vr, Take(after, declared));
      |data| > 0 &&
      (value.Ok? ==> ReadElement(data) == Ok((RearrangeTag(Hex(tag)), RawElement(vr, declared, value.value), Drop(after, declared)))) &&
      (value.Err? ==> ReadElement(data) == Err(value.error))
  {
    var vrBytes := AsciiEncode(vr);
    var afterVR := LengthBytes(vr, declared) + after;
    var data := tag + vrBytes + LengthBytes(vr, declared) + after;
    assert data == tag + (vrBytes + afterVR);
    TakeDropAppend(tag, vrBytes + afterVR);
    AsciiRoundTrip(vr);
    TakeDropAppend(vrBytes, afterVR);
    LengthFieldRoundTrip(vr, declared, after);
    ReadElementSteps(data, Some(vr), declared, after, DecodeValue(vr, Take(after, declared)));
  }

  /** Reading back a written element gives its tag text, its VR, its length
      and the decoded value, and leaves exactly the bytes after it; a value
      decode_value rejects makes the reader raise what decode_value raises. */
  lemma ReadEncoded(e: WireElement, rest: seq<Byte>)
    requires WellFormed(e)
    ensures Readable(e) ==> ReadElement(Encode(e) + rest) == Ok((Decoded(e).0, Decoded(e).1, rest))
    ensures !Readable(e) ==> ReadElement(Encode(e) + rest) == Err(DecodeValue(e.vr, e.bytes).error)
  {
    var header := e.tag + AsciiEncode(e.vr) + LengthBytes(e.vr, |e.bytes|);
    assert Encode(e) + rest == header + (e.bytes + rest);
    TakeDropAppend(e.bytes, rest);
    ReadFramed(e.tag, e.vr, |e.bytes|, e.bytes + rest);
  }

  /** An element whose declared length runs past the end of the file: the
      reader takes the value from the bytes that are there, stores the
      declared length, and leaves nothing. */
  lemma ReadTruncated(e: WireElement, declared: nat)
    requires WellFormed(e) && |e.bytes| <= declared
    requires declared < (if IsShortVR(e.vr) then Pow256(2) else Pow256(4))
    requires DecodeValue(e.vr, e.bytes).Ok?
    ensures ReadElement(e.tag + AsciiEncode(e.vr) + LengthBytes(e.vr, declared) + e.bytes)
         == Ok((TagText(e), RawElement(e.vr, declared, DecodeValue(e.vr, e.bytes).value), []))
  {
    assert Take(e.bytes, declared) == e.bytes && Drop(e.bytes, declared) == [];
    ReadFramed(e.tag, e.vr, declared, e.bytes);
  }

  /** Elements written one after another. */
  function EncodeAll(es: seq<WireElement>): seq<Byte>
    requires forall i | 0 <= i < |es| :: WellFormed(es[i])
  {
    if es == [] then [] else Encode(es[0]) + EncodeAll(es[1..])
  }

  /** Written elements the reader takes back and stores: readable, none of
      them the pixel data. */
  predicate Stores(es: seq<WireElement>)
  {
    forall i | 0 <= i < |es| :: WellFormed(es[i]) && Readable(es[i]) && TagText(es[i]) != PixelDataTag
  }

  function DecodedAll(es: seq<WireElement>): (r: seq<(string, RawElement)>)
    requires Stores(es)
    ensures |r| == |es|
  {
    if es == [] then [] else [Decoded(es[0])] + DecodedAll(es[1..])
  }

  /** One written element that is not the pixel data, in front of any bytes. */
  lemma EncodedStep(e: WireElement, rest: seq<Byte>)
    requires Readable(e) && TagText(e) != PixelDataTag
    ensures Elements(Encode(e) + rest) == Prepend([Decoded(e)], Elements(rest))
  {
    ReadEncoded(e, rest);
    ReadElementShrinks();
    StreamUnfold(ReadElement, Encode(e) + rest, Decoded(e).0, Decoded(e).1, rest);
  }

  /** Reading written elements, none of them the pixel data, stores each in
      turn and then goes on with whatever follows them. */
  lemma {:induction false} ElementsOfEncoded(es: seq<WireElement>, tail: seq<Byte>)
    requires Stores(es)
    ensures Elements(EncodeAll(es) + tail) == Prepend(DecodedAll(es), Elements(tail))
  {
    if es == [] {
      assert EncodeAll(es) + tail == tail;
      ReadElementShrinks();
      StreamEnds(ReadElement, tail, [], []);
    } else {
      var rest := EncodeAll(es[1..]) + tail;
      assert EncodeAll(es) + tail == Encode(es[0]) + rest;
      EncodedStep(es[0], rest);
      ElementsOfEncoded(es[1..], tail);
      PrependTwice([Decoded(es[0])], DecodedAll(es[1..]), Elements(tail));
    }
  }

  /** The written pixel-data element ends the loop whatever follows it. */
  lemma EncodedPixel(p: WireElement, rest: seq<Byte>)
    requires Readable(p) && TagText(p) == PixelDataTag
    ensures Elements(Encode(p) + rest) == Ok(Walk([], Some(Decoded(p).1.value)))
  {
    ReadEncoded(p, rest);
    ReadElementShrinks();
    StreamUnfold(ReadElement, Encode(p) + rest, PixelDataTag, Decoded(p).1, rest);
  }

  lemma PrependPixel(seen: seq<(string, RawElement)>, rest: Result<Walk, DicomError>, v: Value)
    requires rest == Ok(Walk([], Some(v)))
    ensures Prepend(seen, rest) == Ok(Walk(seen, Some(v)))
  {
    assert seen + [] == seen;
  }

  /** Written elements followed by the written pixel-data element: the loop
      stores the elements and stops at the pixel data. */
  lemma ElementsUpToPixel(es: seq<WireElement>, p: WireElement, tail: seq<Byte>)
    requires Stores(es) && Readable(p) && TagText(p) == PixelDataTag
    ensures Elements(EncodeAll(es) + (Encode(p) + tail)) == Ok(Walk(DecodedAll(es), Some(Decoded(p).1.value)))
  {
    ElementsOfEncoded(es, Encode(p) + tail);
    EncodedPixel(p, tail);
    PrependPixel(DecodedAll(es), Elements(Encode(p) + tail), Decoded(p).1.value);
  }

  /** parse_binary reads back a written file: when the bytes after the
      132-byte header are elements that are not the pixel data and then the
      pixel-data element, it returns the named dictionary of those elements
      and the pixel data, and ignores whatever follows the pixel data. */
  lemma ParseEncoded(file: seq<Byte>, es: seq<WireElement>, p: WireElement, tail: seq<Byte>, names: map<string, string>)
    requires Stores(es) && Readable(p) && TagText(p) == PixelDataTag
    requires Drop(file, HeaderSize) == EncodeAll(es) + (Encode(p) + tail)
    ensures Parse(file, names) == Ok(Parsed(Annotate(Collect(DecodedAll(es)), names), Some(Decoded(p).1.value)))
  {
    ElementsUpToPixel(es, p, tail);
  }

  /** A written file without pixel data reads back as the named dictionary
      of its elements, with no pixel data. */
  lemma ParseEncodedNoPixel(file: seq<Byte>, es: seq<WireElement>, names: map<string, string>)
    requires Stores(es) && Drop(file, HeaderSize) == EncodeAll(es)
    ensures Parse(file, names) == Ok(Parsed(Annotate(Collect(DecodedAll(es)), names), None))
  {
    assert EncodeAll(es) + [] == EncodeAll(es);
    ElementsOfEncoded(es, []);
    ReadElementShrinks();
    StreamEnds(ReadElement, [], DecodedAll(es), []);
  }
}
