/** The combined output of the program (the body of `main` in main.cpp): the first
    payload, the second payload, then a trailer with both base names, one length byte for
    each, and the first payload's size as a big-endian 32-bit integer. */
module Layout {
  import opened Wrappers
  import opened Bytes
  import opened BigEndian
  import opened PathName
  import opened Streams
  import opened Seqs
  import opened OutStreams

  /** Number of fixed-width bytes at the end of the output: two name lengths and the size. */
  const FIXED_TRAILER_BYTES: nat := 6

  /** The metadata appended after the payloads. */
  datatype Trailer = Trailer(firstName: seq<byte>, secondName: seq<byte>, firstSize: uint32) {
    /** Each name length fits in its one-byte field. */
    predicate Valid()
    {
      |firstName| <= UINT8_MAX && |secondName| <= UINT8_MAX
    }
  }

  /** What one output file carries: the two payloads (image, then model) and their names. */
  datatype Package = Package(first: seq<byte>, second: seq<byte>,
                             firstName: seq<byte>, secondName: seq<byte>) {
    /** The names fit their length bytes and the first payload's size fits 32 bits. */
    predicate Valid()
    {
      |firstName| <= UINT8_MAX && |secondName| <= UINT8_MAX && |first| <= UINT32_MAX
    }
  }

  /** The trailer's size field: the four bytes `writeBigEndian` emits for `size`, which a
      reader decodes back to `size`. */
  function SizeField(size: uint32): (r: seq<byte>)
    ensures |r| == 4
    ensures DecodeBE32(r) == size
  {
    DecodeEncode(size);
    BE32(size)
  }

  /** The six fixed-width trailer bytes: the two name lengths, one byte each, then the
      size in big-endian order. */
  function FixedFields(lenA: nat, lenB: nat, size: uint32): (r: seq<byte>)
    requires lenA <= UINT8_MAX && lenB <= UINT8_MAX
    ensures |r| == FIXED_TRAILER_BYTES
    ensures ByteValue(r[0]) == lenA && ByteValue(r[1]) == lenB
    ensures DecodeBE32(r[2..]) == size
  {
    var r := [ToByte(lenA), ToByte(lenB)] + SizeField(size);
    assert r[2..] == SizeField(size);
    r
  }

  /** The trailer bytes in the order they are written: both names, their lengths, the size. */
  function EncodeTrailer(t: Trailer): (r: seq<byte>)
    requires t.Valid()
    ensures |r| == |t.firstName| + |t.secondName| + FIXED_TRAILER_BYTES
    ensures r[..|t.firstName|] == t.firstName
    ensures r[|t.firstName|..|t.firstName| + |t.secondName|] == t.secondName
    ensures r[|t.firstName| + |t.secondName|..] == FixedFields(|t.firstName|, |t.secondName|, t.firstSize)
  {
    var fixed := FixedFields(|t.firstName|, |t.secondName|, t.firstSize);
    Parts3(t.firstName, t.secondName, fixed);
    t.firstName + (t.secondName + fixed)
  }

  /** `r` holds the parts of `p` at the offsets `Pack` puts them. */
  predicate HoldsParts(r: seq<byte>, p: Package)
    requires p.Valid()
  {
    var a, b, na := |p.first|, |p.second|, |p.firstName|;
    && |r| == a + b + na + |p.secondName| + FIXED_TRAILER_BYTES
    && r[..a] == p.first
    && r[a..a + b] == p.second
    && r[a + b..a + b + na] == p.firstName
    && r[a + b + na..|r| - FIXED_TRAILER_BYTES] == p.secondName
    && r[|r| - FIXED_TRAILER_BYTES..] == FixedFields(na, |p.secondName|, a)
  }

  /** The whole output for a package: the first payload, the second payload, then the
      trailer. Each part sits at the offset given by the lengths before it, and the size
      field holds the first payload's length. */
  function Pack(p: Package): (r: seq<byte>)
    requires p.Valid()
    ensures HoldsParts(r, p)
  {
    Concat5(p.first, p.second, p.firstName, p.secondName,
            FixedFields(|p.firstName|, |p.secondName|, |p.first|))
  }

  /** The output is the two payloads followed by the encoded trailer. */
  lemma PackIsPayloadsThenTrailer(p: Package)
    requires p.Valid()
    ensures Pack(p) == p.first + p.second + EncodeTrailer(Trailer(p.firstName, p.secondName, |p.first|))
  {
    Associative(p.first, p.second, EncodeTrailer(Trailer(p.firstName, p.secondName, |p.first|)));
  }

  /** In a sequence holding the parts of `p`, byte `len-6` is the first name's length,
      byte `len-5` the second name's length, and the last four bytes decode to the first
      payload's length. */
  lemma FieldsOfParts(r: seq<byte>, p: Package)
    requires p.Valid() && HoldsParts(r, p)
    ensures ByteValue(r[|r| - 6]) == |p.firstName|
    ensures ByteValue(r[|r| - 5]) == |p.secondName|
    ensures DecodeBE32(r[|r| - 4..]) == |p.first|
  {
    FixedFieldsAtEnd(r);
  }

  /** In an output, byte `len-6` is the first name's length, byte `len-5` the second
      name's length, and the last four bytes decode to the first payload's length. */
  lemma PackFields(p: Package)
    requires p.Valid()
    ensures ByteValue(Pack(p)[|Pack(p)| - 6]) == |p.firstName|
    ensures ByteValue(Pack(p)[|Pack(p)| - 5]) == |p.secondName|
    ensures DecodeBE32(Pack(p)[|Pack(p)| - 4..]) == |p.first|
  {
    FieldsOfParts(Pack(p), p);
  }

  /** The bytes of an output's fixed fields, read through the output itself. */
  lemma FixedFieldsAtEnd(out: seq<byte>)
    requires |out| >= FIXED_TRAILER_BYTES
    ensures var fixed := out[|out| - FIXED_TRAILER_BYTES..];
      fixed[0] == out[|out| - 6] && fixed[1] == out[|out| - 5] && fixed[2..] == out[|out| - 4..]
  {
  }

  /** Splits an output back into its package, reading the fixed fields from the end: the
      size field gives the end of the first payload, the length bytes give the names, and
      the second payload is whatever lies between. `None` when the fields do not fit the
      output's length. */
  function Unpack(out: seq<byte>): (r: Option<Package>)
    ensures r.Some? ==> r.value.Valid()
    ensures r.Some? ==> |out| == |r.value.first| + |r.value.second| + |r.value.firstName|
                                 + |r.value.secondName| + FIXED_TRAILER_BYTES
  {
    if |out| < FIXED_TRAILER_BYTES then None
    else
      var lenA := ByteValue(out[|out| - 6]);
      var lenB := ByteValue(out[|out| - 5]);
      var size := DecodeBE32(out[|out| - 4..]);
      if size + lenA + lenB + FIXED_TRAILER_BYTES > |out| then None
      else
        var secondSize := |out| - FIXED_TRAILER_BYTES - lenB - lenA - size;
        var firstNameStart := size + secondSize;
        var secondNameStart := firstNameStart + lenA;
        Some(Package(out[..size], out[size..firstNameStart], out[firstNameStart..secondNameStart],
                     out[secondNameStart..|out| - FIXED_TRAILER_BYTES]))
  }

  /** What `Unpack` returns once the three fixed fields of an output are known. */
  lemma UnpackFields(out: seq<byte>, size: nat, secondSize: nat, lenA: nat, lenB: nat)
    requires |out| == size + secondSize + lenA + lenB + FIXED_TRAILER_BYTES
    requires ByteValue(out[|out| - 6]) == lenA && ByteValue(out[|out| - 5]) == lenB
    requires DecodeBE32(out[|out| - 4..]) == size
    ensures Unpack(out) == Some(Package(out[..size], out[size..size + secondSize],
                                        out[size + secondSize..size + secondSize + lenA],
                                        out[size + secondSize + lenA..|out| - FIXED_TRAILER_BYTES]))
  {
  }

  /** The reader recovers `p` from any sequence holding the parts of `p`. */
  lemma UnpackOfParts(r: seq<byte>, p: Package)
    requires p.Valid() && HoldsParts(r, p)
    ensures Unpack(r) == Some(p)
  {
  }

  /** Round trip: the reader recovers every payload and name exactly from the output. */
  lemma {:induction false} UnpackPack(p: Package)
    requires p.Valid()
    ensures Unpack(Pack(p)) == Some(p)
  {
    UnpackOfParts(Pack(p), p);
  }

  /** Six bytes are the fixed fields holding the values they decode to. */
  lemma FixedFieldsOf(fixed: seq<byte>)
    requires |fixed| == FIXED_TRAILER_BYTES
    ensures fixed == FixedFields(ByteValue(fixed[0]), ByteValue(fixed[1]), DecodeBE32(fixed[2..]))
  {
    EncodeDecode(fixed[2..]);
    ByteRoundTrip(fixed[0]);
    ByteRoundTrip(fixed[1]);
    assert fixed == [fixed[0], fixed[1]] + fixed[2..];
  }

  /** The last six bytes of an accepted output are the fixed fields of the package the
      reader returns. */
  lemma UnpackedFixedFields(out: seq<byte>)
    requires Unpack(out).Some?
    ensures var p := Unpack(out).value;
      out[|out| - FIXED_TRAILER_BYTES..] == FixedFields(|p.firstName|, |p.secondName|, |p.first|)
  {
    var n := |out|;
    var na, nb := ByteValue(out[n - 6]), ByteValue(out[n - 5]);
    var a := DecodeBE32(out[n - 4..]);
    UnpackFields(out, a, n - FIXED_TRAILER_BYTES - nb - na - a, na, nb);
    FixedFieldsAtEnd(out);
    FixedFieldsOf(out[n - FIXED_TRAILER_BYTES..]);
  }

  /** At most one sequence holds the parts of a package. */
  lemma HoldsPartsUnique(r: seq<byte>, s: seq<byte>, p: Package)
    requires p.Valid() && HoldsParts(r, p) && HoldsParts(s, p)
    ensures r == s
  {
    var a, b, na := |p.first|, |p.second|, |p.firstName|;
    EqualByParts(r, s, a, a + b, a + b + na, |r| - FIXED_TRAILER_BYTES);
  }

  /** An output cut at the offsets of its parts, whose last six bytes are the fixed fields
      for those parts, is `Pack` of the package made of the parts. */
  lemma PackOfParts(out: seq<byte>, a: nat, b: nat, na: nat, nb: nat)
    requires |out| == a + b + na + nb + FIXED_TRAILER_BYTES
    requires a <= UINT32_MAX && na <= UINT8_MAX && nb <= UINT8_MAX
    requires out[|out| - FIXED_TRAILER_BYTES..] == FixedFields(na, nb, a)
    ensures Pack(Package(out[..a], out[a..a + b], out[a + b..a + b + na],
                         out[a + b + na..|out| - FIXED_TRAILER_BYTES])) == out
  {
    var p := Package(out[..a], out[a..a + b], out[a + b..a + b + na],
                     out[a + b + na..|out| - FIXED_TRAILER_BYTES]);
    assert HoldsParts(out, p);
    HoldsPartsUnique(Pack(p), out, p);
  }

  /** Converse round trip: whatever the reader accepts is the output of exactly the package
      it returns, so no two packages share an output. */
  lemma {:induction false} PackUnpack(out: seq<byte>)
    requires Unpack(out).Some?
    ensures Pack(Unpack(out).value) == out
  {
    var n := |out|;
    var na, nb := ByteValue(out[n - 6]), ByteValue(out[n - 5]);
    var a := DecodeBE32(out[n - 4..]);
    var b := n - FIXED_TRAILER_BYTES - nb - na - a;
    UnpackFields(out, a, b, na, nb);
    UnpackedFixedFields(out);
    PackOfParts(out, a, b, na, nb);
  }

  /** The bytes appended to the output, in the order `main` writes them, are `Pack` of the
      package they carry. The regrouping steps below are spelled out because the solver
      does not find them reliably on its own. */
  lemma WritesArePack(p: Package, lenA: byte, lenB: byte, be: seq<byte>)
    requires p.Valid()
    requires ByteValue(lenA) == |p.firstName| && ByteValue(lenB) == |p.secondName|
    requires be == SizeField(|p.first|)
    ensures [] + p.first + p.second + p.firstName + p.secondName + [lenA] + [lenB] + be == Pack(p)
  {
    var fixed := FixedFields(|p.firstName|, |p.secondName|, |p.first|);
    assert fixed == [lenA, lenB] + be;
    calc {
      [] + p.first + p.second + p.firstName + p.secondName + [lenA] + [lenB] + be;
      { assert [] + p.first == p.first; }
      p.first + p.second + p.firstName + p.secondName + ([lenA] + [lenB] + be);
      { assert [lenA] + [lenB] + be == fixed; }
      p.first + p.second + p.firstName + p.secondName + fixed;
      p.first + (p.second + (p.firstName + (p.secondName + fixed)));
    }
  }

  /** The insertions of main.cpp:131-133 into a freshly opened output file: the remaining
      image bytes and model bytes through `rdbuf()`, both names, their one-byte lengths and
      the size field. An empty image fails the stream at once and nothing reaches the file;
      an empty model fails it after the image bytes; otherwise every part is written. */
  function MainInsertions(image: seq<byte>, model: seq<byte>, pngName: seq<byte>, stlName: seq<byte>,
                          be: seq<byte>): (o: OStream)
    requires |pngName| <= UINT8_MAX && |stlName| <= UINT8_MAX
    ensures o.failed <==> image == [] || model == []
    ensures image == [] ==> o.written == []
    ensures image != [] && model == [] ==> o.written == image
    ensures image != [] && model != [] ==>
      o.written == [] + image + model + pngName + stlName + [ToByte(|pngName|)] + [ToByte(|stlName|)] + be
  {
    var copiedImage := InsertBuffer(Opened, image);
    var copiedModel := InsertBuffer(copiedImage, model);
    var withNames := Insert(Insert(copiedModel, pngName), stlName);
    var withLengths := Insert(Insert(withNames, [ToByte(|pngName|)]), [ToByte(|stlName|)]);
    Insert(withLengths, be)
  }

  /** The body of `main` once the streams are open, as written: both base names are
      taken, the image's remaining size is measured (stopping the program if it does not
      fit 32 bits), then the remaining image bytes, the remaining model bytes, both names,
      their one-byte lengths and the measured size are inserted into the output in that
      order. Copying an empty input with `rdbuf()` fails the output stream, after which
      nothing more reaches the file: an empty image leaves the file empty, and an empty
      model leaves only the image bytes, without the trailer. `png` and `stl` are the
      opened image and model streams, `pngPath` and `stlPath` the paths they were opened
      from; the result is the whole content of the output file. */
  method Stl2Png(png: Stream, stl: Stream, pngPath: seq<byte>, stlPath: seq<byte>)
    returns (r: Result<seq<byte>, SizeError>)
    requires png.Valid() && stl.Valid()
    ensures r.Success? <==> |Remaining(png)| <= UINT32_MAX
    ensures r.Failure? ==> r.error == SizeOverflow
    ensures r.Success? && Remaining(png) == [] ==> r.value == []
    ensures r.Success? && Remaining(png) != [] && Remaining(stl) == [] ==> r.value == Remaining(png)
    ensures r.Success? && Remaining(png) != [] && Remaining(stl) != [] ==>
      r.value == Pack(Package(Remaining(png), Remaining(stl), Filename(pngPath), Filename(stlPath)))
    ensures r.Success? && Remaining(png) != [] && Remaining(stl) != [] ==>
      Unpack(r.value) == Some(Package(Remaining(png), Remaining(stl), Filename(pngPath), Filename(stlPath)))
  {
    var pngName := Filename(pngPath);
    var stlName := Filename(stlPath);
    assert |pngName| < 256;
    assert |stlName| < 256;
    var measured := StreamSize(png);
    if measured.Failure? {
      return Failure(measured.error);
    }
    var pngSize := measured.value.size;
    var pngAfter := measured.value.stream;
    var be := WriteBigEndian(pngSize);
    var out := MainInsertions(Remaining(pngAfter), Remaining(stl), pngName, stlName, be);
    if Remaining(png) != [] && Remaining(stl) != [] {
      var p := Package(Remaining(png), Remaining(stl), pngName, stlName);
      WritesArePack(p, ToByte(|pngName|), ToByte(|stlName|), be);
      UnpackPack(p);
    }
    r := Success(out.written);
  }

  /** What the as-written program leaves for a non-empty image and an empty model is not
      an output of the layout: the reader cannot recover the package from it. */
  lemma EmptyModelLosesTrailer(image: seq<byte>, pngName: seq<byte>, stlName: seq<byte>)
    requires Package(image, [], pngName, stlName).Valid()
    ensures image != Pack(Package(image, [], pngName, stlName))
    ensures Unpack(image) != Some(Package(image, [], pngName, stlName))
  {
  }

  /** What the as-written program leaves for an empty image, an empty file, is not an
      output of the layout: the reader rejects it, for every model and names. */
  lemma EmptyImageLosesEverything(model: seq<byte>, pngName: seq<byte>, stlName: seq<byte>)
    requires Package([], model, pngName, stlName).Valid()
    ensures [] != Pack(Package([], model, pngName, stlName))
    ensures Unpack([]) == None
  {
  }

  /** The body of `main` as evidently intended: the same steps as `Stl2Png`, except that
      copying an empty input writes nothing and leaves the output stream good (as copying
      only when the input is non-empty would), so the trailer is always written and the
      output can always be split again. */
  method Stl2PngIntended(png: Stream, stl: Stream, pngPath: seq<byte>, stlPath: seq<byte>)
    returns (r: Result<seq<byte>, SizeError>)
    requires png.Valid() && stl.Valid()
    ensures r.Success? <==> |Remaining(png)| <= UINT32_MAX
    ensures r.Failure? ==> r.error == SizeOverflow
    ensures r.Success? ==> |r.value| == |Remaining(png)| + |Remaining(stl)|
                                        + |Filename(pngPath)| + |Filename(stlPath)| + FIXED_TRAILER_BYTES
    ensures r.Success? ==>
      r.value == Pack(Package(Remaining(png), Remaining(stl), Filename(pngPath), Filename(stlPath)))
    ensures r.Success? ==>
      Unpack(r.value) == Some(Package(Remaining(png), Remaining(stl), Filename(pngPath), Filename(stlPath)))
  {
    var pngName := Filename(pngPath);
    var stlName := Filename(stlPath);
    assert |pngName| < 256;
    assert |stlName| < 256;
    var measured := StreamSize(png);
    if measured.Failure? {
      return Failure(measured.error);
    }
    var pngSize := measured.value.size;
    var pngAfter := measured.value.stream;
    var out: seq<byte> := [];
    out := out + Remaining(pngAfter) + Remaining(stl) + pngName + stlName;
    out := out + [ToByte(|pngName|)] + [ToByte(|stlName|)];
    var be := WriteBigEndian(pngSize);
    out := out + be;
    var p := Package(Remaining(png), Remaining(stl), pngName, stlName);
    WritesArePack(p, ToByte(|pngName|), ToByte(|stlName|), be);
    UnpackPack(p);
    r := Success(out);
  }

  /** A worked example: a 3-byte image named "img.png" and a 2-byte model named "model.stl". */
  const ExamplePackage: Package :=
    Package([0x41, 0x42, 0x43], [0x53, 0x54],
            [0x69, 0x6D, 0x67, 0x2E, 0x70, 0x6E, 0x67],
            [0x6D, 0x6F, 0x64, 0x65, 0x6C, 0x2E, 0x73, 0x74, 0x6C])

  /** The example's output, all 27 bytes: the image, the model, the name "img.png", the
      name "model.stl", the name lengths 7 and 9, and the image size 3 as 00 00 00 03. */
  lemma PackExample()
    ensures Pack(ExamplePackage)
         == [0x41, 0x42, 0x43] + [0x53, 0x54]
            + [0x69, 0x6D, 0x67, 0x2E, 0x70, 0x6E, 0x67]
            + [0x6D, 0x6F, 0x64, 0x65, 0x6C, 0x2E, 0x73, 0x74, 0x6C]
            + [0x07, 0x09] + [0x00, 0x00, 0x00, 0x03]
  {
    assert BE32(3) == [0x00, 0x00, 0x00, 0x03];
    assert FixedFields(7, 9, 3) == [0x07, 0x09] + [0x00, 0x00, 0x00, 0x03];
  }
}
