/**
 * The `EmojiSteganography` object: `embedMessage` appends the end marker,
 * Huffman-compresses the message, packs the bits into bytes, runs the block
 * transform over them and hides the serialized payload behind a base emoji;
 * `extractMessage` undoes each step and cuts the decoded text at the end
 * marker, answering with a fixed sentence when any step fails.
 *
 * The cosine transforms, `JSON.stringify`/`JSON.parse` and `btoa`/`atob`
 * are not modelled here: they are the fields of a `Library` value, and the
 * round trip is proved for every library whose transform and codec invert
 * each other.
 */
module EmojiSteganography {
  import opened Common
  import opened JsObject
  import opened BinaryText
  import opened Sequences
  import opened Search
  import opened HuffmanTree
  import opened HuffmanTrie
  import HuffmanCoding
  import opened Packing
  import opened Dct
  import opened EmojiCarrier

  /** The marker `embedMessage` appends to the message before compressing it. */
  const End: string := "###END###"

  /** What `extractMessage` answers when any step throws. */
  const Fallback: string := "Gagal mengekstrak pesan. Emoji ini mungkin tidak berisi pesan tersembunyi atau sudah rusak."

  /** The object serialized into the carrier: `{ data, codesTable, originalEmoji }`. */
  datatype Payload = Payload(data: seq<int>, codesTable: Table<string>, originalEmoji: Option<int>)

  /**
   * The parts of the pipeline outside the model: the per-block cosine
   * transforms, and the text codec `btoa(JSON.stringify(_))` (`None` when
   * `btoa` throws) with its reverse `JSON.parse(atob(_))` (`None` when
   * either throws, or when `data` is missing and the inverse transform's
   * `dctData.length` throws; a missing `codesTable` reads as the empty table,
   * since `for ... in` over `undefined` visits nothing, and a missing
   * `originalEmoji` as `None`).
   */
  datatype Library = Library(
    forward: Block -> Block,
    inverse: seq<int> -> Block,
    serialize: Payload -> Option<Text>,
    parse: Text -> Option<Payload>)

  /** The inverse transform undoes the forward one, rounding included. */
  ghost predicate LosslessTransform(lib: Library) {
    forall b: Block :: lib.inverse(lib.forward(b)) == b
  }

  /**
   * What JSON text keeps: parsing a serialization gives back `data` and
   * `originalEmoji` as they were, and an object with distinct keys with its
   * properties listed in enumeration order, which is the order
   * `JSON.stringify` writes them in; a serialization is base64 text, hence ASCII.
   */
  ghost predicate LosslessCodec(lib: Library) {
    forall p: Payload :: lib.serialize(p).Some? ==>
      Reparsed(p, lib.parse(lib.serialize(p).value)) &&
      forall i :: 0 <= i < |lib.serialize(p).value| ==> lib.serialize(p).value[i] < 128
  }

  /** `o` is what JSON text gives back for `p`. */
  predicate Reparsed(p: Payload, o: Option<Payload>) {
    o.Some? && o.value.data == p.data && o.value.originalEmoji == p.originalEmoji &&
    (Unique(Keys(p.codesTable)) ==> o.value.codesTable == Enumerated(p.codesTable))
  }

  /** `baseEmoji.codePointAt(0)`: a surrogate pair is combined, `undefined` for the empty string. */
  function CodePointAt(base: Text): (r: Option<int>)
    ensures r.Some? <==> base != []
    ensures r.Some? ==> 0 <= r.value <= 0x10_FFFF
    ensures base != [] && !(0xD800 <= base[0] < 0xDC00) ==> r == Some(base[0])
  {
    if base == [] then None
    else if 0xD800 <= base[0] < 0xDC00 && |base| >= 2 && 0xDC00 <= base[1] < 0xE000 then
      Some(0x1_0000 + (base[0] as int - 0xD800) * 0x400 + (base[1] as int - 0xDC00))
    else Some(base[0])
  }

  /** `String.fromCodePoint` accepts the field: it is present and a code point. */
  predicate ValidCodePoint(o: Option<int>) {
    o.Some? && 0 <= o.value <= 0x10_FFFF
  }

  /** `decodedMessage` cut before the first end marker, whole when there is none. */
  function Truncated(d: string): string {
    match IndexOf(d, End)
    case Some(k) => d[..k]
    case None => d
  }

  // ---------------------------------------------------------------- the two directions

  /** What `embedDataInEmoji` returns for the transformed data and the code table. */
  function Hide(lib: Library, base: Text, data: seq<int>, table: Table<string>): Result<Text> {
    match lib.serialize(Payload(data, table, CodePointAt(base)))
    case None => Err(InvalidCharacter)
    case Some(t) => Ok(Embedded(base, t))
  }

  /**
   * What `embedMessage` returns on a coder whose table is `prior`: the table
   * is the one the build leaves, the earlier entries included.
   */
  function Hidden(lib: Library, prior: Table<string>, message: string, base: Text): Result<Text> {
    var p := HiddenPayload(lib, prior, message, base);
    Hide(lib, base, p.data, p.codesTable)
  }

  /** The payload `embedMessage` serializes. */
  function HiddenPayload(lib: Library, prior: Table<string>, message: string, base: Text): Payload {
    var marked := message + End;
    var table := GenerateCodes(HuffmanTreeOf(marked), "", prior);
    MarkedTwoSymbols(message);
    HuffmanCoding.EncodedMessageBits(marked, prior);
    Payload(Transformed(lib.forward, PackedData(HuffmanTrie.Encode(table, marked))), table, CodePointAt(base))
  }

  /** What `extractDataFromEmoji` returns: the payload, once it parses and names a code point. */
  function Recovered(lib: Library, s: Text): Result<Payload> {
    match Extracted(s)
    case Err(e) => Err(e)
    case Ok(t) =>
      match lib.parse(t)
      case None => Err(MalformedPayload)
      case Some(p) => if ValidCodePoint(p.originalEmoji) then Ok(p) else Err(MalformedPayload)
  }

  /** What `extractMessage` returns. */
  function Revealed(lib: Library, s: Text): string {
    match Recovered(lib, s)
    case Err(_) => Fallback
    case Ok(p) => Truncated(HuffmanTrie.Decode(Reconstruct(p.codesTable), Numerals(InverseBlocks(lib.inverse, p.data))))
  }

  // ---------------------------------------------------------------- the object

  class EmojiSteganography {
    const huffman: HuffmanCoding.HuffmanCoding
    const lib: Library

    /** A fresh Huffman coder; the transforms and the codec are given. */
    constructor(lib: Library)
      ensures this.lib == lib && fresh(huffman) && huffman.root == Nil && huffman.codes == []
    {
      this.lib := lib;
      huffman := new HuffmanCoding.HuffmanCoding();
    }

    /**
     * `embedMessage(message, baseEmoji)`: the tree is rebuilt from the marked
     * message, but its codes are added to the table the coder already holds.
     */
    method EmbedMessage(message: string, base: Text) returns (r: Result<Text>)
      modifies huffman
      ensures huffman.root == HuffmanTreeOf(message + End)
      ensures huffman.codes == GenerateCodes(huffman.root, "", old(huffman.codes))
      ensures r == Hidden(lib, old(huffman.codes), message, base)
    {
      var messageWithMarker := message + End;
      var _ := huffman.BuildHuffmanTree(messageWithMarker);
      var compressedMessage := huffman.Encode(messageWithMarker);
      MarkedTwoSymbols(message);
      HuffmanCoding.EncodedMessageBits(messageWithMarker, old(huffman.codes));
      var binaryData := BinaryStringToData(compressedMessage.value);
      var dctData := ApplyDCT(lib.forward, binaryData);
      var table := huffman.GetCodesTable();
      r := EmbedDataInEmoji(base, dctData, table);
    }

    /** `embedMessage` with the table cleared before the build, so that it describes this message alone. */
    method EmbedFreshMessage(message: string, base: Text) returns (r: Result<Text>)
      modifies huffman
      ensures huffman.root == HuffmanTreeOf(message + End)
      ensures huffman.codes == GenerateCodes(huffman.root, "", [])
      ensures r == Hidden(lib, [], message, base)
    {
      huffman.codes := [];
      r := EmbedMessage(message, base);
    }

    /** `embedDataInEmoji(baseEmoji, data, codesTable)`. */
    method EmbedDataInEmoji(base: Text, data: seq<int>, table: Table<string>) returns (r: Result<Text>)
      ensures r == Hide(lib, base, data, table)
    {
      var payload := Payload(data, table, CodePointAt(base));
      var base64Data := lib.serialize(payload);
      if base64Data.None? {
        return Err(InvalidCharacter);
      }
      var s := HidePayload(base, base64Data.value);
      r := Ok(s);
    }

    /** `extractDataFromEmoji(encodedEmoji)`, every throw an `Err`. */
    method ExtractDataFromEmoji(s: Text) returns (r: Result<Payload>)
      ensures r == Recovered(lib, s)
    {
      var base64Data := RecoverPayload(s);
      if base64Data.Err? {
        return Err(base64Data.error);
      }
      var serializedData := lib.parse(base64Data.value);
      if serializedData.None? || !ValidCodePoint(serializedData.value.originalEmoji) {
        return Err(MalformedPayload);
      }
      r := Ok(serializedData.value);
    }

    /**
     * `extractMessage(encodedEmoji)`: the coder adopts the hidden table only
     * when the payload was recovered.
     */
    method ExtractMessage(s: Text) returns (message: string)
      modifies huffman
      ensures message == Revealed(lib, s)
      ensures Recovered(lib, s).Err? ==> huffman.root == old(huffman.root) && huffman.codes == old(huffman.codes)
      ensures Recovered(lib, s).Ok? ==> huffman.codes == Recovered(lib, s).value.codesTable && huffman.root == Reconstruct(huffman.codes)
    {
      var extracted := ExtractDataFromEmoji(s);
      if extracted.Err? {
        return Fallback;
      }
      var inverseDctData := ApplyInverseDCT(lib.inverse, extracted.value.data);
      var binaryString := DataToBinaryString(inverseDctData);
      huffman.SetCodesTable(extracted.value.codesTable);
      var decodedMessage := huffman.Decode(binaryString);
      var markerIndex := IndexOf(decodedMessage, End);
      if markerIndex.Some? {
        return decodedMessage[..markerIndex.value];
      }
      message := decodedMessage;
    }
  }

  // ---------------------------------------------------------------- properties

  /** The marked message always has two distinct characters, so its tree has a code for each. */
  lemma MarkedTwoSymbols(message: string)
    ensures TwoSymbols(message + End)
  {
    var m := message + End;
    assert m[|message|] == '#' && m[|message| + 3] == 'E';
  }

  /** The cut text is a prefix of the decoded text without the marker; without a marker nothing is cut. */
  lemma TruncatedPrefix(d: string)
    ensures Truncated(d) <= d
    ensures forall j: nat :: !OccursAt(Truncated(d), End, j)
    ensures (forall j: nat :: !OccursAt(d, End, j)) ==> Truncated(d) == d
    ensures IndexOf(d, End).Some? ==> OccursAt(d, End, |Truncated(d)|)
  {
    IndexOfFirst(d, End);
    var r := Truncated(d);
    if IndexOf(d, End).Some? {
      var k := IndexOf(d, End).value;
      assert r == d[..k];
      forall j: nat ensures !OccursAt(r, End, j) {
        if j + |End| <= k {
          assert r[j..j + |End|] == d[j..j + |End|];
          assert !OccursAt(d, End, j);
        }
      }
    }
  }

  /** A message without '#' meets its end marker first where the marker was appended. */
  lemma MarkerAfterMessage(message: string)
    requires forall i :: 0 <= i < |message| ==> message[i] != '#'
    ensures IndexOf(message + End, End) == Some(|message|)
  {
    var m := message + End;
    assert m[|message|..|message| + |End|] == End;
    forall j | 0 <= j < |message| ensures !OccursAt(m, End, j) {
      assert m[j] == message[j];
    }
    IndexOfIs(m, End, |message|);
  }

  lemma ZerosConcat(a: nat, b: nat)
    ensures Zeros(a) + Zeros(b) == Zeros(a + b)
  {
  }

  lemma {:induction false} NumeralsOfZeros(k: nat)
    ensures Numerals(ZeroValues(k)) == Zeros(8 * k)
  {
    if k > 0 {
      assert ZeroValues(k) == ZeroValues(k - 1) + [0];
      NumeralsConcat(ZeroValues(k - 1), [0]);
      NumeralsSingle(0);
      NumeralsOfZeros(k - 1);
      ZerosConcat(8 * (k - 1), 8);
    }
  }

  /** The zero digits the packing and the block padding add behind `bits`. */
  function Slack(bits: string): nat {
    if bits == [] then 64 else PadLength(|bits|) + 8 * PadLength((|bits| + 7) / 8)
  }

  /**
   * Packing, transforming, inverting and unpacking gives back the bits
   * followed by the zero digits of the padding.
   */
  lemma CarriedBits(lib: Library, bits: string)
    requires LosslessTransform(lib) && IsBits(bits)
    ensures Numerals(InverseBlocks(lib.inverse, Transformed(lib.forward, PackedData(bits)))) == bits + Zeros(Slack(bits))
  {
    var data: seq<int> := PackedData(bits);
    var pad := PadLength(|data|);
    var q := if bits == [] then 8 else PadLength(|bits|);
    assert q + 8 * pad == Slack(bits) by {
      PackedPad(bits);
    }
    assert InverseBlocks(lib.inverse, Transformed(lib.forward, data)) == data + ZeroValues(pad) by {
      PackedShape(bits);
      InverseOfTransformed(lib.forward, lib.inverse, data);
    }
    assert Numerals(data) == bits + Zeros(q) by {
      PackedRoundTrip(bits);
    }
    assert Numerals(data + ZeroValues(pad)) == bits + Zeros(q) + Zeros(8 * pad) by {
      NumeralsConcat(data, ZeroValues(pad));
      NumeralsOfZeros(pad);
    }
    ZerosConcat(q, 8 * pad);
  }

  /** The block padding behind the packed bits, in digits. */
  lemma PackedPad(bits: string)
    requires IsBits(bits)
    ensures (if bits == [] then 8 else PadLength(|bits|)) + 8 * PadLength(|PackedData(bits)|) == Slack(bits)
  {
    PackedShape(bits);
  }

  /**
   * The message comes back: on a coder with an empty table, a message
   * whose end marker is first met where it was appended, hidden behind a
   * non-empty base that holds no U+200C, is extracted unchanged.
   */
  lemma PipelineRoundTrip(lib: Library, message: string, base: Text)
    requires LosslessTransform(lib) && LosslessCodec(lib)
    requires base != [] && forall i :: 0 <= i < |base| ==> base[i] != 0x200C
    requires IndexOf(message + End, End) == Some(|message|)
    requires Hidden(lib, [], message, base).Ok?
    ensures Revealed(lib, Hidden(lib, [], message, base).value) == message
  {
    var p := HiddenPayload(lib, [], message, base);
    var text := Hidden(lib, [], message, base).value;
    var q := Payload(p.data, Enumerated(p.codesTable), p.originalEmoji);
    assert Recovered(lib, text) == Ok(q) && Reconstruct(q.codesTable) == Reconstruct(p.codesTable) by {
      FreshRecovered(lib, message, base);
    }
    var d := HuffmanTrie.Decode(Reconstruct(p.codesTable), Numerals(InverseBlocks(lib.inverse, p.data)));
    assert message + End <= d by {
      PayloadDecodes(lib, message, base);
    }
    assert Revealed(lib, text) == Truncated(d);
    TruncatedExtend(message, d);
  }

  /**
   * A payload built on an empty table comes back through the carrier and
   * the codec with its table reordered, and the reordered table rebuilds
   * the same trie.
   */
  lemma FreshRecovered(lib: Library, message: string, base: Text)
    requires LosslessCodec(lib)
    requires base != [] && forall i :: 0 <= i < |base| ==> base[i] != 0x200C
    requires Hidden(lib, [], message, base).Ok?
    ensures var p := HiddenPayload(lib, [], message, base);
      Recovered(lib, Hidden(lib, [], message, base).value) == Ok(Payload(p.data, Enumerated(p.codesTable), p.originalEmoji)) &&
      Reconstruct(Enumerated(p.codesTable)) == Reconstruct(p.codesTable)
  {
    var p := HiddenPayload(lib, [], message, base);
    assert Unique(Keys(p.codesTable)) by {
      MarkedTwoSymbols(message);
      FreshCodes(message + End);
    }
    HiddenRecovered(lib, [], message, base);
    ReconstructEnumerated(p.codesTable);
  }

  /** The carrier and the codec hand back the payload that was hidden, behind any base that holds no U+200C. */
  lemma HiddenRecovered(lib: Library, prior: Table<string>, message: string, base: Text)
    requires LosslessCodec(lib)
    requires forall i :: 0 <= i < |base| ==> base[i] != 0x200C
    requires Hidden(lib, prior, message, base).Ok?
    ensures Extracted(Hidden(lib, prior, message, base).value) == Ok(lib.serialize(HiddenPayload(lib, prior, message, base)).value)
    ensures Reparsed(HiddenPayload(lib, prior, message, base), lib.parse(lib.serialize(HiddenPayload(lib, prior, message, base)).value))
  {
    var p := HiddenPayload(lib, prior, message, base);
    var t := lib.serialize(p).value;
    assert Hidden(lib, prior, message, base).value == Embedded(base, t);
    CarrierRoundTrip(base, t);
  }

  /** Decoding the bits carried by a freshly built payload starts with the marked message. */
  lemma PayloadDecodes(lib: Library, message: string, base: Text)
    requires LosslessTransform(lib)
    ensures var p := HiddenPayload(lib, [], message, base);
      message + End <= HuffmanTrie.Decode(Reconstruct(p.codesTable), Numerals(InverseBlocks(lib.inverse, p.data)))
  {
    var marked := message + End;
    var table := GenerateCodes(HuffmanTreeOf(marked), "", []);
    MarkedTwoSymbols(message);
    HuffmanCoding.EncodedMessageBits(marked, []);
    var bits := HuffmanTrie.Encode(table, marked);
    var p := HiddenPayload(lib, [], message, base);
    assert p.codesTable == table && p.data == Transformed(lib.forward, PackedData(bits));
    var z := Zeros(Slack(bits));
    assert Numerals(InverseBlocks(lib.inverse, p.data)) == bits + z by {
      CarriedBits(lib, bits);
    }
    assert WellFormedCodes(table) && forall i :: 0 <= i < |marked| ==> marked[i] in Keys(table) by {
      FreshCodes(marked);
    }
    RoundTrip(table, marked, z);
  }

  /** Text behind the marked message does not move the cut. */
  lemma TruncatedExtend(message: string, d: string)
    requires IndexOf(message + End, End) == Some(|message|)
    requires message + End <= d
    ensures Truncated(d) == message
  {
    var marked := message + End;
    assert d == marked + d[|marked|..];
    IndexOfExtend(marked, d[|marked|..], End);
  }

  /**
   * An empty base emoji loses every message: `codePointAt(0)` is
   * `undefined`, the field is dropped from the JSON text, and
   * `String.fromCodePoint(undefined)` throws on the way back.
   */
  lemma EmptyBaseLost(lib: Library, prior: Table<string>, message: string)
    requires LosslessCodec(lib)
    requires Hidden(lib, prior, message, []).Ok?
    ensures Revealed(lib, Hidden(lib, prior, message, []).value) == Fallback
  {
    HiddenRecovered(lib, prior, message, []);
  }

  /** A text without the carrier marker extracts as the fallback sentence. */
  lemma NoMarkerFallback(lib: Library, s: Text)
    requires forall j :: !OccursAt(s, Marker, j)
    ensures Revealed(lib, s) == Fallback
  {
    IndexOfFirst(s, Marker);
  }
}
