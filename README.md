# Emoji and image steganography codec, modelled in Dafny

This project models the message codec of a browser steganography tool (`script.js`)
and proves properties of it. The codec has four stages:

1. **Huffman coder.** The `HuffmanCoding` object counts characters and builds a tree
   by sorting and merging. It writes a code table (left `0`, right `1`), encodes, and
   decodes by walking the tree. It can also rebuild a trie from a code table alone.
2. **Byte packing.** `binaryStringToData` and `dataToBinaryString` convert between a
   string of `0`/`1` digits and 8-bit values.
3. **Block transform driver.** `applyDCT` and `applyInverseDCT` cut the data into blocks
   of eight, pad the last block with zeros and transform each block.
4. **Carriers.**
   - The emoji carrier shifts every code unit up by one. It writes the unit's eight
     binary digits as variation selectors (U+FE0E for 0, U+FE0F for 1). The result is
     placed behind the base emoji and the separator U+200C U+200D U+200C U+200D.
   - The raster carrier writes a 32-digit length and then the payload bytes into the
     lowest bit of the red sample of consecutive pixels of an RGBA buffer.

`EmojiSteganography.embedMessage` ties the stages together. It appends `###END###`,
compresses, packs, transforms, serializes `{data, codesTable, originalEmoji}` and hides
the result. `extractMessage` reverses each step and cuts the text at the first
`###END###`. When any step throws it answers with a fixed sentence.

How each part is modelled:

- **Huffman coder.** It is a class whose `root` and `codes` fields are updated by its
  methods. Its loops are methods proved against pure definitions: the frequency object,
  the stable sort, the merge, the code walk, the trie rebuilt by `reconstructTree`, and
  the decoding walk.
  - Tree nodes are datatype values.
  - A JavaScript object with character keys is an insertion-ordered table. Its key
    enumeration puts array-index keys (`"0"`–`"9"`) first, in ascending order.
- **Loops.** Every loop of packing, the block driver and the emoji carrier is a method
  proved equal to a sequence function. The properties are lemmas about those functions.
- **Raster loops.** They are methods over an `array` of bytes, changed in place.
- **Cosine transforms and JSON/base64 codec.** These are parameters. The end-to-end
  round trip is proved for every transform that its inverse undoes. It holds for every
  codec that keeps what JSON text keeps: `data` and `originalEmoji` come back as they
  were. The code table comes back with its properties in enumeration order, the order
  `JSON.stringify` writes them in. A table that went through JSON text rebuilds the
  same trie.

Two points about the carriers:

- **Emoji shift width.** `String.fromCharCode` truncates to 16 bits, so the shift is
  `(c + 1) mod 65536` on the way in and `(c - 1) mod 65536` on the way out. The carrier
  round trip is stated for units below 255.
- **Reading past the end of the buffer.** The raster extraction (`script.js:480-483`)
  reads pixels past the end of the buffer as `undefined`, and `undefined & 1` is 0.

## Model

| member | source | states |
|---|---|---|
| HuffmanCoding.HuffmanCoding.constructor | script.js:15-18 | a new coder has no tree and an empty code table |
| HuffmanCoding.HuffmanCoding.CalculateFrequency | script.js:20-27 | the loop returns the frequency object of the whole string |
| HuffmanTree.FrequencyCounts | script.js:20-27 | a character's count is its number of occurrences; absent characters have no entry |
| HuffmanTree.FrequencyKeysUnique | script.js:20-27 | the frequency object has each character as a key at most once |
| HuffmanCoding.HuffmanCoding.BuildHuffmanTree | script.js:29-55 | the root is the tree built from the string, and it is null exactly for the empty string; the empty string throws and leaves the table as it was; otherwise the new codes are added to the table the coder already held |
| HuffmanTree.SortIsSortedPermutation | script.js:37 | the sort by frequency gives a sorted permutation of the queue and keeps every label |
| HuffmanTree.MergeShape | script.js:39-50 | merging a non-empty queue of full trees leaves one full tree that holds every label; with two or more nodes the root is unlabelled |
| HuffmanTree.HuffmanTreeShape | script.js:29-55 | the tree is null exactly for the empty string; otherwise it is full; every character of the string labels exactly one leaf and no other character labels any; with two distinct characters the root is unlabelled |
| HuffmanTree.GenerateCodesAssignsPaths | script.js:57-66 | the code walk assigns the path of every labelled node, left `0` and right `1`, in depth-first order |
| HuffmanTree.PathsPrefixFree | script.js:57-66 | the paths of a full tree are prefix-free, and below an unlabelled root they are longer than the starting code |
| HuffmanTree.PathsBits | script.js:57-66 | the code walk writes only `0` and `1` |
| HuffmanTree.FreshCodes | script.js:29-66 | on an empty table and a string with two distinct characters, every character gets exactly one non-empty binary code, there are no other keys, and no code is a prefix of another |
| HuffmanTree.StaleCodesKept | script.js:57-66 | after a build, the characters of the string have their new paths, and every other key keeps its earlier code |
| HuffmanTree.LoneSymbolTree | script.js:33-52 | a string with one distinct character gives a single leaf holding the whole count |
| HuffmanTree.LoneSymbolEmptyCode | script.js:52-61 | then that character gets the empty code |
| HuffmanCoding.LoneSymbolLost | script.js:68-137 | one distinct character gives the empty code and an empty encoding, and the rebuilt trie labels nothing, so every bit string decodes to nothing |
| HuffmanCoding.FreshTable | script.js:15-66 | the table a new coder hands out after one build is keyed by exactly the characters of the string, with non-empty binary prefix-free codes |
| HuffmanCoding.HuffmanCoding.Encode | script.js:68-79 | with no tree, the coder first builds from the input; every other field stays; the result is the concatenated codes, with the text `undefined` for a character that has no code; the empty string on a coder with no tree throws |
| HuffmanTrie.EncodeConcat | script.js:68-79 | encoding a concatenation is the concatenation of the encodings |
| HuffmanCoding.EncodedMessageBits | script.js:29-79 | encoding the string the tree was just built from gives only `0` and `1`, whatever the table held before |
| HuffmanCoding.HuffmanCoding.Decode | script.js:81-101 | the loop returns the decoding walk from the root: it emits a label and restarts at each labelled node, and stops at a missing child |
| HuffmanTrie.DecodeStops | script.js:81-101 | decoding reads the bits in one pass: once a step leaves the tree, the remaining bits are ignored and the result is what was emitted so far; otherwise decoding `a + rest` is decoding `a`, then going on with `rest` from where the walk stands |
| HuffmanTrie.TrailingBitsIgnored | script.js:81-101 | for a well-formed table, bits that leave the rebuilt trie after a whole encoded message end the decoding: the message comes back, and whatever follows is never read |
| HuffmanTrie.DecodePrefix | script.js:81-101 | decoding more bits only extends the decoded text |
| HuffmanCoding.HuffmanCoding.GetCodesTable | script.js:103-105 | returns the table |
| HuffmanCoding.HuffmanCoding.SetCodesTable | script.js:107-110 | adopts the table, and the root becomes the trie rebuilt from it |
| HuffmanCoding.HuffmanCoding.ReconstructTree | script.js:112-137 | the root is a fresh node with every entry's path inserted in key enumeration order, and the table is unchanged |
| JsObject.EnumerationVisitsEachKeyOnce | script.js:115 | `for ... in` over an object visits each key exactly once |
| JsObject.EnumeratedProperties | script.js:300 | the table that `JSON.stringify` and `JSON.parse` hand back lists the distinct keys in enumeration order, and every key reads what it read before |
| HuffmanTrie.ReconstructEnumerated | script.js:112-137 | a table with distinct keys that went through JSON text rebuilds exactly the same trie |
| HuffmanTrie.ReconstructLabels | script.js:112-137 | for a well-formed table, the rebuilt trie labels every key at the end of its code and labels no other binary path |
| HuffmanTrie.RoundTrip | script.js:68-137 | for a well-formed table and characters that are all keys, decoding the encoding in the rebuilt trie gives the string back, followed by the decoding of whatever bits follow |
| HuffmanCoding.RoundTripThroughTable | script.js:29-137 | build, encode, `setCodesTable(getCodesTable())`, decode: any message written in the build string's characters comes back |
| HuffmanCoding.ReusedCoder | script.js:15-137 | as written: building "xy" and then "abc" on one coder, then encoding "abc" and decoding it through the table, gives "ycyyc" |
| HuffmanCoding.StaleTableMisdecodes | script.js:15-66 | the table after those two builds is not prefix-free; "abc" encodes as "10110", and the rebuilt trie decodes that as "ycyyc" |
| HuffmanCoding.HuffmanCoding.BuildFreshHuffmanTree | script.js:29-55 | corrected: the table is cleared first, so it describes the new tree alone |
| HuffmanCoding.ReusedFreshCoder | script.js:29-137 | corrected: with the table cleared before each build, a reused coder keeps the round trip of the latest message |
| Packing.BinaryStringToData | script.js:265-279 | the loop returns the packed data of the digit string |
| Packing.PackedShape | script.js:268-276 | the empty string packs to `[0]`; otherwise there are ceil(n/8) values, each below 256 |
| Packing.GroupsShape | script.js:272-276 | the number of groups of eight is ceil(n/8), each group below 256 |
| Packing.DataToBinaryString | script.js:281-289 | the loop returns the eight-digit numerals of the values, concatenated |
| Packing.NumeralOfByte | script.js:285 | a value below 256 is written as exactly eight binary digits that read back as the value |
| Packing.PackedRoundTrip | script.js:265-289 | unpacking the packed data gives the digits padded on the right with `0` to a multiple of eight, and `00000000` for the empty string |
| Packing.NumeralsRoundTrip | script.js:265-289 | packing the unpacked string of values in 0..255 gives the values back |
| Dct.ApplyDCT | script.js:186-205 | the loops return the transformed blocks, and eight zeros for empty input |
| Dct.TransformedBlocks | script.js:186-205 | empty input gives eight zeros; otherwise the output has 8·ceil(n/8) values, and its block k is the transform of block k of the input, zero-padded |
| Dct.Pad | script.js:196-198 | a short block is padded on the right with zeros to exactly eight values |
| Dct.ForwardShape | script.js:193-202 | blocks are transformed one by one and joined in order |
| Dct.ApplyInverseDCT | script.js:207-217 | the loop returns the inverse of every block of eight, a shorter last block included |
| Dct.InverseShape | script.js:207-217 | the inverse output has eight values per started block |
| Dct.InverseOfTransformed | script.js:186-217 | if the block inverse undoes the block transform, the inverse driver gives back the input padded with zeros to a multiple of eight; empty input comes back as the inverse of eight zeros |
| EmojiCarrier.HidePayload | script.js:303-321 | the shift loop and the selector loops give base, separator and the selectors of every shifted unit |
| EmojiCarrier.EmbeddedShape | script.js:303-321 | for units below 255 the output starts with the base and then the separator, and what follows is exactly eight selectors per unit |
| EmojiCarrier.OnlySelectors | script.js:310-316 | the hidden part is made only of U+FE0E and U+FE0F |
| EmojiCarrier.SelectorsShape | script.js:314-316 | digit i becomes selector i: 0 is U+FE0E and 1 is U+FE0F |
| EmojiCarrier.RecoverPayload | script.js:324-361 | the loops return the extraction result: an error without the separator, otherwise the unshifted units of the complete groups of the selector digits |
| EmojiCarrier.ExtractedFails | script.js:326-333 | extraction fails exactly when the separator is absent, with the no-hidden-data error |
| EmojiCarrier.OtherUnitsIgnored | script.js:339-346 | units other than the two selectors contribute no digit |
| EmojiCarrier.ShortTailDropped | script.js:349-355 | a last group shorter than eight digits is dropped |
| EmojiCarrier.UnshiftShifted | script.js:357-361 | shifting down (lines 357-361) undoes the shift up of lines 304-307 for every unit, U+FFFF included, which wraps round to zero and back |
| EmojiCarrier.CarrierRoundTrip | script.js:291-361 | for a base without U+200C and units below 255, extraction gives the payload back exactly |
| EmojiSteganography.CodePointAt | script.js:292 | `codePointAt(0)` is undefined exactly for the empty base; otherwise it is a code point, and the first unit when that unit does not start a surrogate pair |
| EmojiSteganography.EmojiSteganography.constructor | script.js:224-227 | the object starts with a new coder |
| EmojiSteganography.EmojiSteganography.EmbedMessage | script.js:229-241 | the tree becomes that of the marked message, and its codes are added to the earlier table; the result is the hidden payload built from that table |
| EmojiSteganography.EmojiSteganography.EmbedFreshMessage | script.js:229-241 | corrected: the table is cleared first, so the hidden table describes this message alone |
| EmojiSteganography.EmojiSteganography.EmbedDataInEmoji | script.js:291-322 | the payload records the base's code point; a failing serialization is the error; otherwise the result is the carrier output of the serialization |
| EmojiSteganography.EmojiSteganography.ExtractDataFromEmoji | script.js:324-375 | carrier errors pass through; text that does not parse, or that names no code point, is a malformed payload |
| EmojiSteganography.EmojiSteganography.ExtractMessage | script.js:243-263 | the result is the revealed message; the coder adopts the hidden table only when the payload was recovered, and is unchanged otherwise |
| EmojiSteganography.MarkedTwoSymbols | script.js:230-233 | the marked message always has two distinct characters |
| EmojiSteganography.TruncatedPrefix | script.js:252-258 | the cut text is a prefix of the decoded text and contains no end marker; with no marker it is the whole text; with one, the marker starts right after the cut |
| EmojiSteganography.MarkerAfterMessage | script.js:252 | a message without `#` first meets the marker where it was appended |
| EmojiSteganography.TruncatedExtend | script.js:252-256 | text after the marked message does not move the cut when the message's first marker is the appended one |
| EmojiSteganography.CarriedBits | script.js:235-246 | packing, transforming, inverting and unpacking gives the bits back, followed only by the zero digits of the padding |
| EmojiSteganography.HiddenRecovered | script.js:236-244 | if the codec keeps what JSON text keeps, and the base has no U+200C, extraction recovers the hidden serialization; it parses back to the payload's data and code point, with the table in enumeration order when its keys are distinct |
| EmojiSteganography.PipelineRoundTrip | script.js:229-263 | on an empty table, with a lossless transform, a codec that keeps what JSON text keeps (the table's keys reordered), and a non-empty base without U+200C, `extractMessage(embedMessage(m))` is m whenever m's first marker is the appended one |
| EmojiSteganography.EmptyBaseLost | script.js:291-375 | with an empty base emoji, any embedded message extracts as the fallback sentence |
| EmojiSteganography.NoMarkerFallback | script.js:326-328 | text without the separator extracts as the fallback sentence |
| RasterCarrier.Embed | script.js:411-441 | as written: a payload above the capacity check throws before any write; otherwise the buffer holds every digit whose pixel lies inside it, and out-of-range writes are skipped |
| RasterCarrier.WriteHeader | script.js:417-424 | pixels 0 to 31 take the 32 digits of the length |
| RasterCarrier.WriteByte | script.js:428-441 | the eight pixels of a byte take its digits, most significant first, where they are inside the buffer |
| RasterCarrier.OnlyLowBitsChange | script.js:420-441 | only the lowest bit of a sample changes, and only in the red sample of the first 32 + 8L pixels |
| RasterCarrier.HeaderOfEmbedded | script.js:480-487 | on a buffer of at least 32 pixels, the header written at lines 417-424 reads back as the length, for every length below 2^32 |
| RasterCarrier.OversizedRefused | script.js:486-491 | a payload of more than 50000 bytes, which embedding accepts in a large enough image, is always refused at extraction with its own length |
| RasterCarrier.ByteOfEmbedded | script.js:497-513 | a byte written at lines 428-441 whose eight pixels lie inside the buffer reads back as written |
| RasterCarrier.Extract | script.js:480-513 | a header of 0 or above 50000 is rejected; a payload whose last pixel is past the buffer throws the incomplete-extraction error; otherwise the result is the bytes read |
| RasterCarrier.RasterRoundTrip | script.js:411-513 | for 1 ≤ L ≤ 50000 with the last pixel inside the buffer, extraction after embedding gives exactly the embedded bytes |
| RasterCarrier.TruncatedEmbedding | script.js:411-441 | as written: a payload the capacity check accepts but whose last pixel is past the buffer is embedded silently, and its extraction fails |
| RasterCarrier.SmallImageLosesData | script.js:411-441 | a 40-pixel buffer: the check accepts two bytes, but they need 48 pixels, so extraction fails |
| RasterCarrier.EmbedChecked | script.js:411-441 | corrected: throws unless 32 + 8L ≤ pixels, and any accepted payload of 1 to 50000 bytes extracts back exactly |
| RasterCarrier.CheckedWithinCapacity | script.js:411-412 | every payload the corrected check accepts passes the check as written |

## Left out

- The cosine arithmetic of `forwardDCT`, `inverseDCT` and `alpha` (script.js:148-184) is
  floating point, and so is `Math.round` (script.js:284). The per-block transforms are
  parameters, and every value is an integer. The DCT object has no state beyond its
  constant block size of 8, so it is not a class here.
- `JSON.stringify`, `JSON.parse`, `btoa` and `atob` (script.js:300-301, 364-365) are
  library calls that cannot be seen. They are the `serialize` and `parse` fields of
  `Library`. A failing `btoa` is the `InvalidCharacter` error, and a failing parse is
  `MalformedPayload`. The model fixes what any faithful codec does to the code table
  (`JsObject.Enumerated`). It does not write JSON text.
- `TextEncoder` and `TextDecoder` (script.js:407, 518) are left out. The raster methods
  take and return bytes. The post-check `emojiData.length < 5` (script.js:522) depends on
  the decoded text, so it is not modelled.
- Canvas, image and promise plumbing are I/O around the pixel loops: `getImageData`,
  `putImageData`, `toBlob`, object URLs. So is `setQuality` (script.js:383-404,
  445-460, 463-478, 526-536).
- `console.log` and `console.error` are not modelled.
- The DOM and UI section is not modelled. That includes the empty-message and
  100-character checks.
- Huffman tree nodes are immutable values. `reconstructTree`'s walk, which sets `left`,
  `right` and `char` on nodes, is a recursive function over those values. The model does
  not capture sharing of nodes between trees.
- `HuffmanCoding.HuffmanCoding.GetCodesTable`: it returns the table as a value. The object
  JavaScript returns is the coder's own, and the model does not capture that aliasing.
- `HuffmanCoding.HuffmanCoding.CalculateFrequency`, `BuildHuffmanTree`, `Encode` and `Decode`, the
  `HuffmanTree`, `HuffmanTrie` and `JsObject` members, and
  `EmojiSteganography.EmojiSteganography.EmbedMessage` and `ExtractMessage` work on Unicode
  scalar values. The model's messages and table keys are Dafny strings of scalar values, not
  JavaScript's UTF-16 code units. A surrogate code unit cannot appear, so a message holding a
  lone surrogate cannot be represented. A character outside the Basic Multilingual Plane, such
  as an emoji in the message, is one symbol in the model: one frequency key, one leaf and one
  code. In JavaScript, `str[i]` (script.js:22-25, 72-75) sees two code units there, with two
  keys, two leaves and two codes. The results therefore differ for such messages, and so does
  the hidden `codesTable`. The emoji carrier itself works on code units.
- `Packing.BinaryStringToData` requires a string of `0`/`1` digits. The codec only ever
  passes it an encoding, which the model proves is always binary. `parseInt` on other
  characters is not modelled.
- `Packing.DataToBinaryString`: negative values are written with a leading `-`, as
  `toString(2)` does, and values above 255 keep all their digits.
- The `!binaryString` and `!data` checks for `null` and `undefined` are not modelled,
  since the inputs here are always sequences.
- `EmojiSteganography.EmojiSteganography.ExtractDataFromEmoji` returns the parsed
  payload. It does not build the string `String.fromCodePoint(originalEmoji)`, which
  `extractMessage` never reads; only its range check is kept. A payload without `data`
  fails here. In the code it fails one step later, in `applyInverseDCT`, which reaches
  the same fallback sentence.
- `EmojiSteganography.PipelineRoundTrip`: the inverse transform is required to undo the
  forward one exactly, rounding included. The codec is required to keep `data` and
  `originalEmoji`, to hand back the table in enumeration order, and to write ASCII text.
  These are properties of library code outside the model.

## Findings

| source | as written | input that shows it | evidently intended | confidence | as-written member | corrected member |
|---|---|---|---|---|---|---|
| script.js:411-436 | the capacity check compares the byte count with the pixel count less 32, while each byte takes eight pixels; bits past the buffer are dropped without an error | a 160-byte buffer (40 pixels) and the payload [1, 2]: the check allows 8 bytes, the payload needs 48 pixels, and extraction throws | refuse payloads unless 32 + 8L ≤ pixels | not executed | RasterCarrier.TruncatedEmbedding | RasterCarrier.EmbedChecked |
| script.js:15-66 | `buildHuffmanTree` adds the new codes to a table that is never cleared, so a reused coder hands out stale entries that are not prefix-free | build "xy", then build "abc", encode "abc" and decode it through `setCodesTable(getCodesTable())`: the result is "ycyyc" | clear `codes` before generating the codes of the new tree | not executed | HuffmanCoding.ReusedCoder | HuffmanCoding.ReusedFreshCoder |
