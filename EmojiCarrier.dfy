/**
 * The carrier of `embedDataInEmoji` and `extractDataFromEmoji`: the
 * serialized payload, one UTF-16 code unit at a time, is shifted up by one,
 * written as an eight-digit binary numeral, and each digit becomes an
 * invisible variation selector (U+FE0E for '0', U+FE0F for '1').  The
 * selectors follow the base emoji and a four-unit separator.  Extraction
 * splits at the separator, reads the selectors back as digits, groups
 * them by eight and shifts each group down by one.
 */
module EmojiCarrier {
  import opened Common
  import opened BinaryText
  import opened Sequences
  import opened Search
  import opened Packing

  /** A UTF-16 code unit, what `charCodeAt` returns and `String.fromCharCode` takes modulo 2^16. */
  type Unit = n: int | 0 <= n < 0x1_0000

  /** A JavaScript string as its code units. */
  type Text = seq<Unit>

  /** `'‌‍‌‍'`, the separator between the base emoji and the selectors. */
  const Marker: Text := [0x200C, 0x200D, 0x200C, 0x200D]

  /** U+FE0E, the selector that carries a '0'. */
  const TextSelector: Unit := 0xFE0E

  /** U+FE0F, the selector that carries a '1'. */
  const EmojiSelector: Unit := 0xFE0F

  /** `String.fromCharCode(charCodeAt(i) + 1)`. */
  function Shift(c: Unit): Unit {
    (c + 1) % 0x1_0000
  }

  /** `String.fromCharCode(charCodeAt(i) - 1)`: a zero wraps round to U+FFFF. */
  function Unshift(c: Unit): Unit {
    (c - 1) % 0x1_0000
  }

  /** `binary.charAt(j) === '0' ? '︎' : '️'`. */
  function Selector(d: char): Unit {
    if d == '0' then TextSelector else EmojiSelector
  }

  /** The selectors for a string of digits, one per digit. */
  function Selectors(b: string): Text {
    if b == [] then [] else Selectors(b[..|b| - 1]) + [Selector(b[|b| - 1])]
  }

  /** The selectors for one shifted code unit: its numeral padded to eight digits. */
  function SelectorsOf(c: Unit): Text {
    Selectors(Numeral(c))
  }

  /** The first loop of `embedDataInEmoji`: every unit shifted up. */
  function Shifted(p: Text): Text {
    seq(|p|, i requires 0 <= i < |p| => Shift(p[i]))
  }

  /** The second loop: the selectors of every shifted unit, in order. */
  function HiddenSelectors(e: Text): Text {
    Flatten(SelectorsOf, e)
  }

  /** What `embedDataInEmoji` returns for the serialized payload `payload`. */
  function Embedded(base: Text, payload: Text): Text {
    base + Marker + HiddenSelectors(Shifted(payload))
  }

  /** The digit a unit stands for in the hidden part: selectors read back, anything else skipped. */
  function Bit(u: Unit): string {
    if u == TextSelector then "0" else if u == EmojiSelector then "1" else ""
  }

  /** The first loop of `extractDataFromEmoji`: the digits of the selectors, in order. */
  function SelectorBits(h: Text): string {
    Flatten(Bit, h)
  }

  /** The second loop: every whole group of eight digits as a unit, a shorter last group dropped. */
  function Bytes(b: string): Text
    requires IsBits(b)
    decreases |b|
  {
    if |b| < 8 then []
    else
      assert Pow2(8) == 256;
      [FromBits(b[..8]) as Unit] + Bytes(b[8..])
  }

  /** The third loop: every unit shifted down. */
  function Unshifted(e: Text): Text {
    seq(|e|, i requires 0 <= i < |e| => Unshift(e[i]))
  }

  /**
   * What `extractDataFromEmoji` recovers before `atob` and `JSON.parse`: an
   * error when the separator is missing, and otherwise the units carried by
   * the selectors between the first separator and the next.
   */
  function Extracted(s: Text): Result<Text> {
    if IndexOf(s, Marker).None? then Err(NoHiddenData)
    else
      var parts := Split(s, Marker);
      if |parts| < 2 then Err(InvalidFormat)
      else
        SelectorBitsAreBits(parts[1]);
        Ok(Unshifted(Bytes(SelectorBits(parts[1]))))
  }

  lemma {:induction false} SelectorBitsAreBits(h: Text)
    ensures IsBits(SelectorBits(h))
    decreases |h|
  {
    if h != [] {
      SelectorBitsAreBits(h[..|h| - 1]);
      BitsConcat(SelectorBits(h[..|h| - 1]), Bit(h[|h| - 1]));
    }
  }

  // ---------------------------------------------------------------- the loops

  /** The carrier half of `embedDataInEmoji(baseEmoji, ...)`, for the serialized payload `payload`. */
  method HidePayload(base: Text, payload: Text) returns (s: Text)
    ensures s == Embedded(base, payload)
  {
    var encrypted := ShiftUp(payload);
    var hidden := WriteSelectors(encrypted);
    s := base + Marker + hidden;
  }

  /** The loop that builds `encryptedData`. */
  method ShiftUp(payload: Text) returns (encrypted: Text)
    ensures encrypted == Shifted(payload)
  {
    encrypted := [];
    for i := 0 to |payload|
      invariant encrypted == Shifted(payload[..i])
    {
      encrypted := encrypted + [Shift(payload[i])];
    }
    assert payload[..|payload|] == payload;
  }

  /** The nested loops that build `hiddenData`: eight or more selectors per unit. */
  method WriteSelectors(encrypted: Text) returns (hidden: Text)
    ensures hidden == HiddenSelectors(encrypted)
  {
    hidden := [];
    for i := 0 to |encrypted|
      invariant hidden == HiddenSelectors(encrypted[..i])
    {
      var binary := Numeral(encrypted[i]);
      hidden := AppendSelectors(hidden, binary);
      FlattenStep(SelectorsOf, encrypted, i);
    }
    assert encrypted[..|encrypted|] == encrypted;
  }

  /** The inner loop of the second loop: one selector per digit of `binary`, appended to `hidden`. */
  method AppendSelectors(hidden: Text, binary: string) returns (h: Text)
    ensures h == hidden + Selectors(binary)
  {
    h := hidden;
    for j := 0 to |binary|
      invariant h == hidden + Selectors(binary[..j])
    {
      assert binary[..j + 1][..j] == binary[..j];
      h := h + [if binary[j] == '0' then TextSelector else EmojiSelector];
    }
    assert binary[..|binary|] == binary;
  }

  /** The carrier half of `extractDataFromEmoji(encodedEmoji)`, up to the text handed to `atob`. */
  method RecoverPayload(s: Text) returns (r: Result<Text>)
    ensures r == Extracted(s)
  {
    if IndexOf(s, Marker).None? {
      return Err(NoHiddenData);
    }
    var parts := Split(s, Marker);
    if |parts| < 2 {
      SplitAtFirst(s, Marker);
      assert false;
    }
    var bits := ReadSelectors(parts[1]);
    var encrypted := ReadGroups(bits);
    var payload := ShiftDown(encrypted);
    r := Ok(payload);
  }

  /** The loop that builds `binaryString`: '0' for U+FE0E, '1' for U+FE0F, nothing for any other unit. */
  method ReadSelectors(hidden: Text) returns (bits: string)
    ensures bits == SelectorBits(hidden) && IsBits(bits)
  {
    bits := "";
    for i := 0 to |hidden|
      invariant bits == SelectorBits(hidden[..i])
    {
      FlattenStep(Bit, hidden, i);
      if hidden[i] == TextSelector {
        bits := bits + "0";
      } else if hidden[i] == EmojiSelector {
        bits := bits + "1";
      }
    }
    assert hidden[..|hidden|] == hidden;
    SelectorBitsAreBits(hidden);
  }

  /** The loop that builds `encryptedData`: `substr(i, 8)`, kept only when eight digits long. */
  method ReadGroups(bits: string) returns (encrypted: Text)
    requires IsBits(bits)
    ensures encrypted == Bytes(bits)
  {
    encrypted := [];
    var i := 0;
    while i < |bits|
      invariant 0 <= i
      invariant encrypted + Bytes(bits[Min(i, |bits|)..]) == Bytes(bits)
      decreases |bits| - i
    {
      BytesStep(bits, i);
      var byte := bits[i..Min(i + 8, |bits|)];
      if |byte| == 8 {
        assert Pow2(8) == 256;
        encrypted := encrypted + [FromBits(byte)];
      }
      i := i + 8;
    }
    assert bits[Min(i, |bits|)..] == [];
  }

  /** The loop that builds `base64Data`. */
  method ShiftDown(encrypted: Text) returns (payload: Text)
    ensures payload == Unshifted(encrypted)
  {
    payload := [];
    for k := 0 to |encrypted|
      invariant payload == Unshifted(encrypted[..k])
    {
      payload := payload + [Unshift(encrypted[k])];
    }
    assert encrypted[..|encrypted|] == encrypted;
  }

  lemma BytesStep(b: string, i: nat)
    requires IsBits(b) && i < |b|
    ensures IsBits(b[i..Min(i + 8, |b|)])
    ensures |b[i..Min(i + 8, |b|)]| == 8 ==> Bytes(b[i..]) == [FromBits(b[i..i + 8]) as Unit] + Bytes(b[Min(i + 8, |b|)..])
    ensures |b[i..Min(i + 8, |b|)]| < 8 ==> Bytes(b[i..]) == [] && Bytes(b[Min(i + 8, |b|)..]) == []
  {
    var rest := b[i..];
    if |rest| >= 8 {
      assert rest[..8] == b[i..i + 8];
      assert rest[8..] == b[i + 8..];
    } else {
      assert b[Min(i + 8, |b|)..] == [];
    }
  }

  // ---------------------------------------------------------------- what the carrier promises

  lemma {:induction false} SelectorsShape(b: string)
    ensures |Selectors(b)| == |b|
    ensures forall i :: 0 <= i < |b| ==> Selectors(b)[i] == Selector(b[i])
    decreases |b|
  {
    if b != [] {
      SelectorsShape(b[..|b| - 1]);
    }
  }

  /**
   * The output of `embedDataInEmoji` is the base emoji, the separator and
   * the hidden part; for payload units below 255 the hidden part holds
   * exactly eight selectors per unit, each U+FE0E or U+FE0F.
   */
  lemma EmbeddedShape(base: Text, payload: Text)
    requires forall i :: 0 <= i < |payload| ==> payload[i] < 255
    ensures Embedded(base, payload)[..|base|] == base
    ensures Embedded(base, payload)[|base|..|base| + 4] == Marker
    ensures |Embedded(base, payload)| == |base| + 4 + 8 * |payload|
    ensures forall i :: |base| + 4 <= i < |Embedded(base, payload)| ==>
      Embedded(base, payload)[i] == TextSelector || Embedded(base, payload)[i] == EmojiSelector
  {
    var e := Shifted(payload);
    assert forall i :: 0 <= i < |e| ==> |SelectorsOf(e[i])| == 8 by {
      forall i | 0 <= i < |e| ensures |SelectorsOf(e[i])| == 8 {
        NumeralOfByte(e[i]);
        SelectorsShape(Numeral(e[i]));
      }
    }
    FlattenLength(SelectorsOf, e, 8);
    OnlySelectors(e);
  }

  lemma {:induction false} OnlySelectors(e: Text)
    ensures forall i :: 0 <= i < |HiddenSelectors(e)| ==>
      HiddenSelectors(e)[i] == TextSelector || HiddenSelectors(e)[i] == EmojiSelector
    decreases |e|
  {
    if e != [] {
      var init := e[..|e| - 1];
      OnlySelectors(init);
      SelectorsShape(Numeral(e[|e| - 1]));
      var h, a, b := HiddenSelectors(e), HiddenSelectors(init), SelectorsOf(e[|e| - 1]);
      assert h == a + b;
      forall i | 0 <= i < |h| ensures h[i] == TextSelector || h[i] == EmojiSelector {
        if i >= |a| { assert h[i] == b[i - |a|]; }
      }
    }
  }

  /** Extraction fails exactly when the separator is absent, and then with `NoHiddenData`. */
  lemma ExtractedFails(s: Text)
    ensures Extracted(s).Err? <==> IndexOf(s, Marker).None?
    ensures Extracted(s).Err? ==> Extracted(s).error == NoHiddenData
  {
    if IndexOf(s, Marker).Some? {
      SplitAtFirst(s, Marker);
    }
  }

  /** A unit other than the two selectors contributes no digit wherever it stands. */
  lemma OtherUnitsIgnored(x: Text, u: Unit, y: Text)
    requires u != TextSelector && u != EmojiSelector
    ensures SelectorBits(x + [u] + y) == SelectorBits(x + y)
  {
    FlattenConcat(Bit, x + [u], y);
    FlattenConcat(Bit, x, [u]);
    FlattenSingle(Bit, u);
    FlattenConcat(Bit, x, y);
  }

  /** A trailing group of fewer than eight digits is dropped. */
  lemma {:induction false} ShortTailDropped(b: string, t: string)
    requires IsBits(b) && IsBits(t) && |b| % 8 == 0 && |t| < 8
    ensures IsBits(b + t) && Bytes(b + t) == Bytes(b)
    decreases |b|
  {
    BitsConcat(b, t);
    if |b| == 0 {
      assert b + t == t;
    } else {
      var bt := b + t;
      assert bt[..8] == b[..8] && bt[8..] == b[8..] + t;
      ShortTailDropped(b[8..], t);
    }
  }

  /** Bytes read from whole groups are the groups `binaryStringToData` reads. */
  lemma {:induction false} BytesOfWholeGroups(b: string)
    requires IsBits(b) && |b| % 8 == 0
    ensures Bytes(b) == Groups(b)
    decreases |b|
  {
    if b != [] {
      BytesOfWholeGroups(b[8..]);
      PadEndZeros(b[..8]);
    }
  }

  /** A digit's selector reads back as the digit. */
  lemma {:induction false} SelectorsReadBack(b: string)
    requires IsBits(b)
    ensures SelectorBits(Selectors(b)) == b
    decreases |b|
  {
    if b != [] {
      var init, d := b[..|b| - 1], b[|b| - 1];
      SelectorsReadBack(init);
      FlattenConcat(Bit, Selectors(init), [Selector(d)]);
      FlattenSingle(Bit, Selector(d));
      assert b == init + [d];
    }
  }

  /** Shifting down undoes shifting up for every unit, U+FFFF (which wraps round to zero) included. */
  lemma UnshiftShifted(p: Text)
    ensures Unshifted(Shifted(p)) == p
  {
  }

  /**
   * The carrier round trip: for a base emoji without U+200C and payload
   * units below 255, extraction recovers the payload exactly.
   */
  lemma CarrierRoundTrip(base: Text, payload: Text)
    requires forall i :: 0 <= i < |base| ==> base[i] != 0x200C
    requires forall i :: 0 <= i < |payload| ==> payload[i] < 255
    ensures Extracted(Embedded(base, payload)) == Ok(payload)
  {
    var e := Shifted(payload);
    var h := HiddenSelectors(e);
    OnlySelectors(e);
    SplitAfterBase(base, h);
    HiddenReadsBack(e);
    UnshiftShifted(payload);
  }

  /** The first separator of `base + Marker + h` is the one after the base, and the hidden part is `h`. */
  lemma SplitAfterBase(base: Text, h: Text)
    requires forall i :: 0 <= i < |base| ==> base[i] != 0x200C
    requires forall i :: 0 <= i < |h| ==> h[i] == TextSelector || h[i] == EmojiSelector
    ensures IndexOf(base + Marker + h, Marker) == Some(|base|)
    ensures |Split(base + Marker + h, Marker)| >= 2 && Split(base + Marker + h, Marker)[1] == h
  {
    var s := base + Marker + h;
    assert IndexOf(s, Marker) == Some(|base|) by {
      assert s[|base|..|base| + 4] == Marker;
      forall j | 0 <= j < |base| ensures !OccursAt(s, Marker, j) {
        assert s[j] == base[j];
        Mismatch(s, Marker, j);
      }
      IndexOfIs(s, Marker, |base|);
    }
    assert s[|base| + 4..] == h;
    assert IndexOf(h, Marker).None? by {
      forall j: nat ensures !OccursAt(h, Marker, j) {
        if j < |h| {
          Mismatch(h, Marker, j);
        }
      }
      IndexOfFirst(h, Marker);
    }
    SplitAtFirst(s, Marker);
  }

  lemma Mismatch(s: Text, m: Text, j: nat)
    requires |m| > 0 && (j < |s| ==> s[j] != m[0])
    ensures !OccursAt(s, m, j)
  {
  }

  /** The selectors written for units below 256 read back as those units. */
  lemma HiddenReadsBack(e: Text)
    requires forall i :: 0 <= i < |e| ==> e[i] < 256
    ensures IsBits(SelectorBits(HiddenSelectors(e)))
    ensures Bytes(SelectorBits(HiddenSelectors(e))) == e
  {
    var x := SelectorBits(HiddenSelectors(e));
    assert x == Numerals(e) by {
      HiddenBits(e);
    }
    assert IsBits(x) && |x| % 8 == 0 && Groups(x) == e by {
      NumeralsRoundTrip(e);
    }
    BytesOfWholeGroups(x);
  }

  lemma {:induction false} HiddenBits(e: Text)
    requires forall i :: 0 <= i < |e| ==> e[i] < 256
    ensures SelectorBits(HiddenSelectors(e)) == Numerals(e)
    decreases |e|
  {
    if e != [] {
      var init, c := e[..|e| - 1], e[|e| - 1];
      HiddenBits(init);
      FlattenConcat(Bit, HiddenSelectors(init), SelectorsOf(c));
      UnitReadsBack(c);
    }
  }

  lemma UnitReadsBack(c: Unit)
    requires c < 256
    ensures Flatten(Bit, SelectorsOf(c)) == Numeral(c)
  {
    NumeralOfByte(c);
    SelectorsReadBack(Numeral(c));
  }
}
