/** Abbreviated dialling number records (EF-ADN): an alpha identifier of
    `length - 14` bytes followed by a fixed 14-byte tail holding the BCD
    number length, the type of number, ten BCD bytes and two unused
    extension bytes. */
module Adn {
  import opened Bytes
  import opened SimText

  /** The size of the fixed tail after the alpha identifier. */
  const TAIL_LENGTH: nat := 14

  /** The BCD number field holds at most ten bytes, twenty digits. */
  const NUMBER_BYTES: nat := 10

  /** A parsed record: `struct ofono_phone_number` and the identifier. */
  datatype AdnEntry = AdnEntry(numberType: int, number: string, identifier: Option<string>)

  /** `sim_adn_parse`: the tail sits at the end of the record; the parse
      fails when the record is shorter than the tail, its length byte is
      above 11 or its type byte is 0xFF.  The BCD converter is given the
      number field and the length byte minus the type byte. */
  function AdnParse(data: seq<byte>, conv: Converters): (r: Option<AdnEntry>)
    ensures r.None? <==>
              |data| < TAIL_LENGTH || data[|data| - 14] > 11 || data[|data| - 13] == 0xFF
    ensures r.Some? ==> 0 <= r.value.numberType < 0xFF
  {
    if |data| < TAIL_LENGTH then None
    else
      var alphaLength := |data| - TAIL_LENGTH;
      var numberLen := data[alphaLength];
      var tonNpi := data[alphaLength + 1];
      if numberLen > 11 || tonNpi == 0xFF then None
      else
        var number := conv.extractBcd(data[alphaLength + 2..alphaLength + 12], (numberLen as int) - 1);
        var identifier := if alphaLength > 0 then conv.simStringToUtf8(data[..alphaLength]) else None;
        Some(AdnEntry(tonNpi, number, identifier))
  }

  function Min(a: int, b: int): int
  {
    if a <= b then a else b
  }

  /** The alpha field `sim_adn_build` writes: the identifier converted to
      the GSM alphabet and cut to the field, then 0xFF padding. */
  function AlphaField(alphaLength: nat, identifier: Option<string>, conv: Converters): (f: seq<byte>)
    ensures |f| == alphaLength
  {
    var gsm := if identifier.Some? then conv.utf8ToGsm(identifier.value) else None;
    var k := if gsm.Some? then Min(|gsm.value|, alphaLength) else 0;
    (if gsm.Some? then gsm.value[..k] else []) + seq(alphaLength - k, _ => 0xFF)
  }

  /** The record `sim_adn_build` writes for a number of `|number|` digits,
      whose BCD bytes are what the converter `encodeBcd` yields. */
  function AdnRecord(alphaLength: nat, number: string, numberType: int, identifier: Option<string>, conv: Converters): (rec: seq<byte>)
    requires |number| <= 2 * NUMBER_BYTES
    requires |conv.encodeBcd(number)| == (|number| + 1) / 2
    ensures |rec| == alphaLength + TAIL_LENGTH
  {
    var numberLen := (|number| + 1) / 2;
    AlphaField(alphaLength, identifier, conv)
      + [numberLen + 1, numberType % 0x100]
      + conv.encodeBcd(number) + seq(NUMBER_BYTES - numberLen, _ => 0xFF)
      + [0xFF, 0xFF]
  }

  /** The record's layout: the alpha field, the length byte counting the
      BCD bytes plus the type byte, the type truncated to a byte, the BCD
      bytes padded with 0xFF to ten, and 0xFF in the two extension bytes. */
  lemma AdnRecordLayout(alphaLength: nat, number: string, numberType: int, identifier: Option<string>, conv: Converters)
    requires |number| <= 2 * NUMBER_BYTES
    requires |conv.encodeBcd(number)| == (|number| + 1) / 2
    ensures var rec := AdnRecord(alphaLength, number, numberType, identifier, conv);
            var numberLen := (|number| + 1) / 2;
            && rec[..alphaLength] == AlphaField(alphaLength, identifier, conv)
            && rec[alphaLength] == numberLen + 1
            && rec[alphaLength + 1] == numberType % 0x100
            && rec[alphaLength + 2..alphaLength + 2 + numberLen] == conv.encodeBcd(number)
            && (forall i :: alphaLength + 2 + numberLen <= i < alphaLength + TAIL_LENGTH ==> rec[i] == 0xFF)
  {
    var rec := AdnRecord(alphaLength, number, numberType, identifier, conv);
    var numberLen := (|number| + 1) / 2;
    var alpha := AlphaField(alphaLength, identifier, conv);
    var tail := seq(NUMBER_BYTES - numberLen, _ => 0xFF) + [0xFF, 0xFF];
    assert rec == alpha + [numberLen + 1, numberType % 0x100] + conv.encodeBcd(number) + tail;
    forall i | alphaLength + 2 + numberLen <= i < alphaLength + TAIL_LENGTH ensures rec[i] == 0xFF {
      assert rec[i] == tail[i - alphaLength - 2 - numberLen];
    }
  }

  /** Parsing a built record gives back the type (when it is a byte other
      than 0xFF), the identifier as the alpha decoder reads the field, and
      the number whenever the BCD converters undo each other. */
  lemma ParseBuiltRecord(alphaLength: nat, number: string, numberType: int, identifier: Option<string>, conv: Converters)
    requires |number| <= 2 * NUMBER_BYTES
    requires |conv.encodeBcd(number)| == (|number| + 1) / 2
    requires 0 <= numberType < 0xFF
    ensures var rec := AdnRecord(alphaLength, number, numberType, identifier, conv);
            var field := rec[alphaLength + 2..alphaLength + 12];
            && AdnParse(rec, conv).Some?
            && AdnParse(rec, conv).value.numberType == numberType
            && AdnParse(rec, conv).value.number == conv.extractBcd(field, (|number| + 1) / 2)
            && AdnParse(rec, conv).value.identifier ==
                 (if alphaLength > 0 then conv.simStringToUtf8(AlphaField(alphaLength, identifier, conv)) else None)
            && (conv.extractBcd(field, (|number| + 1) / 2) == number ==> AdnParse(rec, conv).value.number == number)
  {
    AdnRecordLayout(alphaLength, number, numberType, identifier, conv);
  }

  /** `memset`: `count` copies of `v` from `from` on; nothing else changes. */
  method Fill(data: array<byte>, from: nat, count: nat, v: byte)
    requires from + count <= data.Length
    modifies data
    ensures forall k | 0 <= k < data.Length ::
              data[k] == if from <= k < from + count then v else old(data[k])
  {
    var i := 0;
    while i < count
      invariant 0 <= i <= count
      invariant forall k | 0 <= k < data.Length ::
                  data[k] == if from <= k < from + i then v else old(data[k])
    {
      data[from + i] := v;
      i := i + 1;
    }
  }

  /** `memcpy`: the bytes of `src` from `from` on; nothing else changes. */
  method Copy(data: array<byte>, from: nat, src: seq<byte>)
    requires from + |src| <= data.Length
    modifies data
    ensures forall k | 0 <= k < data.Length ::
              data[k] == if from <= k < from + |src| then src[k - from] else old(data[k])
  {
    var i := 0;
    while i < |src|
      invariant 0 <= i <= |src|
      invariant forall k | 0 <= k < data.Length ::
                  data[k] == if from <= k < from + i then src[k - from] else old(data[k])
    {
      data[from + i] := src[i];
      i := i + 1;
    }
  }

  /** The alpha-field length `sim_adn_build` uses: `length - 14` when that
      is positive; otherwise the tail starts at the first byte. */
  function AlphaLength(length: int): nat
  {
    if length > TAIL_LENGTH then length - TAIL_LENGTH else 0
  }

  /** `sim_adn_build`: fill the alpha field, then the tail, leaving every
      byte after the record as it was. */
  method AdnBuild(data: array<byte>, length: int, number: string, numberType: int, identifier: Option<string>, conv: Converters)
    requires AlphaLength(length) + TAIL_LENGTH <= data.Length
    requires |number| <= 2 * NUMBER_BYTES
    requires |conv.encodeBcd(number)| == (|number| + 1) / 2
    modifies data
    ensures data[..AlphaLength(length) + TAIL_LENGTH] ==
              AdnRecord(AlphaLength(length), number, numberType, identifier, conv)
    ensures data[AlphaLength(length) + TAIL_LENGTH..] == old(data[AlphaLength(length) + TAIL_LENGTH..])
  {
    var alphaLength := AlphaLength(length);
    if alphaLength > 0 {
      FillAlpha(data, alphaLength, identifier, conv);
    }
    assert data[..alphaLength] == AlphaField(alphaLength, identifier, conv);
    FillTail(data, alphaLength, number, numberType, conv);
    assert data[..alphaLength + TAIL_LENGTH] == data[..alphaLength] + data[alphaLength..alphaLength + TAIL_LENGTH];
  }

  /** The alpha part of `sim_adn_build`. */
  method FillAlpha(data: array<byte>, alphaLength: nat, identifier: Option<string>, conv: Converters)
    requires alphaLength <= data.Length
    modifies data
    ensures data[..alphaLength] == AlphaField(alphaLength, identifier, conv)
    ensures data[alphaLength..] == old(data[alphaLength..])
  {
    ghost var before := data[..];
    ghost var field := AlphaField(alphaLength, identifier, conv);
    Fill(data, 0, alphaLength, 0xFF);
    var gsm: Option<seq<byte>> := None;
    if identifier.Some? {
      gsm := conv.utf8ToGsm(identifier.value);
    }
    if gsm.Some? {
      var k := Min(|gsm.value|, alphaLength);
      Copy(data, 0, gsm.value[..k]);
      assert forall i | 0 <= i < alphaLength :: data[i] == field[i];
    } else {
      assert forall i | 0 <= i < alphaLength :: data[i] == field[i];
    }
    assert forall i | alphaLength <= i < data.Length :: data[i] == before[i];
  }

  /** The tail part of `sim_adn_build`, from the cursor `pos` on. */
  method FillTail(data: array<byte>, pos: nat, number: string, numberType: int, conv: Converters)
    requires pos + TAIL_LENGTH <= data.Length
    requires |number| <= 2 * NUMBER_BYTES
    requires |conv.encodeBcd(number)| == (|number| + 1) / 2
    modifies data
    ensures data[..pos] == old(data[..pos])
    ensures data[pos..pos + TAIL_LENGTH] ==
              [(|number| + 1) / 2 + 1, numberType % 0x100] + conv.encodeBcd(number)
              + seq(NUMBER_BYTES - (|number| + 1) / 2, _ => 0xFF) + [0xFF, 0xFF]
    ensures data[pos + TAIL_LENGTH..] == old(data[pos + TAIL_LENGTH..])
  {
    var numberLen := (|number| + 1) / 2;
    var bcd := conv.encodeBcd(number);
    ghost var expected := [numberLen + 1, numberType % 0x100] + bcd
                          + seq(NUMBER_BYTES - numberLen, _ => 0xFF) + [0xFF, 0xFF];
    ghost var before := data[..];
    data[pos] := numberLen + 1;
    data[pos + 1] := numberType % 0x100;
    Copy(data, pos + 2, bcd);
    Fill(data, pos + 2 + numberLen, NUMBER_BYTES - numberLen, 0xFF);
    data[pos + 12] := 0xFF;
    data[pos + 13] := 0xFF;
    assert forall i | pos <= i < pos + TAIL_LENGTH :: data[i] == expected[i - pos];
    assert forall i | 0 <= i < pos :: data[i] == before[i];
    assert forall i | pos + TAIL_LENGTH <= i < data.Length :: data[i] == before[i];
  }
}
