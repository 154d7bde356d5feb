/** Text fields of SIM files: the network-name coding of 3GPP TS 24.008
    section 10.5.3.5a, and the character-set converters the codecs call.
    The converters themselves are outside this model; they are passed in. */
module SimText {
  import opened Bytes

  /** The converters the SIM-file codecs call, each as a total function
      (a NULL result is None):
      - gsmToUtf8: GSM default alphabet, one character per byte, to UTF-8;
      - ucs2ToUtf8: UCS-2 big-endian to UTF-8;
      - simStringToUtf8: the SIM alpha-string decoder;
      - utf8ToGsm: UTF-8 to GSM default alphabet bytes;
      - extractBcd: a BCD number field and a byte count to a digit string;
      - encodeBcd: a digit string to its BCD bytes. */
  datatype Converters = Converters(
    gsmToUtf8: seq<byte> -> Option<string>,
    ucs2ToUtf8: seq<byte> -> Option<string>,
    simStringToUtf8: seq<byte> -> Option<string>,
    utf8ToGsm: string -> Option<seq<byte>>,
    extractBcd: (seq<byte>, int) -> string,
    encodeBcd: string -> seq<byte>)

  /** What the network-name decoder hands back.  Rejected: it returned NULL
      before writing `*add_ci`.  Decoded: it wrote `*add_ci` and returned
      `name`, which is None for an unknown coding scheme or a failed
      conversion. */
  datatype NameParse = Rejected | Decoded(name: Option<string>, addCi: bool)

  /** Bits 7..5 of the coding-scheme byte. */
  function CodingScheme(dcs: byte): (s: nat)
    ensures s < 8
  {
    (dcs / 0x10) % 8
  }

  /** Bit 4 of the coding-scheme byte in the numbering of TS 24.008, where
      bit 1 is the least significant (mask 0x08): "add the letters for the
      country's initials". */
  predicate AddsCountryInitials(dcs: byte)
  {
    (dcs / 0x08) % 2 == 1
  }

  /** The flag as the source tests it: `is_bit_set(dcs, 4)` shifts 1 left by
      four, so it reads mask 0x10, which is the low bit of the coding-scheme
      field. */
  predicate AddsCountryInitialsAsWritten(dcs: byte)
  {
    (dcs / 0x10) % 2 == 1
  }

  /** As written, the flag is set exactly for the odd coding schemes: every
      UCS-2 name asks for country initials and no GSM name can. */
  lemma CountryInitialsAsWrittenFollowScheme(dcs: byte)
    ensures AddsCountryInitialsAsWritten(dcs) <==> CodingScheme(dcs) % 2 == 1
    ensures CodingScheme(dcs) == 0 ==> !AddsCountryInitialsAsWritten(dcs)
    ensures CodingScheme(dcs) == 1 ==> AddsCountryInitialsAsWritten(dcs)
  {
  }

  /** The intended flag is independent of the coding scheme: 0x88 is GSM
      text with initials and 0x90 is UCS-2 text without them, while as
      written the two are read the other way round. */
  lemma CountryInitialsIndependentOfScheme()
    ensures CodingScheme(0x88) == 0 && AddsCountryInitials(0x88) && !AddsCountryInitialsAsWritten(0x88)
    ensures CodingScheme(0x90) == 1 && !AddsCountryInitials(0x90) && AddsCountryInitialsAsWritten(0x90)
    ensures forall dcs: byte :: !AddsCountryInitials(dcs) ==>
              dcs + 0x08 < 0x100 && AddsCountryInitials(dcs + 0x08) && CodingScheme(dcs + 0x08) == CodingScheme(dcs)
  {
  }

  /** The flag the decoder reports: as the source tests it when
      `asWritten`, otherwise bit 4 of TS 24.008. */
  predicate CountryInitials(dcs: byte, asWritten: bool)
  {
    if asWritten then AddsCountryInitialsAsWritten(dcs) else AddsCountryInitials(dcs)
  }

  /** The bytes before the first 0xFF, as `memchr` finds it. */
  function UntilFF(s: seq<byte>): (r: seq<byte>)
    ensures r <= s
    ensures 0xFF !in r
    ensures |r| < |s| ==> s[|r|] == 0xFF
  {
    if s == [] || s[0] == 0xFF then [] else [s[0]] + UntilFF(s[1..])
  }

  /** `sim_network_name_parse`: the first byte is the coding scheme; GSM text
      is cut at the first 0xFF; UCS-2 text of odd length must end in a 0xFF
      pad, which is dropped.  The scan for a 0xFFFF code unit that the source
      runs next discards its result, so the converter receives every
      remaining byte.  The country-initials flag is read as the source
      reads it when `asWritten`, and from bit 4 (mask 0x08) otherwise. */
  function NetworkNameParse(buf: seq<byte>, conv: Converters, asWritten: bool): (r: NameParse)
    ensures r.Rejected? <==>
              |buf| == 0 || (CodingScheme(buf[0]) == 1 && |buf| % 2 == 0 && buf[|buf| - 1] != 0xFF)
    ensures r.Decoded? ==> r.addCi == CountryInitials(buf[0], asWritten)
    ensures r.Decoded? && CodingScheme(buf[0]) == 0 ==>
              r.name == conv.gsmToUtf8(UntilFF(buf[1..]))
    ensures r.Decoded? && CodingScheme(buf[0]) == 1 ==>
              r.name == conv.ucs2ToUtf8(buf[1..][..(|buf| - 1) / 2 * 2])
    ensures r.Decoded? && CodingScheme(buf[0]) >= 2 ==> r.name == None
  {
    if |buf| < 1 then Rejected
    else
      var dcs := buf[0];
      var text := buf[1..];
      var ci := CountryInitials(dcs, asWritten);
      match CodingScheme(dcs)
      case 0 => Decoded(conv.gsmToUtf8(UntilFF(text)), ci)
      case 1 =>
        if |text| % 2 == 1 && text[|text| - 1] != 0xFF then Rejected
        else if |text| % 2 == 1 then Decoded(conv.ucs2ToUtf8(text[..|text| - 1]), ci)
        else
          assert text[..|text| / 2 * 2] == text;
          Decoded(conv.ucs2ToUtf8(text), ci)
      case _ => Decoded(None, ci)
  }

  /** The two readings of the flag change nothing else: the same buffers
      are rejected and the same names decoded. */
  lemma NameReadingsAgree(buf: seq<byte>, conv: Converters)
    ensures NetworkNameParse(buf, conv, true).Rejected? == NetworkNameParse(buf, conv, false).Rejected?
    ensures NetworkNameParse(buf, conv, true).Decoded? ==>
              NetworkNameParse(buf, conv, true).name == NetworkNameParse(buf, conv, false).name
  {
  }

  /** A UCS-2 name without initials (0x90) is reported with the flag set as
      written and clear when corrected; a GSM name with initials (0x88) the
      other way round. */
  lemma CountryInitialsOfNames(ucs2: seq<byte>, gsm: seq<byte>, conv: Converters)
    requires ucs2 == [0x90, 0x00, 0x41]
    requires gsm == [0x88, 0x41]
    ensures NetworkNameParse(ucs2, conv, true) == Decoded(conv.ucs2ToUtf8([0x00, 0x41]), true)
    ensures NetworkNameParse(ucs2, conv, false) == Decoded(conv.ucs2ToUtf8([0x00, 0x41]), false)
    ensures NetworkNameParse(gsm, conv, true) == Decoded(conv.gsmToUtf8([0x41]), false)
    ensures NetworkNameParse(gsm, conv, false) == Decoded(conv.gsmToUtf8([0x41]), true)
  {
    assert ucs2[1..] == [0x00, 0x41];
    assert gsm[1..] == [0x41];
    assert UntilFF([0x41]) == [0x41];
  }
}
