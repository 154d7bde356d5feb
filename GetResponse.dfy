/** Decoding of the GET RESPONSE data a card returns for a selected
    elementary file: the file size, record length, structure and access
    conditions, from a 3G file control parameters template (BER-TLV) or
    from a fixed-layout 2G response. */
module GetResponse {
  import opened Bytes
  import opened BerTlv
  import opened EfDb

  /** What both parsers report: `*file_len`, `*record_len`, `*structure`
      and the three `access` bytes. */
  datatype FileInfo = FileInfo(fileLength: int, recordLength: int, structure: int, access: seq<byte>)

  /** A 3G response also reports the file id, `*efid`. */
  datatype Response3g = Response3g(info: FileInfo, efid: uint16)

  /** The FCP template tag and the tags read inside it: file size, file
      descriptor and file identifier. */
  const FCP_TAG: byte := 0x62
  const FILE_SIZE_TAG: byte := 0x80
  const DESCRIPTOR_TAG: byte := 0x82
  const FILE_ID_TAG: byte := 0x83

  /** The data coding byte every accepted descriptor carries. */
  const DATA_CODING: byte := 0x21

  /** The structure code for the file-type bits of a descriptor byte: 1
      transparent, 2 linear fixed, 6 cyclic; anything else is refused. */
  function StructureCode(bits: int): (r: Option<int>)
    ensures r.Some? ==> r.value in {BINARY, RECORD, CYCLIC}
  {
    if bits == 1 then Some(BINARY)
    else if bits == 2 then Some(RECORD)
    else if bits == 6 then Some(CYCLIC)
    else None
  }

  /** The structure as the parser reads it: the descriptor byte masked
      with 0x3, which can never give 6. */
  function StructureAsWritten(fdb: byte): Option<int>
  {
    StructureCode(fdb % 4)
  }

  /** The structure as the three-bit file-type field of the descriptor
      gives it: masked with 0x7. */
  function Structure(fdb: byte): Option<int>
  {
    StructureCode(fdb % 8)
  }

  /** As written, no descriptor byte is ever reported cyclic. */
  lemma StructureAsWrittenNeverCyclic(fdb: byte)
    ensures StructureAsWritten(fdb) != Some(CYCLIC)
    ensures StructureAsWritten(fdb).Some? ==> StructureAsWritten(fdb).value in {BINARY, RECORD}
  {
  }

  /** The two readings agree except when the file-type bits are 5 or 6:
      as written, 5 passes as transparent and a cyclic file (6) passes as
      linear fixed. */
  lemma StructureReadings(fdb: byte)
    ensures fdb % 8 != 5 && fdb % 8 != 6 ==> StructureAsWritten(fdb) == Structure(fdb)
    ensures fdb % 8 == 5 ==> StructureAsWritten(fdb) == Some(BINARY) && Structure(fdb).None?
    ensures fdb % 8 == 6 ==> StructureAsWritten(fdb) == Some(RECORD) && Structure(fdb) == Some(CYCLIC)
  {
    assert fdb % 4 == (fdb % 8) % 4;
  }

  /** The descriptor of a cyclic file, 0x46, as written and as intended. */
  lemma CyclicDescriptor()
    ensures StructureAsWritten(0x46) == Some(RECORD)
    ensures Structure(0x46) == Some(CYCLIC)
  {
  }

  /** The file size as the parser accumulates it: the first byte, then for
      each further byte `flen = (flen << 8) | byte` in a C `int`. */
  function FileLength(v: seq<byte>): int
    requires |v| >= 1
  {
    if |v| == 1 then v[0] else Int32(FileLength(v[..|v| - 1]) * 0x100 + v[|v| - 1])
  }

  lemma Int32Congruent(a: int, b: int)
    requires (a - b) % 0x1_0000_0000 == 0
    ensures Int32(a) == Int32(b)
  {
    assert a % 0x1_0000_0000 == b % 0x1_0000_0000;
  }

  /** Shifting in a byte commutes with the wrap-around. */
  lemma Int32Shift(x: int, b: byte)
    ensures Int32(Int32(x) * 0x100 + b) == Int32(x * 0x100 + b)
  {
    var q := (x - Int32(x)) / 0x1_0000_0000;
    assert x - Int32(x) == q * 0x1_0000_0000;
    assert (x * 0x100 + b) - (Int32(x) * 0x100 + b) == (q * 0x100) * 0x1_0000_0000;
    Int32Congruent(x * 0x100 + b, Int32(x) * 0x100 + b);
  }

  /** The accumulated size is the big-endian value of the bytes wrapped to
      32 bits; so it is that value whenever it fits in a signed `int`. */
  lemma {:induction false} FileLengthIsBigEndian(v: seq<byte>)
    requires |v| >= 1
    ensures FileLength(v) == Int32(BigEndian(v))
    ensures BigEndian(v) < 0x8000_0000 ==> FileLength(v) == BigEndian(v)
  {
    if |v| > 1 {
      var init := v[..|v| - 1];
      FileLengthIsBigEndian(init);
      Int32Shift(BigEndian(init), v[|v| - 1]);
    }
  }

  /** The value of the first fitting top-level TLV with this tag. */
  function TagValue(buf: seq<byte>, tag: byte): (v: Option<seq<byte>>)
    ensures v.Some? ==> |v.value| <= |buf|
  {
    match Lookup(buf, tag)
    case None => None
    case Some(t) => Some(Value(buf, t))
  }

  /** The access bytes a 3G response reports: the read and update
      conditions from the file table (0x11 for a file it does not list),
      then 0x1F for a cyclic file and 0xFF otherwise, then 0x44. */
  function Access3g(id: uint16, structure: int): (acc: seq<byte>)
    ensures |acc| == 3
  {
    var rw := match EfDbLookup(id)
              case None => 0x11
              case Some(info) => info.permRead * 0x10 + info.permUpdate;
    [rw, if structure == CYCLIC then 0x1F else 0xFF, 0x44]
  }

  /** What the file descriptor (tag 0x82) gives: the structure and the
      record length. */
  datatype Layout = Layout(structure: int, recordLength: int)

  /** The descriptor checks of `sim_parse_3g_get_response`: two or five
      bytes, the second 0x21, a known structure (read as written when
      `asWritten`), and the five-byte form for a record structure, whose
      fourth byte is then the record length. */
  function Descriptor(d: seq<byte>, asWritten: bool): (r: Option<Layout>)
    ensures r.Some? <==>
              && (|d| == 2 || |d| == 5) && d[1] == DATA_CODING
              && var str := if asWritten then StructureAsWritten(d[0]) else Structure(d[0]);
                 str.Some? && (str.value == BINARY || |d| == 5)
    ensures r.Some? ==>
              && r.value.structure == (if asWritten then StructureAsWritten(d[0]) else Structure(d[0])).value
              && r.value.recordLength == (if r.value.structure == BINARY then 0 else d[3])
  {
    if |d| != 2 && |d| != 5 then None
    else if d[1] != DATA_CODING then None
    else
      var str := if asWritten then StructureAsWritten(d[0]) else Structure(d[0]);
      if str.None? then None
      else if str.value != BINARY && |d| != 5 then None
      else Some(Layout(str.value, if str.value != BINARY then d[3] else 0))
  }

  /** The checks on the contents of the FCP template: a file size of at
      least two bytes, a two-byte file id and an accepted descriptor. */
  function DecodeFcp(fcp: seq<byte>, asWritten: bool): (r: Option<Response3g>)
    ensures r.Some? <==>
              && TagValue(fcp, FILE_SIZE_TAG).Some? && |TagValue(fcp, FILE_SIZE_TAG).value| >= 2
              && TagValue(fcp, FILE_ID_TAG).Some? && |TagValue(fcp, FILE_ID_TAG).value| == 2
              && TagValue(fcp, DESCRIPTOR_TAG).Some?
              && Descriptor(TagValue(fcp, DESCRIPTOR_TAG).value, asWritten).Some?
    ensures r.Some? ==> r.value.info.access == Access3g(r.value.efid, r.value.info.structure)
  {
    var size := TagValue(fcp, FILE_SIZE_TAG);
    var fid := TagValue(fcp, FILE_ID_TAG);
    var desc := TagValue(fcp, DESCRIPTOR_TAG);
    if size.None? || |size.value| < 2 then None
    else if fid.None? || |fid.value| != 2 then None
    else if desc.None? then None
    else
      var layout := Descriptor(desc.value, asWritten);
      if layout.None? then None
      else
        var id := (fid.value[0] as int) * 0x100 + fid.value[1];
        var str := layout.value.structure;
        Some(Response3g(FileInfo(FileLength(size.value), layout.value.recordLength, str, Access3g(id, str)), id))
  }

  /** `sim_parse_3g_get_response`, reading the structure as written
      (`asWritten`) or from the three file-type bits: the response must
      hold an FCP template (tag 0x62). */
  function Decode3g(data: seq<byte>, asWritten: bool): (r: Option<Response3g>)
    ensures TagValue(data, FCP_TAG).None? ==> r.None?
    ensures r.Some? ==> r.value.info.access == Access3g(r.value.efid, r.value.info.structure)
  {
    match TagValue(data, FCP_TAG)
    case None => None
    case Some(fcp) => DecodeFcp(fcp, asWritten)
  }

  /** The 3G decoder the rest of the model uses: structure from the
      three file-type bits. */
  function GetResponse3g(data: seq<byte>): Option<Response3g>
  {
    Decode3g(data, false)
  }

  /** When the 3G decoder accepts a response, and what it reports: the
      FCP template must hold a file size of at least two bytes, a two-byte
      file id and an accepted descriptor.  The size is the big-endian value
      of its bytes wrapped to a C `int`, the id the big-endian value of its
      two bytes. */
  lemma Decode3gFacts(data: seq<byte>, asWritten: bool)
    ensures var r := Decode3g(data, asWritten);
            var fcp := TagValue(data, FCP_TAG);
            r.Some? <==>
              && fcp.Some?
              && TagValue(fcp.value, FILE_SIZE_TAG).Some? && |TagValue(fcp.value, FILE_SIZE_TAG).value| >= 2
              && TagValue(fcp.value, FILE_ID_TAG).Some? && |TagValue(fcp.value, FILE_ID_TAG).value| == 2
              && TagValue(fcp.value, DESCRIPTOR_TAG).Some?
              && Descriptor(TagValue(fcp.value, DESCRIPTOR_TAG).value, asWritten).Some?
    ensures var r := Decode3g(data, asWritten);
            r.Some? ==>
              var fcp := TagValue(data, FCP_TAG).value;
              var size := TagValue(fcp, FILE_SIZE_TAG).value;
              var fid := TagValue(fcp, FILE_ID_TAG).value;
              var layout := Descriptor(TagValue(fcp, DESCRIPTOR_TAG).value, asWritten).value;
              && r.value.info.fileLength == Int32(BigEndian(size))
              && r.value.efid == BigEndian(fid)
              && r.value.info.structure == layout.structure
              && r.value.info.recordLength == layout.recordLength
              && r.value.info.access == Access3g(r.value.efid, r.value.info.structure)
  {
    var r := Decode3g(data, asWritten);
    if r.Some? {
      var fcp := TagValue(data, FCP_TAG).value;
      var size := TagValue(fcp, FILE_SIZE_TAG).value;
      var fid := TagValue(fcp, FILE_ID_TAG).value;
      FileLengthIsBigEndian(size);
      assert fid[..1] == [fid[0]];
      assert BigEndian(fid) == BigEndian(fid[..1]) * 0x100 + fid[1];
    }
  }

  /** The access bytes: the first from the file table or 0x11, the second
      0x1F only for a cyclic file, the third always 0x44. */
  lemma Access3gFacts(id: uint16, structure: int)
    ensures Access3g(id, structure)[0] ==
              (if EfDbLookup(id).None? then 0x11
               else EfDbLookup(id).value.permRead * 0x10 + EfDbLookup(id).value.permUpdate)
    ensures EfDbLookup(id).Some? ==>
              Access3g(id, structure)[0] / 0x10 == EfDbLookup(id).value.permRead
              && Access3g(id, structure)[0] % 0x10 == EfDbLookup(id).value.permUpdate
    ensures Access3g(id, structure)[1] == (if structure == CYCLIC then 0x1F else 0xFF)
    ensures Access3g(id, structure)[2] == 0x44
  {
  }

  /** As written, the 3G decoder only ever reports a transparent or a
      linear fixed file, so the second access byte is always 0xFF. */
  lemma AsWrittenNeverCyclic(data: seq<byte>)
    ensures var r := Decode3g(data, true);
            r.Some? ==> r.value.info.structure in {BINARY, RECORD} && r.value.info.access[1] == 0xFF
  {
    var r := Decode3g(data, true);
    if r.Some? {
      var d := TagValue(TagValue(data, FCP_TAG).value, DESCRIPTOR_TAG).value;
      StructureAsWrittenNeverCyclic(d[0]);
    }
  }

  /** The objects of an FCP template for a cyclic file of five 16-byte
      records: descriptor 46 21 00 10 05, file id 6F3A, file size 0050. */
  lemma CyclicTemplateValues(fcp: seq<byte>)
    requires fcp == [0x82, 0x05, 0x46, 0x21, 0x00, 0x10, 0x05, 0x83, 0x02, 0x6F, 0x3A, 0x80, 0x02, 0x00, 0x50]
    ensures TagValue(fcp, DESCRIPTOR_TAG) == Some([0x46, 0x21, 0x00, 0x10, 0x05])
    ensures TagValue(fcp, FILE_ID_TAG) == Some([0x6F, 0x3A])
    ensures TagValue(fcp, FILE_SIZE_TAG) == Some([0x00, 0x50])
  {
    assert SkipPadding(fcp, 0) == 0 && LengthPrefix(fcp, 1, 0) == (0, 1);
    assert ReadHeader(fcp, 0) == Some(Header(0, 0x82, 2, 5));
    assert SkipPadding(fcp, 7) == 7 && LengthPrefix(fcp, 8, 0) == (0, 8);
    assert ReadHeader(fcp, 7) == Some(Header(7, 0x83, 9, 2));
    assert SkipPadding(fcp, 11) == 11 && LengthPrefix(fcp, 12, 0) == (0, 12);
    assert ReadHeader(fcp, 11) == Some(Header(11, 0x80, 13, 2));
    assert Scan(fcp, 7, FILE_ID_TAG) == Some(Header(7, 0x83, 9, 2));
    assert Scan(fcp, 11, FILE_SIZE_TAG) == Some(Header(11, 0x80, 13, 2));
    assert Scan(fcp, 7, FILE_SIZE_TAG) == Scan(fcp, 11, FILE_SIZE_TAG);
    assert fcp[2..7] == [0x46, 0x21, 0x00, 0x10, 0x05];
    assert fcp[9..11] == [0x6F, 0x3A];
    assert fcp[13..15] == [0x00, 0x50];
  }

  /** The template of `CyclicTemplateValues` is the value of the FCP tag. */
  lemma CyclicResponseTemplate(data: seq<byte>)
    requires data == [0x62, 0x0F, 0x82, 0x05, 0x46, 0x21, 0x00, 0x10, 0x05, 0x83, 0x02, 0x6F, 0x3A, 0x80, 0x02, 0x00, 0x50]
    ensures TagValue(data, FCP_TAG) == Some(data[2..])
  {
    assert SkipPadding(data, 0) == 0 && LengthPrefix(data, 1, 0) == (0, 1);
    assert ReadHeader(data, 0) == Some(Header(0, 0x62, 2, 15));
    assert Scan(data, 0, FCP_TAG) == Some(Header(0, 0x62, 2, 15));
    assert Lookup(data, FCP_TAG) == Some(Tlv(2, 15));
    assert data[2..17] == data[2..];
  }

  /** As written, the response for a cyclic file parses as a linear fixed
      file of 16-byte records, with 0xFF as its second access byte. */
  lemma CyclicFileAsWritten(data: seq<byte>)
    requires data == [0x62, 0x0F, 0x82, 0x05, 0x46, 0x21, 0x00, 0x10, 0x05, 0x83, 0x02, 0x6F, 0x3A, 0x80, 0x02, 0x00, 0x50]
    ensures var r := Decode3g(data, true);
            && r.Some?
            && r.value.info.structure == RECORD
            && r.value.info.recordLength == 0x10
            && r.value.info.access[1] == 0xFF
  {
    CyclicResponseTemplate(data);
    CyclicTemplateValues(data[2..]);
    assert StructureAsWritten(0x46) == Some(RECORD);
  }

  /** With the three file-type bits, the same response parses as a cyclic
      file of 16-byte records and 0x50 bytes, with 0x1F as its second
      access byte. */
  lemma CyclicFileCorrected(data: seq<byte>)
    requires data == [0x62, 0x0F, 0x82, 0x05, 0x46, 0x21, 0x00, 0x10, 0x05, 0x83, 0x02, 0x6F, 0x3A, 0x80, 0x02, 0x00, 0x50]
    ensures var r := GetResponse3g(data);
            && r.Some?
            && r.value.info.structure == CYCLIC
            && r.value.info.recordLength == 0x10
            && r.value.info.fileLength == 0x50
            && r.value.efid == 0x6F3A
            && r.value.info.access[1] == 0x1F
  {
    CyclicResponseTemplate(data);
    CyclicTemplateValues(data[2..]);
    assert Structure(0x46) == Some(CYCLIC);
    assert FileLength([0x00, 0x50]) == 0x50;
  }

  /** The value of the first fitting TLV with the tag, by the scanner. */
  method FindValue(buf: seq<byte>, tag: byte) returns (v: Option<seq<byte>>)
    ensures v == TagValue(buf, tag)
  {
    var t := FindByTag(buf, tag);
    if t.None? {
      return None;
    }
    v := Some(buf[t.value.start..t.value.start + t.value.len]);
  }

  /** The file-size loop of `sim_parse_3g_get_response`. */
  method AccumulateFileLength(v: seq<byte>) returns (flen: int)
    requires |v| >= 1
    ensures flen == FileLength(v)
    ensures flen == Int32(BigEndian(v))
  {
    flen := v[0];
    var i := 1;
    while i < |v|
      invariant 1 <= i <= |v|
      invariant flen == FileLength(v[..i])
    {
      assert v[..i + 1][..i] == v[..i];
      flen := Int32(flen * 0x100 + v[i]);
      i := i + 1;
    }
    assert v[..|v|] == v;
    FileLengthIsBigEndian(v);
  }

  /** `sim_parse_3g_get_response`: with `asWritten` the structure switch
      is on `tlv[0] & 0x3` as in the source, otherwise on the three
      file-type bits. */
  method Parse3gGetResponse(data: seq<byte>, asWritten: bool) returns (r: Option<Response3g>)
    ensures r == Decode3g(data, asWritten)
    ensures !asWritten ==> r == GetResponse3g(data)
  {
    var fcp := FindValue(data, FCP_TAG);
    if fcp.None? {
      return None;
    }
    r := ParseFcp(fcp.value, asWritten);
  }

  /** The part of `sim_parse_3g_get_response` after the FCP template is
      found. */
  method ParseFcp(fcp: seq<byte>, asWritten: bool) returns (r: Option<Response3g>)
    ensures r == DecodeFcp(fcp, asWritten)
  {
    var size := FindValue(fcp, FILE_SIZE_TAG);
    if size.None? || |size.value| < 2 {
      return None;
    }
    var flen := AccumulateFileLength(size.value);
    var fid := FindValue(fcp, FILE_ID_TAG);
    if fid.None? || |fid.value| != 2 {
      return None;
    }
    var id := (fid.value[0] as int) * 0x100 + fid.value[1];
    var desc := FindValue(fcp, DESCRIPTOR_TAG);
    if desc.None? {
      return None;
    }
    var layout := Descriptor(desc.value, asWritten);
    if layout.None? {
      return None;
    }
    var str := layout.value.structure;
    var info := EfDbLookup(id);
    var acc := [0x11, if str == CYCLIC then 0x1F else 0xFF, 0x44];
    if info.Some? {
      acc := acc[0 := info.value.permRead * 0x10 + info.value.permUpdate];
    }
    assert acc[0] == Access3g(id, str)[0];
    assert acc == Access3g(id, str);
    r := Some(Response3g(FileInfo(flen, layout.value.recordLength, str, acc), id));
  }

  /** `sim_parse_2g_get_response`: a response of at least 14 bytes whose
      seventh byte marks an elementary file (0x04); a record or cyclic
      file (structure byte 1 or 3) also needs the record-length byte. */
  function GetResponse2g(response: seq<byte>): (r: Option<FileInfo>)
    ensures r.Some? <==>
              && |response| >= 14 && response[6] == 0x04
              && (response[13] in {0x01, 0x03} ==> |response| >= 15)
    ensures r.Some? ==> r.value.structure == response[13] && r.value.access == response[8..11]
  {
    if |response| < 14 || response[6] != 0x04 then None
    else
      var structure := response[13];
      var records := structure == 0x01 || structure == 0x03;
      if records && |response| < 15 then None
      else
        Some(FileInfo((response[2] as int) * 0x100 + response[3], if records then response[14] else 0,
                      structure, response[8..11]))
  }

  /** When the 2G decoder accepts a response, and what it reports: the
      size is the big-endian value of bytes 2 and 3, the structure byte
      13, the access bytes 8 to 10, and the record length byte 14 for a
      record or cyclic file and 0 otherwise. */
  lemma GetResponse2gFacts(response: seq<byte>)
    ensures GetResponse2g(response).Some? <==>
              && |response| >= 14 && response[6] == 0x04
              && (response[13] in {0x01, 0x03} ==> |response| >= 15)
    ensures GetResponse2g(response).Some? ==>
              var info := GetResponse2g(response).value;
              && info.fileLength == BigEndian(response[2..4])
              && info.structure == response[13]
              && info.access == response[8..11]
              && info.recordLength == (if response[13] in {0x01, 0x03} then response[14] else 0)
  {
    if |response| >= 14 {
      var w := response[2..4];
      assert w[..1] == [response[2]];
    }
  }

  /** `sim_parse_2g_get_response` with its out-parameters. */
  method Parse2gGetResponse(response: seq<byte>) returns (r: Option<FileInfo>)
    ensures r == GetResponse2g(response)
  {
    if |response| < 14 || response[6] != 0x04 {
      return None;
    }
    if (response[13] == 0x01 || response[13] == 0x03) && |response| < 15 {
      return None;
    }
    var fileLength := (response[2] as int) * 0x100 + response[3];
    var structure := response[13];
    var access := [response[8], response[9], response[10]];
    assert access == response[8..11];
    var recordLength := 0;
    if response[13] == 0x01 || response[13] == 0x03 {
      recordLength := response[14];
    }
    r := Some(FileInfo(fileLength, recordLength, structure, access));
  }
}
