/** The BER-TLV scanner of the SIM-file codecs (ISO/IEC 7816-4 style data
    objects), with the quirks of the daemon's implementation: padding bytes
    0x00/0xFF between objects are skipped, a tag whose low five bits are all
    set is followed by extension bytes, the length is read as base-128
    continuation bytes, and only the first tag byte is compared. */
module BerTlv {
  import opened Bytes

  /** One data object as the scanner reads it: the offset of its (first) tag
      byte, that byte, the offset where its value starts and its declared
      length. */
  datatype Header = Header(tagPos: nat, tag: byte, valuePos: nat, len: nat)

  /** A found value region: the returned pointer (as an offset into the
      buffer) and `*out_len`. */
  datatype Tlv = Tlv(start: nat, len: nat)

  predicate IsPadding(b: byte) { b == 0x00 || b == 0xFF }

  /** The first offset at or after `pos` that does not hold a padding byte. */
  function SkipPadding(buf: seq<byte>, pos: nat): (p: nat)
    requires pos <= |buf|
    ensures pos <= p <= |buf|
    ensures p < |buf| ==> !IsPadding(buf[p])
    decreases |buf| - pos
  {
    if pos < |buf| && IsPadding(buf[pos]) then SkipPadding(buf, pos + 1) else pos
  }

  /** Consumes tag extension bytes from `pos`: every byte with bit 8 set, then
      the first byte without it, stopping at the end of the buffer. */
  function SkipTagExtension(buf: seq<byte>, pos: nat): (p: nat)
    requires pos <= |buf|
    ensures pos <= p <= |buf|
    ensures p < |buf| ==> pos < p
    decreases |buf| - pos
  {
    if pos == |buf| then pos
    else if buf[pos] >= 0x80 then SkipTagExtension(buf, pos + 1)
    else pos + 1
  }

  /** The continuation part of a length: while at least two bytes remain and
      the current byte has bit 8 set, its low seven bits are added to the
      accumulator, which is then shifted left by seven.  (`len | x` equals
      `len + x` there because the low seven bits of `len` are zero.)  Yields
      the accumulator and the offset of the byte that ends the length. */
  function LengthPrefix(buf: seq<byte>, pos: nat, acc: nat): (r: (nat, nat))
    requires pos < |buf|
    ensures pos <= r.1 < |buf|
    ensures r.1 + 1 < |buf| ==> buf[r.1] < 0x80
    ensures acc % 0x80 == 0 ==> r.0 % 0x80 == 0
    decreases |buf| - pos
  {
    if pos + 1 < |buf| && buf[pos] >= 0x80
    then LengthPrefix(buf, pos + 1, (acc + buf[pos] % 0x80) * 0x80)
    else (acc, pos)
  }

  /** Reads the data object that starts at or after `pos`, or None where the
      scanner stops: only padding left, the buffer ends inside the tag, or
      the last length byte still has bit 8 set. */
  function ReadHeader(buf: seq<byte>, pos: nat): (h: Option<Header>)
    requires pos <= |buf|
    ensures h.Some? ==> pos <= h.value.tagPos < h.value.valuePos <= |buf|
    ensures h.Some? ==> buf[h.value.tagPos] == h.value.tag && !IsPadding(h.value.tag)
  {
    var t := SkipPadding(buf, pos);
    if t == |buf| then None
    else
      var tag := buf[t];
      var l := if tag % 0x20 == 0x1F then SkipTagExtension(buf, t + 1) else t + 1;
      if l == |buf| then None
      else
        var (acc, p) := LengthPrefix(buf, l, 0);
        if buf[p] >= 0x80 then None
        else Some(Header(t, tag, p + 1, acc + buf[p]))
  }

  /** The top-level data objects the scanner walks over from `pos`, in buffer
      order: after each object the cursor moves past its declared value, and
      the walk ends once the cursor is at or past the end. */
  function Walk(buf: seq<byte>, pos: nat): (hs: seq<Header>)
    requires pos <= |buf|
    decreases |buf| - pos
  {
    match ReadHeader(buf, pos)
    case None => []
    case Some(h) =>
      var next := h.valuePos + h.len;
      if next < |buf| then [h] + Walk(buf, next) else [h]
  }

  /** `h` is an object read at or after `pos`: its tag byte is in the buffer
      and its value starts after it. */
  predicate Located(buf: seq<byte>, pos: nat, h: Header)
  {
    pos <= h.tagPos < h.valuePos <= |buf| && buf[h.tagPos] == h.tag
  }

  /** Each object's value ends before the next object's tag, and before the
      end of the buffer. */
  predicate Disjoint(buf: seq<byte>, hs: seq<Header>)
  {
    forall k :: 0 <= k < |hs| - 1 ==>
      hs[k].valuePos + hs[k].len <= hs[k + 1].tagPos && hs[k].valuePos + hs[k].len < |buf|
  }

  /** Every object of the walk lies after `pos`, its tag byte is in the
      buffer, and each object's value ends before the next object starts. */
  lemma {:induction false} WalkWellFormed(buf: seq<byte>, pos: nat)
    requires pos <= |buf|
    ensures forall k :: 0 <= k < |Walk(buf, pos)| ==> Located(buf, pos, Walk(buf, pos)[k])
    ensures Disjoint(buf, Walk(buf, pos))
    decreases |buf| - pos
  {
    match ReadHeader(buf, pos)
    case None =>
    case Some(h) =>
      var next := h.valuePos + h.len;
      if next < |buf| {
        WalkWellFormed(buf, next);
        var rest := Walk(buf, next);
        var hs := [h] + rest;
        assert Walk(buf, pos) == hs;
        forall k | 0 <= k < |hs|
          ensures Located(buf, pos, hs[k])
        {
          if k > 0 {
            assert hs[k] == rest[k - 1];
            assert Located(buf, next, rest[k - 1]);
          }
        }
        forall k | 0 <= k < |hs| - 1
          ensures hs[k].valuePos + hs[k].len <= hs[k + 1].tagPos && hs[k].valuePos + hs[k].len < |buf|
        {
          if k == 0 {
            assert Located(buf, next, rest[0]);
          } else {
            assert hs[k] == rest[k - 1] && hs[k + 1] == rest[k];
          }
        }
      }
  }

  predicate Fits(h: Header, tag: byte, n: nat) { h.tag == tag && h.valuePos + h.len <= n }

  /** The first header of `hs` with tag `tag` whose value ends by `n`. */
  function FirstFit(hs: seq<Header>, tag: byte, n: nat): (r: Option<Header>)
    ensures r.Some? ==> r.value in hs && Fits(r.value, tag, n)
  {
    if hs == [] then None
    else if Fits(hs[0], tag, n) then Some(hs[0])
    else FirstFit(hs[1..], tag, n)
  }

  /** FirstFit finds a fitting header exactly when there is one, and no
      header before the one it finds fits. */
  lemma {:induction false} FirstFitIsFirst(hs: seq<Header>, tag: byte, n: nat)
    ensures FirstFit(hs, tag, n).None? <==> forall k :: 0 <= k < |hs| ==> !Fits(hs[k], tag, n)
    ensures FirstFit(hs, tag, n).Some? ==>
              exists k :: 0 <= k < |hs| && hs[k] == FirstFit(hs, tag, n).value &&
                          forall j :: 0 <= j < k ==> !Fits(hs[j], tag, n)
  {
    if hs != [] && !Fits(hs[0], tag, n) {
      FirstFitIsFirst(hs[1..], tag, n);
      assert forall k :: 1 <= k < |hs| ==> hs[k] == hs[1..][k - 1];
      if FirstFit(hs, tag, n).Some? {
        var k :| 0 <= k < |hs[1..]| && hs[1..][k] == FirstFit(hs, tag, n).value &&
                 forall j :: 0 <= j < k ==> !Fits(hs[1..][j], tag, n);
        assert hs[k + 1] == FirstFit(hs, tag, n).value;
      }
    }
  }

  /** The scanner's outer loop from `pos`: the object read there is the
      answer if it has tag `tag` and fits, and otherwise the search goes on
      after its value while the cursor is still inside the buffer. */
  function Scan(buf: seq<byte>, pos: nat, tag: byte): (r: Option<Header>)
    requires pos <= |buf|
    decreases |buf| - pos
  {
    match ReadHeader(buf, pos)
    case None => None
    case Some(h) =>
      if Fits(h, tag, |buf|) then Some(h)
      else if h.valuePos + h.len < |buf| then Scan(buf, h.valuePos + h.len, tag)
      else None
  }

  /** The scanner's answer is the first fitting object of the walk. */
  lemma {:induction false} ScanIsFirstFit(buf: seq<byte>, pos: nat, tag: byte)
    requires pos <= |buf|
    ensures Scan(buf, pos, tag) == FirstFit(Walk(buf, pos), tag, |buf|)
    decreases |buf| - pos
  {
    match ReadHeader(buf, pos)
    case None =>
    case Some(h) =>
      var hs := Walk(buf, pos);
      assert hs[0] == h;
      if h.valuePos + h.len < |buf| {
        assert hs[1..] == Walk(buf, h.valuePos + h.len);
        ScanIsFirstFit(buf, h.valuePos + h.len, tag);
      } else {
        assert hs[1..] == [];
      }
  }

  /** The object `ber_tlv_find_by_tag` stops at: the first top-level object
      whose first tag byte is `tag` and whose value lies inside the buffer. */
  function FindHeader(buf: seq<byte>, tag: byte): (r: Option<Header>)
  {
    Scan(buf, 0, tag)
  }

  /** A found object has tag `tag` at its tag offset, its value lies inside
      the buffer, it is an object of the top-level walk, and nothing is found
      exactly when no object of the walk has tag `tag` and fits. */
  lemma FindHeaderFacts(buf: seq<byte>, tag: byte)
    ensures var r := FindHeader(buf, tag);
            && (r.Some? ==> r.value.tagPos < r.value.valuePos && r.value.valuePos + r.value.len <= |buf|)
            && (r.Some? ==> buf[r.value.tagPos] == tag && r.value in Walk(buf, 0))
            && (r.None? <==> forall h :: h in Walk(buf, 0) ==> !Fits(h, tag, |buf|))
  {
    ScanIsFirstFit(buf, 0, tag);
    WalkWellFormed(buf, 0);
    FirstFitIsFirst(Walk(buf, 0), tag, |buf|);
  }

  /** What `ber_tlv_find_by_tag` returns, as an offset and a length. */
  function Lookup(buf: seq<byte>, tag: byte): (r: Option<Tlv>)
    ensures r.Some? ==> 0 < r.value.start && r.value.start + r.value.len <= |buf|
  {
    match FindHeader(buf, tag)
    case None => None
    case Some(h) =>
      FindHeaderFacts(buf, tag);
      Some(Tlv(h.valuePos, h.len))
  }

  /** The bytes of a found value region. */
  function Value(buf: seq<byte>, t: Tlv): seq<byte>
    requires t.start + t.len <= |buf|
  {
    buf[t.start..t.start + t.len]
  }

  /** The padding-skipping loop of the scanner. */
  method SkipPaddingLoop(pdu: seq<byte>, start: nat) returns (p: nat)
    requires start <= |pdu|
    ensures p == SkipPadding(pdu, start)
  {
    p := start;
    while p < |pdu| && (pdu[p] == 0x00 || pdu[p] == 0xFF)
      invariant start <= p <= |pdu|
      invariant SkipPadding(pdu, p) == SkipPadding(pdu, start)
    {
      p := p + 1;
    }
  }

  /** The tag-extension loop of the scanner: its condition consumes a byte
      on every test. */
  method SkipTagExtensionLoop(pdu: seq<byte>, start: nat) returns (p: nat)
    requires start <= |pdu|
    ensures p == SkipTagExtension(pdu, start)
  {
    p := start;
    while p < |pdu|
      invariant start <= p <= |pdu|
      invariant SkipTagExtension(pdu, p) == SkipTagExtension(pdu, start)
    {
      var b := pdu[p];
      p := p + 1;
      if b < 0x80 {
        return;
      }
    }
  }

  /** The length-continuation loop of the scanner. */
  method LengthPrefixLoop(pdu: seq<byte>, start: nat) returns (len: nat, p: nat)
    requires start < |pdu|
    ensures (len, p) == LengthPrefix(pdu, start, 0)
  {
    len, p := 0, start;
    while p + 1 < |pdu| && pdu[p] >= 0x80
      invariant start <= p < |pdu|
      invariant LengthPrefix(pdu, p, len) == LengthPrefix(pdu, start, 0)
    {
      len := (len + pdu[p] % 0x80) * 0x80;
      p := p + 1;
    }
  }

  /** The body of the scanner's outer loop up to the match test: skip
      padding, read the tag and its extension bytes, read the length. */
  method ReadHeaderLoop(pdu: seq<byte>, start: nat) returns (h: Option<Header>)
    requires start <= |pdu|
    ensures h == ReadHeader(pdu, start)
  {
    var p := SkipPaddingLoop(pdu, start);
    if p == |pdu| {
      return None;
    }
    var t := p;
    var tag := pdu[p];
    p := p + 1;
    if tag % 0x20 == 0x1F {
      p := SkipTagExtensionLoop(pdu, p);
    }
    if p == |pdu| {
      return None;
    }
    var len: nat;
    len, p := LengthPrefixLoop(pdu, p);
    if pdu[p] >= 0x80 {
      return None;
    }
    h := Some(Header(t, tag, p + 1, len + pdu[p]));
  }

  /** `ber_tlv_find_by_tag(pdu, in_tag, |pdu|, &len)` with the source's
      cursor loops.  Every read is an index below `|pdu|`, and the loop
      measure shows that it terminates on every buffer. */
  method FindByTag(pdu: seq<byte>, inTag: byte) returns (r: Option<Tlv>)
    ensures r == Lookup(pdu, inTag)
    ensures r.Some? ==> 0 < r.value.start && r.value.start + r.value.len <= |pdu|
  {
    var end := |pdu|;
    var p := 0;
    var found: Option<Header> := None;
    var scanning := true;
    while scanning
      invariant p <= end
      invariant scanning ==> Scan(pdu, p, inTag) == FindHeader(pdu, inTag)
      invariant !scanning ==> found == FindHeader(pdu, inTag)
      decreases scanning, end - p
    {
      var h := ReadHeaderLoop(pdu, p);
      if h.None? {
        found, scanning := None, false;
      } else {
        var Header(_, tag, valuePos, len) := h.value;
        if tag == inTag && valuePos + len <= end {
          found, scanning := h, false;
        } else if valuePos + len < end {
          p := valuePos + len;
        } else {
          found, scanning := None, false;
        }
      }
    }
    r := match found
         case None => None
         case Some(h) => Some(Tlv(h.valuePos, h.len));
  }

  // The length loop as written, on a 32-bit `int`.

  /** The continuation part of a length as the source computes it: `len` is
      a C `int`, so `(len | x) << 7` keeps only 32 bits. */
  function LengthPrefixAsWritten(buf: seq<byte>, pos: nat, acc: int): (r: (int, nat))
    requires pos < |buf|
    ensures pos <= r.1 < |buf|
    decreases |buf| - pos
  {
    if pos + 1 < |buf| && buf[pos] >= 0x80
    then LengthPrefixAsWritten(buf, pos + 1, Int32((acc + buf[pos] % 0x80) * 0x80))
    else (acc, pos)
  }

  /** The six-byte buffer 80 88 80 80 80 00: its length field has four
      continuation bytes and declares 2^31, which the 32-bit `len` holds as
      -2^31.  The source's guard `pdu + len <= end` then passes, so for tag
      0x80 it returns a pointer with a negative `*out_len`, and for any other
      tag `pdu += len` moves the cursor before the buffer. */
  lemma NegativeLengthAsWritten()
    ensures var buf: seq<byte> := [0x80, 0x88, 0x80, 0x80, 0x80, 0x00];
            && LengthPrefixAsWritten(buf, 1, 0) == (-0x8000_0000, 5)
            && 6 + LengthPrefixAsWritten(buf, 1, 0).0 + buf[5] < 0
  {
    var buf: seq<byte> := [0x80, 0x88, 0x80, 0x80, 0x80, 0x00];
    assert Int32(0x400) == 0x400 && Int32(0x2_0000) == 0x2_0000 && Int32(0x100_0000) == 0x100_0000;
    assert Int32(0x8000_0000) == -0x8000_0000;
    assert LengthPrefixAsWritten(buf, 5, -0x8000_0000) == (-0x8000_0000, 5);
    assert LengthPrefixAsWritten(buf, 4, 0x100_0000) == (-0x8000_0000, 5);
    assert LengthPrefixAsWritten(buf, 3, 0x2_0000) == (-0x8000_0000, 5);
    assert LengthPrefixAsWritten(buf, 2, 0x400) == (-0x8000_0000, 5);
  }

  /** With the length kept as a natural number, the same buffer declares an
      object of 2^31 bytes, which does not fit: nothing is found and the
      walk ends after it. */
  lemma OverlongLengthNotFound()
    ensures var buf: seq<byte> := [0x80, 0x88, 0x80, 0x80, 0x80, 0x00];
            && ReadHeader(buf, 0) == Some(Header(0, 0x80, 6, 0x8000_0000))
            && Lookup(buf, 0x80) == None
  {
    var buf: seq<byte> := [0x80, 0x88, 0x80, 0x80, 0x80, 0x00];
    assert LengthPrefix(buf, 5, 0x8000_0000) == (0x8000_0000, 5);
    assert LengthPrefix(buf, 4, 0x100_0000) == (0x8000_0000, 5);
    assert LengthPrefix(buf, 3, 0x2_0000) == (0x8000_0000, 5);
    assert LengthPrefix(buf, 2, 0x400) == (0x8000_0000, 5);
    assert SkipPadding(buf, 0) == 0;
    assert ReadHeader(buf, 0) == Some(Header(0, 0x80, 6, 0x8000_0000));
  }
}
