/** Enhanced operator name strings: the PNN names (EF-PNN records, one
    slot per record) and the OPL list (EF-OPL records) that maps a PLMN and
    a location-area range to a PNN record. */
module Eons {
  import opened Bytes
  import opened Plmn
  import opened SimText
  import BerTlv

  /** One PNN slot (`struct sim_eons_operator_info`); a NULL string is None. */
  datatype PnnInfo = PnnInfo(
    longName: Option<string>,
    longCi: bool,
    shortName: Option<string>,
    shortCi: bool,
    info: Option<string>)

  /** A slot as `g_new0` leaves it. */
  const EMPTY_PNN := PnnInfo(None, false, None, false, None)

  /** One OPL entry (`struct opl_operator`). */
  datatype OplOperator = OplOperator(
    mcc: Code,
    mnc: Code,
    lacTacLow: uint16,
    lacTacHigh: uint16,
    id: byte)

  /** The name a decoder result stores: NULL when the decoder gave up. */
  function StoredName(p: NameParse): Option<string>
  {
    if p.Rejected? then None else p.name
  }

  /** The country-initials flag a decoder result leaves: the decoder only
      writes it when it does not give up. */
  function StoredCi(p: NameParse, old_ci: bool): bool
  {
    if p.Rejected? then old_ci else p.addCi
  }

  /** The value of `tag` in `tlv` when it is present and not empty. */
  function Field(tlv: seq<byte>, tag: byte): (r: Option<seq<byte>>)
    ensures r.None? <==> BerTlv.Lookup(tlv, tag).None? || BerTlv.Lookup(tlv, tag).value.len == 0
    ensures r.Some? ==> r.value == BerTlv.Value(tlv, BerTlv.Lookup(tlv, tag).value)
    ensures r.Some? ==> |r.value| > 0
  {
    match BerTlv.Lookup(tlv, tag)
    case None => None
    case Some(t) => if t.len == 0 then None else Some(BerTlv.Value(tlv, t))
  }

  /** What `sim_eons_add_pnn_record` makes of a slot: None when the record
      has no non-empty full-name object (tag 0x43), so that nothing
      changes; otherwise the slot with the full name decoded, the short
      name (tag 0x45) and the additional information (tag 0x80) decoded
      when present, and every other field as it was.  The names' flags are
      read as the source reads them when `asWritten`. */
  function PnnUpdate(slot: PnnInfo, tlv: seq<byte>, conv: Converters, asWritten: bool): (r: Option<PnnInfo>)
    ensures r.None? <==> Field(tlv, 0x43).None?
    ensures r.Some? ==>
              var u := r.value;
              var long := Field(tlv, 0x43).value;
              var lp := NetworkNameParse(long, conv, asWritten);
              && u.longName == (if lp.Rejected? then None else lp.name)
              && u.longCi == (if lp.Rejected? then slot.longCi else CountryInitials(long[0], asWritten))
              && (Field(tlv, 0x45).None? ==> u.shortName == slot.shortName && u.shortCi == slot.shortCi)
              && (Field(tlv, 0x45).Some? ==>
                    var short := Field(tlv, 0x45).value;
                    var sp := NetworkNameParse(short, conv, asWritten);
                    && u.shortName == StoredName(sp)
                    && u.shortCi == (if sp.Rejected? then slot.shortCi else CountryInitials(short[0], asWritten)))
              && (Field(tlv, 0x80).None? ==> u.info == slot.info)
              && (Field(tlv, 0x80).Some? ==> u.info == conv.simStringToUtf8(Field(tlv, 0x80).value))
  {
    match Field(tlv, 0x43)
    case None => None
    case Some(long) =>
      var lp := NetworkNameParse(long, conv, asWritten);
      var s1 := slot.(longName := StoredName(lp), longCi := StoredCi(lp, slot.longCi));
      var s2 :=
        match Field(tlv, 0x45)
        case None => s1
        case Some(short) =>
          var sp := NetworkNameParse(short, conv, asWritten);
          s1.(shortName := StoredName(sp), shortCi := StoredCi(sp, s1.shortCi));
      match Field(tlv, 0x80)
      case None => Some(s2)
      case Some(info) => Some(s2.(info := conv.simStringToUtf8(info)))
  }

  /** Whether an OPL entry's code matches the query's first three
      characters: equal, or the entry has the wildcard 'b' and the query
      has a character there. */
  predicate CodeMatches(query: seq<char>, stored: Code)
    requires |query| >= CODE_LENGTH
  {
    forall i :: 0 <= i < CODE_LENGTH ==>
      query[i] == stored[i] || (stored[i] == 'b' && query[i] != '\0')
  }

  /** Whether an entry's location range applies: [0, 0xFFFE] always does;
      any other range only for a lookup that has a LAC inside it. */
  predicate LacMatches(o: OplOperator, haveLac: bool, lac: uint16)
  {
    (o.lacTacLow == 0 && o.lacTacHigh == 0xFFFE)
    || (haveLac && o.lacTacLow <= lac <= o.lacTacHigh)
  }

  predicate Matches(o: OplOperator, mcc: seq<char>, mnc: seq<char>, haveLac: bool, lac: uint16)
    requires |mcc| >= CODE_LENGTH && |mnc| >= CODE_LENGTH
  {
    CodeMatches(mcc, o.mcc) && CodeMatches(mnc, o.mnc) && LacMatches(o, haveLac, lac)
  }

  /** The index of the first matching entry of the list. */
  function FirstMatch(opl: seq<OplOperator>, mcc: seq<char>, mnc: seq<char>, haveLac: bool, lac: uint16): (r: Option<nat>)
    requires |mcc| >= CODE_LENGTH && |mnc| >= CODE_LENGTH
    ensures r.Some? ==> r.value < |opl|
  {
    if opl == [] then None
    else if Matches(opl[0], mcc, mnc, haveLac, lac) then Some(0)
    else
      match FirstMatch(opl[1..], mcc, mnc, haveLac, lac)
      case None => None
      case Some(i) => Some(i + 1)
  }

  /** FirstMatch finds the first match: None exactly when no entry matches,
      otherwise an entry that matches with none matching before it. */
  lemma {:induction false} FirstMatchIsFirst(opl: seq<OplOperator>, mcc: seq<char>, mnc: seq<char>, haveLac: bool, lac: uint16)
    requires |mcc| >= CODE_LENGTH && |mnc| >= CODE_LENGTH
    ensures FirstMatch(opl, mcc, mnc, haveLac, lac).None? <==>
              forall k :: 0 <= k < |opl| ==> !Matches(opl[k], mcc, mnc, haveLac, lac)
    ensures FirstMatch(opl, mcc, mnc, haveLac, lac).Some? ==>
              var i := FirstMatch(opl, mcc, mnc, haveLac, lac).value;
              && Matches(opl[i], mcc, mnc, haveLac, lac)
              && forall k :: 0 <= k < i ==> !Matches(opl[k], mcc, mnc, haveLac, lac)
  {
    if opl != [] && !Matches(opl[0], mcc, mnc, haveLac, lac) {
      FirstMatchIsFirst(opl[1..], mcc, mnc, haveLac, lac);
      forall k | 1 <= k < |opl| ensures opl[k] == opl[1..][k - 1] {
      }
    }
  }

  /** The lookup result: the PNN slot named by the first matching entry;
      nothing when no entry matches or the match names record 0. */
  function LookupResult(opl: seq<OplOperator>, pnn: seq<PnnInfo>, mcc: seq<char>, mnc: seq<char>, haveLac: bool, lac: uint16): (r: Option<PnnInfo>)
    requires |mcc| >= CODE_LENGTH && |mnc| >= CODE_LENGTH
    requires forall o :: o in opl ==> o.id <= |pnn|
    ensures r.Some? ==> r.value in pnn
    ensures r.Some? <==> FirstMatch(opl, mcc, mnc, haveLac, lac).Some? && opl[FirstMatch(opl, mcc, mnc, haveLac, lac).value].id != 0
  {
    match FirstMatch(opl, mcc, mnc, haveLac, lac)
    case None => None
    case Some(i) => if opl[i].id == 0 then None else Some(pnn[opl[i].id - 1])
  }

  /** An entry that matches without a LAC matches with any LAC, so the
      LAC-aware lookup stops no later than the plain one. */
  lemma {:induction false} LacAwareMatchesEarlier(opl: seq<OplOperator>, mcc: seq<char>, mnc: seq<char>, lac: uint16)
    requires |mcc| >= CODE_LENGTH && |mnc| >= CODE_LENGTH
    requires FirstMatch(opl, mcc, mnc, false, 0).Some?
    ensures FirstMatch(opl, mcc, mnc, true, lac).Some?
    ensures FirstMatch(opl, mcc, mnc, true, lac).value <= FirstMatch(opl, mcc, mnc, false, 0).value
  {
    if !Matches(opl[0], mcc, mnc, true, lac) {
      LacAwareMatchesEarlier(opl[1..], mcc, mnc, lac);
    }
  }

  /** `opl_operator_alloc`: PLMN in bytes 0..2, the range bounds big-endian
      in bytes 3..4 and 5..6, the PNN record number in byte 7. */
  function OplOperatorAlloc(record: seq<byte>): (o: OplOperator)
    requires |record| >= 8
    ensures o.id == record[7]
    ensures o.lacTacLow / 0x100 == record[3] && o.lacTacLow % 0x100 == record[4]
    ensures o.lacTacHigh / 0x100 == record[5] && o.lacTacHigh % 0x100 == record[6]
  {
    var (mcc, mnc) := ParseMccMnc(record[..3]);
    var low := (record[3] as int) * 0x100 + record[4];
    var high := (record[5] as int) * 0x100 + record[6];
    OplOperator(mcc, mnc, low, high, record[7])
  }

  /** The entry's fields are the record's bytes read at the fixed offsets:
      the bounds as unsigned big-endian 16-bit values. */
  lemma OplOperatorLayout(record: seq<byte>)
    requires |record| >= 8
    ensures var o := OplOperatorAlloc(record);
            && (o.mcc, o.mnc) == ParseMccMnc(record[..3])
            && o.lacTacLow == BigEndian(record[3..5])
            && o.lacTacHigh == BigEndian(record[5..7])
            && o.id == record[7]
  {
    assert record[3..5][..1] == [record[3]] && record[5..7][..1] == [record[5]];
    assert [record[3]][..0] == [] && [record[5]][..0] == [];
  }

  /** The list `sim_eons_add_opl_record` leaves: the entry in front, unless
      it names a record beyond the table. */
  function AddOpl(opl: seq<OplOperator>, record: seq<byte>, pnnMax: nat): seq<OplOperator>
    requires |record| >= 8
  {
    var o := OplOperatorAlloc(record);
    if o.id > pnnMax then opl else [o] + opl
  }

  /** The list after adding `records` one after another to an empty list. */
  function Loaded(records: seq<seq<byte>>, pnnMax: nat): seq<OplOperator>
    requires forall r :: r in records ==> |r| >= 8
  {
    if records == [] then []
    else AddOpl(Loaded(records[..|records| - 1], pnnMax), records[|records| - 1], pnnMax)
  }

  /** The entries of the records that name a record in the table, in
      file order. */
  function Accepted(records: seq<seq<byte>>, pnnMax: nat): (opl: seq<OplOperator>)
    requires forall r :: r in records ==> |r| >= 8
    ensures forall o :: o in opl ==> o.id <= pnnMax
  {
    if records == [] then []
    else
      var o := OplOperatorAlloc(records[|records| - 1]);
      Accepted(records[..|records| - 1], pnnMax) + (if o.id > pnnMax then [] else [o])
  }

  function Reverse<T>(s: seq<T>): (r: seq<T>)
    ensures |r| == |s|
  {
    if s == [] then [] else Reverse(s[1..]) + [s[0]]
  }

  /** Reversal is its own inverse. */
  lemma {:induction false} ReverseReverse<T>(s: seq<T>)
    ensures Reverse(Reverse(s)) == s
  {
    if s != [] {
      ReverseReverse(s[1..]);
      ReverseAppend(Reverse(s[1..]), [s[0]]);
      assert Reverse([s[0]]) == [s[0]];
      assert s == [s[0]] + s[1..];
    }
  }

  /** Reversing a concatenation reverses the order of the parts. */
  lemma {:induction false} ReverseAppend<T>(a: seq<T>, b: seq<T>)
    ensures Reverse(a + b) == Reverse(b) + Reverse(a)
  {
    if a == [] {
      assert a + b == b;
    } else {
      ReverseAppend(a[1..], b);
      assert (a + b)[1..] == a[1..] + b;
    }
  }

  /** Prepending while loading and reversing once afterwards gives the
      accepted entries in file order. */
  lemma {:induction false} OptimizedOrder(records: seq<seq<byte>>, pnnMax: nat)
    requires forall r :: r in records ==> |r| >= 8
    ensures Reverse(Loaded(records, pnnMax)) == Accepted(records, pnnMax)
  {
    if records != [] {
      var init := records[..|records| - 1];
      assert forall r :: r in init ==> r in records;
      OptimizedOrder(init, pnnMax);
      var o := OplOperatorAlloc(records[|records| - 1]);
      if o.id <= pnnMax {
        ReverseAppend([o], Loaded(init, pnnMax));
        assert Reverse([o]) == [o];
      }
    }
  }

  /** Before `sim_eons_optimize`, the list holds the accepted entries
      last-added first. */
  lemma LoadedOrder(records: seq<seq<byte>>, pnnMax: nat)
    requires forall r :: r in records ==> |r| >= 8
    ensures Loaded(records, pnnMax) == Reverse(Accepted(records, pnnMax))
  {
    OptimizedOrder(records, pnnMax);
    ReverseReverse(Loaded(records, pnnMax));
  }

  /** The EONS table (`struct sim_eons`). */
  class SimEons {
    /** One slot per PNN record; `pnn_max` is its length. */
    const pnnList: array<PnnInfo>
    const pnnMax: nat
    var oplList: seq<OplOperator>
    var pnnValid: bool

    /** Every OPL entry names a record within the table, so the lookup's
        `pnn_list[id - 1]` is in bounds; until a name is stored, every slot
        is empty. */
    ghost predicate Valid()
      reads this, pnnList
    {
      && pnnList.Length == pnnMax
      && (forall o :: o in oplList ==> o.id <= pnnMax)
      && (!pnnValid ==> forall k :: 0 <= k < pnnList.Length ==> pnnList[k] == EMPTY_PNN)
    }

    /** `sim_eons_new`: `pnnRecords` empty slots, no OPL entries. */
    constructor (pnnRecords: nat)
      ensures Valid()
      ensures pnnMax == pnnRecords && fresh(pnnList)
      ensures forall k :: 0 <= k < pnnList.Length ==> pnnList[k] == EMPTY_PNN
      ensures oplList == [] && !pnnValid
    {
      pnnList := new PnnInfo[pnnRecords](_ => EMPTY_PNN);
      pnnMax := pnnRecords;
      oplList := [];
      pnnValid := false;
    }

    /** `sim_eons_pnn_is_empty`: no PNN record has stored a name. */
    predicate PnnIsEmpty()
      reads this, pnnList
      requires Valid()
      ensures PnnIsEmpty() ==> forall k :: 0 <= k < pnnList.Length ==> pnnList[k] == EMPTY_PNN
    {
      !pnnValid
    }

    /** `sim_eons_add_pnn_record`: decode a PNN record into slot
        `record - 1`, reading the names' flags as the source does when
        `asWritten`. */
    method AddPnnRecord(record: int, tlv: seq<byte>, conv: Converters, asWritten: bool)
      requires Valid()
      requires 1 <= record <= pnnMax
      modifies this, pnnList
      ensures Valid()
      ensures oplList == old(oplList)
      ensures PnnUpdate(old(pnnList[record - 1]), tlv, conv, asWritten).None? ==>
                pnnList[..] == old(pnnList[..]) && pnnValid == old(pnnValid)
      ensures PnnUpdate(old(pnnList[record - 1]), tlv, conv, asWritten).Some? ==>
                && pnnList[..] == old(pnnList[..])[record - 1 := PnnUpdate(old(pnnList[record - 1]), tlv, conv, asWritten).value]
                && pnnValid
    {
      var slot := pnnList[record - 1];
      var name := BerTlv.FindByTag(tlv, 0x43);
      if name.None? || name.value.len == 0 {
        return;
      }
      var lp := NetworkNameParse(BerTlv.Value(tlv, name.value), conv, asWritten);
      slot := slot.(longName := StoredName(lp), longCi := StoredCi(lp, slot.longCi));
      name := BerTlv.FindByTag(tlv, 0x45);
      if name.Some? && name.value.len != 0 {
        var sp := NetworkNameParse(BerTlv.Value(tlv, name.value), conv, asWritten);
        slot := slot.(shortName := StoredName(sp), shortCi := StoredCi(sp, slot.shortCi));
      }
      name := BerTlv.FindByTag(tlv, 0x80);
      if name.Some? && name.value.len != 0 {
        slot := slot.(info := conv.simStringToUtf8(BerTlv.Value(tlv, name.value)));
      }
      pnnList[record - 1] := slot;
      pnnValid := true;
    }

    /** `sim_eons_add_opl_record`: decode an OPL record and put it in front
        of the list, unless its record number is beyond the table. */
    method AddOplRecord(contents: seq<byte>)
      requires Valid()
      requires |contents| >= 8
      modifies this
      ensures Valid()
      ensures oplList == AddOpl(old(oplList), contents, pnnMax)
      ensures pnnValid == old(pnnValid)
    {
      var oper := OplOperatorAlloc(contents);
      if oper.id > pnnMax {
        return;
      }
      oplList := [oper] + oplList;
    }

    /** `sim_eons_optimize`: put the list back in file order. */
    method Optimize()
      requires Valid()
      modifies this
      ensures Valid()
      ensures oplList == Reverse(old(oplList))
      ensures pnnValid == old(pnnValid)
    {
      ReverseMembers(oplList);
      oplList := Reverse(oplList);
    }

    /** `sim_eons_lookup_common`: the PNN slot of the first OPL entry whose
        MCC, MNC and location range match. */
    method LookupCommon(mcc: seq<char>, mnc: seq<char>, haveLac: bool, lac: uint16) returns (r: Option<PnnInfo>)
      requires Valid()
      requires |mcc| >= CODE_LENGTH && |mnc| >= CODE_LENGTH
      ensures r == LookupResult(oplList, pnnList[..], mcc, mnc, haveLac, lac)
    {
      var j := ScanOpl(oplList, mcc, mnc, haveLac, lac);
      if j == |oplList| {
        return None;
      }
      var opl := oplList[j];
      if opl.id == 0 {
        return None;
      }
      r := Some(pnnList[opl.id - 1]);
    }

    /** `sim_eons_lookup`: matching ignores every location range but the
        full one. */
    method Lookup(mcc: seq<char>, mnc: seq<char>) returns (r: Option<PnnInfo>)
      requires Valid()
      requires |mcc| >= CODE_LENGTH && |mnc| >= CODE_LENGTH
      ensures r == LookupResult(oplList, pnnList[..], mcc, mnc, false, 0)
    {
      r := LookupCommon(mcc, mnc, false, 0);
    }

    /** `sim_eons_lookup_with_lac`: matching also admits ranges holding `lac`. */
    method LookupWithLac(mcc: seq<char>, mnc: seq<char>, lac: uint16) returns (r: Option<PnnInfo>)
      requires Valid()
      requires |mcc| >= CODE_LENGTH && |mnc| >= CODE_LENGTH
      ensures r == LookupResult(oplList, pnnList[..], mcc, mnc, true, lac)
    {
      r := LookupCommon(mcc, mnc, true, lac);
    }
  }

  /** Reversal keeps the elements. */
  lemma {:induction false} ReverseMembers<T>(s: seq<T>)
    ensures forall x :: x in Reverse(s) <==> x in s
  {
    if s != [] {
      ReverseMembers(s[1..]);
      assert s == [s[0]] + s[1..];
    }
  }

  /** The per-position loop of the lookup over one three-character code. */
  method CodeMatchLoop(query: seq<char>, stored: Code) returns (ok: bool)
    requires |query| >= CODE_LENGTH
    ensures ok == CodeMatches(query, stored)
  {
    var i := 0;
    while i < CODE_LENGTH
      invariant 0 <= i <= CODE_LENGTH
      invariant forall k :: 0 <= k < i ==> query[k] == stored[k] || (stored[k] == 'b' && query[k] != '\0')
    {
      if query[i] != stored[i] && !(stored[i] == 'b' && query[i] != '\0') {
        return false;
      }
      i := i + 1;
    }
    return true;
  }

  /** The outer loop of the lookup: the index of the first matching entry,
      or the list's length when none matches. */
  method ScanOpl(opl: seq<OplOperator>, mcc: seq<char>, mnc: seq<char>, haveLac: bool, lac: uint16) returns (j: nat)
    requires |mcc| >= CODE_LENGTH && |mnc| >= CODE_LENGTH
    ensures j <= |opl|
    ensures j == |opl| <==> FirstMatch(opl, mcc, mnc, haveLac, lac).None?
    ensures j < |opl| ==> FirstMatch(opl, mcc, mnc, haveLac, lac) == Some(j)
  {
    j := 0;
    while j < |opl|
      invariant 0 <= j <= |opl|
      invariant FirstMatch(opl[j..], mcc, mnc, haveLac, lac).Some? ==>
                  FirstMatch(opl, mcc, mnc, haveLac, lac) ==
                  Some(j + FirstMatch(opl[j..], mcc, mnc, haveLac, lac).value)
      invariant FirstMatch(opl[j..], mcc, mnc, haveLac, lac).None? ==>
                  FirstMatch(opl, mcc, mnc, haveLac, lac).None?
    {
      var o := opl[j];
      var codes := CodeMatchLoop(mcc, o.mcc);
      if codes {
        codes := CodeMatchLoop(mnc, o.mnc);
      }
      if codes && o.lacTacLow == 0 && o.lacTacHigh == 0xFFFE {
        break;
      }
      if codes && haveLac && lac >= o.lacTacLow && lac <= o.lacTacHigh {
        break;
      }
      assert opl[j..][1..] == opl[j + 1..];
      j := j + 1;
    }
  }
}
