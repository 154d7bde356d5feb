/** The service provider display information table: the PLMNs of a
    PLMN-list TLV, kept in a list sorted by (MCC, MNC) for membership tests. */
module Spdi {
  import opened Bytes
  import opened Plmn
  import BerTlv

  /** One stored PLMN, as two NUL-padded three-character arrays. */
  datatype SpdiOperator = SpdiOperator(mcc: Code, mnc: Code)

  /** The table; `operators` is the sorted list. */
  datatype SimSpdi = SimSpdi(operators: seq<SpdiOperator>)

  /** `spdi_operator_compare`: MCCs by `strcmp`, ties broken by MNCs. */
  function Compare(a: SpdiOperator, b: SpdiOperator): (r: int)
    ensures -1 <= r <= 1
  {
    var r := StrCmp(CString(a.mcc), CString(b.mcc));
    if r != 0 then r else StrCmp(CString(a.mnc), CString(b.mnc))
  }

  /** The comparison is zero exactly when both C strings agree, and it
      swaps sign when its arguments are swapped. */
  lemma CompareAntisymmetric(a: SpdiOperator, b: SpdiOperator)
    ensures Compare(a, b) == 0 <==>
              CString(a.mcc) == CString(b.mcc) && CString(a.mnc) == CString(b.mnc)
    ensures Compare(b, a) == -Compare(a, b)
  {
    StrCmpAntisymmetric(CString(a.mcc), CString(b.mcc));
    StrCmpAntisymmetric(CString(a.mnc), CString(b.mnc));
  }

  /** The order the comparison induces is transitive. */
  lemma CompareTransitive(a: SpdiOperator, b: SpdiOperator, c: SpdiOperator)
    requires Compare(a, b) <= 0 && Compare(b, c) <= 0
    ensures Compare(a, c) <= 0
  {
    var am, bm, cm := CString(a.mcc), CString(b.mcc), CString(c.mcc);
    StrCmpAntisymmetric(am, bm);
    StrCmpAntisymmetric(bm, cm);
    StrCmpAntisymmetric(am, cm);
    StrCmpTransitive(am, bm, cm);
    if StrCmp(am, bm) == 0 && StrCmp(bm, cm) == 0 {
      StrCmpTransitive(CString(a.mnc), CString(b.mnc), CString(c.mnc));
    }
  }

  /** Every earlier entry compares at most equal to every later one. */
  ghost predicate Sorted(s: seq<SpdiOperator>)
  {
    forall i, j :: 0 <= i < j < |s| ==> Compare(s[i], s[j]) <= 0
  }

  /** `g_slist_insert_sorted`: the new entry goes before the first entry it
      does not compare greater than, or at the end. */
  function InsertSorted(s: seq<SpdiOperator>, x: SpdiOperator): (r: seq<SpdiOperator>)
    ensures multiset(r) == multiset(s) + multiset{x}
  {
    if s == [] then [x]
    else if Compare(x, s[0]) > 0 then
      assert s == [s[0]] + s[1..];
      [s[0]] + InsertSorted(s[1..], x)
    else [x] + s
  }

  /** A sorted list stays sorted when an entry no greater than any of its
      entries is put in front. */
  lemma SortedCons(h: SpdiOperator, t: seq<SpdiOperator>)
    requires Sorted(t)
    requires forall j :: 0 <= j < |t| ==> Compare(h, t[j]) <= 0
    ensures Sorted([h] + t)
  {
    var r := [h] + t;
    forall i, j | 0 <= i < j < |r| ensures Compare(r[i], r[j]) <= 0 {
      assert r[j] == t[j - 1];
      if i > 0 {
        assert r[i] == t[i - 1];
      }
    }
  }

  /** Sorted insertion keeps the list sorted. */
  lemma {:induction false} InsertSortedKeepsSorted(s: seq<SpdiOperator>, x: SpdiOperator)
    requires Sorted(s)
    ensures Sorted(InsertSorted(s, x))
  {
    if s == [] {
    } else if Compare(x, s[0]) > 0 {
      var tail := InsertSorted(s[1..], x);
      InsertSortedKeepsSorted(s[1..], x);
      CompareAntisymmetric(x, s[0]);
      forall j | 0 <= j < |tail| ensures Compare(s[0], tail[j]) <= 0 {
        assert tail[j] in multiset(tail);
        if tail[j] != x {
          assert tail[j] in multiset(s[1..]);
          var k :| 0 <= k < |s[1..]| && s[1..][k] == tail[j];
          assert s[k + 1] == tail[j];
        }
      }
      SortedCons(s[0], tail);
    } else {
      forall j | 0 <= j < |s| ensures Compare(x, s[j]) <= 0 {
        if j > 0 {
          CompareTransitive(x, s[0], s[j]);
        }
      }
      SortedCons(x, s);
    }
  }

  /** Inserting the entries of `ops` one after another into an empty list. */
  function InsertAll(ops: seq<SpdiOperator>): (r: seq<SpdiOperator>)
  {
    if ops == [] then [] else InsertSorted(InsertAll(ops[..|ops| - 1]), ops[|ops| - 1])
  }

  /** Inserting one more entry at the end of the input inserts it into the
      list built so far. */
  lemma InsertAllSnoc(ops: seq<SpdiOperator>, x: SpdiOperator)
    ensures InsertAll(ops + [x]) == InsertSorted(InsertAll(ops), x)
  {
    assert (ops + [x])[..|ops|] == ops;
  }

  /** Inserting one after another gives a sorted permutation. */
  lemma {:induction false} InsertAllSortedPermutation(ops: seq<SpdiOperator>)
    ensures Sorted(InsertAll(ops))
    ensures multiset(InsertAll(ops)) == multiset(ops)
  {
    if ops != [] {
      var init, last := ops[..|ops| - 1], ops[|ops| - 1];
      InsertAllSortedPermutation(init);
      InsertSortedKeepsSorted(InsertAll(init), last);
      assert ops == init + [last];
      assert multiset(ops) == multiset(init) + multiset{last};
    }
  }

  /** The three bytes of group `k` of a PLMN list. */
  function Group(plmn: seq<byte>, k: nat): (g: seq<byte>)
    requires 3 * k + 3 <= |plmn|
    ensures |g| == 3
  {
    plmn[3 * k..3 * k + 3]
  }

  /** An unused slot: all three bytes 0xFF (the bytes' AND is 0xFF). */
  predicate Unused(g: seq<byte>)
    requires |g| == 3
  {
    g[0] == 0xFF && g[1] == 0xFF && g[2] == 0xFF
  }

  function OperatorOf(g: seq<byte>): SpdiOperator
    requires |g| == 3
  {
    var (mcc, mnc) := ParseMccMnc(g);
    SpdiOperator(mcc, mnc)
  }

  /** The decodings of the used groups among the first `n`, in file order. */
  function Decoded<T>(plmn: seq<byte>, n: nat, decode: seq<byte> --> T): (ds: seq<T>)
    requires 3 * n <= |plmn|
    requires forall g: seq<byte> :: |g| == 3 ==> decode.requires(g)
    ensures |ds| <= n
  {
    if n == 0 then []
    else
      var g := Group(plmn, n - 1);
      Decoded(plmn, n - 1, decode) + (if Unused(g) then [] else [decode(g)])
  }

  /** One more group adds its decoding, unless it is unused. */
  lemma DecodedStep<T>(plmn: seq<byte>, n: nat, decode: seq<byte> --> T)
    requires 3 * n + 3 <= |plmn|
    requires forall g: seq<byte> :: |g| == 3 ==> decode.requires(g)
    ensures Unused(Group(plmn, n)) ==> Decoded(plmn, n + 1, decode) == Decoded(plmn, n, decode)
    ensures !Unused(Group(plmn, n)) ==>
              Decoded(plmn, n + 1, decode) == Decoded(plmn, n, decode) + [decode(Group(plmn, n))]
  {
  }

  /** A value is listed exactly when some used group among the first `n`
      decodes to it. */
  lemma {:induction false} DecodedMembers<T>(plmn: seq<byte>, n: nat, decode: seq<byte> --> T, x: T)
    requires 3 * n <= |plmn|
    requires forall g: seq<byte> :: |g| == 3 ==> decode.requires(g)
    ensures x in Decoded(plmn, n, decode) <==>
              exists k :: 0 <= k < n && !Unused(Group(plmn, k)) && decode(Group(plmn, k)) == x
  {
    if n > 0 {
      DecodedMembers(plmn, n - 1, decode, x);
      var g := Group(plmn, n - 1);
      if !Unused(g) && decode(g) == x {
        assert x in Decoded(plmn, n, decode);
      }
    }
  }

  /** The operators of the first `n` groups, in file order, unused slots skipped. */
  function Operators(plmn: seq<byte>, n: nat): (ops: seq<SpdiOperator>)
    requires 3 * n <= |plmn|
  {
    Decoded(plmn, n, OperatorOf)
  }

  /** What `sim_spdi_new` builds from a buffer: nothing when the buffer has
      at most five bytes or no top-level tag 0x80; otherwise the sorted
      insertion of every used full group of the tag's value. */
  function SpdiOf(tlv: seq<byte>): (r: Option<SimSpdi>)
    ensures r.None? <==> |tlv| <= 5 || BerTlv.Lookup(tlv, 0x80).None?
  {
    if |tlv| <= 5 then None
    else
      match BerTlv.Lookup(tlv, 0x80)
      case None => None
      case Some(t) => Some(TableOf(BerTlv.Value(tlv, t)))
  }

  /** The table built from the value of a PLMN-list TLV. */
  function TableOf(plmn: seq<byte>): SimSpdi
  {
    SimSpdi(InsertAll(Operators(plmn, |plmn| / 3)))
  }

  /** The table is absent exactly on the two failure conditions; otherwise
      it is sorted and holds each used group's operator once per group. */
  lemma SpdiOfFacts(tlv: seq<byte>)
    ensures SpdiOf(tlv).None? <==> |tlv| <= 5 || BerTlv.Lookup(tlv, 0x80).None?
    ensures SpdiOf(tlv).Some? ==>
              var t := BerTlv.Lookup(tlv, 0x80).value;
              var plmn := BerTlv.Value(tlv, t);
              && Sorted(SpdiOf(tlv).value.operators)
              && multiset(SpdiOf(tlv).value.operators) == multiset(Operators(plmn, |plmn| / 3))
  {
    if SpdiOf(tlv).Some? {
      var plmn := BerTlv.Value(tlv, BerTlv.Lookup(tlv, 0x80).value);
      InsertAllSortedPermutation(Operators(plmn, |plmn| / 3));
    }
  }

  /** `sim_spdi_new`: find tag 0x80, then walk its value three bytes at a
      time, inserting each used group's operator into the sorted list. */
  method SpdiNew(tlv: seq<byte>) returns (r: Option<SimSpdi>)
    ensures r == SpdiOf(tlv)
    ensures r.None? <==> |tlv| <= 5 || BerTlv.Lookup(tlv, 0x80).None?
  {
    if |tlv| <= 5 {
      return None;
    }
    var found := BerTlv.FindByTag(tlv, 0x80);
    if found.None? {
      return None;
    }
    var t := found.value;
    var table := BuildTable(tlv[t.start..t.start + t.len]);
    r := Some(table);
  }

  /** The loop of `sim_spdi_new` over the PLMN list: every used group's
      operator is inserted in turn into the sorted list. */
  method BuildTable(plmn: seq<byte>) returns (table: SimSpdi)
    ensures table == TableOf(plmn)
    ensures Sorted(table.operators)
    ensures multiset(table.operators) == multiset(Operators(plmn, |plmn| / 3))
  {
    var count := |plmn| / 3;
    var ops: seq<SpdiOperator> := [];
    ghost var listed: seq<SpdiOperator> := [];
    var i := 0;
    while i < count
      invariant 0 <= i <= count
      invariant listed == Operators(plmn, i)
      invariant ops == InsertAll(listed)
    {
      var g := plmn[3 * i..3 * i + 3];
      DecodedStep(plmn, i, OperatorOf);
      if !Unused(g) {
        var op := OperatorOf(g);
        InsertAllSnoc(listed, op);
        ops := InsertSorted(ops, op);
        listed := listed + [op];
      }
      i := i + 1;
    }
    InsertAllSortedPermutation(listed);
    table := SimSpdi(ops);
  }

  /** `g_strlcpy` into a four-byte array: at most three characters of the
      C string. */
  function Truncate(s: seq<char>): (r: seq<char>)
    ensures r <= CString(s) && |r| <= CODE_LENGTH
    ensures |r| < CODE_LENGTH ==> r == CString(s)
  {
    var c := CString(s);
    if |c| <= CODE_LENGTH then c else c[..CODE_LENGTH]
  }

  /** `g_slist_find_custom` with the comparison: is some entry equal to
      the query under `Compare`? */
  function Find(ops: seq<SpdiOperator>, mcc: seq<char>, mnc: seq<char>): (found: bool)
  {
    if ops == [] then false
    else
      (StrCmp(CString(ops[0].mcc), mcc) == 0 && StrCmp(CString(ops[0].mnc), mnc) == 0)
      || Find(ops[1..], mcc, mnc)
  }

  /** `sim_spdi_lookup`: false for an absent table, otherwise whether an
      entry has the query's (truncated) MCC and MNC. */
  function SpdiLookup(spdi: Option<SimSpdi>, mcc: seq<char>, mnc: seq<char>): (found: bool)
    ensures found ==> spdi.Some? && spdi.value.operators != []
  {
    spdi.Some? && Find(spdi.value.operators, Truncate(mcc), Truncate(mnc))
  }

  /** The list search succeeds exactly when some entry's two C strings
      equal the query. */
  lemma {:induction false} FindMembers(ops: seq<SpdiOperator>, mcc: seq<char>, mnc: seq<char>)
    ensures Find(ops, mcc, mnc) <==>
              exists i :: 0 <= i < |ops| && CString(ops[i].mcc) == mcc && CString(ops[i].mnc) == mnc
  {
    if ops != [] {
      FindMembers(ops[1..], mcc, mnc);
      StrCmpAntisymmetric(CString(ops[0].mcc), mcc);
      StrCmpAntisymmetric(CString(ops[0].mnc), mnc);
      if exists i :: 0 <= i < |ops| && CString(ops[i].mcc) == mcc && CString(ops[i].mnc) == mnc {
        var i :| 0 <= i < |ops| && CString(ops[i].mcc) == mcc && CString(ops[i].mnc) == mnc;
        if i > 0 {
          assert ops[1..][i - 1] == ops[i];
        }
      }
      if Find(ops[1..], mcc, mnc) {
        var i :| 0 <= i < |ops[1..]| && CString(ops[1..][i].mcc) == mcc && CString(ops[1..][i].mnc) == mnc;
        assert ops[i + 1] == ops[1..][i];
      }
    }
  }

  /** Membership: an absent table holds nothing; a present one holds the
      query exactly when an entry's MCC and MNC equal the query's first
      three characters. */
  lemma SpdiLookupMembers(spdi: Option<SimSpdi>, mcc: seq<char>, mnc: seq<char>)
    ensures spdi.None? ==> !SpdiLookup(spdi, mcc, mnc)
    ensures spdi.Some? ==>
              (SpdiLookup(spdi, mcc, mnc) <==>
                 exists op :: op in spdi.value.operators
                   && CString(op.mcc) == Truncate(mcc) && CString(op.mnc) == Truncate(mnc))
  {
    if spdi.Some? {
      FindMembers(spdi.value.operators, Truncate(mcc), Truncate(mnc));
    }
  }

  /** A table built from a PLMN list holds a PLMN exactly when one of the
      list's used groups decodes to it: insertion neither loses nor
      invents entries. */
  lemma TableLookup(plmn: seq<byte>, mcc: seq<char>, mnc: seq<char>)
    ensures SpdiLookup(Some(TableOf(plmn)), mcc, mnc) <==>
              exists op :: op in Operators(plmn, |plmn| / 3)
                && CString(op.mcc) == Truncate(mcc) && CString(op.mnc) == Truncate(mnc)
  {
    var listed := Operators(plmn, |plmn| / 3);
    var ops := TableOf(plmn).operators;
    InsertAllSortedPermutation(listed);
    SpdiLookupMembers(Some(TableOf(plmn)), mcc, mnc);
    forall op ensures op in ops <==> op in listed {
      assert op in ops <==> op in multiset(ops);
      assert op in listed <==> op in multiset(listed);
    }
  }

  /** The PLMN-list tag is searched among the top-level objects only: a
      list nested in a 0xA3 template is skipped with the template, and
      no table is built. */
  lemma NestedListIgnored()
    ensures var tlv: seq<byte> := [0xA3, 0x05, 0x80, 0x03, 0x02, 0xF8, 0x10];
            && BerTlv.Lookup(tlv, 0x80) == None
            && SpdiOf(tlv) == None
  {
    var tlv: seq<byte> := [0xA3, 0x05, 0x80, 0x03, 0x02, 0xF8, 0x10];
    assert BerTlv.SkipPadding(tlv, 0) == 0;
    assert BerTlv.LengthPrefix(tlv, 1, 0) == (0, 1);
    assert BerTlv.ReadHeader(tlv, 0) == Some(BerTlv.Header(0, 0xA3, 2, 5));
  }

  /** The two groups of the EF-SPDI PLMN list 13 00 14 02 F8 10 decode in
      file order. */
  lemma TwoEntriesDecoded(plmn: seq<byte>)
    requires plmn == [0x13, 0x00, 0x14, 0x02, 0xF8, 0x10]
    ensures Operators(plmn, |plmn| / 3) == [SpdiOperator("310", "410"), SpdiOperator("208", "01\0")]
  {
    assert Group(plmn, 0) == plmn[..3];
    assert Group(plmn, 1) == plmn[3..6];
    assert OperatorOf(plmn[..3]) == SpdiOperator("310", "410");
    assert OperatorOf(plmn[3..6]) == SpdiOperator("208", "01\0");
    DecodedStep(plmn, 0, OperatorOf);
    DecodedStep(plmn, 1, OperatorOf);
  }

  /** Inserting the second operator puts it in front of the first. */
  lemma TwoEntriesInserted(a: SpdiOperator, b: SpdiOperator)
    requires a == SpdiOperator("310", "410") && b == SpdiOperator("208", "01\0")
    ensures InsertAll([a, b]) == [b, a]
  {
    assert CString(a.mcc) == "310" && CString(b.mcc) == "208";
    assert Compare(b, a) < 0;
    assert InsertAll([a]) == [a];
    assert InsertAll([a, b]) == InsertSorted([a], b);
  }

  /** Two entries in reverse order in the file are stored sorted. */
  lemma TwoEntriesSorted(plmn: seq<byte>)
    requires plmn == [0x13, 0x00, 0x14, 0x02, 0xF8, 0x10]
    ensures TableOf(plmn) == SimSpdi([SpdiOperator("208", "01\0"), SpdiOperator("310", "410")])
  {
    TwoEntriesDecoded(plmn);
    TwoEntriesInserted(SpdiOperator("310", "410"), SpdiOperator("208", "01\0"));
  }
}
