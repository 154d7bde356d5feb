/** The table of elementary files the daemon knows (`ef_db`): for each
    file id, its parent directory, structure, fixed size and the access
    conditions for reading and updating it, in ascending id order; and
    its binary-search lookup `sim_ef_db_lookup`. */
module EfDb {
  import opened Bytes

  /** File structures, as the table records them and both response
      parsers report them: transparent, linear fixed and cyclic. */
  const BINARY: byte := 0
  const RECORD: byte := 1
  const CYCLIC: byte := 3

  /** An access condition: a four-bit code. */
  type Access = x: int | 0 <= x < 0x10

  /** Access conditions (always, PIN, PIN2, administrative, never). */
  const ALW: Access := 0
  const PIN: Access := 1
  const PIN2: Access := 2
  const ADM: Access := 4
  const NEV: Access := 15

  /** The master file, parent of the files directly under the root. */
  const ROOT_MF: uint16 := 0x3F00

  /** `struct sim_ef_info`. */
  datatype EfInfo = EfInfo(id: uint16, parent: uint16, fileType: byte, size: byte,
                           permRead: Access, permUpdate: Access)

  /** The number of entries. */
  const EF_DB_SIZE: nat := 49

  /** Entry `i` of the table. */
  function Entry(i: nat): EfInfo
    requires i < EF_DB_SIZE
  {
    match i
    case 0 => EfInfo(0x2F05, ROOT_MF, BINARY, 0, ALW, PIN)
    case 1 => EfInfo(0x2F06, ROOT_MF, RECORD, 0, ALW, PIN)
    case 2 => EfInfo(0x2FE2, ROOT_MF, BINARY, 10, ALW, NEV)
    case 3 => EfInfo(0x6F05, 0x7F20, BINARY, 0, ALW, PIN)
    case 4 => EfInfo(0x6F06, 0x0000, RECORD, 0, ALW, ADM)
    case 5 => EfInfo(0x6F2C, 0x7F20, BINARY, 16, PIN, PIN)
    case 6 => EfInfo(0x6F30, 0x7F20, BINARY, 0, PIN, PIN)
    case 7 => EfInfo(0x6F32, 0x7F20, BINARY, 0, PIN, ADM)
    case 8 => EfInfo(0x6F37, 0x7F20, BINARY, 3, PIN, PIN2)
    case 9 => EfInfo(0x6F38, 0x7F20, BINARY, 0, PIN, ADM)
    case 10 => EfInfo(0x6F39, 0x7F20, CYCLIC, 3, PIN, PIN2)
    case 11 => EfInfo(0x6F3B, 0x7F10, RECORD, 0, PIN, PIN2)
    case 12 => EfInfo(0x6F3E, 0x7F20, BINARY, 0, PIN, ADM)
    case 13 => EfInfo(0x6F3F, 0x7F20, BINARY, 0, PIN, ADM)
    case 14 => EfInfo(0x6F40, 0x7F10, RECORD, 0, PIN, PIN)
    case 15 => EfInfo(0x6F41, 0x7F20, BINARY, 5, PIN, PIN2)
    case 16 => EfInfo(0x6F42, 0x7F10, RECORD, 0, PIN, PIN)
    case 17 => EfInfo(0x6F44, 0x7F10, CYCLIC, 0, PIN, PIN)
    case 18 => EfInfo(0x6F45, 0x7F20, BINARY, 0, PIN, PIN)
    case 19 => EfInfo(0x6F46, 0x7F20, BINARY, 17, ALW, ADM)
    case 20 => EfInfo(0x6F48, 0x7F20, BINARY, 0, PIN, ADM)
    case 21 => EfInfo(0x6F49, 0x7F10, RECORD, 0, PIN, ADM)
    case 22 => EfInfo(0x6F4D, 0x7F20, RECORD, 0, PIN, PIN2)
    case 23 => EfInfo(0x6F50, 0x7F20, BINARY, 0, PIN, PIN)
    case 24 => EfInfo(0x6F51, 0x7F20, RECORD, 0, PIN, ADM)
    case 25 => EfInfo(0x6F53, 0x7F20, BINARY, 14, PIN, PIN)
    case 26 => EfInfo(0x6F56, 0x0000, BINARY, 0, PIN, PIN2)
    case 27 => EfInfo(0x6F60, 0x7F20, BINARY, 0, PIN, PIN)
    case 28 => EfInfo(0x6F61, 0x7F20, BINARY, 0, PIN, ADM)
    case 29 => EfInfo(0x6F62, 0x7F20, BINARY, 0, PIN, ADM)
    case 30 => EfInfo(0x6F73, 0x0000, BINARY, 14, PIN, PIN)
    case 31 => EfInfo(0x6F7B, 0x7F20, BINARY, 0, PIN, PIN)
    case 32 => EfInfo(0x6F7E, 0x7F20, BINARY, 11, PIN, PIN)
    case 33 => EfInfo(0x6FAD, 0x7F20, BINARY, 0, ALW, ADM)
    case 34 => EfInfo(0x6FAE, 0x7F20, BINARY, 1, ALW, ADM)
    case 35 => EfInfo(0x6FB7, 0x7F20, BINARY, 0, ALW, ADM)
    case 36 => EfInfo(0x6FC5, 0x7F20, RECORD, 0, ALW, ADM)
    case 37 => EfInfo(0x6FC6, 0x7F20, RECORD, 0, ALW, ADM)
    case 38 => EfInfo(0x6FC7, 0x7F20, RECORD, 0, PIN, PIN)
    case 39 => EfInfo(0x6FC9, 0x7F20, RECORD, 0, PIN, PIN)
    case 40 => EfInfo(0x6FCA, 0x7F20, RECORD, 0, PIN, PIN)
    case 41 => EfInfo(0x6FCB, 0x7F20, RECORD, 16, PIN, PIN)
    case 42 => EfInfo(0x6FCD, 0x7F20, BINARY, 0, PIN, ADM)
    case 43 => EfInfo(0x6FD9, 0x0000, BINARY, 0, PIN, ADM)
    case 44 => EfInfo(0x6FDB, 0x0000, BINARY, 1, PIN, ADM)
    case 45 => EfInfo(0x6FDC, 0x0000, BINARY, 1, PIN, ADM)
    case 46 => EfInfo(0x6FDE, 0x0000, BINARY, 0, ALW, ADM)
    case 47 => EfInfo(0x6FDF, 0x0000, RECORD, 0, ALW, ADM)
    case 48 => EfInfo(0x6FE3, 0x0000, BINARY, 18, PIN, PIN)
  }

  /** The table, `ef_db`, in the order its initializer lists it. */
  function EfTable(): (t: seq<EfInfo>)
    ensures |t| == EF_DB_SIZE
  {
    seq(EF_DB_SIZE, i requires 0 <= i < EF_DB_SIZE => Entry(i))
  }

  /** The id of entry `i`. */
  function Id(i: nat): int
  {
    if i < EF_DB_SIZE then Entry(i).id else 0
  }

  /** `f` strictly ascending from `k` to `n`, one step at a time. */
  ghost predicate ChainFrom(f: nat -> int, n: nat, k: nat)
    decreases n - k
  {
    k + 1 >= n || (f(k) < f(k + 1) && ChainFrom(f, n, k + 1))
  }

  lemma {:induction false} ChainPairwise(f: nat -> int, n: nat, k: nat)
    requires ChainFrom(f, n, k)
    ensures forall i, j | k <= i < j < n :: f(i) < f(j)
    decreases n - k
  {
    if k + 1 < n {
      ChainPairwise(f, n, k + 1);
    }
  }

  /** Ids strictly ascending across the whole table. */
  ghost predicate StrictlyAscending(t: seq<EfInfo>)
  {
    forall i, j | 0 <= i < j < |t| :: t[i].id < t[j].id
  }

  /** Each entry's id, from entry `k` on, below the next one's. */
  predicate EntriesAscendingFrom(k: nat)
    decreases EF_DB_SIZE - k
  {
    k + 1 >= EF_DB_SIZE || (Entry(k).id < Entry(k + 1).id && EntriesAscendingFrom(k + 1))
  }

  /** The table's ids ascend from each entry to the next. */
  lemma EntriesAscending()
    ensures EntriesAscendingFrom(0)
  {
    assert EntriesAscendingFrom(48);
    assert EntriesAscendingFrom(47);
    assert EntriesAscendingFrom(46);
    assert EntriesAscendingFrom(45);
    assert EntriesAscendingFrom(44);
    assert EntriesAscendingFrom(43);
    assert EntriesAscendingFrom(42);
    assert EntriesAscendingFrom(41);
    assert EntriesAscendingFrom(40);
    assert EntriesAscendingFrom(39);
    assert EntriesAscendingFrom(38);
    assert EntriesAscendingFrom(37);
    assert EntriesAscendingFrom(36);
    assert EntriesAscendingFrom(35);
    assert EntriesAscendingFrom(34);
    assert EntriesAscendingFrom(33);
    assert EntriesAscendingFrom(32);
    assert EntriesAscendingFrom(31);
    assert EntriesAscendingFrom(30);
    assert EntriesAscendingFrom(29);
    assert EntriesAscendingFrom(28);
    assert EntriesAscendingFrom(27);
    assert EntriesAscendingFrom(26);
    assert EntriesAscendingFrom(25);
    assert EntriesAscendingFrom(24);
    assert EntriesAscendingFrom(23);
    assert EntriesAscendingFrom(22);
    assert EntriesAscendingFrom(21);
    assert EntriesAscendingFrom(20);
    assert EntriesAscendingFrom(19);
    assert EntriesAscendingFrom(18);
    assert EntriesAscendingFrom(17);
    assert EntriesAscendingFrom(16);
    assert EntriesAscendingFrom(15);
    assert EntriesAscendingFrom(14);
    assert EntriesAscendingFrom(13);
    assert EntriesAscendingFrom(12);
    assert EntriesAscendingFrom(11);
    assert EntriesAscendingFrom(10);
    assert EntriesAscendingFrom(9);
    assert EntriesAscendingFrom(8);
    assert EntriesAscendingFrom(7);
    assert EntriesAscendingFrom(6);
    assert EntriesAscendingFrom(5);
    assert EntriesAscendingFrom(4);
    assert EntriesAscendingFrom(3);
    assert EntriesAscendingFrom(2);
    assert EntriesAscendingFrom(1);
    assert EntriesAscendingFrom(0);
  }

  lemma {:induction false} EntriesChain(k: nat)
    requires EntriesAscendingFrom(k)
    ensures ChainFrom(Id, EF_DB_SIZE, k)
    decreases EF_DB_SIZE - k
  {
    if k + 1 < EF_DB_SIZE {
      EntriesChain(k + 1);
    }
  }

  /** `ef_db` is strictly ascending by id, as `bsearch` needs. */
  lemma EfDbStrictlyAscending()
    ensures StrictlyAscending(EfTable())
  {
    EntriesAscending();
    EntriesChain(0);
    ChainPairwise(Id, EF_DB_SIZE, 0);
    forall i, j | 0 <= i < j < |EfTable()| ensures EfTable()[i].id < EfTable()[j].id {
      assert Id(i) < Id(j);
    }
  }

  /** `bsearch` over `t[lo..hi]` with `find_ef_by_id`'s comparison,
      `id - info->id`: the index of an entry whose id is `id`, if the
      halving meets one. */
  function Search(t: seq<EfInfo>, id: uint16, lo: nat, hi: nat): (r: Option<nat>)
    requires lo <= hi <= |t|
    ensures r.Some? ==> lo <= r.value < hi && t[r.value].id == id
    decreases hi - lo
  {
    if lo >= hi then None
    else
      var mid := (lo + hi) / 2;
      var cmp := id - t[mid].id;
      if cmp < 0 then Search(t, id, lo, mid)
      else if cmp > 0 then Search(t, id, mid + 1, hi)
      else Some(mid)
  }

  /** On a strictly ascending table the search misses only ids that no
      entry of the range carries. */
  lemma {:induction false} SearchComplete(t: seq<EfInfo>, id: uint16, lo: nat, hi: nat, k: nat)
    requires lo <= hi <= |t| && StrictlyAscending(t)
    requires lo <= k < hi && t[k].id == id
    ensures Search(t, id, lo, hi).Some?
    decreases hi - lo
  {
    var mid := (lo + hi) / 2;
    if id < t[mid].id {
      SearchComplete(t, id, lo, mid, k);
    } else if id > t[mid].id {
      SearchComplete(t, id, mid + 1, hi, k);
    }
  }

  /** `sim_ef_db_lookup`. */
  function EfDbLookup(id: uint16): (r: Option<EfInfo>)
    ensures r.Some? ==> r.value.id == id && r.value in EfTable()
  {
    match Search(EfTable(), id, 0, |EfTable()|)
    case None => None
    case Some(i) => Some(EfTable()[i])
  }

  /** The lookup finds an entry exactly when the table holds the id. */
  lemma EfDbLookupComplete(id: uint16)
    ensures EfDbLookup(id).Some? <==> exists i | 0 <= i < |EfTable()| :: EfTable()[i].id == id
  {
    if i :| 0 <= i < |EfTable()| && EfTable()[i].id == id {
      EfDbStrictlyAscending();
      SearchComplete(EfTable(), id, 0, |EfTable()|, i);
    }
  }
}
