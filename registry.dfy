/**
 * The source registry and the presence index, as values: two keyed
 * collections of per-source line tables and the dense per-line counter
 * array, with the invariant that ties them together and the facts each
 * mutation of `breakpoint` needs to keep it.
 */
module Registry {
  import opened Wrappers
  import opened Descriptor

  /** A source table (`bp_source`): line number to breakpoint. */
  type Table = map<nat, Bp>

  /** A client path for file-backed code, or the numeric reference of an anonymous chunk. */
  datatype SourceKey = Path(path: string) | Ref(ref: int)

  /** `files_` and `memorys_`. */
  datatype Sources = Sources(files: map<string, Table>, memorys: map<int, Table>)

  predicate Registered(reg: Sources, key: SourceKey) {
    match key
    case Path(p) => p in reg.files
    case Ref(r) => r in reg.memorys
  }

  /** The table for a key; an unregistered key reads as an empty table. */
  function TableOf(reg: Sources, key: SourceKey): (t: Table)
    ensures !Registered(reg, key) ==> t == map[]
  {
    match key
    case Path(p) => if p in reg.files then reg.files[p] else map[]
    case Ref(r) => if r in reg.memorys then reg.memorys[r] else map[]
  }

  /** The registry with the table for `key` replaced (or created). */
  function Put(reg: Sources, key: SourceKey, t: Table): (reg': Sources)
    ensures Registered(reg', key) && TableOf(reg', key) == t
    ensures forall k :: k != key ==> Registered(reg', k) == Registered(reg, k) && TableOf(reg', k) == TableOf(reg, k)
  {
    match key
    case Path(p) => reg.(files := reg.files[p := t])
    case Ref(r) => reg.(memorys := reg.memorys[r := t])
  }

  /** Putting back a registered key's own table changes nothing. */
  lemma PutOwnTable(reg: Sources, key: SourceKey)
    requires Registered(reg, key)
    ensures Put(reg, key, TableOf(reg, key)) == reg
  {
  }

  /** `get_bp`: the registry once `key` has a table, an empty one if it had none. */
  function Register(reg: Sources, key: SourceKey): (reg': Sources)
    ensures Registered(reg', key) && TableOf(reg', key) == TableOf(reg, key)
    ensures forall k :: k != key ==> Registered(reg', k) == Registered(reg, k) && TableOf(reg', k) == TableOf(reg, k)
  {
    if Registered(reg, key) then reg else Put(reg, key, map[])
  }

  /**
   * `add` on a table: a new line gets a fresh breakpoint with counter 0; an
   * existing line gets the new fields and keeps its counter.
   */
  function Upsert(t: Table, line: nat, info: BpInfo): (t': Table)
    ensures t'.Keys == t.Keys + {line}
    ensures forall l :: l in t && l != line ==> t'[l] == t[l]
    ensures line in t ==> t'[line] == MakeBp(info, t[line].hit)
    ensures line !in t ==> t'[line] == MakeBp(info, 0)
  {
    t[line := MakeBp(info, if line in t then t[line].hit else 0)]
  }

  /** The keys of `m` whose table has an entry at `line`. */
  ghost function Holders<K>(m: map<K, Table>, line: nat): set<K> {
    set k | k in m && line in m[k]
  }

  /** Number of source tables, of both kinds, with an entry at `line`. */
  ghost function Count(reg: Sources, line: nat): nat {
    |Holders(reg.files, line)| + |Holders(reg.memorys, line)|
  }

  /** Every line of every table is below `size`. */
  ghost predicate Bounded<K>(m: map<K, Table>, size: nat) {
    forall k, l :: k in m && l in m[k] ==> l < size
  }

  /**
   * The presence-index invariant: every table line has a slot, and slot `l`
   * holds exactly the number of source tables with an entry at `l`.
   */
  ghost predicate Indexed(reg: Sources, fast: seq<int>) {
    && Bounded(reg.files, |fast|)
    && Bounded(reg.memorys, |fast|)
    && forall l: nat :: l < |fast| ==> fast[l] == Count(reg, l)
  }

  /** The index after `resize(line + 1)` and `fill_n` of the new slots with zero, when `line` has no slot. */
  function Grown(fast: seq<int>, line: nat): (r: seq<int>)
    ensures |r| == if line < |fast| then |fast| else line + 1
    ensures r[..|fast|] == fast
    ensures forall l :: |fast| <= l < |r| ==> r[l] == 0
  {
    if line < |fast| then fast else fast + seq(line + 1 - |fast|, _ => 0)
  }

  /** The index with slot `line` incremented. */
  function Bumped(fast: seq<int>, line: nat): (r: seq<int>)
    requires line < |fast|
    ensures |r| == |fast| && r[line] == fast[line] + 1
    ensures forall l :: 0 <= l < |fast| && l != line ==> r[l] == fast[l]
  {
    fast[line := fast[line] + 1]
  }

  /** The index with each slot in `lines` decremented once. */
  function Dropped(fast: seq<int>, lines: set<nat>): (r: seq<int>)
    ensures |r| == |fast|
    ensures forall l: nat :: l < |fast| ==> r[l] == if l in lines then fast[l] - 1 else fast[l]
  {
    seq(|fast|, l requires 0 <= l < |fast| => if l in lines then fast[l] - 1 else fast[l])
  }

  /** Dropping one more line is one more decrement, at that slot only. */
  lemma DroppedOneMore(fast: seq<int>, done: set<nat>, line: nat)
    requires line < |fast| && line !in done
    ensures Dropped(fast, done + {line}) == Dropped(fast, done)[line := fast[line] - 1]
  {
  }

  lemma HoldersPutApart<K>(m: map<K, Table>, k: K, t: Table, line: nat)
    ensures Holders(m[k := t], line) - {k} == Holders(m, line) - {k}
    ensures k in Holders(m[k := t], line) <==> line in t
    ensures k in Holders(m, line) <==> k in m && line in m[k]
  {
  }

  lemma CardWithout<K>(s: set<K>, k: K)
    ensures |s| == |s - {k}| + (if k in s then 1 else 0)
  {
    if k in s {
      assert s == (s - {k}) + {k};
    } else {
      assert s == s - {k};
    }
  }

  lemma HoldersPut<K>(m: map<K, Table>, k: K, t: Table, line: nat)
    ensures |Holders(m[k := t], line)|
            == |Holders(m, line)| - (if k in m && line in m[k] then 1 else 0) + (if line in t then 1 else 0)
  {
    HoldersPutApart(m, k, t, line);
    CardWithout(Holders(m[k := t], line), k);
    CardWithout(Holders(m, line), k);
  }

  /** Replacing one table changes the count at `line` by what that table gains or loses there. */
  lemma CountPut(reg: Sources, key: SourceKey, t: Table, line: nat)
    ensures Count(Put(reg, key, t), line)
            == Count(reg, line) - (if line in TableOf(reg, key) then 1 else 0) + (if line in t then 1 else 0)
  {
    match key
    case Path(p) => HoldersPut(reg.files, p, t, line);
    case Ref(r) => HoldersPut(reg.memorys, r, t, line);
  }

  /** No table reaches beyond the index, so lines past its end are counted zero times. */
  lemma CountBeyond(reg: Sources, fast: seq<int>, line: nat)
    requires Indexed(reg, fast) && line >= |fast|
    ensures Count(reg, line) == 0
  {
    assert Holders(reg.files, line) == {};
    assert Holders(reg.memorys, line) == {};
  }

  /**
   * The fast reject never hides a breakpoint: a line present in some table
   * has a slot, and that slot is positive.
   */
  lemma PresentLineHasPositiveSlot(reg: Sources, fast: seq<int>, key: SourceKey, line: nat)
    requires Indexed(reg, fast) && line in TableOf(reg, key)
    ensures line < |fast| && fast[line] > 0
  {
    match key
    case Path(p) => assert p in Holders(reg.files, line);
    case Ref(r) => assert r in Holders(reg.memorys, line);
  }

  /** Replacing one table keeps the invariant when each slot of the new index moves by what that table gains or loses. */
  lemma PutKeepsIndexed(reg: Sources, fast: seq<int>, key: SourceKey, t: Table, fast': seq<int>)
    requires Indexed(reg, fast)
    requires |fast| <= |fast'| && forall l :: l in t ==> l < |fast'|
    requires forall l: nat :: l < |fast'| ==>
      fast'[l] == (if l < |fast| then fast[l] else 0)
                  - (if l in TableOf(reg, key) then 1 else 0) + (if l in t then 1 else 0)
    ensures Indexed(Put(reg, key, t), fast')
  {
    var reg' := Put(reg, key, t);
    forall l: nat | l < |fast'| ensures fast'[l] == Count(reg', l) {
      CountPut(reg, key, t, l);
      if l >= |fast| {
        CountBeyond(reg, fast, l);
      }
    }
  }

  /** A new line in a table: grown index, slot `line` bumped, the invariant kept. */
  lemma InsertKeepsIndexed(reg: Sources, fast: seq<int>, key: SourceKey, line: nat, b: Bp)
    requires Indexed(reg, fast) && line !in TableOf(reg, key)
    ensures Indexed(Put(reg, key, TableOf(reg, key)[line := b]), Bumped(Grown(fast, line), line))
  {
    var t := TableOf(reg, key)[line := b];
    var fast' := Bumped(Grown(fast, line), line);
    forall l | l in t ensures l < |fast'| {
      if l != line {
        PresentLineHasPositiveSlot(reg, fast, key, l);
      }
    }
    forall l: nat | l < |fast'|
      ensures fast'[l] == (if l < |fast| then fast[l] else 0)
                          - (if l in TableOf(reg, key) then 1 else 0) + (if l in t then 1 else 0)
    {
      if l < |fast| {
        assert Grown(fast, line)[l] == fast[l];
      }
      if l in TableOf(reg, key) {
        PresentLineHasPositiveSlot(reg, fast, key, l);
      }
    }
    PutKeepsIndexed(reg, fast, key, t, fast');
  }

  /** Overwriting the breakpoint at an existing line leaves the index as it is. */
  lemma ReplaceKeepsIndexed(reg: Sources, fast: seq<int>, key: SourceKey, line: nat, b: Bp)
    requires Indexed(reg, fast) && line in TableOf(reg, key)
    ensures Indexed(Put(reg, key, TableOf(reg, key)[line := b]), fast)
  {
    var t := TableOf(reg, key)[line := b];
    forall l | l in t ensures l < |fast| {
      PresentLineHasPositiveSlot(reg, fast, key, l);
    }
    PutKeepsIndexed(reg, fast, key, t, fast);
  }

  /** Emptying a registered table after decrementing each of its lines once keeps the invariant. */
  lemma ClearKeepsIndexed(reg: Sources, fast: seq<int>, key: SourceKey)
    requires Indexed(reg, fast) && Registered(reg, key)
    ensures Indexed(Put(reg, key, map[]), Dropped(fast, TableOf(reg, key).Keys))
  {
    PutKeepsIndexed(reg, fast, key, map[], Dropped(fast, TableOf(reg, key).Keys));
  }

  /** Registering an empty table (`get_bp` on a new key) keeps the invariant. */
  lemma RegisterKeepsIndexed(reg: Sources, fast: seq<int>, key: SourceKey)
    requires Indexed(reg, fast)
    ensures Indexed(Register(reg, key), fast)
  {
    if !Registered(reg, key) {
      PutKeepsIndexed(reg, fast, key, map[], fast);
    }
  }

  /** An empty registry is indexed by any all-zero array, the empty one included. */
  lemma EmptyIndexed(size: nat)
    ensures Indexed(Sources(map[], map[]), seq(size, _ => 0))
  {
    var reg := Sources(map[], map[]);
    forall l: nat | l < size ensures Count(reg, l) == 0 {
      assert Holders(reg.files, l) == {};
      assert Holders(reg.memorys, l) == {};
    }
  }
}
