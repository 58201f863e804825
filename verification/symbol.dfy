/**
 The hierarchical symbol table of pan/symbol.c, first on snapshots of the heap: what a walk along a comma path
 finds, and how one changed list changes every walk.
 */
module Symbol {
  import opened Wrappers

  type Path = seq<string>

  /** What a key's data pointer can be: NULL, something that is not a table, or a table. */
  datatype Data = Null | Leaf(text: string) | Sub(table: Table)
  datatype Entry = Entry(key: string, data: Data)
  datatype Cursor = Nowhere | At(table: Table, index: nat)

  /** A table header: the list of entries and the cursor. */
  class Table {
    var entries: seq<Entry>
    var cursor: Cursor

    /** newsym */
    constructor ()
      ensures entries == [] && cursor == Nowhere
    {
      entries, cursor := [], Nowhere;
    }
  }

  /** The lists of a set of tables at one moment. */
  type Heap = map<Table, seq<Entry>>

  // ----- One level -----

  predicate DistinctKeys(es: seq<Entry>) {
    forall i, j | 0 <= i < j < |es| :: es[i].key != es[j].key
  }

  /** The position of a key's first entry, or the length of the list. */
  function Find(es: seq<Entry>, key: string): (i: nat)
    ensures i <= |es| && (i < |es| ==> es[i].key == key)
    ensures forall j | 0 <= j < i :: es[j].key != key
  {
    if es == [] || es[0].key == key then 0 else 1 + Find(es[1..], key)
  }

  function Bound(es: seq<Entry>, key: string): Option<Data> {
    var i := Find(es, key);
    if i < |es| then Some(es[i].data) else None
  }

  /** `es'` is `es` with one key bound to `d`. */
  ghost predicate Rebound(es: seq<Entry>, es': seq<Entry>, key: string, d: Data) {
    Bound(es', key) == Some(d) && forall k | k != key :: Bound(es', k) == Bound(es, k)
  }

  lemma FindIs(es: seq<Entry>, key: string, i: nat)
    requires i <= |es| && (i < |es| ==> es[i].key == key) && forall j | 0 <= j < i :: es[j].key != key
    ensures Find(es, key) == i
  {
  }

  lemma AppendBinds(es: seq<Entry>, key: string, d: Data)
    requires DistinctKeys(es) && Bound(es, key).None?
    ensures DistinctKeys(es + [Entry(key, d)]) && Rebound(es, es + [Entry(key, d)], key, d)
  {
    var es' := es + [Entry(key, d)];
    FindIs(es', key, |es|);
    forall k | k != key ensures Bound(es', k) == Bound(es, k) {
      var i := Find(es, k);
      FindIs(es', k, if i < |es| then i else |es'|);
    }
  }

  lemma ReplaceBinds(es: seq<Entry>, i: nat, d: Data)
    requires i < |es| && DistinctKeys(es)
    ensures
      var es' := es[i := es[i].(data := d)];
      DistinctKeys(es') && Rebound(es, es', es[i].key, d)
  {
    var es' := es[i := es[i].(data := d)];
    FindIs(es', es[i].key, i);
    forall k | k != es[i].key ensures Bound(es', k) == Bound(es, k) {
      FindIs(es', k, Find(es, k));
    }
  }

  // ----- Walks -----

  /** What is bound to a path below `t`; the empty path is `t` itself. */
  ghost function Lookup(h: Heap, t: Table, path: Path): Option<Data>
    decreases |path|, 1
  {
    if path == [] then Some(Sub(t))
    else if t !in h || Bound(h[t], path[0]).None? then None
    else Follow(h, Bound(h[t], path[0]).value, path[1..])
  }

  ghost function Follow(h: Heap, d: Data, path: Path): Option<Data>
    decreases |path|, 2
  {
    if path == [] then Some(d) else if d.Sub? then Lookup(h, d.table, path) else None
  }

  lemma {:induction false} LookupSplits(h: Heap, t: Table, p: Path, q: Path)
    ensures
      var r := Lookup(h, t, p);
      Lookup(h, t, p + q) == if r.None? then None else Follow(h, r.value, q)
    decreases |p|
  {
    if p == [] {
      assert p + q == q;
    } else {
      assert (p + q)[1..] == p[1..] + q;
      if t in h && Bound(h[t], p[0]).Some? {
        var d := Bound(h[t], p[0]).value;
        if p[1..] == [] {
          assert p[1..] + q == q;
        } else if d.Sub? {
          LookupSplits(h, d.table, p[1..], q);
        }
      }
    }
  }

  // ----- Well-formed trees of tables -----

  /** A sub-table is in the heap, at the address of its table followed by its key. */
  ghost predicate Child(at: map<Table, Path>, t: Table, e: Entry)
    requires t in at
  {
    e.data.Sub? ==> e.data.table in at && at[e.data.table] == at[t] + [e.key]
  }

  ghost predicate GoodTable(h: Heap, at: map<Table, Path>, t: Table)
    requires t in h && t in at
  {
    DistinctKeys(h[t]) && forall e | e in h[t] :: Child(at, t, e)
  }

  /**
   Every table has one address: no table is shared, none contains itself, and no list holds a key twice.
   */
  ghost predicate Wf(h: Heap, at: map<Table, Path>, root: Table) {
    && h.Keys == at.Keys && root in h && at[root] == []
    && forall t | t in h :: GoodTable(h, at, t)
  }

  lemma BoundChild(h: Heap, at: map<Table, Path>, root: Table, t: Table, key: string)
    requires Wf(h, at, root) && t in h && Bound(h[t], key).Some? && Bound(h[t], key).value.Sub?
    ensures
      var t' := Bound(h[t], key).value.table;
      t' in h && at[t'] == at[t] + [key]
  {
    assert GoodTable(h, at, t);
    assert h[t][Find(h[t], key)] in h[t];
  }

  lemma {:induction false} LookupAddress(h: Heap, at: map<Table, Path>, root: Table, t: Table, p: Path)
    requires Wf(h, at, root) && t in h && Lookup(h, t, p).Some? && Lookup(h, t, p).value.Sub?
    ensures
      var t' := Lookup(h, t, p).value.table;
      t' in h && at[t'] == at[t] + p
    decreases |p|
  {
    hide GoodTable, Bound;
    if p != [] {
      var d := Bound(h[t], p[0]).value;
      BoundChild(h, at, root, t, p[0]);
      LookupAddress(h, at, root, d.table, p[1..]);
      assert at[t] + [p[0]] + p[1..] == at[t] + p;
    }
  }

  // ----- One list changes -----

  /** Only the list of `c` differs on the tables of `h`. */
  ghost predicate OnlyChanged(h: Heap, h': Heap, c: Table) {
    forall t | t in h :: t in h' && (t != c ==> h'[t] == h[t])
  }

  lemma {:induction false} Untouched(h: Heap, h': Heap, at: map<Table, Path>, root: Table, c: Table, t: Table, q: Path)
    requires Wf(h, at, root) && OnlyChanged(h, h', c) && c in h && t in h && !(at[t] <= at[c])
    ensures Lookup(h', t, q) == Lookup(h, t, q)
    decreases |q|
  {
    hide GoodTable, Bound;
    if q != [] && Bound(h[t], q[0]).Some? && Bound(h[t], q[0]).value.Sub? && q[1..] != [] {
      BoundChild(h, at, root, t, q[0]);
      Untouched(h, h', at, root, c, Bound(h[t], q[0]).value.table, q[1..]);
    }
  }

  /** How binding one key in a table `c`, found along `p`, changes every walk. */
  lemma {:induction false} Graft(
      h: Heap, h': Heap, at: map<Table, Path>, root: Table, t: Table, p: Path, c: Table, key: string, d: Data,
      q: Path)
    requires Wf(h, at, root) && t in h && c in h && Lookup(h, t, p) == Some(Sub(c))
    requires OnlyChanged(h, h', c) && Rebound(h[c], h'[c], key, d)
    ensures
      Lookup(h', t, q) ==
      if p + [key] <= q then Follow(h', d, q[|p| + 1..]) else Lookup(h, t, q)
    decreases |p|
  {
    hide GoodTable, Bound;
    LookupAddress(h, at, root, t, p);
    if q != [] {
      if p == [] {
        if q[0] == key {
          assert p + [key] <= q;
        } else {
          GraftBeside(h, h', at, root, t, c, key, d, q);
        }
      } else {
        var e := Bound(h[t], p[0]).value;
        if q[0] == p[0] {
          if e.Sub? {
            BoundChild(h, at, root, t, p[0]);
            Graft(h, h', at, root, e.table, p[1..], c, key, d, q[1..]);
            assert p + [key] <= q <==> p[1..] + [key] <= q[1..];
            assert p + [key] <= q ==> q[1..][|p[1..]| + 1..] == q[|p| + 1..];
          }
        } else {
          assert at[c][|at[t]|] == p[0];
          GraftBeside(h, h', at, root, t, c, key, d, q);
        }
      }
    }
  }

  /** A walk that leaves the way to the changed binding at its first step. */
  lemma GraftBeside(
      h: Heap, h': Heap, at: map<Table, Path>, root: Table, t: Table, c: Table, key: string, d: Data, q: Path)
    requires Wf(h, at, root) && t in h && c in h && q != []
    requires OnlyChanged(h, h', c) && Rebound(h[c], h'[c], key, d)
    requires if t == c then q[0] != key else !(at[t] + [q[0]] <= at[c])
    ensures Lookup(h', t, q) == Lookup(h, t, q)
  {
    assert Bound(h'[t], q[0]) == Bound(h[t], q[0]);
    hide GoodTable, Bound;
    if Bound(h[t], q[0]).Some? && Bound(h[t], q[0]).value.Sub? && q[1..] != [] {
      BoundChild(h, at, root, t, q[0]);
      Untouched(h, h', at, root, c, Bound(h[t], q[0]).value.table, q[1..]);
    }
  }

  /** A tree of tables reads the same in any heap that agrees on its tables. */
  lemma {:induction false} SameTree(h: Heap, h': Heap, at: map<Table, Path>, root: Table, t: Table, q: Path)
    requires Wf(h, at, root) && t in h && forall u | u in h :: u in h' && h'[u] == h[u]
    ensures Lookup(h', t, q) == Lookup(h, t, q)
    decreases |q|
  {
    hide GoodTable, Bound;
    if q != [] && Bound(h[t], q[0]).Some? && Bound(h[t], q[0]).value.Sub? && q[1..] != [] {
      BoundChild(h, at, root, t, q[0]);
      SameTree(h, h', at, root, Bound(h[t], q[0]).value.table, q[1..]);
    }
  }

  // ----- A tree put under a key -----

  /** The data of a put brings its own tree of tables when it is a table, and none otherwise. */
  ghost predicate Brings(d: Data, hs: Heap, ats: map<Table, Path>) {
    if d.Sub? then Wf(hs, ats, d.table) else hs == map[] && ats == map[]
  }

  ghost function Moved(ats: map<Table, Path>, prefix: Path): map<Table, Path> {
    map t | t in ats :: prefix + ats[t]
  }

  lemma ChildrenAttached(
      h: Heap, at: map<Table, Path>, root: Table, c: Table, es: seq<Entry>, key: string, d: Data, hs: Heap,
      ats: map<Table, Path>, t: Table)
    requires Wf(h, at, root) && c in h && Brings(d, hs, ats) && hs.Keys !! h.Keys
    requires DistinctKeys(es) && forall e | e in es :: e in h[c] || e == Entry(key, d)
    requires t in h[c := es] + hs
    ensures
      var at' := at + Moved(ats, at[c] + [key]);
      t in at' && GoodTable(h[c := es] + hs, at', t)
  {
    var h', at' := h[c := es] + hs, at + Moved(ats, at[c] + [key]);
    if t in hs {
      assert GoodTable(hs, ats, t);
      forall e | e in h'[t] ensures Child(at', t, e) {
        assert Child(ats, t, e);
      }
    } else {
      assert GoodTable(h, at, t);
      forall e | e in h'[t] ensures Child(at', t, e) {
        if e in h[t] {
          assert Child(at, t, e);
        }
      }
    }
  }

  lemma AttachKeepsWf(
      h: Heap, at: map<Table, Path>, root: Table, c: Table, es: seq<Entry>, key: string, d: Data, hs: Heap,
      ats: map<Table, Path>)
    requires Wf(h, at, root) && c in h && Brings(d, hs, ats) && hs.Keys !! h.Keys
    requires DistinctKeys(es) && forall e | e in es :: e in h[c] || e == Entry(key, d)
    ensures Wf(h[c := es] + hs, at + Moved(ats, at[c] + [key]), root)
  {
    var h', at' := h[c := es] + hs, at + Moved(ats, at[c] + [key]);
    assert Moved(ats, at[c] + [key]).Keys == ats.Keys == hs.Keys by {
      if !d.Sub? {
        assert hs.Keys == {};
      }
    }
    assert h'.Keys == at'.Keys;
    forall t | t in h' ensures t in at' && GoodTable(h', at', t) {
      ChildrenAttached(h, at, root, c, es, key, d, hs, ats, t);
    }
  }

  /** What a walk below the put data finds. */
  lemma BelowData(h': Heap, d: Data, hs: Heap, ats: map<Table, Path>, q: Path)
    requires Brings(d, hs, ats) && forall u | u in hs :: u in h' && h'[u] == hs[u]
    ensures Follow(h', d, q) == Follow(hs, d, q)
  {
    if d.Sub? {
      SameTree(hs, h', ats, d.table, d.table, q);
    }
  }

  /**
   Every walk after one key of the table found along `p` is bound to `d`: paths through the key see the new
   data, all others what they saw before.
   */
  lemma PutOne(
      h: Heap, at: map<Table, Path>, root: Table, p: Path, c: Table, es: seq<Entry>, key: string, d: Data,
      hs: Heap, ats: map<Table, Path>, q: Path)
    requires Wf(h, at, root) && c in h && Lookup(h, root, p) == Some(Sub(c))
    requires Brings(d, hs, ats) && hs.Keys !! h.Keys && Rebound(h[c], es, key, d)
    ensures
      Lookup(h[c := es] + hs, root, q) ==
      if p + [key] <= q then Follow(hs, d, q[|p| + 1..]) else Lookup(h, root, q)
  {
    var h' := h[c := es] + hs;
    hide Wf, Lookup, Follow, Brings, Bound;
    Graft(h, h', at, root, root, p, c, key, d, q) by {
      RootIn(h, at, root);
    }
    if p + [key] <= q {
      BelowData(h', d, hs, ats, q[|p| + 1..]);
    }
  }

  lemma RootIn(h: Heap, at: map<Table, Path>, root: Table)
    requires Wf(h, at, root)
    ensures root in h
  {
  }

  // ----- What a put does to every path -----

  /** Some proper prefix of the path is bound to something that is not a table. */
  ghost predicate Blocked(h: Heap, root: Table, keys: Path) {
    exists j | 0 < j < |keys| :: BlockedAt(h, root, keys, j)
  }

  ghost predicate BlockedAt(h: Heap, root: Table, keys: Path, j: nat)
    requires j <= |keys|
  {
    Lookup(h, root, keys[..j]).Some? && !Lookup(h, root, keys[..j]).value.Sub?
  }

  /** Proper prefixes of the path that were missing, up to length m, are new tables; every other path is as before. */
  ghost predicate Opened(h0: Heap, h: Heap, root: Table, keys: Path, m: nat)
    requires m <= |keys|
  {
    forall q: Path ::
      (q <= keys[..m] && Lookup(h0, root, q).None? ==> NewTable(h0, Lookup(h, root, q))) &&
      (!(q <= keys[..m] && Lookup(h0, root, q).None?) ==> Lookup(h, root, q) == Lookup(h0, root, q))
  }

  ghost predicate NewTable(h0: Heap, d: Option<Data>) {
    d.Some? && d.value.Sub? && d.value.table !in h0
  }

  /** The table after a successful put. */
  ghost predicate Stored(h0: Heap, h: Heap, root: Table, keys: Path, d: Data, hs: Heap) {
    forall q: Path :: StoredAt(h0, h, root, keys, d, hs, q)
  }

  ghost predicate StoredAt(h0: Heap, h: Heap, root: Table, keys: Path, d: Data, hs: Heap, q: Path) {
    if keys <= q then Lookup(h, root, q) == Follow(hs, d, q[|keys|..])
    else if q <= keys && Lookup(h0, root, q).None? then NewTable(h0, Lookup(h, root, q))
    else Lookup(h, root, q) == Lookup(h0, root, q)
  }

  lemma MissingBelow(h: Heap, root: Table, p: Path, q: Path)
    requires p <= q && Lookup(h, root, p).None?
    ensures Lookup(h, root, q).None?
  {
    assert q == p + q[|p|..];
    LookupSplits(h, root, p, q[|p|..]);
  }

  /** One more table is created on the way. */
  lemma OpenOne(h0: Heap, h: Heap, at: map<Table, Path>, root: Table, keys: Path, m: nat, c: Table, n: Table)
    requires Wf(h, at, root) && m < |keys| && Opened(h0, h, root, keys, m) && h0.Keys <= h.Keys
    requires c in h && Lookup(h, root, keys[..m]) == Some(Sub(c)) && Bound(h[c], keys[m]).None?
    requires Lookup(h0, root, keys[..m + 1]).None? && n !in h
    ensures
      var h' := h[c := h[c] + [Entry(keys[m], Sub(n))]] + map[n := []];
      Opened(h0, h', root, keys, m + 1) && Lookup(h', root, keys[..m + 1]) == Some(Sub(n))
  {
    var es, hs, ats := h[c] + [Entry(keys[m], Sub(n))], map[n := []], map[n := []];
    var h' := h[c := es] + hs;
    assert DistinctKeys(h[c]) by { assert GoodTable(h, at, c); }
    AppendBinds(h[c], keys[m], Sub(n));
    assert Brings(Sub(n), hs, ats);
    assert keys[..m] + [keys[m]] == keys[..m + 1];
    forall q: Path
      ensures q <= keys[..m + 1] && Lookup(h0, root, q).None? ==> NewTable(h0, Lookup(h', root, q))
      ensures !(q <= keys[..m + 1] && Lookup(h0, root, q).None?) ==> Lookup(h', root, q) == Lookup(h0, root, q)
    {
      PutOne(h, at, root, keys[..m], c, es, keys[m], Sub(n), hs, ats, q);
      OpenPath(h0, h, root, keys, m, h', n, q);
    }
    PutOne(h, at, root, keys[..m], c, es, keys[m], Sub(n), hs, ats, keys[..m + 1]);
  }

  lemma OpenPath(h0: Heap, h: Heap, root: Table, keys: Path, m: nat, h': Heap, n: Table, q: Path)
    requires m < |keys| && Opened(h0, h, root, keys, m) && h0.Keys <= h.Keys && n !in h
    requires Lookup(h0, root, keys[..m + 1]).None?
    requires
      Lookup(h', root, q) ==
      if keys[..m + 1] <= q then Follow(map[n := []], Sub(n), q[m + 1..]) else Lookup(h, root, q)
    ensures q <= keys[..m + 1] && Lookup(h0, root, q).None? ==> NewTable(h0, Lookup(h', root, q))
    ensures !(q <= keys[..m + 1] && Lookup(h0, root, q).None?) ==> Lookup(h', root, q) == Lookup(h0, root, q)
  {
    if keys[..m + 1] <= q {
      MissingBelow(h0, root, keys[..m + 1], q);
      assert q <= keys[..m + 1] <==> q[m + 1..] == [];
    } else {
      assert q <= keys[..m + 1] <==> q <= keys[..m];
    }
  }

  /** The last key is bound. */
  lemma StoreLast(
      h0: Heap, h: Heap, at: map<Table, Path>, root: Table, keys: Path, c: Table, es: seq<Entry>, d: Data,
      hs: Heap, ats: map<Table, Path>)
    requires Wf(h, at, root) && keys != [] && Opened(h0, h, root, keys, |keys| - 1) && h0.Keys <= h.Keys
    requires c in h && Lookup(h, root, keys[..|keys| - 1]) == Some(Sub(c))
    requires Brings(d, hs, ats) && hs.Keys !! h.Keys && Rebound(h[c], es, keys[|keys| - 1], d)
    ensures Stored(h0, h[c := es] + hs, root, keys, d, hs)
  {
    var m := |keys| - 1;
    var h' := h[c := es] + hs;
    assert keys[..m] + [keys[m]] == keys;
    forall q: Path ensures StoredAt(h0, h', root, keys, d, hs, q) {
      PutOne(h, at, root, keys[..m], c, es, keys[m], d, hs, ats, q);
      if !(keys <= q) {
        assert q <= keys <==> q <= keys[..m];
      }
    }
  }
}
