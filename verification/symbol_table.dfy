/**
 The operations of pan/symbol.c on tables in memory. A handle owns a tree of tables; every operation is stated
 on the paths it can look up.
 */
module SymbolTable {
  import opened Wrappers
  import opened Splitstr
  import opened Symbol

  /** 0, ENOTDIR and EEXIST. */
  datatype Errno = Done | NotDir | Exist

  ghost function Snapshot(tables: set<Table>): Heap
    reads tables`entries
  {
    map t | t in tables :: t.entries
  }

  lemma InSnapshot(tables: set<Table>, t: Table)
    requires t in tables
    ensures Snapshot(tables).Keys == tables && Snapshot(tables)[t] == t.entries
  {
  }

  /** The snapshot after one list has changed, with the tables of another tree. */
  lemma SnapshotAfter(v: Heap, c: Table, hs: Heap)
    requires c in v && hs.Keys !! v.Keys
    requires (forall t | t in v && t != c :: t.entries == v[t]) && forall t | t in hs :: t.entries == hs[t]
    ensures Snapshot(v.Keys + hs.Keys) == v[c := c.entries] + hs
  {
  }

  lemma InSnapshotAll(tables: set<Table>)
    ensures Snapshot(tables).Keys == tables && forall t | t in tables :: Snapshot(tables)[t] == t.entries
  {
  }

  lemma SameKeys(data: Data, hs: Heap, ats: map<Table, Path>, prefix: Path)
    requires Brings(data, hs, ats)
    ensures Moved(ats, prefix).Keys == hs.Keys
  {
    if !data.Sub? {
      assert hs.Keys == {} && Moved(ats, prefix).Keys == {};
    }
  }

  /** No list loses a key or changes their order: new keys come last. */
  ghost predicate KeepsOrder(h: Heap, h': Heap) {
    forall t | t in h :: t in h' && KeysKept(h[t], h'[t])
  }

  predicate KeysKept(es: seq<Entry>, es': seq<Entry>) {
    |es| <= |es'| && forall i | 0 <= i < |es| :: es'[i].key == es[i].key
  }

  lemma Cell(cells: seq<Option<string>>, keys: Path, k: nat)
    requires Holds(cells, keys) && k <= |keys|
    ensures k < |cells| && cells[k] == if k < |keys| then Some(keys[k]) else None
  {
  }

  /** find_key1 */
  method FindKey(es: seq<Entry>, key: string) returns (i: nat)
    ensures i == Find(es, key)
  {
    i := 0;
    while i < |es| && es[i].key != key
      invariant i <= |es| && forall j | 0 <= j < i :: es[j].key != key
    {
      i := i + 1;
    }
    FindIs(es, key, i);
  }

  lemma TableIn(h: Heap, at: map<Table, Path>, root: Table, p: Path)
    requires Wf(h, at, root) && Lookup(h, root, p).Some? && Lookup(h, root, p).value.Sub?
    ensures Lookup(h, root, p).value.table in h && at[Lookup(h, root, p).value.table] == p
  {
    LookupAddress(h, at, root, root, p);
    assert [] + p == p;
  }

  lemma LookupStep(h: Heap, root: Table, keys: Path, k: nat, c: Table)
    requires k < |keys| && c in h && Lookup(h, root, keys[..k]) == Some(Sub(c))
    ensures Lookup(h, root, keys[..k + 1]) == Bound(h[c], keys[k])
  {
    assert keys[..k + 1] == keys[..k] + [keys[k]];
    LookupSplits(h, root, keys[..k], [keys[k]]);
    assert [keys[k]][1..] == [];
    assert Follow(h, Sub(c), [keys[k]]) == Lookup(h, c, [keys[k]]);
  }

  lemma RootFound(h: Heap, at: map<Table, Path>, root: Table, keys: Path)
    requires Wf(h, at, root)
    ensures root in h && Lookup(h, root, keys[..0]) == Some(Sub(root))
  {
  }

  lemma BlockedHere(h: Heap, root: Table, keys: Path, k: nat)
    requires k <= |keys| && Lookup(h, root, keys[..k]).Some? && !Lookup(h, root, keys[..k]).value.Sub?
    ensures BlockedAt(h, root, keys, k)
  {
  }

  /** Nothing blocks a path whose prefixes are tables up to length k and missing beyond. */
  lemma NotBlocked(h: Heap, root: Table, keys: Path, k: nat, c: Table)
    requires k <= |keys| && Lookup(h, root, keys[..k]) == Some(Sub(c))
    requires k + 1 < |keys| ==> Lookup(h, root, keys[..k + 1]).None?
    ensures !Blocked(h, root, keys)
  {
    forall j: nat | 0 < j < |keys| ensures !BlockedAt(h, root, keys, j) {
      if j <= k {
        assert keys[..k] == keys[..j] + keys[j..k];
        LookupSplits(h, root, keys[..j], keys[j..k]);
      } else {
        assert keys[..k + 1] <= keys[..j];
        MissingBelow(h, root, keys[..k + 1], keys[..j]);
      }
    }
  }

  class Symbols {
    const root: Table
    ghost var at: map<Table, Path>

    ghost predicate Valid()
      reads this, at.Keys`entries
    {
      Wf(View(), at, root)
    }

    ghost function View(): Heap
      reads this, at.Keys`entries
    {
      Snapshot(at.Keys)
    }

    /** sym_open */
    constructor ()
      ensures Valid() && at == map[root := []] && fresh(root) && root.entries == [] && root.cursor == Nowhere
    {
      root := new Table();
      new;
      at := map[root := []];
      assert View() == map[root := []];
    }

    /** The search loop that sym_put and sym_get share. */
    method Descend(args: array<Option<string>>, ghost keys: Path) returns (k: nat, c: Table, i: nat, blocked: bool)
      requires Valid() && Holds(args[..], keys)
      ensures k <= |keys|
      ensures blocked ==> 0 < k < |keys| && BlockedAt(View(), root, keys, k)
      ensures !blocked ==> c in at && i <= |c.entries|
      ensures
        !blocked && k < |keys| ==>
          Lookup(View(), root, keys[..k]) == Some(Sub(c)) && Bound(c.entries, keys[k]).None?
      ensures
        !blocked && 0 < k == |keys| ==>
          Lookup(View(), root, keys[..k - 1]) == Some(Sub(c)) && i == Find(c.entries, keys[k - 1]) < |c.entries|
    {
      hide Lookup, Wf, BlockedAt;
      RootFound(View(), at, root, keys);
      k, c, i, blocked := 0, root, 0, false;
      assert forall j | 0 <= j < args.Length :: args[j] == args[..][j];
      while args[k].Some?
        invariant k <= |keys| && c in at && (k == |keys| ==> k == 0) && i == 0 && !blocked
        invariant Lookup(View(), root, keys[..k]) == Some(Sub(c))
        decreases |keys| - k
      {
        var n := FindKey(c.entries, args[k].value);
        LookupStep(View(), root, keys, k, c);
        if n == |c.entries| {
          return;
        }
        k := k + 1;
        if args[k].None? {
          i := n;
          return;
        }
        var data := c.entries[n].data;
        if !data.Sub? {
          BlockedHere(View(), root, keys, k);
          blocked := true;
          return;
        }
        TableIn(View(), at, root, keys[..k]);
        c := data.table;
      }
    }

    /** sym_get */
    method Get(key: string) returns (d: Data)
      requires Valid() && Components(key) != []
      ensures
        var r := Lookup(View(), root, Components(key));
        d == if r.None? then Null else r.value
    {
      ghost var keys := Components(key);
      var args, count := Split(Some(key), Some(","));
      var k, c, i, blocked := Descend(args, keys);
      assert forall j | 0 <= j < args.Length :: args[j] == args[..][j];
      assert keys[..|keys|] == keys;
      if blocked {
        BlockedMeansMissing(View(), root, keys, k);
        return Null;
      }
      if args[k].None? {
        LookupStep(View(), root, keys, k - 1, c);
        return c.entries[i].data;
      }
      LookupStep(View(), root, keys, k, c);
      MissingBelow(View(), root, keys[..k + 1], keys);
      return Null;
    }

    /** One list is replaced by one that binds `key` to `data`; the tables that the data brings join the tree. */
    method Bind(
        c: Table, es: seq<Entry>, ghost key: string, ghost data: Data, ghost hs: Heap,
        ghost ats: map<Table, Path>)
      requires Valid() && c in at && Brings(data, hs, ats) && hs == Snapshot(hs.Keys) && hs.Keys !! at.Keys
      requires DistinctKeys(es) && forall e | e in es :: e in c.entries || e == Entry(key, data)
      modifies this, c`entries
      ensures Valid() && at == old(at + Moved(ats, at[c] + [key])) && at.Keys == old(at.Keys) + hs.Keys
      ensures View() == old(View())[c := es] + hs
    {
      hide Wf, Brings, DistinctKeys, Moved, Snapshot;
      ghost var v, p := View(), at[c] + [key];
      InSnapshotAll(at.Keys);
      InSnapshotAll(hs.Keys);
      AttachKeepsWf(v, at, root, c, es, key, data, hs, ats);
      SameKeys(data, hs, ats, p);
      c.entries := es;
      at := at + Moved(ats, p);
      SnapshotAfter(v, c, hs);
    }

    /** add_key for a key that is not in the list. */
    method AddKey(c: Table, key: string, data: Data, ghost hs: Heap, ghost ats: map<Table, Path>)
      requires Valid() && c in at && Brings(data, hs, ats) && hs == Snapshot(hs.Keys) && hs.Keys !! at.Keys
      requires Bound(c.entries, key).None?
      modifies this, c`entries
      ensures Valid() && at == old(at + Moved(ats, at[c] + [key])) && at.Keys == old(at.Keys) + hs.Keys
      ensures View() == old(View())[c := old(c.entries) + [Entry(key, data)]] + hs
    {
      assert DistinctKeys(c.entries) by { assert GoodTable(View(), at, c); }
      AppendBinds(c.entries, key, data);
      Bind(c, c.entries + [Entry(key, data)], key, data, hs, ats);
    }

    /** The rounds of the second loop of sym_put that create the missing tables. */
    method AddTables(args: array<Option<string>>, ghost keys: Path, from: nat, table: Table) returns (k: nat, c: Table)
      requires Valid() && Holds(args[..], keys) && from < |keys|
      requires table in at && Lookup(View(), root, keys[..from]) == Some(Sub(table))
      requires Bound(table.entries, keys[from]).None?
      modifies this, at.Keys`entries
      ensures Valid() && old(at.Keys) <= at.Keys && fresh(at.Keys - old(at.Keys))
      ensures k + 1 == |keys| && c in at && Bound(c.entries, keys[k]).None?
      ensures Lookup(View(), root, keys[..k]) == Some(Sub(c))
      ensures Opened(old(View()), View(), root, keys, k) && KeepsOrder(old(View()), View())
    {
      hide Wf, Opened, KeepsOrder, Lookup, Follow, Bound, Snapshot, Holds;
      ghost var h0 := View();
      InSnapshot(at.Keys, table);
      k, c := from, table;
      LookupStep(h0, root, keys, k, c);
      OpenedStart(h0, root, keys, k, c);
      OrderStart(h0);
      Cell(args[..], keys, k);
      Cell(args[..], keys, k + 1);
      while args[k + 1].Some?
        invariant k < |keys| && k + 1 < args.Length && args[k] == Some(keys[k])
        invariant args[k + 1].Some? <==> k + 1 < |keys|
        invariant Valid() && old(at.Keys) <= at.Keys && fresh(at.Keys - old(at.Keys))
        invariant c in at && Lookup(View(), root, keys[..k]) == Some(Sub(c)) && Bound(c.entries, keys[k]).None?
        invariant Lookup(h0, root, keys[..k + 1]).None? && Opened(h0, View(), root, keys, k)
        invariant KeepsOrder(h0, View())
        decreases |keys| - k
      {
        c := AddTable(h0, keys, k, c, args[k].value);
        k := k + 1;
        LongerIsMissing(h0, root, keys, k);
        UnboundInEmpty(keys[k]);
        Cell(args[..], keys, k);
        Cell(args[..], keys, k + 1);
      }
    }

    /** The second loop of sym_put: creates the missing tables and binds the last key. */
    method AddKeys(
        args: array<Option<string>>, ghost keys: Path, from: nat, table: Table, data: Data, ghost hs: Heap,
        ghost ats: map<Table, Path>)
      requires Valid() && Holds(args[..], keys) && from < |keys|
      requires table in at && Lookup(View(), root, keys[..from]) == Some(Sub(table))
      requires Bound(table.entries, keys[from]).None?
      requires Brings(data, hs, ats) && hs == Snapshot(hs.Keys) && hs.Keys !! at.Keys
      modifies this, at.Keys`entries
      ensures Valid() && old(at.Keys) <= at.Keys && fresh(at.Keys - old(at.Keys) - hs.Keys)
      ensures Stored(old(View()), View(), root, keys, data, hs) && KeepsOrder(old(View()), View())
    {
      hide Wf, Opened, KeepsOrder, Lookup, Follow, Stored, Brings, Bound, Snapshot, Holds;
      ghost var h0 := View();
      InSnapshot(at.Keys, table);
      var k, c := AddTables(args, keys, from, table);
      Cell(args[..], keys, k);
      AddData(h0, keys, c, args[k].value, data, hs, ats);
    }

    /** One round of the loop: an empty table under a missing key. */
    method AddTable(ghost h0: Heap, ghost keys: Path, ghost k: nat, c: Table, key: string) returns (n: Table)
      requires Valid() && c in at && k < |keys| && key == keys[k] && h0.Keys <= at.Keys
      requires Lookup(View(), root, keys[..k]) == Some(Sub(c)) && Bound(c.entries, keys[k]).None?
      requires Lookup(h0, root, keys[..k + 1]).None? && Opened(h0, View(), root, keys, k) && KeepsOrder(h0, View())
      modifies this, c`entries
      ensures Valid() && fresh(n) && at.Keys == old(at.Keys) + {n} && n.entries == []
      ensures Lookup(View(), root, keys[..k + 1]) == Some(Sub(n)) && Opened(h0, View(), root, keys, k + 1)
      ensures KeepsOrder(h0, View())
    {
      hide Opened, KeepsOrder, Lookup, Follow, Bound, Wf;
      n := new Table();
      ghost var h, one: Heap := View(), map[n := []];
      assert Snapshot({n}) == one && one.Keys == {n};
      OpenOne(h0, h, at, root, keys, k, c, n);
      OrderKept(h0, h, c, key, Sub(n), one);
      BringsEmpty(n);
      AddKey(c, key, Sub(n), one, map[n := []]);
    }

    /** The last round: the data under the last key. */
    method AddData(
        ghost h0: Heap, ghost keys: Path, c: Table, key: string, data: Data, ghost hs: Heap,
        ghost ats: map<Table, Path>)
      requires Valid() && c in at && keys != [] && key == keys[|keys| - 1] && h0.Keys <= at.Keys
      requires Lookup(View(), root, keys[..|keys| - 1]) == Some(Sub(c)) && Bound(c.entries, key).None?
      requires Opened(h0, View(), root, keys, |keys| - 1) && KeepsOrder(h0, View())
      requires Brings(data, hs, ats) && hs == Snapshot(hs.Keys) && hs.Keys !! at.Keys
      modifies this, c`entries
      ensures Valid() && at.Keys == old(at.Keys) + hs.Keys
      ensures Stored(h0, View(), root, keys, data, hs) && KeepsOrder(h0, View())
    {
      hide Opened, KeepsOrder, Lookup, Follow, Bound, Stored, Brings;
      ghost var h, es := View(), c.entries + [Entry(key, data)];
      assert DistinctKeys(c.entries) by { assert GoodTable(h, at, c); }
      hide Wf;
      AppendBinds(c.entries, key, data);
      StoreLast(h0, h, at, root, keys, c, es, data, hs, ats);
      OrderKept(h0, h, c, key, data, hs);
      AddKey(c, key, data, hs, ats);
    }

    /** The key is bound already: its data pointer is replaced. */
    method Replace(ghost keys: Path, c: Table, i: nat, data: Data, ghost hs: Heap, ghost ats: map<Table, Path>)
      requires Valid() && c in at && keys != [] && i < |c.entries| && i == Find(c.entries, keys[|keys| - 1])
      requires Lookup(View(), root, keys[..|keys| - 1]) == Some(Sub(c))
      requires Brings(data, hs, ats) && hs == Snapshot(hs.Keys) && hs.Keys !! at.Keys
      modifies this, c`entries
      ensures Valid() && at.Keys == old(at.Keys) + hs.Keys
      ensures Stored(old(View()), View(), root, keys, data, hs) && KeepsOrder(old(View()), View())
    {
      hide Opened, Lookup, Follow, Stored, Brings, KeepsOrder;
      ghost var h := View();
      assert DistinctKeys(c.entries) by { assert GoodTable(h, at, c); }
      hide Wf;
      var es := c.entries[i := c.entries[i].(data := data)];
      ReplaceBinds(c.entries, i, data);
      OpenedStart(h, root, keys, |keys| - 1, c);
      OrderReplaced(h, c, i, data, hs);
      StoreLast(h, h, at, root, keys, c, es, data, hs, ats);
      Bind(c, es, keys[|keys| - 1], data, hs, ats);
    }

    /** sym_put; `hs` and `ats` are the tables that the data brings and their addresses below it. */
    method Put(key: string, data: Data, replace: bool, ghost hs: Heap, ghost ats: map<Table, Path>) returns (err: Errno)
      requires Valid() && (Components(key) == [] ==> !replace)
      requires Brings(data, hs, ats) && hs == Snapshot(hs.Keys) && hs.Keys !! at.Keys
      modifies this, at.Keys`entries
      ensures Valid() && old(at.Keys) <= at.Keys && fresh(at.Keys - old(at.Keys) - hs.Keys)
      ensures err == NotDir <==> Blocked(old(View()), root, Components(key))
      ensures err == Exist <==> !replace && Lookup(old(View()), root, Components(key)).Some?
      ensures err != Done ==> View() == old(View()) && at == old(at)
      ensures err == Done ==> Stored(old(View()), View(), root, Components(key), data, hs)
      ensures KeepsOrder(old(View()), View())
    {
      hide Wf, Lookup, Follow, Stored, Brings, KeepsOrder, Tokens, Opened;
      ghost var keys, h := Components(key), View();
      var args, count := Split(Some(key), Some(","));
      var k, c, i, blocked := Descend(args, keys);
      assert forall j | 0 <= j < args.Length :: args[j] == args[..][j];
      assert keys[..|keys|] == keys;
      if blocked {
        BlockedMeansMissing(h, root, keys, k);
        OrderStart(h);
        return NotDir;
      }
      if args[k].None? {
        FoundAll(h, root, keys, c);
        if !replace {
          OrderStart(h);
          return Exist;
        }
        Replace(keys, c, i, data, hs, ats);
        return Done;
      }
      LookupStep(h, root, keys, k, c);
      NotBlocked(h, root, keys, k, c);
      MissingBelow(h, root, keys[..k + 1], keys);
      AddKeys(args, keys, k, c, data, hs, ats);
      return Done;
    }

    /** The cursor stands on an entry of one of the tables, or nowhere. */
    ghost predicate CursorOk()
      reads this, at.Keys
      requires root in at
    {
      root.cursor.At? ==> root.cursor.table in at && root.cursor.index < |root.cursor.table.entries|
    }

    /** The entry under the cursor, if any. */
    method Current() returns (e: Option<Entry>)
      requires root in at && CursorOk()
      ensures root.cursor == Nowhere ==> e == None
      ensures root.cursor.At? ==> e == Some(root.cursor.table.entries[root.cursor.index])
    {
      e := if root.cursor.At? then Some(root.cursor.table.entries[root.cursor.index]) else None;
    }

    /** sym_seq with R_FIRST: no entry stands for the return value 1. */
    method First() returns (e: Option<Entry>)
      requires Valid()
      modifies root`cursor
      ensures CursorOk() && root.cursor == StartOf(root)
      ensures e == if root.entries == [] then None else Some(root.entries[0])
    {
      root.cursor := if root.entries == [] then Nowhere else At(root, 0);
      e := Current();
    }

    /** sym_seq with R_CURSOR: `found` is false where the return value is 2. */
    method SetCursor(key: string) returns (found: bool, e: Option<Entry>)
      requires Valid() && CursorOk() && Components(key) != []
      modifies root`cursor
      ensures
        var r := Lookup(View(), root, Components(key));
        && found == (r.Some? && r.value.Sub?) && CursorOk()
        && (!found ==> e.None? && root.cursor == old(root.cursor))
        && (found ==>
              && r.value.table in at && root.cursor == StartOf(r.value.table)
              && e == if r.value.table.entries == [] then None else Some(r.value.table.entries[0]))
    {
      RootIn(View(), at, root);
      hide Wf, Lookup, Tokens;
      var d := Get(key);
      if !d.Sub? {
        return false, None;
      }
      TableIn(View(), at, root, Components(key));
      root.cursor := if d.table.entries == [] then Nowhere else At(d.table, 0);
      found := true;
      e := Current();
    }

    /** sym_seq with R_NEXT */
    method Next() returns (e: Option<Entry>)
      requires Valid() && CursorOk()
      modifies root`cursor
      ensures CursorOk()
      ensures old(root.cursor) == Nowhere ==> root.cursor == Nowhere && e == None
      ensures
        old(root.cursor.At?) ==>
          var t, i := old(root.cursor.table), old(root.cursor.index) + 1;
          if i == |t.entries| then root.cursor == Nowhere && e == None
          else root.cursor == At(t, i) && i < |t.entries| && e == Some(t.entries[i])
    {
      if root.cursor.At? {
        var t, i := root.cursor.table, root.cursor.index + 1;
        root.cursor := if i == |t.entries| then Nowhere else At(t, i);
      }
      e := Current();
    }
  }

  /** Where the cursor stands after it is set to a table. */
  function StartOf(t: Table): Cursor
    reads t
  {
    if t.entries == [] then Nowhere else At(t, 0)
  }

  /** What a put stored is what a get finds, and only paths that start with the put one can lose anything. */
  lemma GetAfterPut(h0: Heap, h: Heap, root: Table, keys: Path, d: Data, hs: Heap, q: Path)
    requires Stored(h0, h, root, keys, d, hs)
    ensures Lookup(h, root, keys) == Some(d)
    ensures !(keys <= q) && Lookup(h0, root, q).Some? ==> Lookup(h, root, q) == Lookup(h0, root, q)
  {
    assert StoredAt(h0, h, root, keys, d, hs, keys);
    assert StoredAt(h0, h, root, keys, d, hs, q);
  }

  lemma FoundAll(h: Heap, root: Table, keys: Path, c: Table)
    requires
      keys != [] ==>
        c in h && Lookup(h, root, keys[..|keys| - 1]) == Some(Sub(c)) && Bound(h[c], keys[|keys| - 1]).Some?
    ensures Lookup(h, root, keys).Some? && !Blocked(h, root, keys)
  {
    if keys != [] {
      assert keys[..|keys|] == keys;
      LookupStep(h, root, keys, |keys| - 1, c);
      NotBlocked(h, root, keys, |keys| - 1, c);
    }
  }

  lemma OpenedStart(h: Heap, root: Table, keys: Path, k: nat, c: Table)
    requires k <= |keys| && Lookup(h, root, keys[..k]) == Some(Sub(c))
    ensures Opened(h, h, root, keys, k)
  {
    forall q: Path | q <= keys[..k] ensures Lookup(h, root, q).Some? {
      if Lookup(h, root, q).None? {
        MissingBelow(h, root, q, keys[..k]);
      }
    }
  }

  lemma OrderStart(h: Heap)
    ensures KeepsOrder(h, h)
  {
  }

  lemma LongerIsMissing(h: Heap, root: Table, keys: Path, k: nat)
    requires k < |keys| && Lookup(h, root, keys[..k]).None?
    ensures Lookup(h, root, keys[..k + 1]).None?
  {
    assert keys[..k] <= keys[..k + 1];
    MissingBelow(h, root, keys[..k], keys[..k + 1]);
  }

  lemma UnboundInEmpty(key: string)
    ensures Bound([], key).None?
  {
  }

  lemma BringsEmpty(n: Table)
    ensures Brings(Sub(n), map[n := []], map[n := []])
  {
  }

  lemma OrderReplaced(h: Heap, c: Table, i: nat, d: Data, hs: Heap)
    requires c in h && i < |h[c]| && hs.Keys !! h.Keys
    ensures KeepsOrder(h, h[c := h[c][i := h[c][i].(data := d)]] + hs)
  {
  }

  lemma OrderKept(h0: Heap, h: Heap, c: Table, key: string, d: Data, hs: Heap)
    requires KeepsOrder(h0, h) && c in h && hs.Keys !! h.Keys
    ensures KeepsOrder(h0, h[c := h[c] + [Entry(key, d)]] + hs)
  {
  }

  lemma BlockedMeansMissing(h: Heap, root: Table, keys: Path, j: nat)
    requires 0 < j < |keys| && BlockedAt(h, root, keys, j)
    ensures Lookup(h, root, keys).None?
  {
    assert keys == keys[..j] + keys[j..];
    LookupSplits(h, root, keys[..j], keys[j..]);
  }
}
