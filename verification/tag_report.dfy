/**
 pan/tag_report.c on the symbol table of a tag: result lines go into it, each test case keeps its worst status,
 and the report computes the overall result. The table always holds exactly the ordered entries of the lines.
 */
module TagReport {
  import opened Wrappers
  import opened Splitstr
  import opened Symbol
  import opened SymbolTable
  import opened TagResults

  // ----- Lists determined by their keys and bindings -----

  function KeyList(es: seq<Entry>): (ks: seq<string>)
    ensures |ks| == |es|
  {
    seq(|es|, i requires 0 <= i < |es| => es[i].key)
  }

  lemma BoundAt(es: seq<Entry>, i: nat)
    requires DistinctKeys(es) && i < |es|
    ensures Bound(es, es[i].key) == Some(es[i].data)
  {
    FindIs(es, es[i].key, i);
  }

  lemma BoundHasEntry(es: seq<Entry>, key: string)
    requires Bound(es, key).Some?
    ensures Find(es, key) < |es| && es[Find(es, key)] == Entry(key, Bound(es, key).value)
  {
  }

  /** Every key past the old ones is new. */
  lemma LaterKeys(es: seq<Entry>, es': seq<Entry>, i: nat)
    requires DistinctKeys(es') && KeysKept(es, es') && |es| <= i < |es'|
    ensures Bound(es, es'[i].key).None? && Bound(es', es'[i].key).Some?
  {
    BoundAt(es', i);
    if Bound(es, es'[i].key).Some? {
      BoundHasEntry(es, es'[i].key);
    }
  }

  /** A list that keeps its keys and gains at most one. */
  lemma LengthIs(es: seq<Entry>, es': seq<Entry>, key: string)
    requires DistinctKeys(es') && KeysKept(es, es')
    requires forall k :: Bound(es', k).Some? <==> k == key || Bound(es, k).Some?
    ensures |es'| == if Bound(es, key).Some? then |es| else |es| + 1
    ensures Bound(es, key).None? ==> es'[|es|].key == key
  {
    hide Bound, DistinctKeys;
    if |es| < |es'| {
      LaterKeys(es, es', |es|);
      if |es| + 1 < |es'| {
        LaterKeys(es, es', |es| + 1);
        KeysDiffer(es', |es|, |es| + 1);
      }
    } else if Bound(es, key).None? {
      BoundHasEntry(es', key);
      OldKeyIsBound(es, es', Find(es', key));
    }
  }

  lemma KeysDiffer(es: seq<Entry>, i: nat, j: nat)
    requires DistinctKeys(es) && i < j < |es|
    ensures es[i].key != es[j].key
  {
  }

  lemma OldKeyIsBound(es: seq<Entry>, es': seq<Entry>, i: nat)
    requires KeysKept(es, es') && i < |es|
    ensures Bound(es, es'[i].key).Some?
  {
  }

  lemma KeysAre(es: seq<Entry>, es': seq<Entry>, key: string)
    requires DistinctKeys(es') && KeysKept(es, es')
    requires forall k :: Bound(es', k).Some? <==> k == key || Bound(es, k).Some?
    ensures KeyList(es') == Add(KeyList(es), key)
  {
    LengthIs(es, es', key);
    InKeyList(es, key);
    hide Bound;
  }

  lemma InKeyList(es: seq<Entry>, key: string)
    ensures key in KeyList(es) <==> Bound(es, key).Some?
  {
    if Bound(es, key).Some? {
      BoundHasEntry(es, key);
      assert KeyList(es)[Find(es, key)] == key;
    }
    if key in KeyList(es) {
      var i :| 0 <= i < |es| && KeyList(es)[i] == key;
      OldKeyIsBound(es, es, i);
    }
  }

  /** The list after a binding that appends or replaces, from its keys and bindings alone. */
  lemma ListIs(es: seq<Entry>, es': seq<Entry>, tc: string, status: string)
    requires DistinctKeys(es) && DistinctKeys(es') && KeysKept(es, es')
    requires
      var before := Bound(es, tc);
      Rebound(es, es', tc, Leaf(if before.None? then status else Worse(StatusOf(before.value), status)))
    ensures es' == AddStatus(es, tc, status)
  {
    LengthIs(es, es', tc);
    var i := Find(es, tc);
    forall j | 0 <= j < |es'| ensures es'[j] == AddStatus(es, tc, status)[j] {
      EntryIs(es, es', tc, status, j);
    }
  }

  lemma EntryIs(es: seq<Entry>, es': seq<Entry>, tc: string, status: string, j: nat)
    requires DistinctKeys(es) && DistinctKeys(es') && KeysKept(es, es') && j < |es'|
    requires
      var before := Bound(es, tc);
      Rebound(es, es', tc, Leaf(if before.None? then status else Worse(StatusOf(before.value), status)))
    requires |es'| == |AddStatus(es, tc, status)| && (j == |es| ==> es'[j].key == tc)
    ensures es'[j] == AddStatus(es, tc, status)[j]
  {
    BoundAt(es', j);
    if j < |es| {
      BoundAt(es, j);
      if es[j].key == tc {
        FindIs(es, tc, j);
      }
    } else {
      assert j == |es|;
    }
    hide Worse, DistinctKeys;
  }

  lemma SameList(es: seq<Entry>, es': seq<Entry>)
    requires DistinctKeys(es) && DistinctKeys(es') && KeysKept(es, es') && forall k :: Bound(es', k) == Bound(es, k)
    ensures es' == es
  {
    if |es| < |es'| {
      LaterKeys(es, es', |es|);
    }
    forall j | 0 <= j < |es| && j < |es'| ensures es'[j] == es[j] {
      BoundAt(es, j);
      BoundAt(es', j);
    }
  }

  // ----- Results in the symbol table of a tag -----

  /**
   The table lists the tests in their order, then `extra`, and below every test its cases with their statuses.
   */
  ghost predicate Represents(h: Heap, root: Table, lines: seq<Line>, extra: seq<string>) {
    && root in h && KeyList(h[root]) == Tests(lines) + extra
    && forall a | a in Tests(lines) :: HoldsTest(h, root, lines, a)
  }

  ghost predicate HoldsTest(h: Heap, root: Table, lines: seq<Line>, a: string) {
    var d := Lookup(h, root, [a]);
    d.Some? && d.value.Sub? && d.value.table in h && h[d.value.table] == TestEntries(lines, a)
  }

  lemma TopIsBound(h: Heap, root: Table, a: string)
    requires root in h
    ensures Lookup(h, root, [a]) == Bound(h[root], a)
  {
    assert [a][..0] == [] && [a][..1] == [a];
    LookupStep(h, root, [a], 0, root);
  }

  lemma BelowTest(h: Heap, root: Table, a: string, b: string, t: Table)
    requires t in h && Lookup(h, root, [a]) == Some(Sub(t))
    ensures Lookup(h, root, [a, b]) == Bound(h[t], b)
  {
    assert [a, b][..1] == [a] && [a, b][..2] == [a, b];
    LookupStep(h, root, [a, b], 1, t);
  }

  /** What is found for a test and a test case. */
  lemma FoundCase(h: Heap, root: Table, lines: seq<Line>, a: string, b: string)
    requires Represents(h, root, lines, [])
    ensures a in Tests(lines) <==> Lookup(h, root, [a]).Some?
    ensures Lookup(h, root, [a, b]) == Bound(TestEntries(lines, a), b)
  {
    assert Tests(lines) + [] == Tests(lines);
    TopIsBound(h, root, a);
    InKeyList(h[root], a);
    TestsAreFolded(lines, a);
    if a in Tests(lines) {
      assert HoldsTest(h, root, lines, a);
      BelowTest(h, root, a, b, Lookup(h, root, [a]).value.table);
    } else {
      MissingBelow(h, root, [a], [a, b]);
    }
  }

  lemma TableIsGood(h: Heap, at: map<Table, Path>, root: Table, t: Table)
    requires Wf(h, at, root) && t in h
    ensures DistinctKeys(h[t])
  {
    assert GoodTable(h, at, t);
  }

  // ----- One more line -----

  /** What is known before and after the put of one line. */
  ghost predicate LinePut(
      h0: Heap, h: Heap, at0: map<Table, Path>, at: map<Table, Path>, root: Table, lines: seq<Line>, l: Line)
  {
    && Wf(h0, at0, root) && Wf(h, at, root) && Represents(h0, root, lines, []) && KeepsOrder(h0, h)
    && var before := Bound(TestEntries(lines, l.tcid), l.tc);
       var status := if before.None? then l.status else Worse(StatusOf(before.value), l.status);
       Stored(h0, h, root, [l.tcid, l.tc], Leaf(status), map[])
  }

  lemma TopKeysAfter(
      h0: Heap, h: Heap, at0: map<Table, Path>, at: map<Table, Path>, root: Table, lines: seq<Line>, l: Line)
    requires LinePut(h0, h, at0, at, root, lines, l)
    ensures root in h && KeyList(h[root]) == Tests(lines + [l])
  {
    RootIn(h, at, root);
    TableIsGood(h, at, root, root);
    forall x ensures Bound(h[root], x).Some? <==> x == l.tcid || Bound(h0[root], x).Some? {
      TopAfter(h0, h, root, lines, l, x);
      TopIsBound(h0, root, x);
      TopIsBound(h, root, x);
    }
    hide Wf, Lookup, Stored, Bound;
    assert KeysKept(h0[root], h[root]);
    KeysAre(h0[root], h[root], l.tcid);
    TestsLast(lines, l);
    assert Tests(lines) + [] == Tests(lines);
  }

  /** A test's binding after the put: its own table is there, old or new; the others are as before. */
  lemma TopAfter(h0: Heap, h: Heap, root: Table, lines: seq<Line>, l: Line, x: string)
    requires exists status :: Stored(h0, h, root, [l.tcid, l.tc], Leaf(status), map[])
    ensures x != l.tcid || Lookup(h0, root, [x]).Some? ==> Lookup(h, root, [x]) == Lookup(h0, root, [x])
    ensures x == l.tcid && Lookup(h0, root, [x]).None? ==> NewTable(h0, Lookup(h, root, [x]))
  {
    var status :| Stored(h0, h, root, [l.tcid, l.tc], Leaf(status), map[]);
    assert StoredAt(h0, h, root, [l.tcid, l.tc], Leaf(status), map[], [x]);
    PathOfTest(l.tcid, l.tc, x);
    hide Lookup;
  }

  lemma PathOfTest(a: string, b: string, x: string)
    ensures !([a, b] <= [x]) && ([x] <= [a, b] <==> x == a)
  {
    var p, q := [x], [a, b];
    assert p[0] == x && q[0] == a;
    if p <= q {
      assert p[0] == q[0];
    }
  }

  lemma PathOfCase(a: string, b: string, x: string, y: string)
    ensures [a, b] <= [x, y] <==> a == x && b == y
    ensures [x, y] <= [a, b] <==> a == x && b == y
  {
    var p, q := [a, b], [x, y];
    assert p[0] == a && p[1] == b && q[0] == x && q[1] == y;
    if p <= q {
      assert p[0] == q[0] && p[1] == q[1];
    }
  }

  lemma CaseAfter(h0: Heap, h: Heap, root: Table, a: string, b: string, d: Data, x: string, y: string)
    requires Stored(h0, h, root, [a, b], d, map[])
    ensures Lookup(h, root, [x, y]) == if (x, y) == (a, b) then Some(d) else Lookup(h0, root, [x, y])
  {
    assert StoredAt(h0, h, root, [a, b], d, map[], [x, y]);
    PathOfCase(a, b, x, y);
    assert (x, y) == (a, b) ==> [x, y][|[a, b]|..] == [];
    hide Lookup;
  }

  /** The test of the line. */
  lemma OwnTestAfter(
      h0: Heap, h: Heap, at0: map<Table, Path>, at: map<Table, Path>, root: Table, lines: seq<Line>, l: Line)
    requires LinePut(h0, h, at0, at, root, lines, l)
    ensures HoldsTest(h, root, lines + [l], l.tcid)
  {
    var a, es := l.tcid, TestEntries(lines, l.tcid);
    var before := Bound(es, l.tc);
    var d := Leaf(if before.None? then l.status else Worse(StatusOf(before.value), l.status));
    TopAfter(h0, h, root, lines, l, a);
    FoundCase(h0, root, lines, a, l.tc);
    TestsAreFolded(lines, a);
    if a in Tests(lines) {
      assert HoldsTest(h0, root, lines, a);
    }
    hide Wf, Lookup, Stored, Bound, TestEntries, AddStatus, Tests, Represents;
    TableIn(h, at, root, [a]);
    var t := Lookup(h, root, [a]).value.table;
    TableIsGood(h, at, root, t);
    EntriesAreFolded(lines, a, l.tc);
    assert KeysKept(es, h[t]) by {
      assert t in h0 ==> KeysKept(h0[t], h[t]);
    }
    forall y ensures Bound(h[t], y) == if y == l.tc then Some(d) else Bound(es, y) {
      BelowTest(h, root, a, y, t);
      CaseAfter(h0, h, root, a, l.tc, d, a, y);
      FoundCase(h0, root, lines, a, y);
    }
    ListIs(es, h[t], l.tc, l.status);
    TestEntriesLast(lines, l, a);
  }

  /** The other tests. */
  lemma OtherTestAfter(
      h0: Heap, h: Heap, at0: map<Table, Path>, at: map<Table, Path>, root: Table, lines: seq<Line>, l: Line, x: string)
    requires LinePut(h0, h, at0, at, root, lines, l) && x in Tests(lines) && x != l.tcid
    ensures HoldsTest(h, root, lines + [l], x)
  {
    assert HoldsTest(h0, root, lines, x);
    var before := Bound(TestEntries(lines, l.tcid), l.tc);
    var d := Leaf(if before.None? then l.status else Worse(StatusOf(before.value), l.status));
    TopAfter(h0, h, root, lines, l, x);
    hide Wf, Lookup, Stored, Bound, TestEntries, Tests;
    var t := Lookup(h, root, [x]).value.table;
    assert KeysKept(h0[t], h[t]);
    TableIsGood(h0, at0, root, t);
    TableIsGood(h, at, root, t);
    forall y ensures Bound(h[t], y) == Bound(h0[t], y) {
      BelowTest(h, root, x, y, t);
      BelowTest(h0, root, x, y, t);
      CaseAfter(h0, h, root, l.tcid, l.tc, d, x, y);
    }
    SameList(h0[t], h[t]);
    TestEntriesLast(lines, l, x);
  }

  lemma LineStored(
      h0: Heap, h: Heap, at0: map<Table, Path>, at: map<Table, Path>, root: Table, lines: seq<Line>, l: Line)
    requires LinePut(h0, h, at0, at, root, lines, l)
    ensures Represents(h, root, lines + [l], [])
  {
    TopKeysAfter(h0, h, at0, at, root, lines, l);
    TestsLast(lines, l);
    hide LinePut, HoldsTest, Tests;
    assert Tests(lines + [l]) + [] == Tests(lines + [l]);
    forall x | x in Tests(lines + [l]) ensures HoldsTest(h, root, lines + [l], x) {
      if x == l.tcid {
        OwnTestAfter(h0, h, at0, at, root, lines, l);
      } else {
        OtherTestAfter(h0, h, at0, at, root, lines, l, x);
      }
    }
  }

  lemma TwoComponents(a: string, b: string)
    requires IsComponent(a) && IsComponent(b)
    ensures Components(a + "," + b) == [a, b]
  {
    PathRoundTrip([a, b]);
    assert [a, b][1..] == [b];
    assert Join([a, b]) == a + "," + b;
  }

  /** The first three fields of a result line. */
  function Fields(text: string): seq<string> {
    Tokens(text, 0, "\t ")
  }

  function LineOf(text: string): Line
    requires |Fields(text)| >= 3
  {
    Line(Fields(text)[0], Fields(text)[1], Fields(text)[2])
  }

  method ReadFields(text: string) returns (line: Line)
    requires |Fields(text)| >= 3
    ensures line == LineOf(text)
  {
    hide Tokens;
    var t0, p0 := Strtok(text, 0, "\t ");
    var t1, p1 := Strtok(text, p0, "\t ");
    var t2, p2 := Strtok(text, p1, "\t ");
    line := Line(t0.value, t1.value, t2.value);
  }

  /** Names that can stand in a comma path, as the scanner's names can. */
  predicate GoodName(tcid: string, tc: string) {
    IsComponent(tcid) && IsComponent(tc)
  }

  lemma NeverBlocked(h: Heap, root: Table, lines: seq<Line>, a: string, b: string)
    requires Represents(h, root, lines, [])
    ensures !Blocked(h, root, [a, b])
  {
    FoundCase(h, root, lines, a, b);
    if a in Tests(lines) {
      assert HoldsTest(h, root, lines, a);
    }
    forall j: nat | 0 < j < 2 ensures !BlockedAt(h, root, [a, b], j) {
      assert [a, b][..j] == [a];
    }
  }

  lemma EntryIsLeaf(lines: seq<Line>, a: string, b: string)
    requires Bound(TestEntries(lines, a), b).Some?
    ensures Bound(TestEntries(lines, a), b).value.Leaf?
  {
    EntriesAreFolded(lines, a, b);
  }

  /** cuts_testcase */
  method CutsTestcase(tag: Symbols, text: string, ghost lines: seq<Line>)
    requires tag.Valid() && |Fields(text)| >= 3 && GoodName(LineOf(text).tcid, LineOf(text).tc)
    requires Represents(tag.View(), tag.root, lines, [])
    modifies tag, tag.at.Keys`entries
    ensures tag.Valid() && fresh(tag.at.Keys - old(tag.at.Keys)) && old(tag.at.Keys) <= tag.at.Keys
    ensures Represents(tag.View(), tag.root, lines + [LineOf(text)], [])
  {
    hide Wf, Lookup, Stored, Tokens, Blocked, Represents, KeepsOrder, Bound, TestEntries;
    var line := ReadFields(text);
    var a, b := line.tcid, line.tc;
    var key := a + "," + b;
    ghost var h, at := tag.View(), tag.at;
    TwoComponents(a, b);
    NeverBlocked(h, tag.root, lines, a, b);
    FoundCase(h, tag.root, lines, a, b);
    if Bound(TestEntries(lines, a), b).Some? {
      EntryIsLeaf(lines, a, b);
    }
    assert Snapshot({}) == map[];
    var previous := tag.Get(key);
    var status := line.status;
    if previous.Leaf? {
      status := WorstCase(previous.text, line.status);
    }
    var err := tag.Put(key, Leaf(status), previous.Leaf?, map[], map[]);
    assert LinePut(h, tag.View(), at, tag.at, tag.root, lines, line);
    LineStored(h, tag.View(), at, tag.at, tag.root, lines, line);
  }

  // ----- The keywords -----

  lemma KeywordsNotBlocked(h: Heap, root: Table)
    ensures !Blocked(h, root, [KEYWORDS]) && Components(KEYWORDS) == [KEYWORDS]
  {
    JustOne(KEYWORDS);
  }

  lemma JustOne(tcid: string)
    requires IsComponent(tcid)
    ensures Components(tcid) == [tcid]
  {
    PathRoundTrip([tcid]);
  }

  lemma AsideAfter(h0: Heap, h: Heap, root: Table, d: Data, hs: Heap, x: string, y: string)
    requires Stored(h0, h, root, [KEYWORDS], d, hs) && x != KEYWORDS
    ensures Lookup(h, root, [x]) == Lookup(h0, root, [x]) && Lookup(h, root, [x, y]) == Lookup(h0, root, [x, y])
  {
    var p, q, q' := [KEYWORDS], [x], [x, y];
    assert p[0] != q[0] && p[0] != q'[0];
    assert StoredAt(h0, h, root, p, d, hs, q) && StoredAt(h0, h, root, p, d, hs, q');
    hide Lookup;
  }

  /** Putting the keywords adds their name at the end and leaves the results alone. */
  lemma KeywordsStored(
      h0: Heap, h: Heap, at0: map<Table, Path>, at: map<Table, Path>, root: Table, lines: seq<Line>, d: Data, hs: Heap)
    requires Wf(h0, at0, root) && Wf(h, at, root) && Represents(h0, root, lines, []) && KeepsOrder(h0, h)
    requires Stored(h0, h, root, [KEYWORDS], d, hs) && KEYWORDS !in Tests(lines)
    ensures Represents(h, root, lines, [KEYWORDS])
  {
    RootIn(h, at, root);
    KeywordsListed(h0, h, at, root, lines, d, hs);
    hide Wf, Lookup, Stored, Bound, TestEntries, Tests;
    forall x | x in Tests(lines) ensures HoldsTest(h, root, lines, x) {
      assert HoldsTest(h0, root, lines, x);
      AsideAfter(h0, h, root, d, hs, x, "");
      var t := Lookup(h, root, [x]).value.table;
      assert KeysKept(h0[t], h[t]);
      TableIsGood(h0, at0, root, t);
      TableIsGood(h, at, root, t);
      forall y ensures Bound(h[t], y) == Bound(h0[t], y) {
        BelowTest(h, root, x, y, t);
        BelowTest(h0, root, x, y, t);
        AsideAfter(h0, h, root, d, hs, x, y);
      }
      SameList(h0[t], h[t]);
    }
  }

  lemma KeywordsListed(h0: Heap, h: Heap, at: map<Table, Path>, root: Table, lines: seq<Line>, d: Data, hs: Heap)
    requires root in h0 && root in h && Wf(h, at, root) && KeepsOrder(h0, h)
    requires KeyList(h0[root]) == Tests(lines) + [] && KEYWORDS !in Tests(lines)
    requires Stored(h0, h, root, [KEYWORDS], d, hs)
    ensures KeyList(h[root]) == Tests(lines) + [KEYWORDS]
  {
    TableIsGood(h, at, root, root);
    GetAfterPut(h0, h, root, [KEYWORDS], d, hs, []);
    hide Wf, Lookup, Stored, Bound, Tests;
    forall x ensures Bound(h[root], x).Some? <==> x == KEYWORDS || Bound(h0[root], x).Some? {
      TopIsBound(h, root, x);
      TopIsBound(h0, root, x);
      if x != KEYWORDS {
        AsideAfter(h0, h, root, d, hs, x, "");
      }
    }
    assert KeysKept(h0[root], h[root]);
    KeysAre(h0[root], h[root], KEYWORDS);
    assert Tests(lines) + [] == Tests(lines);
  }

  // ----- The report -----

  /** The inner loop of cuts_report: the statuses of one test. */
  method ReportTest(tag: Symbols, tcid: string, result: string, ghost lines: seq<Line>) returns (worst: string)
    requires tag.Valid() && tag.CursorOk() && IsComponent(tcid)
    requires HoldsTest(tag.View(), tag.root, lines, tcid)
    modifies tag.root`cursor
    ensures tag.CursorOk() && worst == OverEntries(TestEntries(lines, tcid), result)
  {
    hide Wf, Lookup, Tokens, Worse, TestEntries;
    ghost var h, es := tag.View(), TestEntries(lines, tcid);
    RootIn(h, tag.at, tag.root);
    ghost var t := Lookup(h, tag.root, [tcid]).value.table;
    JustOne(tcid);
    var found, e := tag.SetCursor(tcid);
    worst := result;
    ghost var j := 0;
    assert es[..0] == [];
    while e.Some?
      invariant tag.Valid() && tag.View() == h && tag.CursorOk() && j <= |es| && t in tag.at && t.entries == es
      invariant worst == OverEntries(es[..j], result)
      invariant e.Some? ==> j < |es| && e.value == es[j] && tag.root.cursor == At(t, j)
      invariant e.None? ==> j == |es|
      decreases |es| - j
    {
      EntryOfCase(lines, tcid, j);
      assert es[..j + 1][..j] == es[..j];
      worst := WorstCase(worst, e.value.data.text);
      e := tag.Next();
      j := j + 1;
    }
    assert es[..j] == es;
  }

  /** The names without that of the keywords. */
  function Tcids(names: seq<string>): seq<string> {
    if names == [] then []
    else
      var name := names[|names| - 1];
      Tcids(names[..|names| - 1]) + (if name == KEYWORDS then [] else [name])
  }

  lemma {:induction false} OverTcids(lines: seq<Line>, names: seq<string>)
    ensures OverTests(lines, Tcids(names)) == OverTests(lines, names)
    decreases |names|
  {
    if names != [] {
      var init, name := names[..|names| - 1], names[|names| - 1];
      OverTcids(lines, init);
      if name == KEYWORDS {
        assert Tcids(names) == Tcids(init);
      } else {
        assert Tcids(names)[..|Tcids(names)| - 1] == Tcids(init);
      }
    }
  }

  lemma {:induction false} InTcids(names: seq<string>, a: string)
    requires a in Tcids(names)
    ensures a in names && a != KEYWORDS
    decreases |names|
  {
    var init := names[..|names| - 1];
    if a in Tcids(init) {
      InTcids(init, a);
    }
  }

  lemma OverExtra(lines: seq<Line>, extra: seq<string>)
    requires extra == [] || extra == [KEYWORDS]
    ensures OverTests(lines, Tests(lines) + extra) == Overall(lines)
  {
    var all := Tests(lines) + extra;
    if extra == [] {
      assert all == Tests(lines);
    } else {
      assert all[..|all| - 1] == Tests(lines);
    }
  }

  /** The first loop of cuts_report: the names of the tests. */
  method ListTests(tag: Symbols) returns (tcids: seq<string>)
    requires tag.Valid() && tag.root.entries != []
    modifies tag.root`cursor
    ensures tag.root in tag.at && tag.CursorOk() && tcids == Tcids(KeyList(tag.root.entries))
  {
    RootIn(tag.View(), tag.at, tag.root);
    hide Wf;
    ghost var es := tag.root.entries;
    ghost var names := KeyList(es);
    tcids := [];
    var e := tag.First();
    ghost var i := 0;
    while e.Some?
      invariant tag.Valid() && tag.CursorOk() && tag.root.entries == es
      invariant i <= |es| && tcids == Tcids(names[..i])
      invariant e.Some? ==> i < |es| && e.value == es[i] && tag.root.cursor == At(tag.root, i)
      invariant e.None? ==> i == |es|
      decreases |es| - i
    {
      assert names[..i + 1][..i] == names[..i];
      if e.value.key != KEYWORDS {
        tcids := tcids + [e.value.key];
      }
      e := tag.Next();
      i := i + 1;
    }
    assert names[..i] == names;
  }

  /** cuts_report: the overall result of a tag. */
  method CutsReport(tag: Symbols, ghost lines: seq<Line>, ghost extra: seq<string>) returns (result: string)
    requires tag.Valid() && Represents(tag.View(), tag.root, lines, extra) && tag.root.entries != []
    requires (extra == [] || extra == [KEYWORDS]) && forall l | l in lines :: GoodName(l.tcid, l.tc)
    modifies tag.root`cursor
    ensures result == Overall(lines)
  {
    ghost var h, names := tag.View(), KeyList(tag.root.entries);
    NamesOfTable(tag, lines, extra);
    hide Wf, Represents, HoldsTest, OverTests, Overall, Tests, GoodName, OverEntries, Tcids;
    var tcids := ListTests(tag);
    result := "";
    NoTests(lines);
    assert tcids[..0] == [];
    for n := 0 to |tcids|
      invariant tag.Valid() && tag.View() == h && tag.CursorOk()
      invariant result == OverTests(lines, tcids[..n])
    {
      InTcids(names, tcids[n]);
      HeldTest(h, tag.root, lines, extra, tcids[n]);
      NameIsGood(lines, tcids[n]);
      result := ReportTest(tag, tcids[n], result, lines);
      OverOneMore(lines, tcids, n);
    }
    assert tcids[..|tcids|] == tcids;
    OverTcids(lines, names);
    OverExtra(lines, extra);
  }

  lemma NamesOfTable(tag: Symbols, lines: seq<Line>, extra: seq<string>)
    requires tag.Valid() && Represents(tag.View(), tag.root, lines, extra)
    ensures tag.root in tag.at && KeyList(tag.root.entries) == Tests(lines) + extra
  {
  }

  lemma HeldTest(h: Heap, root: Table, lines: seq<Line>, extra: seq<string>, a: string)
    requires Represents(h, root, lines, extra) && (extra == [] || extra == [KEYWORDS])
    requires a in Tests(lines) + extra && a != KEYWORDS
    ensures a in Tests(lines) && HoldsTest(h, root, lines, a)
  {
  }

  lemma NoTests(lines: seq<Line>)
    ensures OverTests(lines, []) == ""
  {
  }

  lemma OverOneMore(lines: seq<Line>, tests: seq<string>, n: nat)
    requires n < |tests| && tests[n] != KEYWORDS
    ensures
      OverTests(lines, tests[..n + 1]) == OverEntries(TestEntries(lines, tests[n]), OverTests(lines, tests[..n]))
  {
    assert tests[..n + 1][..n] == tests[..n];
    hide OverEntries, TestEntries;
  }

  lemma NameIsGood(lines: seq<Line>, a: string)
    requires a in Tests(lines) && forall l | l in lines :: GoodName(l.tcid, l.tc)
    ensures IsComponent(a)
  {
    TestsAreOfLines(lines, a);
  }

  // ----- From the lines to the overall result -----

  predicate GoodLine(text: string) {
    |Fields(text)| >= 3 && GoodName(LineOf(text).tcid, LineOf(text).tc)
  }

  function LinesOf(texts: seq<string>): (lines: seq<Line>)
    requires GoodLines(texts)
  {
    if texts == [] then [] else LinesOf(texts[..|texts| - 1]) + [LineOf(texts[|texts| - 1])]
  }

  predicate GoodLines(texts: seq<string>) {
    texts == [] || (GoodLine(texts[|texts| - 1]) && GoodLines(texts[..|texts| - 1]))
  }

  lemma {:induction false} GoodPrefix(texts: seq<string>, n: nat)
    requires GoodLines(texts) && n <= |texts|
    ensures GoodLines(texts[..n]) && (n < |texts| ==> GoodLine(texts[n]))
    decreases |texts|
  {
    if n < |texts| {
      var init := texts[..|texts| - 1];
      GoodPrefix(init, n);
      assert init[..n] == texts[..n];
    } else {
      assert texts[..n] == texts;
    }
  }

  lemma OneMoreLine(texts: seq<string>, n: nat)
    requires n < |texts| && GoodLines(texts[..n]) && GoodLine(texts[n])
    ensures GoodLines(texts[..n + 1]) && LinesOf(texts[..n + 1]) == LinesOf(texts[..n]) + [LineOf(texts[n])]
  {
    var init, all := texts[..n], texts[..n + 1];
    assert all[..|all| - 1] == init && all[|all| - 1] == texts[n];
    hide GoodLine, LineOf;
  }

  lemma NothingYet(h: Heap, root: Table)
    requires root in h && h[root] == []
    ensures Represents(h, root, [], [])
  {
  }

  lemma {:induction false} NamesAreGood(texts: seq<string>)
    requires GoodLines(texts)
    ensures forall l | l in LinesOf(texts) :: GoodName(l.tcid, l.tc)
    decreases |texts|
  {
    if texts != [] {
      NamesAreGood(texts[..|texts| - 1]);
    }
  }

  /** All lines of a tag are folded into a new table. */
  method FoldLines(texts: seq<string>) returns (tag: Symbols)
    requires GoodLines(texts)
    ensures tag.Valid() && fresh(tag) && fresh(tag.at.Keys) && tag.root in tag.at
    ensures Represents(tag.View(), tag.root, LinesOf(texts), [])
  {
    hide Wf, Represents;
    tag := new Symbols();
    NothingYet(tag.View(), tag.root);
    assert texts[..0] == [];
    GoodPrefix(texts, 0);
    for n := 0 to |texts|
      invariant GoodLines(texts[..n])
      invariant tag.Valid() && fresh(tag) && fresh(tag.at.Keys) && tag.root in tag.at
      invariant Represents(tag.View(), tag.root, LinesOf(texts[..n]), [])
    {
      GoodPrefix(texts, n);
      CutsTestcase(tag, texts[n], LinesOf(texts[..n]));
      OneMoreLine(texts, n);
    }
    assert texts[..|texts|] == texts;
  }

  /**
   The life of a tag: its lines are folded, its keywords put, its result reported. The reported result is the
   overall one of the lines, and a worst status of all of them but those of a test named like the keywords, whose
   table then stands where the keywords would.
   */
  method ReportTag(texts: seq<string>, keywords: Symbols) returns (result: string)
    requires keywords.Valid() && GoodLines(texts)
    ensures result == Overall(LinesOf(texts)) && IsWorst(result, Reported(LinesOf(texts)))
  {
    hide Wf, Lookup, Represents, LinesOf, Stored, IsWorst, Overall, KeepsOrder, Tests;
    ghost var lines := LinesOf(texts);
    var tag := FoldLines(texts);
    ghost var h, at, d := tag.View(), tag.at, Sub(keywords.root);
    ghost var hs := keywords.View();
    assert Brings(d, hs, keywords.at) && hs == Snapshot(hs.Keys);
    KeywordsNotBlocked(h, tag.root);
    FoundCase(h, tag.root, lines, KEYWORDS, "");
    var err := tag.Put(KEYWORDS, Sub(keywords.root), false, hs, keywords.at);
    RootIn(tag.View(), tag.at, tag.root);
    ghost var extra := if err == Done then [KEYWORDS] else [];
    if err == Done {
      KeywordsStored(h, tag.View(), at, tag.at, tag.root, lines, d, hs);
      GetAfterPut(h, tag.View(), tag.root, [KEYWORDS], d, hs, []);
    }
    NonEmpty(tag.View(), tag.root);
    NamesAreGood(texts);
    result := CutsReport(tag, lines, extra);
    OverallIsWorst(lines);
  }

  lemma NonEmpty(h: Heap, root: Table)
    requires root in h && Lookup(h, root, [KEYWORDS]).Some?
    ensures h[root] != []
  {
  }
}
