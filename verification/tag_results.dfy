/**
 Result folding of pan/tag_report.c on values: statuses and their order, the entries that a sequence of result
 lines leaves behind, the overall result of a tag, and when neither depends on the order of the lines.
 */
module TagResults {
  import opened Wrappers
  import opened Symbol

  // ----- Statuses -----

  /** From worst to best. */
  const WORST: seq<string> := ["FAIL", "BROK", "PASS", "CONF", "WARN", "INFO"]

  /** The place of a status in the table; an unknown one is past the end. */
  function Rank(status: string): (r: nat)
    ensures r <= |WORST| && (r < |WORST| ==> WORST[r] == status)
    ensures forall j | 0 <= j < r :: WORST[j] != status
  {
    RankFrom(status, 0)
  }

  function RankFrom(status: string, i: nat): (r: nat)
    requires i <= |WORST| && forall j | 0 <= j < i :: WORST[j] != status
    ensures r <= |WORST| && (r < |WORST| ==> WORST[r] == status)
    ensures forall j | 0 <= j < r :: WORST[j] != status
    decreases |WORST| - i
  {
    if i == |WORST| || WORST[i] == status then i else RankFrom(status, i + 1)
  }

  predicate Known(status: string) {
    status in WORST
  }

  lemma RankIs(status: string, i: nat)
    requires i <= |WORST| && (i < |WORST| ==> WORST[i] == status) && forall j | 0 <= j < i :: WORST[j] != status
    ensures Rank(status) == i
  {
  }

  /** Known statuses are told apart by their rank. */
  lemma RankIsInjective(s: string, t: string)
    requires Known(s) && Rank(s) == Rank(t)
    ensures s == t
  {
  }

  function Worse(t1: string, t2: string): string {
    if Rank(t1) < Rank(t2) then t1 else t2
  }

  /** worst_case */
  method WorstCase(t1: string, t2: string) returns (r: string)
    ensures r == Worse(t1, t2)
  {
    var w1 := 0;
    while w1 < |WORST| && t1 != WORST[w1]
      invariant w1 <= |WORST| && forall j | 0 <= j < w1 :: WORST[j] != t1
    {
      w1 := w1 + 1;
    }
    var w2 := 0;
    while w2 < |WORST| && t2 != WORST[w2]
      invariant w2 <= |WORST| && forall j | 0 <= j < w2 :: WORST[j] != t2
    {
      w2 := w2 + 1;
    }
    RankIs(t1, w1);
    RankIs(t2, w2);
    r := if w1 < w2 then t1 else t2;
  }

  /** `r` is a worst one of a set of statuses; of none, it is the empty string. */
  ghost predicate IsWorst(r: string, statuses: set<string>) {
    if statuses == {} then r == "" else r in statuses && forall s | s in statuses :: Rank(r) <= Rank(s)
  }

  /** The worst status of the set is one only: a known one, or the only one there is. */
  ghost predicate Settled(statuses: set<string>) {
    (exists s | s in statuses :: Known(s)) || (forall s, t | s in statuses && t in statuses :: s == t)
  }

  lemma UnknownRank(s: string)
    ensures Rank(s) == |WORST| <==> !Known(s)
  {
  }

  /** Two worst statuses of a settled set are the same. */
  lemma WorstIsUnique(r1: string, r2: string, statuses: set<string>)
    requires IsWorst(r1, statuses) && IsWorst(r2, statuses) && Settled(statuses)
    ensures r1 == r2
  {
    if s :| s in statuses && Known(s) {
      UnknownRank(s);
      UnknownRank(r1);
      RankIsInjective(r1, r2);
    }
  }

  /** In a set that is not settled, any other status but a given worst one is a worst one too. */
  lemma UnsettledHasTwo(r: string, statuses: set<string>) returns (s: string)
    requires IsWorst(r, statuses) && !Settled(statuses)
    ensures s in statuses && s != r && !Known(s)
  {
    var x, y :| x in statuses && y in statuses && x != y;
    s := if x == r then y else x;
  }

  lemma WorseIsWorst(r: string, statuses: set<string>, t: string)
    requires IsWorst(r, statuses)
    ensures IsWorst(Worse(r, t), statuses + {t})
  {
    if statuses == {} {
      assert Rank("") == |WORST|;
      assert statuses + {t} == {t};
    }
  }

  // ----- Folding lines -----

  datatype Line = Line(tcid: string, tc: string, status: string)
  type Results = map<(string, string), string>

  function Fold(r: Results, line: Line): Results {
    var k := (line.tcid, line.tc);
    r[k := if k in r then Worse(r[k], line.status) else line.status]
  }

  function FoldAll(lines: seq<Line>): Results {
    if lines == [] then map[] else Fold(FoldAll(lines[..|lines| - 1]), lines[|lines| - 1])
  }

  /** The statuses reported for one test case. */
  ghost function Seen(lines: seq<Line>, k: (string, string)): set<string> {
    set l | l in lines && (l.tcid, l.tc) == k :: l.status
  }

  ghost function AllSeen(lines: seq<Line>): set<string> {
    set l | l in lines :: l.status
  }

  lemma SeenLast(lines: seq<Line>, k: (string, string))
    requires lines != []
    ensures
      var last, init := lines[|lines| - 1], lines[..|lines| - 1];
      Seen(lines, k) == if (last.tcid, last.tc) == k then Seen(init, k) + {last.status} else Seen(init, k)
  {
    var last, init := lines[|lines| - 1], lines[..|lines| - 1];
    assert forall l :: l in lines <==> l in init || l == last;
  }

  /** Every test case has an entry if and only if a line reported it, and the entry is the worst status seen for it. */
  lemma {:induction false} EntriesAreWorst(lines: seq<Line>, k: (string, string))
    ensures k in FoldAll(lines) <==> Seen(lines, k) != {}
    ensures k in FoldAll(lines) ==> IsWorst(FoldAll(lines)[k], Seen(lines, k))
    decreases |lines|
  {
    if lines != [] {
      var last, init := lines[|lines| - 1], lines[..|lines| - 1];
      EntriesAreWorst(init, k);
      SeenLast(lines, k);
      if (last.tcid, last.tc) == k {
        if k in FoldAll(init) {
          WorseIsWorst(FoldAll(init)[k], Seen(init, k), last.status);
        } else {
          assert Seen(lines, k) == {last.status};
        }
      }
    }
  }

  ghost predicate SameLines(lines: seq<Line>, lines': seq<Line>) {
    forall l :: l in lines <==> l in lines'
  }

  lemma SameSeen(lines: seq<Line>, lines': seq<Line>, k: (string, string))
    requires SameLines(lines, lines')
    ensures Seen(lines, k) == Seen(lines', k)
  {
  }

  lemma FoldLast(lines: seq<Line>, line: Line)
    ensures FoldAll(lines + [line]) == Fold(FoldAll(lines), line)
  {
    assert (lines + [line])[..|lines|] == lines;
    hide Fold;
  }

  lemma SettledEntriesStay(lines: seq<Line>, lines': seq<Line>)
    requires SameLines(lines, lines') && forall k :: Settled(Seen(lines, k))
    ensures FoldAll(lines') == FoldAll(lines)
  {
    var r, r' := FoldAll(lines), FoldAll(lines');
    forall k: (string, string) ensures k in r <==> k in r' {
      EntriesAreWorst(lines, k);
      EntriesAreWorst(lines', k);
      SameSeen(lines, lines', k);
    }
    forall k | k in r ensures r[k] == r'[k] {
      EntriesAreWorst(lines, k);
      EntriesAreWorst(lines', k);
      SameSeen(lines, lines', k);
      WorstIsUnique(r[k], r'[k], Seen(lines, k));
    }
  }

  /** One of the lines, once more at the end, changes an entry that is not settled. */
  lemma UnsettledEntryChanges(lines: seq<Line>, k: (string, string)) returns (lines': seq<Line>)
    requires !Settled(Seen(lines, k))
    ensures SameLines(lines, lines') && FoldAll(lines') != FoldAll(lines)
  {
    var r := FoldAll(lines);
    EntriesAreWorst(lines, k);
    var s := UnsettledHasTwo(r[k], Seen(lines, k));
    var l :| l in lines && (l.tcid, l.tc) == k && l.status == s;
    lines' := lines + [l];
    FoldLast(lines, l);
    UnknownRank(s);
    assert FoldAll(lines')[k] == s;
  }

  /**
   The entries depend neither on the order nor on the repetition of the lines, if and only if every test case has
   a known status among its own or only one status at all.
   */
  lemma OrderDoesNotMatter(lines: seq<Line>)
    ensures
      (forall lines' | SameLines(lines, lines') :: FoldAll(lines') == FoldAll(lines)) <==>
      (forall k :: Settled(Seen(lines, k)))
  {
    if forall k :: Settled(Seen(lines, k)) {
      forall lines' | SameLines(lines, lines') ensures FoldAll(lines') == FoldAll(lines) {
        SettledEntriesStay(lines, lines');
      }
    } else {
      var k :| !Settled(Seen(lines, k));
      var lines' := UnsettledEntryChanges(lines, k);
    }
  }

  // ----- The entries in the order of the symbol table -----

  /** Where a tag keeps its keywords; a test of that name is left out of the report. */
  const KEYWORDS := "_keys"

  function Add(names: seq<string>, name: string): seq<string> {
    if name in names then names else names + [name]
  }

  /** The tests in the order of their first line. */
  function Tests(lines: seq<Line>): seq<string> {
    if lines == [] then [] else Add(Tests(lines[..|lines| - 1]), lines[|lines| - 1].tcid)
  }

  function StatusOf(d: Data): string {
    if d.Leaf? then d.text else ""
  }

  function AddStatus(es: seq<Entry>, tc: string, status: string): seq<Entry> {
    var i := Find(es, tc);
    if i < |es| then es[i := es[i].(data := Leaf(Worse(StatusOf(es[i].data), status)))]
    else es + [Entry(tc, Leaf(status))]
  }

  /** The test cases of one test in the order of their first line, each with its status. */
  function TestEntries(lines: seq<Line>, tcid: string): seq<Entry> {
    if lines == [] then []
    else
      var es, l := TestEntries(lines[..|lines| - 1], tcid), lines[|lines| - 1];
      if l.tcid == tcid then AddStatus(es, l.tc, l.status) else es
  }

  lemma TestsLast(lines: seq<Line>, line: Line)
    ensures Tests(lines + [line]) == Add(Tests(lines), line.tcid)
  {
    assert (lines + [line])[..|lines|] == lines;
  }

  lemma TestEntriesLast(lines: seq<Line>, line: Line, tcid: string)
    ensures
      TestEntries(lines + [line], tcid) ==
      if line.tcid == tcid then AddStatus(TestEntries(lines, tcid), line.tc, line.status) else TestEntries(lines, tcid)
  {
    assert (lines + [line])[..|lines|] == lines;
    hide AddStatus;
  }

  lemma AddStatusBinds(es: seq<Entry>, tc: string, status: string)
    requires DistinctKeys(es)
    ensures DistinctKeys(AddStatus(es, tc, status))
    ensures
      var before := Bound(es, tc);
      Rebound(es, AddStatus(es, tc, status), tc,
              Leaf(if before.None? then status else Worse(StatusOf(before.value), status)))
  {
    var i := Find(es, tc);
    if i < |es| {
      ReplaceBinds(es, i, Leaf(Worse(StatusOf(es[i].data), status)));
    } else {
      AppendBinds(es, tc, Leaf(status));
    }
  }

  /** The ordered entries are the folded ones. */
  lemma {:induction false} EntriesAreFolded(lines: seq<Line>, a: string, b: string)
    ensures DistinctKeys(TestEntries(lines, a))
    ensures
      var r := FoldAll(lines);
      Bound(TestEntries(lines, a), b) == if (a, b) in r then Some(Leaf(r[(a, b)])) else None
    decreases |lines|
  {
    if lines != [] {
      var l, init := lines[|lines| - 1], lines[..|lines| - 1];
      EntriesAreFolded(init, a, b);
      hide AddStatus, Bound, Worse;
      if l.tcid == a {
        EntriesAreFolded(init, a, l.tc);
        AddStatusBinds(TestEntries(init, a), l.tc, l.status);
      }
    }
  }

  /** A test is listed if and only if it has an entry. */
  lemma {:induction false} TestsAreFolded(lines: seq<Line>, a: string)
    ensures a in Tests(lines) <==> TestEntries(lines, a) != []
    decreases |lines|
  {
    if lines != [] {
      TestsAreFolded(lines[..|lines| - 1], a);
    }
  }

  lemma {:induction false} TestsAreOfLines(lines: seq<Line>, a: string)
    ensures a in Tests(lines) <==> exists l | l in lines :: l.tcid == a
    decreases |lines|
  {
    if lines != [] {
      var l, init := lines[|lines| - 1], lines[..|lines| - 1];
      TestsAreOfLines(init, a);
      assert forall x :: x in lines <==> x in init || x == l;
    }
  }

  // ----- The overall result -----

  /** The inner loop of the report. */
  function OverEntries(es: seq<Entry>, result: string): string {
    if es == [] then result else Worse(OverEntries(es[..|es| - 1], result), StatusOf(es[|es| - 1].data))
  }

  /** The outer loop of the report. */
  function OverTests(lines: seq<Line>, tests: seq<string>): string {
    if tests == [] then ""
    else
      var a, before := tests[|tests| - 1], OverTests(lines, tests[..|tests| - 1]);
      if a == KEYWORDS then before else OverEntries(TestEntries(lines, a), before)
  }

  function Overall(lines: seq<Line>): string {
    OverTests(lines, Tests(lines))
  }

  /** The statuses of all lines but those of a test that is named like the keywords. */
  ghost function Reported(lines: seq<Line>): set<string> {
    set l | l in lines && l.tcid != KEYWORDS :: l.status
  }

  ghost function Texts(es: seq<Entry>): set<string> {
    set e | e in es :: StatusOf(e.data)
  }

  lemma TextsLast(es: seq<Entry>)
    requires es != []
    ensures Texts(es) == Texts(es[..|es| - 1]) + {StatusOf(es[|es| - 1].data)}
  {
    assert es == es[..|es| - 1] + [es[|es| - 1]];
  }

  lemma NoTexts(seen: set<string>)
    ensures seen + Texts([]) == seen
  {
  }

  lemma {:induction false} OverEntriesIsWorst(es: seq<Entry>, result: string, seen: set<string>)
    requires IsWorst(result, seen)
    ensures IsWorst(OverEntries(es, result), seen + Texts(es))
    decreases |es|
  {
    hide IsWorst, Worse, Texts, StatusOf;
    if es == [] {
      NoTexts(seen);
    } else {
      var init, t := es[..|es| - 1], StatusOf(es[|es| - 1].data);
      OverEntriesIsWorst(init, result, seen);
      WorseIsWorst(OverEntries(init, result), seen + Texts(init), t);
      TextsLast(es);
      assert seen + Texts(es) == seen + Texts(init) + {t};
    }
  }

  /** The statuses of the entries of some tests. */
  ghost function EntriesOf(lines: seq<Line>, tests: seq<string>): set<string> {
    set a, e | a in tests && a != KEYWORDS && e in TestEntries(lines, a) :: StatusOf(e.data)
  }

  lemma EntriesOfLast(lines: seq<Line>, tests: seq<string>)
    requires tests != []
    ensures
      var a, init := tests[|tests| - 1], EntriesOf(lines, tests[..|tests| - 1]);
      EntriesOf(lines, tests) == if a == KEYWORDS then init else init + Texts(TestEntries(lines, a))
  {
    hide TestEntries, StatusOf;
    assert tests == tests[..|tests| - 1] + [tests[|tests| - 1]];
  }

  lemma {:induction false} OverTestsIsWorst(lines: seq<Line>, tests: seq<string>)
    ensures IsWorst(OverTests(lines, tests), EntriesOf(lines, tests))
    decreases |tests|
  {
    if tests == [] {
      assert EntriesOf(lines, tests) == {};
    } else {
      hide IsWorst, EntriesOf, TestEntries, OverEntries, Texts;
      var a, init := tests[|tests| - 1], tests[..|tests| - 1];
      OverTestsIsWorst(lines, init);
      EntriesOfLast(lines, tests);
      if a != KEYWORDS {
        OverEntriesIsWorst(TestEntries(lines, a), OverTests(lines, init), EntriesOf(lines, init));
      }
    }
  }

  lemma EntryOfCase(lines: seq<Line>, a: string, j: nat)
    requires j < |TestEntries(lines, a)|
    ensures
      var e, k := TestEntries(lines, a)[j], (a, TestEntries(lines, a)[j].key);
      k in FoldAll(lines) && e.data == Leaf(FoldAll(lines)[k])
  {
    var es := TestEntries(lines, a);
    EntriesAreFolded(lines, a, es[j].key);
    FindIs(es, es[j].key, j);
  }

  lemma CaseHasEntry(lines: seq<Line>, k: (string, string))
    requires k in FoldAll(lines)
    ensures k.0 in Tests(lines) && Entry(k.1, Leaf(FoldAll(lines)[k])) in TestEntries(lines, k.0)
  {
    EntriesAreFolded(lines, k.0, k.1);
    TestsAreFolded(lines, k.0);
    var es := TestEntries(lines, k.0);
    assert es[Find(es, k.1)] in es;
  }

  /** The overall result is a worst one of the statuses of all lines that are reported. */
  lemma OverallIsWorst(lines: seq<Line>)
    ensures IsWorst(Overall(lines), Reported(lines))
  {
    var r, tests := FoldAll(lines), Tests(lines);
    OverTestsIsWorst(lines, tests);
    forall s | s in EntriesOf(lines, tests) ensures s in Reported(lines) {
      EntryIsReported(lines, s);
    }
    forall l | l in lines && l.tcid != KEYWORDS
      ensures exists s :: s in EntriesOf(lines, tests) && Rank(s) <= Rank(l.status)
    {
      var s := LineHasEntry(lines, l);
    }
  }

  lemma EntryIsReported(lines: seq<Line>, s: string)
    requires s in EntriesOf(lines, Tests(lines))
    ensures s in Reported(lines)
  {
    var a, e :| a in Tests(lines) && a != KEYWORDS && e in TestEntries(lines, a) && s == StatusOf(e.data);
    var j :| 0 <= j < |TestEntries(lines, a)| && TestEntries(lines, a)[j] == e;
    EntryOfCase(lines, a, j);
    EntriesAreWorst(lines, (a, e.key));
    assert s in Seen(lines, (a, e.key));
  }

  lemma LineHasEntry(lines: seq<Line>, l: Line) returns (s: string)
    requires l in lines && l.tcid != KEYWORDS
    ensures s in EntriesOf(lines, Tests(lines)) && Rank(s) <= Rank(l.status)
  {
    var k := (l.tcid, l.tc);
    EntriesAreWorst(lines, k);
    assert l.status in Seen(lines, k);
    CaseHasEntry(lines, k);
    s := FoldAll(lines)[k];
    assert s == StatusOf(Entry(l.tc, Leaf(s)).data);
  }

  // ----- When the overall result depends on the order -----

  lemma SameReported(lines: seq<Line>, lines': seq<Line>)
    requires SameLines(lines, lines')
    ensures Reported(lines) == Reported(lines')
  {
  }

  datatype Part = OtherTest | OtherCase | SameCase

  function PartOf(x: Line, l: Line): Part {
    if x.tcid != l.tcid then OtherTest else if x.tc != l.tc then OtherCase else SameCase
  }

  /** The lines that stand in some relation to `l`. */
  function Filter(lines: seq<Line>, l: Line, part: Part): seq<Line> {
    if lines == [] then []
    else
      var x := lines[|lines| - 1];
      Filter(lines[..|lines| - 1], l, part) + (if PartOf(x, l) == part then [x] else [])
  }

  lemma {:induction false} InFilter(lines: seq<Line>, l: Line, part: Part, x: Line)
    ensures x in Filter(lines, l, part) <==> x in lines && PartOf(x, l) == part
    decreases |lines|
  {
    if lines != [] {
      InFilter(lines[..|lines| - 1], l, part, x);
      assert lines == lines[..|lines| - 1] + [lines[|lines| - 1]];
    }
  }

  predicate OnlyTest(lines: seq<Line>, a: string) {
    lines == [] || (lines[|lines| - 1].tcid == a && OnlyTest(lines[..|lines| - 1], a))
  }

  predicate OnlyCase(lines: seq<Line>, a: string, b: string) {
    lines == [] ||
    (lines[|lines| - 1].tcid == a && lines[|lines| - 1].tc == b && OnlyCase(lines[..|lines| - 1], a, b))
  }

  lemma {:induction false} OnlyFrom(lines: seq<Line>, a: string, b: string)
    ensures (forall l | l in lines :: l.tcid == a) ==> OnlyTest(lines, a)
    ensures (forall l | l in lines :: l.tcid == a && l.tc == b) ==> OnlyCase(lines, a, b)
    decreases |lines|
  {
    if lines != [] {
      OnlyFrom(lines[..|lines| - 1], a, b);
      assert lines[|lines| - 1] in lines;
    }
  }

  /** A test with no line so far, and only its lines after, comes last. */
  lemma {:induction false} LateTestIsLast(xs: seq<Line>, ys: seq<Line>, a: string)
    requires a !in Tests(xs) && ys != [] && OnlyTest(ys, a)
    ensures Tests(xs + ys) == Tests(xs) + [a]
    decreases |ys|
  {
    var init, l := ys[..|ys| - 1], ys[|ys| - 1];
    assert xs + ys == xs + init + [l];
    TestsLast(xs + init, l);
    if init == [] {
      assert xs + init == xs;
    } else {
      LateTestIsLast(xs, init, a);
    }
  }

  lemma AddStatusLast(es: seq<Entry>, b: string, status: string)
    requires Bound(es, b).None? || (es != [] && es[|es| - 1].key == b)
    ensures
      var es' := AddStatus(es, b, status);
      es' != [] && es'[|es'| - 1].key == b
  {
  }

  /** A test case with no line so far, and only its lines after, comes last in its test. */
  lemma {:induction false} LateCaseIsLast(xs: seq<Line>, ys: seq<Line>, a: string, b: string)
    requires (a, b) !in FoldAll(xs) && ys != [] && OnlyCase(ys, a, b)
    ensures
      var es := TestEntries(xs + ys, a);
      es != [] && es[|es| - 1].key == b
    decreases |ys|
  {
    hide TestEntries, AddStatus, FoldAll, Bound;
    var init, l := ys[..|ys| - 1], ys[|ys| - 1];
    assert xs + ys == xs + init + [l];
    TestEntriesLast(xs + init, l, a);
    if init == [] {
      assert xs + init == xs;
      EntriesAreFolded(xs, a, b);
    } else {
      LateCaseIsLast(xs, init, a, b);
    }
    AddStatusLast(TestEntries(xs + init, a), b, l.status);
  }

  /** With unknown statuses only, the last entry of the last test is the overall result. */
  lemma LastEntryIsOverall(lines: seq<Line>, tests: seq<string>, a: string)
    requires Tests(lines) == tests + [a] && a != KEYWORDS && TestEntries(lines, a) != []
    requires forall s | s in Reported(lines) :: !Known(s)
    ensures
      var es := TestEntries(lines, a);
      Overall(lines) == StatusOf(es[|es| - 1].data)
  {
    var es := TestEntries(lines, a);
    var n := |es| - 1;
    assert (tests + [a])[..|tests|] == tests;
    OverTestsIsWorst(lines, tests);
    OverEntriesIsWorst(es[..n], OverTests(lines, tests), EntriesOf(lines, tests));
    var before := OverEntries(es[..n], OverTests(lines, tests));
    assert !Known(before) by {
      if before in EntriesOf(lines, tests) + Texts(es[..n]) {
        InAllEntries(lines, tests, a, n, before);
        EntryIsReported(lines, before);
      }
    }
    UnknownRank(before);
  }

  lemma InAllEntries(lines: seq<Line>, tests: seq<string>, a: string, n: nat, s: string)
    requires Tests(lines) == tests + [a] && a != KEYWORDS && n <= |TestEntries(lines, a)|
    requires s in EntriesOf(lines, tests) + Texts(TestEntries(lines, a)[..n])
    ensures s in EntriesOf(lines, Tests(lines))
  {
    hide TestEntries, StatusOf, Tests;
    if s in EntriesOf(lines, tests) {
      var x, e :| x in tests && x != KEYWORDS && e in TestEntries(lines, x) && s == StatusOf(e.data);
      assert x in tests + [a];
    } else {
      var e :| e in TestEntries(lines, a)[..n] && s == StatusOf(e.data);
      assert e in TestEntries(lines, a) && a in tests + [a];
    }
  }

  /** The lines with those of one test, and among them those of one case, and among them one line, moved to the end. */
  ghost function MovedLast(lines: seq<Line>, l: Line): seq<Line> {
    Filter(lines, l, OtherTest) + Filter(lines, l, OtherCase) +
    (Filter(lines, l, SameCase) + [l])
  }

  lemma MovedIsSame(lines: seq<Line>, l: Line)
    requires l in lines
    ensures SameLines(lines, MovedLast(lines, l))
  {
    forall x: Line ensures x in lines <==> x in MovedLast(lines, l) {
      InFilter(lines, l, OtherTest, x);
      InFilter(lines, l, OtherCase, x);
      InFilter(lines, l, SameCase, x);
    }
  }

  lemma MovedTestIsLast(lines: seq<Line>, l: Line)
    requires l in lines
    ensures
      var xs := Filter(lines, l, OtherTest);
      Tests(MovedLast(lines, l)) == Tests(xs) + [l.tcid]
  {
    var xs := Filter(lines, l, OtherTest);
    var ys := Filter(lines, l, OtherCase);
    var zs := Filter(lines, l, SameCase) + [l];
    forall x: Line ensures (x in xs ==> x.tcid != l.tcid) && (x in ys + zs ==> x.tcid == l.tcid) {
      InFilter(lines, l, OtherTest, x);
      InFilter(lines, l, OtherCase, x);
      InFilter(lines, l, SameCase, x);
    }
    TestsAreOfLines(xs, l.tcid);
    OnlyFrom(ys + zs, l.tcid, l.tc);
    LateTestIsLast(xs, ys + zs, l.tcid);
    assert xs + ys + zs == xs + (ys + zs);
  }

  lemma MovedCaseIsLast(lines: seq<Line>, l: Line)
    requires l in lines
    ensures
      var es := TestEntries(MovedLast(lines, l), l.tcid);
      es != [] && es[|es| - 1].key == l.tc
  {
    var xs := Filter(lines, l, OtherTest) + Filter(lines, l, OtherCase);
    var zs := Filter(lines, l, SameCase) + [l];
    var k := (l.tcid, l.tc);
    forall x: Line ensures (x in xs ==> (x.tcid, x.tc) != k) && (x in zs ==> (x.tcid, x.tc) == k) {
      InFilter(lines, l, OtherTest, x);
      InFilter(lines, l, OtherCase, x);
      InFilter(lines, l, SameCase, x);
    }
    assert Seen(xs, k) == {};
    EntriesAreWorst(xs, k);
    OnlyFrom(zs, l.tcid, l.tc);
    LateCaseIsLast(xs, zs, l.tcid, l.tc);
  }

  /** An unknown status that comes last stays. */
  lemma LastUnknownStays(lines: seq<Line>, l: Line)
    requires forall s | s in Seen(lines + [l], (l.tcid, l.tc)) :: !Known(s)
    ensures FoldAll(lines + [l])[(l.tcid, l.tc)] == l.status
  {
    var k := (l.tcid, l.tc);
    FoldLast(lines, l);
    EntriesAreWorst(lines, k);
    assert l.status in Seen(lines + [l], k) && Seen(lines, k) <= Seen(lines + [l], k);
    UnknownRank(l.status);
    if k in FoldAll(lines) {
      UnknownRank(FoldAll(lines)[k]);
    }
  }

  lemma MovedEnds(lines: seq<Line>, l: Line) returns (init: seq<Line>)
    ensures MovedLast(lines, l) == init + [l]
  {
    hide Filter;
    init := MovedLast(lines, l)[..|MovedLast(lines, l)| - 1];
  }

  /** With unknown statuses only, a suitable order makes any one of them the overall result. */
  lemma AnyUnknownCanWin(lines: seq<Line>, l: Line)
    requires l in lines && l.tcid != KEYWORDS && forall s | s in Reported(lines) :: !Known(s)
    ensures Overall(MovedLast(lines, l)) == l.status
  {
    hide MovedLast, Tests, TestEntries, Overall, FoldAll, SameLines, Filter, Known;
    var lines', k := MovedLast(lines, l), (l.tcid, l.tc);
    MovedIsSame(lines, l);
    SameReported(lines, lines');
    MovedTestIsLast(lines, l);
    MovedCaseIsLast(lines, l);
    var es := TestEntries(lines', l.tcid);
    LastEntryIsOverall(lines', Tests(Filter(lines, l, OtherTest)), l.tcid);
    EntryOfCase(lines', l.tcid, |es| - 1);
    var init := MovedEnds(lines, l);
    assert Seen(lines', k) <= Reported(lines');
    LastUnknownStays(init, l);
  }

  /**
   The overall result depends neither on the order nor on the repetition of the lines, if and only if a known
   status is among those reported or they are all the same.
   */
  lemma OverallOrderDoesNotMatter(lines: seq<Line>)
    ensures
      (forall lines' | SameLines(lines, lines') :: Overall(lines') == Overall(lines)) <==> Settled(Reported(lines))
  {
    OverallIsWorst(lines);
    if Settled(Reported(lines)) {
      forall lines' | SameLines(lines, lines') ensures Overall(lines') == Overall(lines) {
        OverallIsWorst(lines');
        SameReported(lines, lines');
        WorstIsUnique(Overall(lines), Overall(lines'), Reported(lines));
      }
    } else {
      var s := UnsettledHasTwo(Overall(lines), Reported(lines));
      var l :| l in lines && l.tcid != KEYWORDS && l.status == s;
      AnyUnknownCanWin(lines, l);
      MovedIsSame(lines, l);
    }
  }

  lemma FoldOfNone()
    ensures FoldAll([]) == map[] && Tests([]) == []
  {
  }

  lemma FoldOfTwo(l1: Line, l2: Line)
    requires l1.tcid == l2.tcid && l1.tc == l2.tc
    ensures FoldAll([l1, l2]) == map[(l2.tcid, l2.tc) := Worse(l1.status, l2.status)]
    ensures Tests([l1, l2]) == [l2.tcid]
  {
    hide FoldAll, Tests, Worse;
    FoldOfNone();
    FoldLast([], l1);
    FoldLast([l1], l2);
    TestsLast([], l1);
    TestsLast([l1], l2);
    assert [] + [l1] == [l1] && [l1] + [l2] == [l1, l2];
  }

  /** Two lines of one test case with unknown statuses: the one that comes last wins. */
  lemma LastOfTwoWins(l1: Line, l2: Line)
    requires l1.tcid == l2.tcid != KEYWORDS && l1.tc == l2.tc && !Known(l1.status) && !Known(l2.status)
    ensures FoldAll([l1, l2]) == map[(l2.tcid, l2.tc) := l2.status] && Overall([l1, l2]) == l2.status
  {
    hide FoldAll, Tests, TestEntries, Overall, Known, Rank, Bound;
    var lines, a, b := [l1, l2], l2.tcid, l2.tc;
    FoldOfTwo(l1, l2);
    UnknownRank(l1.status);
    UnknownRank(l2.status);
    var es := TestEntries(lines, a);
    TestsAreFolded(lines, a);
    EntryOfCase(lines, a, |es| - 1);
    assert Tests(lines) == [] + [a];
    LastEntryIsOverall(lines, [], a);
  }

  /** An input on which the order matters: one test case reported twice, with statuses outside the table. */
  lemma OrderMatters()
    ensures
      var l1, l2 := Line("t", "1", "RETR"), Line("t", "1", "DONE");
      && SameLines([l1, l2], [l2, l1])
      && FoldAll([l1, l2]) != FoldAll([l2, l1]) && Overall([l1, l2]) != Overall([l2, l1])
  {
    var l1, l2 := Line("t", "1", "RETR"), Line("t", "1", "DONE");
    LastOfTwoWins(l1, l2);
    LastOfTwoWins(l2, l1);
    assert FoldAll([l1, l2])[("t", "1")] == "DONE" && FoldAll([l2, l1])[("t", "1")] == "RETR";
  }
}
