/**
 The string splitter of pan/splitstr.c: a strtok loop that fills a growing array and ends it with NULL.
 */
module Splitstr {
  import opened Wrappers

  // ----- What a split is, without a scanner -----

  /** Positions a..b of s all hold a separator, or all hold none. */
  predicate Run(s: string, a: nat, b: nat, seps: string, sep: bool) {
    a <= b <= |s| && forall k | a <= k < b :: (s[k] in seps) == sep
  }

  /** After a gap of separators from `from`, a..b is a non-empty run without separators that nothing extends. */
  predicate Word(s: string, from: nat, a: nat, b: nat, seps: string) {
    Run(s, from, a, seps, true) && a < b && Run(s, a, b, seps, false) && (b == |s| || s[b] in seps)
  }

  /** The tokens are all the maximal runs without separators from `from` on, in order. */
  ghost predicate Cuts(s: string, from: nat, toks: seq<string>, seps: string)
    decreases |toks|
  {
    if toks == [] then Run(s, from, |s|, seps, true)
    else exists a: nat, b: nat :: Word(s, from, a, b, seps) && s[a..b] == toks[0] && Cuts(s, b, toks[1..], seps)
  }

  // ----- The scan -----

  /** The first position at or after i that holds (or does not hold) a separator. */
  function Next(s: string, i: nat, seps: string, want: bool): (j: nat)
    requires i <= |s|
    ensures Run(s, i, j, seps, !want) && (j < |s| ==> (s[j] in seps) == want)
    decreases |s| - i
  {
    if i == |s| || (s[i] in seps) == want then i else Next(s, i + 1, seps, want)
  }

  /** The tokens at or after position i. */
  function Tokens(s: string, i: nat, seps: string): seq<string>
    requires i <= |s|
    decreases |s| - i
  {
    var a := Next(s, i, seps, false);
    if a == |s| then []
    else
      var b := Next(s, a, seps, true);
      [s[a..b]] + Tokens(s, b, seps)
  }

  lemma {:induction false} NextOf(s: string, i: nat, seps: string, want: bool, j: nat)
    requires Run(s, i, j, seps, !want) && (j < |s| ==> (s[j] in seps) == want)
    ensures Next(s, i, seps, want) == j
    decreases j - i
  {
    if i < j {
      NextOf(s, i + 1, seps, want, j);
    }
  }

  lemma {:induction false} CutsAreTokens(s: string, from: nat, toks: seq<string>, seps: string)
    requires from <= |s| && Cuts(s, from, toks, seps)
    ensures Tokens(s, from, seps) == toks
    decreases |toks|
  {
    if toks == [] {
      NextOf(s, from, seps, false, |s|);
    } else {
      var a: nat, b: nat :| Word(s, from, a, b, seps) && s[a..b] == toks[0] && Cuts(s, b, toks[1..], seps);
      NextOf(s, from, seps, false, a);
      NextOf(s, a, seps, true, b);
      CutsAreTokens(s, b, toks[1..], seps);
    }
  }

  lemma {:induction false} TokensCut(s: string, from: nat, seps: string)
    requires from <= |s|
    ensures Cuts(s, from, Tokens(s, from, seps), seps)
    decreases |s| - from
  {
    var a, toks := Next(s, from, seps, false), Tokens(s, from, seps);
    if a < |s| {
      var b := Next(s, a, seps, true);
      TokensCut(s, b, seps);
      assert toks[1..] == Tokens(s, b, seps);
      assert Word(s, from, a, b, seps) && s[a..b] == toks[0];
    }
  }

  /** Splitting is exact: a list of tokens cuts the string if and only if it is the list the scan finds. */
  lemma SplitIsExact(s: string, toks: seq<string>, seps: string)
    ensures Cuts(s, 0, toks, seps) <==> Tokens(s, 0, seps) == toks
  {
    TokensCut(s, 0, seps);
    if Cuts(s, 0, toks, seps) {
      CutsAreTokens(s, 0, toks, seps);
    }
  }

  // ----- Comma paths -----

  predicate IsComponent(key: string) {
    key != "" && ',' !in key
  }

  predicate IsPath(keys: seq<string>) {
    forall k | k in keys :: IsComponent(k)
  }

  function Join(keys: seq<string>): string {
    if keys == [] then "" else if |keys| == 1 then keys[0] else keys[0] + "," + Join(keys[1..])
  }

  function Components(key: string): seq<string> {
    Tokens(key, 0, ",")
  }

  lemma WidenGap(s: string, from: nat, toks: seq<string>, seps: string)
    requires from < |s| && s[from] in seps && Cuts(s, from + 1, toks, seps)
    ensures Cuts(s, from, toks, seps)
  {
    if toks != [] {
      var a: nat, b: nat :| Word(s, from + 1, a, b, seps) && s[a..b] == toks[0] && Cuts(s, b, toks[1..], seps);
      assert Word(s, from, a, b, seps);
    }
  }

  lemma ComponentIsRun(pre: string, key: string, post: string)
    requires IsComponent(key)
    ensures Run(pre + key + post, |pre|, |pre| + |key|, ",", false)
    ensures (pre + key + post)[|pre|..|pre| + |key|] == key
  {
    var s := pre + key + post;
    assert s[|pre|..|pre| + |key|] == key;
    forall k | |pre| <= k < |pre| + |key| ensures s[k] !in "," {
      assert s[k] == key[k - |pre|];
    }
  }

  lemma FirstComponent(pre: string, keys: seq<string>)
    requires IsPath(keys) && keys != []
    ensures
      var s, b := pre + Join(keys), |pre| + |keys[0]|;
      && Word(s, |pre|, |pre|, b, ",") && s[|pre|..b] == keys[0]
      && (if |keys| == 1 then b == |s| else b < |s| && s[b] == ',' && s == pre + keys[0] + "," + Join(keys[1..]))
  {
    var post := if |keys| == 1 then "" else "," + Join(keys[1..]);
    assert IsComponent(keys[0]);
    assert pre + Join(keys) == pre + keys[0] + post;
    ComponentIsRun(pre, keys[0], post);
  }

  lemma {:induction false} JoinCuts(pre: string, keys: seq<string>)
    requires IsPath(keys)
    ensures Cuts(pre + Join(keys), |pre|, keys, ",")
    decreases |keys|
  {
    if keys != [] {
      var s, b := pre + Join(keys), |pre| + |keys[0]|;
      FirstComponent(pre, keys);
      hide Join, Word, IsComponent;
      if |keys| == 1 {
        assert keys[1..] == [];
        assert Cuts(s, b, keys[1..], ",");
      } else {
        JoinCuts(pre + keys[0] + ",", keys[1..]);
        WidenGap(s, b, keys[1..], ",");
      }
    }
  }

  /** A path written with commas splits back into its components. */
  lemma PathRoundTrip(keys: seq<string>)
    requires IsPath(keys)
    ensures Components(Join(keys)) == keys
  {
    JoinCuts("", keys);
    assert "" + Join(keys) == Join(keys);
    SplitIsExact(Join(keys), keys, ",");
  }

  /** Every component of a path is non-empty and holds no comma. */
  lemma {:induction false} ComponentsFrom(key: string, from: nat)
    requires from <= |key|
    ensures IsPath(Tokens(key, from, ","))
    decreases |key| - from
  {
    var a := Next(key, from, ",", false);
    if a < |key| {
      var b := Next(key, a, ",", true);
      ComponentsFrom(key, b);
      assert forall k | a <= k < b :: key[k] !in ",";
    }
  }

  // ----- splitstr as it runs -----

  /** One strtok call: the next token at or after `pos`, and where the next call continues. */
  method Strtok(s: string, pos: nat, seps: string) returns (tok: Option<string>, next: nat)
    requires pos <= |s|
    ensures pos <= next <= |s|
    ensures Tokens(s, pos, seps) == (if tok.None? then [] else [tok.value] + Tokens(s, next, seps))
    ensures tok.Some? ==> pos < next
  {
    next := pos;
    while next < |s| && s[next] in seps
      invariant pos <= next <= |s| && Next(s, pos, seps, false) == Next(s, next, seps, false)
    {
      next := next + 1;
    }
    if next == |s| {
      tok := None;
    } else {
      var start := next;
      while next < |s| && s[next] !in seps
        invariant start <= next <= |s| && Next(s, start, seps, true) == Next(s, next, seps, true)
      {
        next := next + 1;
      }
      tok := Some(s[start..next]);
    }
  }

  /** Cells 0..n hold the tokens and every later cell holds NULL. */
  ghost predicate Holds(cells: seq<Option<string>>, toks: seq<string>) {
    && |toks| < |cells|
    && (forall k | 0 <= k < |toks| :: cells[k] == Some(toks[k]))
    && (forall k | |toks| <= k < |cells| :: cells[k] == None)
  }

  /** The realloc step: twenty more cells, the first `count` kept. */
  method Grow(args: array<Option<string>>, count: nat) returns (bigger: array<Option<string>>)
    requires count == args.Length
    ensures fresh(bigger) && bigger.Length == count + 20 && forall k | 0 <= k < count :: bigger[k] == args[k]
  {
    bigger := new Option<string>[count + 20];
    for k := 0 to count
      invariant forall j | 0 <= j < k :: bigger[j] == args[j]
    {
      bigger[k] := args[k];
    }
  }

  /** The strtok loop: the tokens fill the first cells of an array that grows as needed. */
  method Collect(s: string, seps: string) returns (cells: array<Option<string>>, count: nat)
    ensures fresh(cells) && count == |Tokens(s, 0, seps)| < cells.Length
    ensures forall k | 0 <= k < count :: cells[k] == Some(Tokens(s, 0, seps)[k])
  {
    hide Tokens;
    ghost var toks := Tokens(s, 0, seps);
    cells := new Option<string>[20];
    count := 0;
    var tok, pos := Strtok(s, 0, seps);
    while tok.Some?
      invariant fresh(cells) && count < cells.Length && pos <= |s| && count <= |toks|
      invariant toks[count..] == if tok.None? then [] else [tok.value] + Tokens(s, pos, seps)
      invariant forall k | 0 <= k < count :: cells[k] == Some(toks[k])
      decreases |s| - pos + (if tok.Some? then 1 else 0)
    {
      FirstOfRest(toks, count, tok.value, Tokens(s, pos, seps));
      cells[count] := tok;
      count := count + 1;
      tok, pos := Strtok(s, pos, seps);
      if count == cells.Length {
        cells := Grow(cells, count);
      }
    }
  }

  lemma FirstOfRest(toks: seq<string>, n: nat, tok: string, rest: seq<string>)
    requires n <= |toks| && toks[n..] == [tok] + rest
    ensures n < |toks| && toks[n] == tok && toks[n + 1..] == rest
  {
    assert toks[n..][0] == toks[n] && toks[n..][1..] == toks[n + 1..];
  }

  /** splitstr; a missing string gives no array, a missing separator means blanks and tabs. */
  method Split(str: Option<string>, separator: Option<string>) returns (args: array?<Option<string>>, count: nat)
    ensures str.None? <==> args == null
    ensures str.None? ==> count == 0
    ensures
      str.Some? ==>
        var toks := Tokens(str.value, 0, if separator.None? then " \t" else separator.value);
        count == |toks| && fresh(args) && Holds(args[..], toks)
  {
    hide Tokens;
    if str.None? {
      return null, 0;
    }
    var seps := if separator.None? then " \t" else separator.value;
    var cells;
    cells, count := Collect(str.value, seps);
    ghost var toks := Tokens(str.value, 0, seps);
    cells[count] := None;
    for i := count + 1 to cells.Length
      invariant forall k | 0 <= k < count :: cells[k] == Some(toks[k])
      invariant forall k | count <= k < i :: cells[k] == None
    {
      cells[i] := None;
    }
    args := cells;
  }
}
