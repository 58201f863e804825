/**
 The tokenizer of lib/tst_bool_expr.c. Tokens are the five operation characters and words; a word ends at
 an operation character or a blank, except inside double quotes, and an unclosed quote runs to the end.
 */
module BoolExprTokens {
  import opened BoolExpr

  predicate IsOpChar(c: char) {
    c in "()!&|"
  }

  predicate IsBlank(c: char) {
    c == ' ' || c == '\t'
  }

  predicate IsBreak(c: char) {
    IsOpChar(c) || IsBlank(c)
  }

  function CharToOp(c: char): Op {
    match c
    case '(' => LPar
    case ')' => RPar
    case '&' => And
    case '|' => Or
    case '!' => Not
    case _ => Var
  }

  // ----- Scanning one character at a time -----

  function Flush(cur: string): seq<string> {
    if cur == "" then [] else [cur]
  }

  /** `cur` is the word read so far, `open` whether a quote is open in it. */
  function Split(s: string, cur: string, open: bool): seq<string>
    decreases |s|
  {
    if s == "" then Flush(cur)
    else if open then Split(s[1..], cur + [s[0]], s[0] != '"')
    else if IsOpChar(s[0]) then Flush(cur) + [[s[0]]] + Split(s[1..], "", false)
    else if IsBlank(s[0]) then Flush(cur) + Split(s[1..], "", false)
    else Split(s[1..], cur + [s[0]], s[0] == '"')
  }

  function Texts(s: string): seq<string> {
    Split(s, "", false)
  }

  // ----- What a token list of a string is, without a scanner -----

  predicate AllBlank(s: string) {
    forall i | 0 <= i < |s| :: IsBlank(s[i])
  }

  /** Is a quote open after reading w? */
  predicate OpenAfter(w: string, open: bool)
    decreases |w|
  {
    if w == "" then open else OpenAfter(w[1..], if w[0] == '"' then !open else open)
  }

  /** No operation character and no blank outside quotes. */
  predicate Unbroken(w: string, open: bool)
    decreases |w|
  {
    w == "" || ((open || !IsBreak(w[0])) && Unbroken(w[1..], if w[0] == '"' then !open else open))
  }

  /** `t` is a whole token when `rest` follows it. */
  predicate TokenBefore(t: string, rest: string) {
    || (|t| == 1 && IsOpChar(t[0]))
    || (t != "" && Unbroken(t, false) && (rest == "" || (!OpenAfter(t, false) && IsBreak(rest[0]))))
  }

  /** `t` stands in `s` after a gap of n blanks. */
  predicate StandsAt(s: string, t: string, n: nat) {
    n + |t| <= |s| && AllBlank(s[..n]) && s[n..n + |t|] == t && TokenBefore(t, s[n + |t|..])
  }

  ghost predicate Spells(s: string, texts: seq<string>)
    decreases |texts|
  {
    if texts == [] then AllBlank(s) else exists n: nat :: SpellsAfter(s, texts, n)
  }

  ghost predicate SpellsAfter(s: string, texts: seq<string>, n: nat)
    requires texts != []
    decreases |texts|, 0
  {
    StandsAt(s, texts[0], n) && Spells(s[n + |texts[0]|..], texts[1..])
  }

  // ----- The scanner finds exactly that list -----

  lemma {:induction false} SplitWord(t: string, rest: string, cur: string, open: bool)
    requires Unbroken(t, open)
    ensures Split(t + rest, cur, open) == Split(rest, cur + t, OpenAfter(t, open))
    decreases |t|
  {
    if t == "" {
      assert t + rest == rest && cur + t == cur;
    } else {
      assert (t + rest)[1..] == t[1..] + rest;
      assert cur + [t[0]] + t[1..] == cur + t;
      SplitWord(t[1..], rest, cur + [t[0]], if t[0] == '"' then !open else open);
    }
  }

  lemma {:induction false} SplitGap(s: string, n: nat)
    requires n <= |s| && AllBlank(s[..n])
    ensures Texts(s) == Texts(s[n..])
    decreases n
  {
    if n > 0 {
      assert IsBlank(s[..n][0]);
      assert s[1..][..n - 1] == s[..n][1..] && s[1..][n - 1..] == s[n..];
      SplitGap(s[1..], n - 1);
    } else {
      assert s[0..] == s;
    }
  }

  lemma SplitToken(t: string, rest: string)
    requires TokenBefore(t, rest)
    ensures Texts(t + rest) == [t] + Texts(rest)
  {
    if |t| == 1 && IsOpChar(t[0]) {
      assert (t + rest)[1..] == rest && [t[0]] == t;
    } else {
      SplitWord(t, rest, "", false);
      assert "" + t == t;
    }
  }

  lemma {:induction false} SpellsOnlyTexts(s: string, texts: seq<string>)
    requires Spells(s, texts)
    ensures texts == Texts(s)
    decreases |texts|
  {
    if texts == [] {
      assert s[..|s|] == s;
      SplitGap(s, |s|);
    } else {
      var t := texts[0];
      var n: nat :| SpellsAfter(s, texts, n);
      SplitGap(s, n);
      assert s[n..] == t + s[n + |t|..];
      SplitToken(t, s[n + |t|..]);
      SpellsOnlyTexts(s[n + |t|..], texts[1..]);
    }
  }

  lemma {:induction false} WordEnds(s: string, cur: string, open: bool) returns (k: nat)
    requires cur != ""
    ensures k <= |s| && Unbroken(s[..k], open)
    ensures k < |s| ==> !OpenAfter(s[..k], open) && IsBreak(s[k])
    ensures Split(s, cur, open) == [cur + s[..k]] + Texts(s[k..])
    decreases |s|
  {
    if s == "" {
      k := 0;
      assert cur + s[..0] == cur;
    } else if !open && IsBreak(s[0]) {
      k := 0;
      assert cur + s[..0] == cur && s[0..] == s;
    } else {
      var k1 := WordEnds(s[1..], cur + [s[0]], if s[0] == '"' then !open else open);
      k := k1 + 1;
      assert s[..k] == [s[0]] + s[1..][..k1];
      assert s[..k][1..] == s[1..][..k1];
      assert s[1..][k1..] == s[k..];
      assert cur + [s[0]] + s[1..][..k1] == cur + s[..k];
    }
  }

  lemma TokenSpells(t: string, rest: string, texts: seq<string>)
    requires TokenBefore(t, rest) && Spells(rest, texts)
    ensures Spells(t + rest, [t] + texts)
  {
    var s := t + rest;
    assert s[0..0 + |t|] == t && s[0 + |t|..] == rest;
    assert ([t] + texts)[1..] == texts;
    assert SpellsAfter(s, [t] + texts, 0);
  }

  lemma FirstWord(s: string) returns (k: nat)
    requires s != "" && !IsBreak(s[0])
    ensures 0 < k <= |s| && TokenBefore(s[..k], s[k..])
    ensures Texts(s) == [s[..k]] + Texts(s[k..])
  {
    var k1 := WordEnds(s[1..], [s[0]], s[0] == '"');
    k := k1 + 1;
    assert s[..k] == [s[0]] + s[1..][..k1];
    assert s[..k][1..] == s[1..][..k1];
    assert s[1..][k1..] == s[k..];
    assert "" + [s[0]] == [s[0]];
  }

  lemma {:induction false} TextsSpell(s: string)
    ensures Spells(s, Texts(s))
    decreases |s|
  {
    if s == "" {
    } else if IsBlank(s[0]) {
      TextsSpell(s[1..]);
      BlankPrefix(s, Texts(s[1..]));
      assert Texts(s) == Texts(s[1..]);
    } else if IsOpChar(s[0]) {
      TextsSpell(s[1..]);
      TokenSpells([s[0]], s[1..], Texts(s[1..]));
      assert Texts(s) == [[s[0]]] + Texts(s[1..]);
      assert [s[0]] + s[1..] == s;
    } else {
      var k := FirstWord(s);
      TextsSpell(s[k..]);
      TokenSpells(s[..k], s[k..], Texts(s[k..]));
      assert s[..k] + s[k..] == s;
    }
  }

  lemma BlankBefore(s: string, t: string, n: nat)
    requires s != "" && IsBlank(s[0]) && StandsAt(s[1..], t, n)
    ensures StandsAt(s, t, n + 1) && s[1..][n + |t|..] == s[n + 1 + |t|..]
  {
    assert s[..n + 1] == [s[0]] + s[1..][..n];
    assert s[1..][n..n + |t|] == s[n + 1..n + 1 + |t|];
  }

  lemma BlankPrefix(s: string, texts: seq<string>)
    requires s != "" && IsBlank(s[0]) && Spells(s[1..], texts)
    ensures Spells(s, texts)
  {
    if texts != [] {
      var t := texts[0];
      var n: nat :| SpellsAfter(s[1..], texts, n);
      BlankBefore(s, t, n);
      assert SpellsAfter(s, texts, n + 1);
    }
  }

  /** Every string is a layout of exactly one token list, and that is the one the tokenizer finds. */
  lemma TokenizerIsExact(s: string, texts: seq<string>)
    ensures Spells(s, texts) <==> texts == Texts(s)
  {
    TextsSpell(s);
    if Spells(s, texts) {
      SpellsOnlyTexts(s, texts);
    }
  }

  // ----- Tokens -----

  function Toks(texts: seq<string>): (r: seq<Tok>)
    requires forall i | 0 <= i < |texts| :: texts[i] != ""
    ensures |r| == |texts|
    ensures forall i | 0 <= i < |texts| :: r[i] == Tok(CharToOp(texts[i][0]), texts[i], i)
  {
    seq(|texts|, i requires 0 <= i < |texts| => Tok(CharToOp(texts[i][0]), texts[i], i))
  }

  lemma {:induction false} TextsAreNonEmpty(s: string, cur: string, open: bool)
    ensures forall i | 0 <= i < |Split(s, cur, open)| :: Split(s, cur, open)[i] != ""
    decreases |s|
  {
    if s != "" {
      if open {
        TextsAreNonEmpty(s[1..], cur + [s[0]], s[0] != '"');
      } else if IsBreak(s[0]) {
        TextsAreNonEmpty(s[1..], "", false);
      } else {
        TextsAreNonEmpty(s[1..], cur + [s[0]], s[0] == '"');
      }
    }
  }

  function TokensOf(s: string): (toks: seq<Tok>)
    ensures |toks| == |Texts(s)|
  {
    TextsAreNonEmpty(s, "", false);
    Toks(Texts(s))
  }

  ghost predicate Stored(slots: seq<Tok>, texts: seq<string>) {
    && |texts| <= |slots|
    && forall k | 0 <= k < |texts| :: texts[k] != "" && slots[k] == Tok(CharToOp(texts[k][0]), texts[k], k)
  }

  lemma NothingStored(slots: seq<Tok>)
    ensures Stored(slots, [])
  {
  }

  lemma NothingLeft(cur: string)
    ensures Split("", cur, false) == Flush(cur)
  {
  }

  lemma StoredAreTokens(slots: seq<Tok>, s: string)
    requires Stored(slots, Texts(s)) && |slots| == |Texts(s)|
    ensures slots == TokensOf(s)
  {
    hide Texts;
  }

  /** new_tok: stores the token if there is a buffer, and counts it either way. */
  method NewTok(last: array?<Tok>, n: nat, text: string, ghost done: seq<string>) returns (n': nat)
    requires n == |done|
    requires last != null ==> Stored(last[..], done) && |done + Flush(text)| <= last.Length
    modifies last
    ensures n' == |done + Flush(text)|
    ensures last != null ==> Stored(last[..], done + Flush(text))
  {
    n' := n;
    if text != "" {
      if last != null {
        last[n] := Tok(CharToOp(text[0]), text, n);
      }
      n' := n + 1;
    }
  }

  predicate NoQuote(w: string) {
    forall i | 0 <= i < |w| :: w[i] != '"'
  }

  lemma {:induction false} InsideQuote(w: string)
    requires NoQuote(w)
    ensures Unbroken(w, true) && OpenAfter(w, true)
    decreases |w|
  {
    if w != "" {
      InsideQuote(w[1..]);
    }
  }

  /** The scan may jump from a quote to just after its partner, or to the end if there is none. */
  lemma QuotedWord(expr: string, j: nat, i: nat, k: nat)
    requires j <= i < k <= |expr| && expr[i] == '"'
    requires || (i + 1 < k && expr[k - 1] == '"' && NoQuote(expr[i + 1..k - 1]))
             || (k == |expr| && NoQuote(expr[i + 1..k]))
    ensures Split(expr[i..], expr[j..i], false) == Split(expr[k..], expr[j..k], false)
  {
    var rest, cur := expr[k..], expr[j..i];
    if i + 1 < k && expr[k - 1] == '"' && NoQuote(expr[i + 1..k - 1]) {
      var inner := expr[i + 1..k - 1];
      ClosedQuote(inner, rest, cur);
      assert expr[i..] == ['"'] + inner + ['"'] + rest;
      assert cur + ['"'] + inner + ['"'] == expr[j..k];
    } else {
      var inner := expr[i + 1..k];
      OpenQuote(inner, cur);
      assert expr[i..] == ['"'] + inner && rest == "";
      assert cur + ['"'] + inner == expr[j..k];
    }
  }

  lemma OpenQuote(inner: string, cur: string)
    requires NoQuote(inner)
    ensures Split(['"'] + inner, cur, false) == Split("", cur + ['"'] + inner, false)
  {
    assert (['"'] + inner)[1..] == inner && inner + "" == inner;
    InsideQuote(inner);
    SplitWord(inner, "", cur + ['"'], true);
  }

  lemma ClosedQuote(inner: string, rest: string, cur: string)
    requires NoQuote(inner)
    ensures Split(['"'] + inner + ['"'] + rest, cur, false) == Split(rest, cur + ['"'] + inner + ['"'], false)
  {
    assert (['"'] + inner + ['"'] + rest)[1..] == inner + (['"'] + rest);
    InsideQuote(inner);
    SplitWord(inner, ['"'] + rest, cur + ['"'], true);
    assert (['"'] + rest)[1..] == rest;
  }

  lemma BreakSplits(expr: string, j: nat, i: nat)
    requires j <= i < |expr| && IsBreak(expr[i])
    ensures
      Split(expr[i..], expr[j..i], false) ==
      Flush(expr[j..i]) + (if IsOpChar(expr[i]) then [[expr[i]]] else []) + Texts(expr[i + 1..])
  {
    assert expr[i..][0] == expr[i] && expr[i..][1..] == expr[i + 1..];
  }

  lemma PlainSplits(expr: string, j: nat, i: nat)
    requires j <= i < |expr| && !IsBreak(expr[i]) && expr[i] != '"'
    ensures Split(expr[i..], expr[j..i], false) == Split(expr[i + 1..], expr[j..i + 1], false)
  {
    assert expr[i..][0] == expr[i] && expr[i..][1..] == expr[i + 1..];
    assert expr[j..i] + [expr[i]] == expr[j..i + 1];
  }

  /** The inner loop over a quoted stretch; returns the index the outer loop goes on from. */
  method SkipQuote(expr: string, ghost j: nat, i: nat) returns (k: nat)
    requires j <= i < |expr| && expr[i] == '"'
    ensures i < k <= |expr|
    ensures Split(expr[i..], expr[j..i], false) == Split(expr[k..], expr[j..k], false)
  {
    k := i;
    while k + 1 < |expr| && expr[k + 1] != '"'
      invariant i <= k < |expr| && NoQuote(expr[i + 1..k + 1])
    {
      assert expr[i + 1..k + 2] == expr[i + 1..k + 1] + [expr[k + 1]];
      k := k + 1;
    }
    if k + 1 < |expr| {
      k := k + 1;
    }
    k := k + 1;
    QuotedWord(expr, j, i, k);
  }

  /**
   tokenize: with no buffer it counts the tokens, with a buffer it also stores them. `j` is the start of the
   word being read.
   */
  method Tokenize(expr: string, last: array?<Tok>) returns (n: nat)
    requires last != null ==> last.Length == |Texts(expr)|
    modifies last
    ensures n == |Texts(expr)|
    ensures last != null ==> last[..] == TokensOf(expr)
  {
    hide Stored, TokensOf, Split;
    ghost var done: seq<string> := [];
    var i, j := 0, 0;
    n := 0;
    assert expr[0..] == expr && expr[0..0] == "";
    if last != null {
      NothingStored(last[..]);
    }
    while i < |expr|
      invariant 0 <= j <= i <= |expr| && n == |done|
      invariant Texts(expr) == done + Split(expr[i..], expr[j..i], false)
      invariant last != null ==> Stored(last[..], done)
      decreases |expr| - i
    {
      var c := expr[i];
      if IsBreak(c) {
        BreakSplits(expr, j, i);
        n := NewTok(last, n, expr[j..i], done);
        done := done + Flush(expr[j..i]);
        if IsOpChar(c) {
          n := NewTok(last, n, [c], done);
          done := done + [[c]];
        }
        j := i + 1;
        i := i + 1;
        assert expr[j..i] == "";
      } else if c == '"' {
        i := SkipQuote(expr, j, i);
      } else {
        PlainSplits(expr, j, i);
        i := i + 1;
      }
    }
    assert expr[i..] == "";
    NothingLeft(expr[j..i]);
    n := NewTok(last, n, expr[j..i], done);
    if last != null {
      StoredAreTokens(last[..], expr);
    }
  }
}
