/**
 The JSON printer of docparse/data_storage.h, and a reader written from sections 2, 4, 5 and 7 of RFC 8259 for
 strings, arrays and objects. What is printed reads back as what was stored.
 */
module Json {
  import opened Wrappers

  // ----- The data tree -----

  datatype Node = Str(val: string) | Arr(elems: seq<Node>) | Hash(members: seq<Member>)
  datatype Member = Member(id: string, node: Node)

  function Spaces(n: nat): (s: string)
    ensures |s| == n
  {
    if n == 0 then "" else " " + Spaces(n - 1)
  }

  /** What data_fprintf_esc writes for one character; control characters other than tab are dropped. */
  function EscChar(c: char): string {
    if c == '\\' then "\\\\"
    else if c == '"' then "\\\""
    else if c == '\t' then "        "
    else if c >= ' ' then [c]
    else ""
  }

  function Esc(s: string): string {
    if s == "" then "" else EscChar(s[0]) + Esc(s[1..])
  }

  function Quoted(s: string): string {
    "\"" + Esc(s) + "\""
  }

  /** data_to_json_ */
  function Text(node: Node, padd: nat, doPadd: bool): string
    decreases node, 1
  {
    var lead := if doPadd then padd else 0;
    match node
    case Str(val) => Spaces(lead) + Quoted(val)
    case Arr(elems) => Spaces(lead) + "[\n" + Elems(elems, padd + 1) + Spaces(padd) + "]"
    case Hash(members) => Members(members, padd)
  }

  function Elems(elems: seq<Node>, padd: nat): string
    decreases elems, 0
  {
    if elems == [] then ""
    else Text(elems[0], padd, true) + (if |elems| > 1 then ",\n" else "\n") + Elems(elems[1..], padd)
  }

  function Members(members: seq<Member>, padd: nat): string
    decreases members, 0
  {
    if members == [] then ""
    else
      Spaces(padd) + "\"" + members[0].id + "\": " + Text(members[0].node, padd + 1, false) +
      (if |members| > 1 then ",\n" else "\n") + Members(members[1..], padd)
  }

  /** data_to_json */
  function ToJson(node: Node, padd: nat): string {
    "{\n" + Text(node, padd + 1, true) + Spaces(padd) + "}"
  }

  // ----- The reader -----

  datatype Value = JString(s: string) | JArray(vs: seq<Value>) | JObject(ms: seq<(string, Value)>)

  /** Section 2: insignificant whitespace. */
  predicate IsWs(c: char) {
    c == ' ' || c == '\t' || c == '\n' || c == '\r'
  }

  function SkipWs(s: string): (r: string)
    ensures |r| <= |s|
  {
    if s != "" && IsWs(s[0]) then SkipWs(s[1..]) else s
  }

  /** Section 7: the two-character escapes. */
  function Unescape(c: char): Option<char> {
    match c
    case '"' => Some('"')
    case '\\' => Some('\\')
    case '/' => Some('/')
    case 'b' => Some(8 as char)
    case 'f' => Some(12 as char)
    case 'n' => Some('\n')
    case 'r' => Some('\r')
    case 't' => Some('\t')
    case _ => None
  }

  /** Section 7: the rest of a string after its opening quotation mark. */
  function ReadString(s: string): (r: Option<(string, string)>)
    ensures r.Some? ==> |r.value.1| < |s|
  {
    if s == "" || s[0] < ' ' then None
    else if s[0] == '"' then Some(("", s[1..]))
    else if s[0] == '\\' then
      if |s| < 2 then None
      else
        var c, rest := Unescape(s[1]), ReadString(s[2..]);
        if c.None? || rest.None? then None else Some(([c.value] + rest.value.0, rest.value.1))
    else
      var rest := ReadString(s[1..]);
      if rest.None? then None else Some(([s[0]] + rest.value.0, rest.value.1))
  }

  /** A value after optional whitespace. */
  function ReadValue(s: string): (r: Option<(Value, string)>)
    ensures r.Some? ==> |r.value.1| < |s|
    decreases |s|, 0
  {
    var t := SkipWs(s);
    if t == "" then None
    else if t[0] == '"' then
      var r := ReadString(t[1..]);
      if r.None? then None else Some((JString(r.value.0), r.value.1))
    else if t[0] == '[' then
      var u := SkipWs(t[1..]);
      if u != "" && u[0] == ']' then Some((JArray([]), u[1..]))
      else
        var r := ReadElems(t[1..]);
        if r.None? then None else Some((JArray(r.value.0), r.value.1))
    else if t[0] == '{' then
      var u := SkipWs(t[1..]);
      if u != "" && u[0] == '}' then Some((JObject([]), u[1..]))
      else
        var r := ReadMembers(t[1..]);
        if r.None? then None else Some((JObject(r.value.0), r.value.1))
    else None
  }

  /** Section 5: one or more values separated by commas, and the closing bracket. */
  function ReadElems(s: string): (r: Option<(seq<Value>, string)>)
    ensures r.Some? ==> |r.value.1| < |s|
    decreases |s|, 1
  {
    var v := ReadValue(s);
    if v.None? then None
    else
      var t := SkipWs(v.value.1);
      if t == "" then None
      else if t[0] == ']' then Some(([v.value.0], t[1..]))
      else if t[0] == ',' then
        var r := ReadElems(t[1..]);
        if r.None? then None else Some(([v.value.0] + r.value.0, r.value.1))
      else None
  }

  /** Section 4: one or more members separated by commas, and the closing brace. */
  function ReadMembers(s: string): (r: Option<(seq<(string, Value)>, string)>)
    ensures r.Some? ==> |r.value.1| < |s|
    decreases |s|, 1
  {
    var t := SkipWs(s);
    if t == "" || t[0] != '"' then None
    else
      var k := ReadString(t[1..]);
      if k.None? then None
      else
        var u := SkipWs(k.value.1);
        if u == "" || u[0] != ':' then None
        else
          var v := ReadValue(u[1..]);
          if v.None? then None
          else
            var w := SkipWs(v.value.1);
            if w == "" then None
            else if w[0] == '}' then Some(([(k.value.0, v.value.0)], w[1..]))
            else if w[0] == ',' then
              var r := ReadMembers(w[1..]);
              if r.None? then None else Some(([(k.value.0, v.value.0)] + r.value.0, r.value.1))
            else None
  }

  /** Section 2: a JSON text is one value with whitespace around it. */
  function ReadJson(s: string): Option<Value> {
    var r := ReadValue(s);
    if r.Some? && SkipWs(r.value.1) == "" then Some(r.value.0) else None
  }

  // ----- What is kept of the data -----

  function CleanChar(c: char): string {
    if c == '\t' then "        " else if c >= ' ' then [c] else ""
  }

  /** Tabs become eight spaces, other control characters go. */
  function Clean(s: string): string {
    if s == "" then "" else CleanChar(s[0]) + Clean(s[1..])
  }

  /** What a reader should find: strings cleaned, arrays in order, hashes as objects with their identifiers unchanged. */
  function ValueOf(node: Node): Value
    decreases node, 1
  {
    match node
    case Str(val) => JString(Clean(val))
    case Arr(elems) => JArray(ValuesOf(elems))
    case Hash(members) => JObject(Pairs(members))
  }

  function ValuesOf(elems: seq<Node>): (vs: seq<Value>)
    ensures |vs| == |elems|
    decreases elems, 0
  {
    if elems == [] then [] else [ValueOf(elems[0])] + ValuesOf(elems[1..])
  }

  function Pairs(members: seq<Member>): seq<(string, Value)>
    decreases members, 0
  {
    if members == [] then [] else [(members[0].id, ValueOf(members[0].node))] + Pairs(members[1..])
  }

  /** Only arrays and strings. */
  predicate Flat(node: Node) {
    match node
    case Str(_) => true
    case Arr(elems) => forall e | e in elems :: Flat(e)
    case Hash(_) => false
  }

  /** Identifiers are written as they are: they must hold nothing that JSON would read differently. */
  predicate PlainId(id: string) {
    forall i | 0 <= i < |id| :: id[i] >= ' ' && id[i] != '"' && id[i] != '\\'
  }

  // ----- Strings read back -----

  lemma {:induction false} SkipSpaces(n: nat, rest: string)
    ensures SkipWs(Spaces(n) + rest) == SkipWs(rest)
  {
    if n == 0 {
      assert Spaces(n) + rest == rest;
    } else {
      assert (Spaces(n) + rest)[1..] == Spaces(n - 1) + rest;
      SkipSpaces(n - 1, rest);
    }
  }

  lemma {:induction false} ReadPlain(plain: string, rest: string)
    requires PlainId(plain) && ReadString(rest).Some?
    ensures ReadString(plain + rest) == Some((plain + ReadString(rest).value.0, ReadString(rest).value.1))
    decreases |plain|
  {
    if plain == "" {
      assert plain + rest == rest;
      assert plain + ReadString(rest).value.0 == ReadString(rest).value.0;
    } else {
      assert (plain + rest)[1..] == plain[1..] + rest;
      ReadPlain(plain[1..], rest);
      var x := ReadString(rest).value.0;
      assert [plain[0]] + (plain[1..] + x) == plain + x;
    }
  }

  lemma ReadEscChar(c: char, rest: string)
    requires ReadString(rest).Some?
    ensures ReadString(EscChar(c) + rest) == Some((CleanChar(c) + ReadString(rest).value.0, ReadString(rest).value.1))
  {
    if c == '\\' || c == '"' {
      assert (EscChar(c) + rest)[2..] == rest;
    } else {
      ReadPlain(EscChar(c), rest);
    }
  }

  lemma ReadEmpty(rest: string)
    ensures ReadString(Esc("") + "\"" + rest) == Some((Clean(""), rest))
  {
    assert (Esc("") + "\"" + rest)[1..] == rest;
  }

  lemma {:induction false} ReadEsc(s: string, rest: string)
    ensures ReadString(Esc(s) + "\"" + rest) == Some((Clean(s), rest))
    decreases |s|
  {
    if s == "" {
      ReadEmpty(rest);
    } else {
      hide ReadString, EscChar, CleanChar;
      ReadEsc(s[1..], rest);
      ReadEscChar(s[0], Esc(s[1..]) + "\"" + rest);
      assert Esc(s) + "\"" + rest == EscChar(s[0]) + (Esc(s[1..]) + "\"" + rest);
    }
  }

  // ----- Trees read back -----

  lemma SkipsAlike(s: string, t: string)
    requires SkipWs(s) == SkipWs(t)
    ensures ReadValue(s) == ReadValue(t) && ReadElems(s) == ReadElems(t) && ReadMembers(s) == ReadMembers(t)
  {
  }

  lemma SkipLead(n: nat, c: char, rest: string)
    requires !IsWs(c)
    ensures SkipWs(Spaces(n) + [c] + rest) == [c] + rest
    ensures SkipWs("\n" + (Spaces(n) + [c] + rest)) == [c] + rest
  {
    SkipSpaces(n, [c] + rest);
    assert Spaces(n) + [c] + rest == Spaces(n) + ([c] + rest);
    assert ("\n" + (Spaces(n) + [c] + rest))[1..] == Spaces(n) + [c] + rest;
  }

  lemma SkipNewline(s: string)
    ensures SkipWs("\n" + s) == SkipWs(s)
  {
    assert ("\n" + s)[1..] == s;
  }

  lemma ReadStr(val: string, lead: nat, rest: string)
    ensures ReadValue(Spaces(lead) + Quoted(val) + rest) == Some((JString(Clean(val)), rest))
  {
    var inner := Esc(val) + "\"" + rest;
    assert Spaces(lead) + Quoted(val) + rest == Spaces(lead) + ['"'] + inner;
    SkipLead(lead, '"', inner);
    assert (['"'] + inner)[1..] == inner;
    ReadEsc(val, rest);
  }

  /** What ReadElems makes of a value and what follows it. */
  lemma ReadElemsStep(s: string, v: Value, after: string)
    requires ReadValue(s) == Some((v, after))
    ensures
      var t := SkipWs(after);
      && (t != "" && t[0] == ']' ==> ReadElems(s) == Some(([v], t[1..])))
      && (t != "" && t[0] == ',' ==>
            var r := ReadElems(t[1..]);
            ReadElems(s) == if r.None? then None else Some(([v] + r.value.0, r.value.1)))
  {
    hide ReadValue, SkipWs;
  }

  lemma NoBracketAhead(s: string)
    requires ReadElems(s).Some?
    ensures SkipWs(s) != "" && SkipWs(s)[0] != ']'
  {
  }

  /** ReadValue on an opening bracket. */
  lemma ReadArray(s: string, inner: string)
    requires SkipWs(s) == "[" + inner
    ensures ReadElems(inner).Some? ==> ReadValue(s) == Some((JArray(ReadElems(inner).value.0), ReadElems(inner).value.1))
    ensures SkipWs(inner) != "" && SkipWs(inner)[0] == ']' ==> ReadValue(s) == Some((JArray([]), SkipWs(inner)[1..]))
  {
    assert ("[" + inner)[1..] == inner;
    if ReadElems(inner).Some? {
      NoBracketAhead(inner);
    }
  }

  lemma ElemsShape(elems: seq<Node>, padd: nat, tail: string)
    requires elems != []
    ensures
      Elems(elems, padd) + tail ==
      Text(elems[0], padd, true) + ((if |elems| > 1 then ",\n" else "\n") + (Elems(elems[1..], padd) + tail))
  {
    hide Text;
  }

  lemma ArrShape(elems: seq<Node>, padd: nat, doPadd: bool, rest: string)
    ensures
      Text(Arr(elems), padd, doPadd) + rest ==
      Spaces(if doPadd then padd else 0) + ['['] + ("\n" + (Elems(elems, padd + 1) + (Spaces(padd) + "]" + rest)))
  {
    hide Elems, Spaces;
  }

  lemma LastElem(head: string, v: Value, close: nat, rest: string)
    requires ReadValue(head + ("\n" + ("" + (Spaces(close) + "]" + rest)))) ==
             Some((v, "\n" + ("" + (Spaces(close) + "]" + rest))))
    ensures ReadElems(head + ("\n" + ("" + (Spaces(close) + "]" + rest)))) == Some(([v], rest))
  {
    var after := "\n" + ("" + (Spaces(close) + "]" + rest));
    ReadElemsStep(head + after, v, after);
    SkipLead(close, ']', rest);
    assert "" + (Spaces(close) + "]" + rest) == Spaces(close) + [']'] + rest;
    assert ([']'] + rest)[1..] == rest;
  }

  lemma AfterElem(more: string)
    ensures SkipWs(",\n" + more) == ",\n" + more && ReadElems((",\n" + more)[1..]) == ReadElems(more)
  {
    assert (",\n" + more)[1..] == "\n" + more;
    SkipNewline(more);
    SkipsAlike("\n" + more, more);
  }

  lemma MoreElems(s: string, v: Value, more: string)
    requires ReadValue(s) == Some((v, ",\n" + more))
    ensures
      var r := ReadElems(more);
      ReadElems(s) == if r.None? then None else Some(([v] + r.value.0, r.value.1))
  {
    ReadElemsStep(s, v, ",\n" + more);
    AfterElem(more);
    hide *;
  }

  lemma {:induction false} ReadElemsText(elems: seq<Node>, padd: nat, close: nat, rest: string)
    requires elems != [] && forall e | e in elems :: Flat(e)
    ensures ReadElems(Elems(elems, padd) + (Spaces(close) + "]" + rest)) == Some((ValuesOf(elems), rest))
    decreases elems, 0
  {
    hide ReadValue, ReadElems, SkipWs, Spaces, Text, ValueOf;
    var tail := Spaces(close) + "]" + rest;
    var more := Elems(elems[1..], padd) + tail;
    ElemsShape(elems, padd, tail);
    if |elems| == 1 {
      assert elems[1..] == [] && Elems(elems[1..], padd) == "";
      ReadText(elems[0], padd, true, "\n" + more);
      LastElem(Text(elems[0], padd, true), ValueOf(elems[0]), close, rest);
      assert ValuesOf(elems) == [ValueOf(elems[0])];
    } else {
      ReadText(elems[0], padd, true, ",\n" + more);
      ReadElemsText(elems[1..], padd, close, rest);
      MoreElems(Elems(elems, padd) + tail, ValueOf(elems[0]), more);
    }
  }

  /** An array or a string as printed, whatever follows it, reads back as its value. */
  lemma {:induction false} ReadText(node: Node, padd: nat, doPadd: bool, rest: string)
    requires Flat(node)
    ensures ReadValue(Text(node, padd, doPadd) + rest) == Some((ValueOf(node), rest))
    decreases node, 1
  {
    match node
    case Str(val) => ReadStr(val, if doPadd then padd else 0, rest);
    case Arr(elems) => ReadArr(elems, padd, doPadd, rest);
  }

  lemma {:induction false} ReadArr(elems: seq<Node>, padd: nat, doPadd: bool, rest: string)
    requires forall e | e in elems :: Flat(e)
    ensures ReadValue(Text(Arr(elems), padd, doPadd) + rest) == Some((JArray(ValuesOf(elems)), rest))
    decreases elems, 1
  {
    hide ReadValue, ReadElems, SkipWs, Spaces, Text, Elems, Flat;
    var body := Elems(elems, padd + 1) + (Spaces(padd) + "]" + rest);
    ArrOpens(elems, padd, doPadd, rest);
    ReadArray(Text(Arr(elems), padd, doPadd) + rest, "\n" + body);
    if elems == [] {
      EmptyBody(padd, rest);
    } else {
      ReadElemsText(elems, padd + 1, padd, rest);
    }
  }

  lemma ArrOpens(elems: seq<Node>, padd: nat, doPadd: bool, rest: string)
    ensures
      var body := Elems(elems, padd + 1) + (Spaces(padd) + "]" + rest);
      && SkipWs(Text(Arr(elems), padd, doPadd) + rest) == "[" + ("\n" + body)
      && ReadElems("\n" + body) == ReadElems(body) && SkipWs("\n" + body) == SkipWs(body)
  {
    hide ReadElems, SkipWs, Spaces, Text, Elems;
    var body := Elems(elems, padd + 1) + (Spaces(padd) + "]" + rest);
    ArrShape(elems, padd, doPadd, rest);
    SkipLead(if doPadd then padd else 0, '[', "\n" + body);
    SkipNewline(body);
    SkipsAlike("\n" + body, body);
  }

  lemma EmptyBody(padd: nat, rest: string)
    ensures
      var body := Elems([], padd + 1) + (Spaces(padd) + "]" + rest);
      SkipWs(body) == "]" + rest && ("]" + rest)[1..] == rest
  {
    SkipLead(padd, ']', rest);
    assert Elems([], padd + 1) + (Spaces(padd) + "]" + rest) == Spaces(padd) + [']'] + rest;
  }

  // ----- A nested hash never reads back: it is printed without braces -----

  /** After whitespace comes something no value starts with. */
  predicate Ends(rest: string) {
    var t := SkipWs(rest);
    t != "" && (t[0] == ',' || t[0] == ']' || t[0] == '}')
  }

  lemma HashReadsNoObject(members: seq<Member>, padd: nat, rest: string)
    requires Ends(rest)
    ensures
      var r := ReadValue(Members(members, padd) + rest);
      r.Some? ==> !r.value.0.JObject?
  {
    if members == [] {
      assert Members(members, padd) + rest == rest;
    } else {
      MembersShape(members, padd, rest);
      var more := (if |members| > 1 then ",\n" else "\n") + (Members(members[1..], padd) + rest);
      SkipLead(padd, '"', MemberRest(members[0], padd, more));
    }
  }

  lemma FirstElem(s: string)
    requires ReadElems(s).Some?
    ensures ReadValue(s).Some? && ReadElems(s).value.0 != []
    ensures ReadElems(s).value.0[0] == ReadValue(s).value.0
  {
    hide ReadValue, SkipWs;
  }

  lemma ReadsArray(s: string, inner: string)
    requires SkipWs(s) == "[" + inner && ReadValue(s).Some? && ReadValue(s).value.0 != JArray([])
    ensures ReadElems(inner).Some? && ReadValue(s).value.0 == JArray(ReadElems(inner).value.0)
  {
    assert ("[" + inner)[1..] == inner;
  }

  lemma EndsAfter(n: nat, c: char, rest: string, more: string)
    requires c == ']' || c == '}'
    ensures Ends(",\n" + more) && Ends("\n" + ("" + (Spaces(n) + [c] + rest)))
  {
    SkipLead(n, c, rest);
    assert "" + (Spaces(n) + [c] + rest) == Spaces(n) + [c] + rest;
  }

  lemma {:induction false} OnlyFlatElems(elems: seq<Node>, padd: nat, close: nat, rest: string)
    requires elems != []
    requires
      var r := ReadElems(Elems(elems, padd) + (Spaces(close) + "]" + rest));
      r.Some? && r.value.0 == ValuesOf(elems)
    ensures forall e | e in elems :: Flat(e)
    decreases elems, 0
  {
    hide ReadValue, ReadElems, SkipWs, Spaces, Text, ValueOf, Flat, Ends;
    var tail := Spaces(close) + "]" + rest;
    var more := Elems(elems[1..], padd) + tail;
    ElemsShape(elems, padd, tail);
    FirstElem(Elems(elems, padd) + tail);
    EndsAfter(close, ']', rest, more);
    if |elems| == 1 {
      assert elems[1..] == [] && Elems(elems[1..], padd) == "";
      OnlyFlat(elems[0], padd, true, "\n" + more);
    } else {
      OnlyFlat(elems[0], padd, true, ",\n" + more);
      ReadText(elems[0], padd, true, ",\n" + more);
      MoreElems(Elems(elems, padd) + tail, ValueOf(elems[0]), more);
      assert ([ValueOf(elems[0])] + ReadElems(more).value.0)[1..] == ReadElems(more).value.0;
      assert ValuesOf(elems)[1..] == ValuesOf(elems[1..]);
      OnlyFlatElems(elems[1..], padd, close, rest);
    }
  }

  /** Only strings and arrays without hashes inside read back as their value. */
  lemma {:induction false} OnlyFlat(node: Node, padd: nat, doPadd: bool, rest: string)
    requires Ends(rest)
    requires
      var r := ReadValue(Text(node, padd, doPadd) + rest);
      r.Some? && r.value.0 == ValueOf(node)
    ensures Flat(node)
    decreases node, 1
  {
    match node
    case Str(_) =>
    case Hash(members) => HashReadsNoObject(members, padd, rest);
    case Arr(elems) =>
      hide ReadValue, ReadElems, SkipWs, Spaces, Text, Ends, Elems;
      var body := Elems(elems, padd + 1) + (Spaces(padd) + "]" + rest);
      ArrOpens(elems, padd, doPadd, rest);
      if elems != [] {
        ReadsArray(Text(node, padd, doPadd) + rest, "\n" + body);
        OnlyFlatElems(elems, padd + 1, padd, rest);
      }
  }

  // ----- Whole documents -----

  predicate Printable(members: seq<Member>) {
    members == [] || (PlainId(members[0].id) && Flat(members[0].node) && Printable(members[1..]))
  }

  /** A member after its leading spaces and opening quotation mark. */
  function MemberRest(m: Member, padd: nat, more: string): string {
    m.id + ("\"" + (": " + (Text(m.node, padd + 1, false) + more)))
  }

  lemma Regroup(lead: string, id: string, text: string, sep: string, others: string, tail: string)
    ensures
      lead + "\"" + id + "\": " + text + sep + others + tail ==
      lead + ['"'] + (id + ("\"" + (": " + (text + (sep + (others + tail))))))
  {
    var rest := sep + (others + tail);
    assert lead + "\"" + id + "\": " + text + sep + others + tail == lead + "\"" + id + "\": " + text + rest;
    assert lead + "\"" + id + "\": " + text + rest == lead + "\"" + id + "\": " + (text + rest);
    assert lead + "\"" + id + "\": " + (text + rest) == lead + "\"" + (id + ("\": " + (text + rest)));
    assert "\": " + (text + rest) == "\"" + (": " + (text + rest));
  }

  lemma MembersShape(members: seq<Member>, padd: nat, tail: string)
    requires members != []
    ensures
      var more := (if |members| > 1 then ",\n" else "\n") + (Members(members[1..], padd) + tail);
      Members(members, padd) + tail == Spaces(padd) + ['"'] + MemberRest(members[0], padd, more)
  {
    Regroup(Spaces(padd), members[0].id, Text(members[0].node, padd + 1, false), if |members| > 1 then ",\n" else "\n",
            Members(members[1..], padd), tail);
    hide Text, Spaces;
  }

  lemma ColonAhead(x: string)
    ensures SkipWs(": " + x) == ": " + x && ReadValue((": " + x)[1..]) == ReadValue(x)
  {
    assert (": " + x)[1..] == " " + x;
    assert (" " + x)[1..] == x;
    SkipsAlike(" " + x, x);
  }

  /** What ReadMembers makes of a key, a value and what follows. */
  lemma ReadMembersStep(s: string, k: string, key: string, x: string, v: Value, after: string)
    requires SkipWs(s) == "\"" + k && ReadString(k) == Some((key, ": " + x)) && ReadValue(x) == Some((v, after))
    ensures
      var t := SkipWs(after);
      && (t != "" && t[0] == '}' ==> ReadMembers(s) == Some(([(key, v)], t[1..])))
      && (t != "" && t[0] == ',' ==>
            var r := ReadMembers(t[1..]);
            ReadMembers(s) == if r.None? then None else Some(([(key, v)] + r.value.0, r.value.1)))
  {
    assert ("\"" + k)[1..] == k;
    ColonAhead(x);
    hide ReadString, ReadValue, SkipWs;
  }

  lemma FirstKey(s: string, k: string)
    requires SkipWs(s) == "\"" + k && ReadMembers(s).Some?
    ensures ReadString(k).Some? && ReadMembers(s).value.0 != []
    ensures ReadMembers(s).value.0[0].0 == ReadString(k).value.0
    ensures
      var u := SkipWs(ReadString(k).value.1);
      && u != "" && ReadValue(u[1..]).Some?
      && ReadMembers(s).value.0[0].1 == ReadValue(u[1..]).value.0
  {
    assert ("\"" + k)[1..] == k;
    hide ReadString, ReadValue, SkipWs;
  }

  /** The first member read, when its identifier is plain. */
  lemma ReadMember(s: string, m: Member, padd: nat, more: string)
    requires PlainId(m.id) && Flat(m.node) && SkipWs(s) == "\"" + MemberRest(m, padd, more)
    ensures
      var t := SkipWs(more);
      var kv := (m.id, ValueOf(m.node));
      && (t != "" && t[0] == '}' ==> ReadMembers(s) == Some(([kv], t[1..])))
      && (t != "" && t[0] == ',' ==>
            var r := ReadMembers(t[1..]);
            ReadMembers(s) == if r.None? then None else Some(([kv] + r.value.0, r.value.1)))
  {
    var x := Text(m.node, padd + 1, false) + more;
    ReadQuoted(m.id, ": " + x);
    ReadText(m.node, padd + 1, false, more);
    ReadMembersStep(s, MemberRest(m, padd, more), m.id, x, ValueOf(m.node), more);
    hide *;
  }

  lemma ReadQuoted(id: string, rest: string)
    requires PlainId(id)
    ensures ReadString(id + ("\"" + rest)) == Some((id, rest))
  {
    assert ("\"" + rest)[1..] == rest;
    ReadPlain(id, "\"" + rest);
    assert id + "" == id;
  }

  lemma AfterMember(more: string)
    ensures SkipWs(",\n" + more) == ",\n" + more && ReadMembers((",\n" + more)[1..]) == ReadMembers(more)
  {
    assert (",\n" + more)[1..] == "\n" + more;
    SkipNewline(more);
    SkipsAlike("\n" + more, more);
  }

  function Close(n: nat, rest: string): string {
    Spaces(n) + ['}'] + rest
  }

  lemma AfterLast(n: nat, rest: string)
    ensures SkipWs("\n" + ("" + Close(n, rest))) == ['}'] + rest && (['}'] + rest)[1..] == rest
  {
    SkipLead(n, '}', rest);
    assert "" + Close(n, rest) == Spaces(n) + ['}'] + rest;
  }

  lemma {:induction false} ReadMembersText(members: seq<Member>, padd: nat, n: nat, rest: string)
    requires members != [] && Printable(members)
    ensures ReadMembers(Members(members, padd) + Close(n, rest)) == Some((Pairs(members), rest))
    decreases |members|
  {
    hide ReadMembers, SkipWs, Text, Spaces, Close, ValueOf, Flat, PlainId;
    var tail := Close(n, rest);
    var s, more := Members(members, padd) + tail, Members(members[1..], padd) + tail;
    MembersShape(members, padd, tail);
    if |members| == 1 {
      SkipLead(padd, '"', MemberRest(members[0], padd, "\n" + more));
      assert members[1..] == [] && Members(members[1..], padd) == "";
      ReadMember(s, members[0], padd, "\n" + more);
      AfterLast(n, rest);
      assert Pairs(members) == [(members[0].id, ValueOf(members[0].node))];
    } else {
      SkipLead(padd, '"', MemberRest(members[0], padd, ",\n" + more));
      ReadMember(s, members[0], padd, ",\n" + more);
      AfterMember(more);
      ReadMembersText(members[1..], padd, n, rest);
    }
  }

  // ----- Only plain identifiers read back -----

  lemma BackslashOnly(c: char)
    requires Unescape(c) == Some('\\')
    ensures c == '\\'
  {
  }

  /**
   An identifier that starts with a backslash never reads back as itself: after j pairs, the reader would have
   to find the j-th character again, which is a backslash too.
   */
  lemma {:induction false} BackslashesDiffer(w: string, j: nat, rest: string)
    requires w != "" && 2 * j <= |w| && forall i | 0 <= i < 2 * j || i == 0 :: w[i] == '\\'
    ensures
      var r := ReadString(w[2 * j..] + ("\"" + rest));
      !(r.Some? && r.value.0 == w[j..])
    decreases |w| - 2 * j
  {
    var s := w[2 * j..] + ("\"" + rest);
    var r := ReadString(s);
    if r.Some? && r.value.0 == w[j..] {
      assert w[j..][0] == w[j] == '\\';
      if 2 * j < |w| && w[2 * j] == '\\' {
        assert s[0] == '\\';
        BackslashOnly(s[1]);
        assert 2 * j + 1 < |w| && w[2 * j + 1] == s[1];
        assert s[2..] == w[2 * (j + 1)..] + ("\"" + rest);
        assert w[j..][1..] == w[j + 1..];
        BackslashesDiffer(w, j + 1, rest);
      }
    }
  }

  lemma {:induction false} KeyIsId(id: string, rest: string)
    requires
      var r := ReadString(id + ("\"" + rest));
      r.Some? && r.value.0 == id
    ensures PlainId(id)
    decreases |id|
  {
    if id != "" {
      var s := id + ("\"" + rest);
      if id[0] == '\\' {
        assert id[0..] == id;
        BackslashesDiffer(id, 0, rest);
      } else {
        assert s[1..] == id[1..] + ("\"" + rest);
        KeyIsId(id[1..], rest);
      }
    }
  }

  /** The first member, when the members read back as they should. */
  lemma OnlyPrintable(s: string, m: Member, padd: nat, more: string)
    requires SkipWs(s) == "\"" + MemberRest(m, padd, more) && Ends(more)
    requires
      var r := ReadMembers(s);
      r.Some? && r.value.0 != [] && r.value.0[0] == (m.id, ValueOf(m.node))
    ensures PlainId(m.id) && Flat(m.node)
  {
    hide ReadMembers, ReadValue, SkipWs, ValueOf, Flat, PlainId, ReadString, Text, Ends;
    var x := Text(m.node, padd + 1, false) + more;
    FirstKey(s, MemberRest(m, padd, more));
    KeyIsId(m.id, ": " + x);
    ReadQuoted(m.id, ": " + x);
    ColonAhead(x);
    OnlyFlat(m.node, padd + 1, false, more);
  }

  lemma {:induction false} OnlyPrintableRead(members: seq<Member>, padd: nat, n: nat, rest: string)
    requires members != []
    requires
      var r := ReadMembers(Members(members, padd) + Close(n, rest));
      r.Some? && r.value.0 == Pairs(members)
    ensures Printable(members)
    decreases |members|
  {
    hide ReadMembers, SkipWs, Text, Spaces, ValueOf, Flat, PlainId, ReadString, Ends, MemberRest;
    var tail := Close(n, rest);
    var s, more := Members(members, padd) + tail, Members(members[1..], padd) + tail;
    var m := members[0];
    MembersShape(members, padd, tail);
    EndsAfter(n, '}', rest, more);
    if |members| == 1 {
      assert members[1..] == [] && Members(members[1..], padd) == "";
      SkipLead(padd, '"', MemberRest(m, padd, "\n" + more));
      OnlyPrintable(s, m, padd, "\n" + more);
    } else {
      SkipLead(padd, '"', MemberRest(m, padd, ",\n" + more));
      OnlyPrintable(s, m, padd, ",\n" + more);
      ReadMember(s, m, padd, ",\n" + more);
      AfterMember(more);
      var r := ReadMembers(more);
      assert ([(m.id, ValueOf(m.node))] + r.value.0)[1..] == r.value.0;
      assert Pairs(members)[1..] == Pairs(members[1..]);
      OnlyPrintableRead(members[1..], padd, n, rest);
    }
  }

  lemma ReadObject(s: string, inner: string)
    requires s == "{" + inner
    ensures
      SkipWs(inner) != "" && SkipWs(inner)[0] == '}' ==> ReadValue(s) == Some((JObject([]), SkipWs(inner)[1..]))
    ensures
      !(SkipWs(inner) != "" && SkipWs(inner)[0] == '}') ==>
        var r := ReadMembers(inner);
        ReadValue(s) == if r.None? then None else Some((JObject(r.value.0), r.value.1))
  {
    assert s[1..] == inner;
  }

  lemma ReadNoMembers(n: nat)
    ensures ReadJson("{" + ("\n" + ("" + Close(n, "")))) == Some(JObject([]))
  {
    AfterLast(n, "");
    ReadObject("{" + ("\n" + ("" + Close(n, ""))), "\n" + ("" + Close(n, "")));
  }

  /** A printed document, read from its first member on. */
  lemma ReadTop(members: seq<Member>, padd: nat)
    ensures
      var r := ReadMembers(Members(members, padd + 1) + Close(padd, ""));
      ReadJson(ToJson(Hash(members), padd)) ==
      if members == [] then Some(JObject([]))
      else if r.None? || SkipWs(r.value.1) != "" then None
      else Some(JObject(r.value.0))
  {
    hide ReadMembers, ReadValue, SkipWs, Spaces, Members;
    var inner := Members(members, padd + 1) + Close(padd, "");
    assert ToJson(Hash(members), padd) == "{" + ("\n" + inner);
    if members == [] {
      assert Members(members, padd + 1) == "" by { NoMembers(padd + 1); }
      ReadNoMembers(padd);
    } else {
      ReadObject("{" + ("\n" + inner), "\n" + inner);
      SkipNewline(inner);
      SkipsAlike("\n" + inner, inner);
      FirstIsKey(members, padd + 1, Close(padd, ""));
    }
  }

  lemma NoMembers(padd: nat)
    ensures Members([], padd) == ""
  {
  }

  lemma FirstIsKey(members: seq<Member>, padd: nat, tail: string)
    requires members != []
    ensures
      var t := SkipWs(Members(members, padd) + tail);
      t != "" && t[0] == '"'
  {
    hide Text, Members, MemberRest;
    MembersShape(members, padd, tail);
    var more := (if |members| > 1 then ",\n" else "\n") + (Members(members[1..], padd) + tail);
    SkipLead(padd, '"', MemberRest(members[0], padd, more));
  }

  /**
   Round trip. A printed top-level hash reads back as the tree it was printed from, members and elements in
   order and strings equal up to tabs and control characters, if and only if its identifiers hold no quotation
   mark, backslash or control character and no hash lies below the top.
   */
  lemma RoundTrip(members: seq<Member>, padd: nat)
    ensures ReadJson(ToJson(Hash(members), padd)) == Some(ValueOf(Hash(members))) <==> Printable(members)
  {
    hide ReadMembers, ReadJson, ToJson, Members, Close, Flat, PlainId;
    ReadTop(members, padd);
    if members != [] {
      if Printable(members) {
        ReadMembersText(members, padd + 1, padd, "");
      }
      if ReadJson(ToJson(Hash(members), padd)) == Some(ValueOf(Hash(members))) {
        OnlyPrintableRead(members, padd + 1, padd, "");
      }
    }
  }

  /** A nested hash that does not read back, even an empty one. */
  lemma NestedHashIsLost(padd: nat)
    ensures
      var members := [Member("a", Hash([]))];
      ReadJson(ToJson(Hash(members), padd)) != Some(ValueOf(Hash(members)))
  {
    var members := [Member("a", Hash([]))];
    assert !Flat(members[0].node);
    RoundTrip(members, padd);
  }

  /** An identifier with a quotation mark that does not read back. */
  lemma QuotedIdIsLost(padd: nat)
    ensures
      var members := [Member("a\"b", Str("x"))];
      ReadJson(ToJson(Hash(members), padd)) != Some(ValueOf(Hash(members)))
  {
    var members := [Member("a\"b", Str("x"))];
    assert members[0].id[1] == '"';
    RoundTrip(members, padd);
  }
}
