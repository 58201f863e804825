/**
 The printing functions of docparse/data_storage.h as they run: loops and recursive calls that append to a
 stream. Each appends exactly the text that Json defines for its node.
 */
module JsonPrint {
  import opened Json

  /** A stream open for writing; only what has been written matters. */
  class Stream {
    var text: string

    constructor ()
      ensures text == ""
    {
      text := "";
    }

    method Put(s: string)
      modifies this
      ensures text == old(text) + s
    {
      text := text + s;
    }

    /** The loop that both data_fprintf and data_fprintf_esc start with. */
    method Pad(padd: nat)
      modifies this
      ensures text == old(text) + Spaces(padd)
    {
      var left := padd;
      while left > 0
        invariant 0 <= left <= padd && text + Spaces(left) == old(text) + Spaces(padd)
      {
        left := left - 1;
        PaddOne(text, left);
        Put(" ");
      }
      assert text + "" == text;
    }

    /** data_fprintf_esc */
    method PutEscaped(padd: nat, str: string)
      modifies this
      ensures text == old(text) + (Spaces(padd) + Quoted(str))
    {
      hide Esc, Spaces, EscChar;
      Pad(padd);
      Put("\"");
      ghost var start := text;
      var i := 0;
      assert str[0..] == str;
      while i < |str|
        invariant i <= |str| && text + Esc(str[i..]) == start + Esc(str)
      {
        EscOne(text, str, i);
        PutChar(str[i]);
        i := i + 1;
      }
      NoMoreChars(text, str[i..]);
      Put("\"");
    }

    method PutChar(c: char)
      modifies this
      ensures text == old(text) + EscChar(c)
    {
      if c == '\\' {
        Put("\\\\");
      } else if c == '"' {
        Put("\\\"");
      } else if c == '\t' {
        Put("        ");
      } else if c >= ' ' {
        Put([c]);
      } else {
        // A warning goes to the standard error stream.
        assert text + "" == text;
      }
    }

    /** data_to_json_ */
    method PutNode(node: Node, padd: nat, doPadd: bool)
      modifies this
      ensures text == old(text) + Text(node, padd, doPadd)
      decreases node
    {
      hide *;
      var lead := if doPadd then padd else 0;
      TextOf(node, padd, doPadd);
      match node {
        case Str(val) =>
          PutEscaped(lead, val);
        case Hash(members) =>
          var i := 0;
          assert members[0..] == members;
          while i < |members|
            invariant i <= |members| && text + Members(members[i..], padd) == old(text) + Members(members, padd)
          {
            ghost var before := text;
            Pad(padd);
            Put("\"" + members[i].id + "\": ");
            PutNode(members[i].node, padd + 1, false);
            Put(if i < |members| - 1 then ",\n" else "\n");
            MembersOne(before, text, members, padd, i);
            i := i + 1;
          }
          NothingLeft(text, padd, members[i..], []);
        case Arr(elems) =>
          Pad(lead);
          Put("[\n");
          ghost var start := text;
          var i := 0;
          assert elems[0..] == elems;
          while i < |elems|
            invariant i <= |elems| && text + Elems(elems[i..], padd + 1) == start + Elems(elems, padd + 1)
          {
            ghost var before := text;
            PutNode(elems[i], padd + 1, true);
            Put(if i < |elems| - 1 then ",\n" else "\n");
            ElemsOne(before, text, elems, padd + 1, i);
            i := i + 1;
          }
          NothingLeft(text, padd + 1, [], elems[i..]);
          Pad(padd);
          Put("]");
          ArrText(old(text), text, elems, padd, doPadd);
      }
    }

    /** data_to_json */
    method PutDocument(node: Node, padd: nat)
      modifies this
      ensures text == old(text) + ToJson(node, padd)
    {
      hide *;
      Put("{\n");
      PutNode(node, padd + 1, true);
      Pad(padd);
      Put("}");
      DocumentText(old(text), text, node, padd);
    }
  }

  lemma PaddOne(text: string, n: nat)
    ensures text + " " + Spaces(n) == text + Spaces(n + 1)
  {
  }

  lemma EscOne(text: string, str: string, i: nat)
    requires i < |str|
    ensures text + EscChar(str[i]) + Esc(str[i + 1..]) == text + Esc(str[i..])
  {
    assert str[i..][1..] == str[i + 1..];
    hide EscChar;
  }

  lemma NoMoreChars(text: string, rest: string)
    requires rest == ""
    ensures text + Esc(rest) == text
  {
  }

  lemma MembersOne(before: string, text: string, members: seq<Member>, padd: nat, i: nat)
    requires i < |members|
    requires
      text == before + Spaces(padd) + ("\"" + members[i].id + "\": ") + Text(members[i].node, padd + 1, false) +
              (if i < |members| - 1 then ",\n" else "\n")
    ensures text + Members(members[i + 1..], padd) == before + Members(members[i..], padd)
  {
    hide Text, Spaces;
    var ms, others := members[i..], Members(members[i + 1..], padd);
    assert ms[1..] == members[i + 1..];
    var head := Spaces(padd) + "\"" + members[i].id + "\": " + Text(members[i].node, padd + 1, false) +
                (if i < |members| - 1 then ",\n" else "\n");
    assert Members(ms, padd) == head + others;
    assert text == before + head;
  }

  lemma ElemsOne(before: string, text: string, elems: seq<Node>, padd: nat, i: nat)
    requires i < |elems|
    requires text == before + Text(elems[i], padd, true) + (if i < |elems| - 1 then ",\n" else "\n")
    ensures text + Elems(elems[i + 1..], padd) == before + Elems(elems[i..], padd)
  {
    hide Text;
    var es, others := elems[i..], Elems(elems[i + 1..], padd);
    assert es[1..] == elems[i + 1..];
    var head := Text(elems[i], padd, true) + (if i < |elems| - 1 then ",\n" else "\n");
    assert Elems(es, padd) == head + others;
    assert text == before + head;
  }

  lemma NothingLeft(text: string, padd: nat, members: seq<Member>, elems: seq<Node>)
    requires members == [] && elems == []
    ensures text + Members(members, padd) == text && text + Elems(elems, padd) == text
  {
  }

  lemma DocumentText(before: string, text: string, node: Node, padd: nat)
    requires text == before + "{\n" + Text(node, padd + 1, true) + Spaces(padd) + "}"
    ensures text == before + ToJson(node, padd)
  {
    hide Spaces, Text;
  }

  lemma TextOf(node: Node, padd: nat, doPadd: bool)
    ensures node.Str? ==> Text(node, padd, doPadd) == Spaces(if doPadd then padd else 0) + Quoted(node.val)
    ensures node.Hash? ==> Text(node, padd, doPadd) == Members(node.members, padd)
  {
    hide Spaces, Quoted, Members;
  }

  lemma ArrText(before: string, text: string, elems: seq<Node>, padd: nat, doPadd: bool)
    requires text == before + Spaces(if doPadd then padd else 0) + "[\n" + Elems(elems, padd + 1) + Spaces(padd) + "]"
    ensures text == before + Text(Arr(elems), padd, doPadd)
  {
    hide Spaces, Elems;
  }
}
