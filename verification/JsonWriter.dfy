/** The writer: appends the text of a value to its output. */
module JsonWriting {
  import opened Bytes
  import opened Seqs
  import opened Json

  /** The first texts of a row with the commas between them. */
  function Listed(texts: seq<Bytes>): Bytes {
    if texts == [] then []
    else if |texts| == 1 then texts[0]
    else Listed(texts[..|texts| - 1]) + ([COMMA] + texts[|texts| - 1])
  }

  lemma {:induction false} ListedFront(texts: seq<Bytes>)
    requires |texts| > 1
    ensures Listed(texts) == texts[0] + ([COMMA] + Listed(texts[1..]))
  {
    var n := |texts| - 1;
    assert texts[1..][..n - 1] == texts[..n][1..];
    if n == 1 {
      assert texts[1..][0] == texts[1];
    } else {
      ListedFront(texts[..n]);
      var middle := Listed(texts[..n][1..]);
      assert texts[0] + ([COMMA] + middle) + ([COMMA] + texts[n]) ==
             texts[0] + ([COMMA] + (middle + ([COMMA] + texts[n])));
    }
  }

  lemma {:induction false} BodyIsListed(texts: seq<Bytes>, close: Byte)
    ensures BodyText(texts, close) == Listed(texts) + [close]
  {
    if |texts| > 1 {
      ListedFront(texts);
      BodyIsListed(texts[1..], close);
      ConcatAssociates([COMMA], Listed(texts[1..]), [close]);
      ConcatAssociates(texts[0], [COMMA] + Listed(texts[1..]), [close]);
    }
  }

  lemma ListedNext(texts: seq<Bytes>, i: nat)
    requires i < |texts|
    ensures Listed(texts[..i + 1]) == Listed(texts[..i]) + ((if i == 0 then [] else [COMMA]) + texts[i])
  {
    assert texts[..i + 1][..i] == texts[..i];
    if i == 0 {
      assert [] + ([] + texts[i]) == texts[i];
    }
  }

  class Writer {
    var out: Bytes

    constructor ()
      ensures out == []
    {
      out := [];
    }

    method AppendEscaped(s: Bytes)
      modifies this
      ensures out == old(out) + Quoted(s)
    {
      out := out + [QUOTE];
      ghost var start := out;
      var i := 0;
      while i < |s|
        invariant 0 <= i <= |s|
        invariant out == start + FlatMap(EscapeByte, s[..i])
      {
        FlatMapPrefix(EscapeByte, s, i);
        ConcatAssociates(start, FlatMap(EscapeByte, s[..i]), EscapeByte(s[i]));
        out := out + EscapeByte(s[i]);
        i := i + 1;
      }
      assert s[..i] == s;
      out := out + [QUOTE];
      QuotedParts(old(out), s);
    }

    method DumpTo(v: Value)
      requires Printable(v)
      modifies this
      ensures out == old(out) + Dump(v)
      decreases v, 1
    {
      match v
      case Null => out := out + NULL_WORD;
      case Bool(b) => out := out + if b then TRUE_WORD else FALSE_WORD;
      case Number(n) => out := out + Integer(n);
      case Literal(text) => out := out + text;
      case String(s) => AppendEscaped(s);
      case Array(items) =>
        out := out + [OPEN_BRACKET];
        DumpItemsTo(items);
        out := out + [CLOSE_BRACKET];
        BodyIsListed(DumpItems(items), CLOSE_BRACKET);
        RowParts(old(out), OPEN_BRACKET, Listed(DumpItems(items)), CLOSE_BRACKET);
      case Object(members) =>
        out := out + [OPEN_BRACE];
        DumpMembersTo(members);
        out := out + [CLOSE_BRACE];
        BodyIsListed(DumpMembers(members), CLOSE_BRACE);
        RowParts(old(out), OPEN_BRACE, Listed(DumpMembers(members)), CLOSE_BRACE);
    }

    method DumpItemsTo(items: seq<Value>)
      requires PrintableItems(items)
      modifies this
      ensures out == old(out) + Listed(DumpItems(items))
      decreases items, 0
    {
      ghost var texts := DumpItems(items);
      var first := true;
      for i := 0 to |items|
        invariant first == (i == 0)
        invariant out == old(out) + Listed(texts[..i])
      {
        if !first {
          out := out + [COMMA];
        }
        first := false;
        DumpTo(items[i]);
        ListedNext(texts, i);
        NextParts(old(out), Listed(texts[..i]), if i == 0 then [] else [COMMA], texts[i]);
      }
      assert texts[..|items|] == texts;
    }

    method DumpMemberTo(m: Member)
      requires Printable(m.value)
      modifies this
      ensures out == old(out) + MemberText(m.key, Dump(m.value))
      decreases m, 2
    {
      ghost var start := out;
      AppendEscaped(m.key);
      out := out + [COLON];
      DumpTo(m.value);
      NextParts(start, Quoted(m.key), [COLON], Dump(m.value));
    }

    method DumpMembersTo(members: seq<Member>)
      requires PrintableMembers(members)
      modifies this
      ensures out == old(out) + Listed(DumpMembers(members))
      decreases members, 0
    {
      ghost var texts := DumpMembers(members);
      for i := 0 to |members|
        invariant out == old(out) + Listed(texts[..i])
      {
        if i != 0 {
          out := out + [COMMA];
        }
        DumpMemberTo(members[i]);
        ListedNext(texts, i);
        NextParts(old(out), Listed(texts[..i]), if i == 0 then [] else [COMMA], texts[i]);
      }
      assert texts[..|members|] == texts;
    }
  }

  lemma NextParts(a: Bytes, b: Bytes, c: Bytes, d: Bytes)
    ensures a + b + c + d == a + (b + (c + d))
    ensures c == [] ==> a + b + d == a + (b + (c + d))
  {
    ConcatAssociates(b, c, d);
    ConcatAssociates(a, b + c, d);
    ConcatAssociates(a, b, c);
    if c == [] {
      assert a + b + c == a + b;
    }
  }

  lemma QuotedParts(out: Bytes, s: Bytes)
    ensures out + [QUOTE] + FlatMap(EscapeByte, s) + [QUOTE] == out + Quoted(s)
  {
    ConcatAssociates(out + [QUOTE], FlatMap(EscapeByte, s), [QUOTE]);
    ConcatAssociates(out, [QUOTE], StringTail(s));
  }

  lemma RowParts(out: Bytes, open: Byte, body: Bytes, close: Byte)
    ensures out + [open] + body + [close] == out + ([open] + (body + [close]))
  {
    ConcatAssociates(out + [open], body, [close]);
    ConcatAssociates(out, [open], body + [close]);
  }
}
