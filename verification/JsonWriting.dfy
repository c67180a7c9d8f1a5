/**
 Texts put together from left to right: the text of a node does not depend on what follows it, and
 a record's text is its members' texts with commas between them.
 */
module JsonWriting {
  import opened Json
  import opened JsonSyntax

  lemma {:induction false} PiecesAppend(ps: seq<Piece>, a: string, b: string)
    ensures EmitPieces(ps, a + b) == EmitPieces(ps, a) + b
  {
    if ps != [] {
      PiecesAppend(ps[1..], a, b);
      assert PieceText(ps[0]) + (EmitPieces(ps[1..], a) + b) == PieceText(ps[0]) + EmitPieces(ps[1..], a) + b;
    }
  }

  lemma StringAppend(ps: seq<Piece>, a: string, b: string)
    ensures EmitString(ps, a + b) == EmitString(ps, a) + b
  {
    PiecesAppend(ps, ['"'] + a, b);
    assert ['"'] + (a + b) == ['"'] + a + b;
    assert ['"'] + (EmitPieces(ps, ['"'] + a) + b) == ['"'] + EmitPieces(ps, ['"'] + a) + b;
  }

  lemma {:induction false} EmitAppend(n: Node, a: string, b: string)
    ensures Emit(n, a + b) == Emit(n, a) + b
    decreases n
  {
    match n
    case NullWord => assert "null" + (a + b) == "null" + a + b;
    case BooleanWord(f) =>
      var w := if f then "true" else "false";
      assert w + (a + b) == w + a + b;
    case Number(t) => assert t + (a + b) == t + a + b;
    case Quoted(ps) => StringAppend(ps, a, b);
    case List(gap, items) => ListAppend(gap, items, a, b);
    case Record(gap, entries) => RecordAppend(gap, entries, a, b);
  }

  lemma {:induction false} ListAppend(gap: string, items: seq<Item>, a: string, b: string)
    ensures Emit(List(gap, items), a + b) == Emit(List(gap, items), a) + b
    decreases items, 1
  {
    hide EmitItems;
    assert [']'] + (a + b) == [']'] + a + b;
    if items == [] {
      assert ['['] + (gap + ([']'] + a + b)) == ['['] + (gap + ([']'] + a)) + b;
    } else {
      ItemsAppend(items, [']'] + a, b);
      assert ['['] + (EmitItems(items, [']'] + a) + b) == ['['] + EmitItems(items, [']'] + a) + b;
    }
  }

  lemma {:induction false} ItemsAppend(items: seq<Item>, a: string, b: string)
    requires items != []
    ensures EmitItems(items, a + b) == EmitItems(items, a) + b
    decreases items, 0
  {
    hide EmitItem;
    if |items| == 1 {
      ItemAppend(items[0], a, b);
    } else {
      ItemsAppend(items[1..], a, b);
      var more := [','] + EmitItems(items[1..], a);
      assert [','] + (EmitItems(items[1..], a) + b) == more + b;
      ItemAppend(items[0], more, b);
    }
  }

  lemma {:induction false} ItemAppend(item: Item, a: string, b: string)
    ensures EmitItem(item, a + b) == EmitItem(item, a) + b
    decreases item
  {
    hide Emit;
    assert item.after + (a + b) == item.after + a + b;
    EmitAppend(item.node, item.after + a, b);
    assert item.before + (Emit(item.node, item.after + a) + b) == item.before + Emit(item.node, item.after + a) + b;
  }

  lemma {:induction false} RecordAppend(gap: string, entries: seq<Entry>, a: string, b: string)
    ensures Emit(Record(gap, entries), a + b) == Emit(Record(gap, entries), a) + b
    decreases entries, 1
  {
    hide EmitEntries;
    assert ['}'] + (a + b) == ['}'] + a + b;
    if entries == [] {
      assert ['{'] + (gap + (['}'] + a + b)) == ['{'] + (gap + (['}'] + a)) + b;
    } else {
      EntriesAppend(entries, ['}'] + a, b);
      assert ['{'] + (EmitEntries(entries, ['}'] + a) + b) == ['{'] + EmitEntries(entries, ['}'] + a) + b;
    }
  }

  lemma {:induction false} EntriesAppend(entries: seq<Entry>, a: string, b: string)
    requires entries != []
    ensures EmitEntries(entries, a + b) == EmitEntries(entries, a) + b
    decreases entries, 0
  {
    hide EmitEntry;
    if |entries| == 1 {
      EntryAppend(entries[0], a, b);
    } else {
      EntriesAppend(entries[1..], a, b);
      var more := [','] + EmitEntries(entries[1..], a);
      assert [','] + (EmitEntries(entries[1..], a) + b) == more + b;
      EntryAppend(entries[0], more, b);
    }
  }

  lemma {:induction false} EntryAppend(e: Entry, a: string, b: string)
    ensures EmitEntry(e, a + b) == EmitEntry(e, a) + b
    decreases e
  {
    hide Emit, EmitString;
    assert e.after + (a + b) == e.after + a + b;
    EmitAppend(e.node, e.after + a, b);
    var value := Emit(e.node, e.after + a);
    var colon := e.beforeColon + ([':'] + (e.afterColon + value));
    assert e.beforeColon + ([':'] + (e.afterColon + (value + b))) == colon + b;
    StringAppend(e.key, colon, b);
    assert e.before + (EmitString(e.key, colon) + b) == e.before + EmitString(e.key, colon) + b;
  }

  // ---------------------------------------------------------------- records, member by member

  /** The members' texts with commas between them, last member added last. */
  function Joined(entries: seq<Entry>): string {
    if entries == [] then ""
    else
      var n := |entries| - 1;
      Joined(entries[..n]) + (if n == 0 then "" else ",") + EmitEntry(entries[n], "")
  }

  lemma {:induction false} JoinedAppends(entries: seq<Entry>, e: Entry)
    ensures Joined(entries + [e]) == Joined(entries) + (if entries == [] then "" else ",") + EmitEntry(e, "")
  {
    assert (entries + [e])[..|entries|] == entries;
  }

  lemma {:induction false} EntriesJoined(entries: seq<Entry>, e: Entry, rest: string)
    ensures EmitEntries(entries + [e], rest) ==
            if entries == [] then EmitEntry(e, rest) else EmitEntries(entries, [','] + EmitEntry(e, rest))
    decreases entries
  {
    hide EmitEntry;
    if entries != [] {
      assert (entries + [e])[1..] == entries[1..] + [e];
      assert (entries + [e])[0] == entries[0];
      EntriesJoined(entries[1..], e, rest);
      if |entries| == 1 {
        assert entries[1..] == [];
      }
    }
  }

  /** The recursive text of a record's members is the joined one. */
  lemma {:induction false} JoinedIsEmitted(entries: seq<Entry>, rest: string)
    requires entries != []
    ensures EmitEntries(entries, rest) == Joined(entries) + rest
    decreases |entries|
  {
    hide EmitEntry, EmitEntries;
    var n := |entries| - 1;
    var init, e := entries[..n], entries[n];
    assert entries == init + [e];
    EntriesJoined(init, e, rest);
    assert "" + rest == rest;
    EntryAppend(e, "", rest);
    if init == [] {
      assert Joined(entries) == "" + "" + EmitEntry(e, "");
    } else {
      JoinedIsEmitted(init, [','] + EmitEntry(e, rest));
      assert Joined(init) + ([','] + (EmitEntry(e, "") + rest)) == Joined(init) + "," + EmitEntry(e, "") + rest;
    }
  }

  lemma RecordText(entries: seq<Entry>)
    ensures Emit(Record("", entries), "") == "{" + Joined(entries) + "}"
  {
    hide Joined, EmitEntries;
    var close := ['}'] + "";
    if entries == [] {
      NothingJoined();
      assert "" + close == close;
    } else {
      JoinedIsEmitted(entries, close);
      assert close == "}";
      assert ['{'] + (Joined(entries) + "}") == "{" + Joined(entries) + "}";
    }
  }

  lemma NothingJoined()
    ensures Joined([]) == ""
  {
  }

  // ---------------------------------------------------------------- records with distinct keys

  function EntryMembers(entries: seq<Entry>): (ms: seq<Member>)
    ensures |ms| == |entries|
    ensures forall i :: 0 <= i < |entries| ==> ms[i] == EntryMeaning(entries[i])
  {
    seq(|entries|, i requires 0 <= i < |entries| => EntryMeaning(entries[i]))
  }

  /** Setting members with distinct keys one after the other just lists them. */
  lemma {:induction false} DistinctMeanings(entries: seq<Entry>, acc: seq<Member>)
    requires UniqueKeys(acc + EntryMembers(entries))
    ensures EntryMeanings(entries, acc) == acc + EntryMembers(entries)
    decreases entries
  {
    hide EntryMeaning, SetMember;
    var ms := EntryMembers(entries);
    if entries == [] {
      assert acc + ms == acc;
    } else {
      SetFreshMember(acc, ms);
      assert EntryMembers(entries[1..]) == ms[1..];
      assert acc + [ms[0]] + ms[1..] == acc + ms;
      DistinctMeanings(entries[1..], acc + [ms[0]]);
    }
  }
}
