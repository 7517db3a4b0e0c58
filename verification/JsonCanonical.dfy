/** The canonical serialiser is canonical: its texts read back to the normal form, and two values give the
    same text exactly when they are the same up to key order and undefined members. */
module JsonCanonical {
  import opened Wrappers
  import opened Sorting
  import opened Json
  import opened JsonText

  // ---------------------------------------------------------------- compact texts read back

  /** Every number has a number's text. */
  ghost predicate IsValid(j: Json)
    decreases j, 1
  {
    match j
    case Number(text) => IsNumberText(text)
    case Arr(items) => AreValid(items)
    case Obj(members) => MembersValid(members)
    case _ => true
  }

  ghost predicate AreValid(items: seq<Json>)
    decreases items, 0
  {
    items == [] || (IsValid(items[0]) && AreValid(items[1..]))
  }

  ghost predicate MembersValid(members: seq<Member>)
    decreases members, 0
  {
    members == [] || (IsValid(members[0].value) && MembersValid(members[1..]))
  }

  /** A value written without white space, as `JSON.stringify` escapes it. */
  function Compact(j: Json): Doc
    decreases j, 1
  {
    match j
    case Null => DNull
    case Bool(b) => DBool(b)
    case Number(text) => DNumber(text)
    case Str(text) => DString(StringifyPieces(text))
    case Arr(items) => DArray(CompactItems(items), false, "")
    case Obj(members) => DObject(CompactMembers(members), false, "")
  }

  function CompactItems(items: seq<Json>): (r: seq<Slot>)
    ensures |r| == |items|
    decreases items, 0
  {
    if items == [] then [] else [Slot("", Compact(items[0]), "")] + CompactItems(items[1..])
  }

  function CompactMembers(members: seq<Member>): (r: seq<Entry>)
    ensures |r| == |members|
    decreases members, 0
  {
    if members == [] then []
    else [Entry("", StringifyPieces(members[0].key), "", Slot("", Compact(members[0].value), ""))] + CompactMembers(members[1..])
  }

  lemma {:induction false} PiecesWritten(ps: seq<Piece>, rest: string)
    ensures WritePieces(ps, rest) == PiecesText(ps) + rest
  {
    if ps == [] {
      assert "" + rest == rest;
    } else {
      PiecesWritten(ps[1..], rest);
      assert PieceText(ps[0]) + (PiecesText(ps[1..]) + rest) == PieceText(ps[0]) + PiecesText(ps[1..]) + rest;
    }
  }

  lemma QuoteWritten(s: string, rest: string)
    ensures "\"" + WritePieces(StringifyPieces(s), "\"" + rest) == Quote(s) + rest
  {
    var text := PiecesText(StringifyPieces(s));
    PiecesWritten(StringifyPieces(s), "\"" + rest);
    assert "\"" + (text + ("\"" + rest)) == "\"" + text + "\"" + rest;
  }

  lemma Reassociate(a: string, b: string, c: string)
    ensures (a + b) + c == a + (b + c)
  {
  }

  /** The compact text is the printed value. */
  lemma {:induction false} PrintWritten(j: Json, rest: string)
    ensures Write(Compact(j), false, rest) == Print(j) + rest
    decreases j, 1
  {
    match j
    case Null =>
    case Bool(_) =>
    case Number(_) =>
    case Str(text) => QuoteWritten(text, rest);
    case Arr(items) =>
      var body := JoinWithCommas(PrintItems(items));
      ItemsWritten(items, "" + ("]" + rest));
      assert "" + ("]" + rest) == "]" + rest;
      assert "[" + (body + ("]" + rest)) == "[" + body + "]" + rest;
    case Obj(members) =>
      var body := JoinWithCommas(PairTexts(PrintMembers(members)));
      MembersWritten(members, "" + ("}" + rest));
      assert "" + ("}" + rest) == "}" + rest;
      assert "{" + (body + ("}" + rest)) == "{" + body + "}" + rest;
  }

  lemma {:induction false} ItemsWritten(items: seq<Json>, rest: string)
    ensures WriteSlots(CompactItems(items), false, rest) == JoinWithCommas(PrintItems(items)) + rest
    decreases items, 0
  {
    if items == [] {
      assert "" + rest == rest;
    } else {
      var slots, texts := CompactItems(items), PrintItems(items);
      var more := if |items| == 1 then rest else "," + WriteSlots(slots[1..], false, rest);
      assert slots[1..] == CompactItems(items[1..]) && texts[1..] == PrintItems(items[1..]);
      assert "" + more == more;
      PrintWritten(items[0], more);
      assert "" + Write(Compact(items[0]), false, more) == Print(items[0]) + more;
      if |items| > 1 {
        ItemsWritten(items[1..], rest);
        var others := JoinWithCommas(texts[1..]);
        Reassociate(",", others, rest);
        Reassociate(Print(items[0]), "," + others, rest);
        Reassociate(Print(items[0]), ",", others);
      }
    }
  }

  lemma {:induction false} MembersWritten(members: seq<Member>, rest: string)
    ensures WriteEntries(CompactMembers(members), false, rest) == JoinWithCommas(PairTexts(PrintMembers(members))) + rest
    decreases members, 0
  {
    if members == [] {
      assert "" + rest == rest;
    } else {
      var entries, pairs := CompactMembers(members), PrintMembers(members);
      var texts := PairTexts(pairs);
      var more := if |members| == 1 then rest else "," + WriteEntries(entries[1..], false, rest);
      assert entries[1..] == CompactMembers(members[1..]) && pairs[1..] == PrintMembers(members[1..]);
      assert texts[1..] == PairTexts(pairs[1..]);
      MemberWritten(members[0], more);
      if |members| > 1 {
        MembersWritten(members[1..], rest);
        var first, others := texts[0], JoinWithCommas(texts[1..]);
        Reassociate(",", others, rest);
        Reassociate(first, "," + others, rest);
        Reassociate(first, ",", others);
      }
    }
  }

  lemma {:induction false} MemberWritten(m: Member, more: string)
    ensures "" + ("\"" + WritePieces(StringifyPieces(m.key), "\"" + ("" + (":" + ("" + Write(Compact(m.value), false, "" + more))))))
         == PairText(PrintMember(m)) + more
    decreases m, 2
  {
    var value := Print(m.value);
    assert "" + more == more;
    PrintWritten(m.value, more);
    assert "" + (value + more) == value + more;
    var colon := ":" + (value + more);
    assert "" + colon == colon;
    QuoteWritten(m.key, colon);
    assert Quote(m.key) + (":" + (value + more)) == Quote(m.key) + ":" + value + more;
    assert "" + ("\"" + WritePieces(StringifyPieces(m.key), "\"" + colon)) == "\"" + WritePieces(StringifyPieces(m.key), "\"" + colon);
  }

  lemma {:induction false} CompactIsDoc(j: Json)
    requires IsValid(j)
    ensures IsDoc(Compact(j)) && ValueOf(Compact(j)) == j
    decreases j, 1
  {
    match j
    case Str(text) => StringifyPiecesRead(text);
    case Arr(items) => CompactItemsAreSlots(items);
    case Obj(members) => CompactMembersAreEntries(members);
    case _ =>
  }

  lemma {:induction false} CompactItemsAreSlots(items: seq<Json>)
    requires AreValid(items)
    ensures AreSlots(CompactItems(items)) && SlotValues(CompactItems(items)) == items
    decreases items, 0
  {
    if items != [] {
      CompactIsDoc(items[0]);
      CompactItemsAreSlots(items[1..]);
      assert CompactItems(items)[1..] == CompactItems(items[1..]);
    }
  }

  lemma {:induction false} CompactMembersAreEntries(members: seq<Member>)
    requires MembersValid(members)
    ensures AreEntries(CompactMembers(members)) && EntryValues(CompactMembers(members)) == members
    decreases members, 0
  {
    if members != [] {
      CompactIsDoc(members[0].value);
      StringifyPiecesRead(members[0].key);
      CompactMembersAreEntries(members[1..]);
      assert CompactMembers(members)[1..] == CompactMembers(members[1..]);
    }
  }

  /** A printed value reads back. */
  lemma PrintReads(j: Json)
    requires IsValid(j)
    ensures Parse(Print(j)) == Some(j)
  {
    var text := Write(Compact(j), false, "");
    CompactIsDoc(j);
    PrintWritten(j, "");
    assert Print(j) + "" == Print(j);
    WriteStarts(Compact(j), false, "");
    ReadsDoc(Compact(j), "");
  }

  // ---------------------------------------------------------------- normal forms are valid

  lemma {:induction false} NormalIsValid(v: Value)
    requires WellFormed(v) && Normal(v).Some?
    ensures IsValid(Normal(v).value)
    decreases v, 1
  {
    match v
    case VArray(items) => NormalItemsAreValid(items);
    case VObject(members) =>
      NormalMembersAreValid(members);
      SortKeepsValid(NormalMembers(members).value);
    case _ =>
  }

  lemma {:induction false} NormalItemsAreValid(items: seq<Value>)
    requires AllWellFormed(items) && NormalItems(items).Some?
    ensures AreValid(NormalItems(items).value)
    decreases items, 0
  {
    if items != [] {
      NormalIsValid(items[0]);
      NormalItemsAreValid(items[1..]);
      assert NormalItems(items).value[1..] == NormalItems(items[1..]).value;
    }
  }

  lemma {:induction false} NormalMembersAreValid(members: seq<VMember>)
    requires MembersWellFormed(members) && NormalMembers(members).Some?
    ensures MembersValid(NormalMembers(members).value)
    decreases members, 0
  {
    if members != [] {
      NormalMembersAreValid(members[1..]);
      if !members[0].value.VUndefined? {
        NormalIsValid(members[0].value);
        assert NormalMembers(members).value[1..] == NormalMembers(members[1..]).value;
      }
    }
  }

  lemma {:induction false} InsertKeepsValid(m: Member, ms: seq<Member>)
    requires IsValid(m.value) && MembersValid(ms)
    ensures MembersValid(Insert(Key, m, ms))
  {
    if ms == [] {
      assert MembersValid([m][1..]);
    } else if NotAfter(m.key, ms[0].key) {
      assert ([m] + ms)[1..] == ms;
    } else {
      InsertKeepsValid(m, ms[1..]);
      assert ([ms[0]] + Insert(Key, m, ms[1..]))[1..] == Insert(Key, m, ms[1..]);
    }
  }

  lemma {:induction false} SortKeepsValid(ms: seq<Member>)
    requires MembersValid(ms)
    ensures MembersValid(SortBy(Key, ms))
  {
    if ms != [] {
      SortKeepsValid(ms[1..]);
      InsertKeepsValid(ms[0], SortBy(Key, ms[1..]));
    }
  }

  /** The canonical text reads back to the value's normal form. */
  lemma CanonicalReads(v: Value)
    requires WellFormed(v) && CanonicalJson(v).Some?
    ensures Normal(v).Some? && Parse(CanonicalJson(v).value) == Normal(v)
  {
    CanonicalPrintsNormal(v);
    NormalIsValid(v);
    PrintReads(Normal(v).value);
  }

  /** Equal texts, equal normal forms. */
  lemma CanonicalEqualExactlyWhenNormalEqual(a: Value, b: Value)
    requires WellFormed(a) && WellFormed(b) && CanonicalJson(a).Some? && CanonicalJson(b).Some?
    ensures CanonicalJson(a) == CanonicalJson(b) <==> Normal(a) == Normal(b)
  {
    CanonicalReads(a);
    CanonicalReads(b);
    CanonicalPrintsNormal(a);
    CanonicalPrintsNormal(b);
  }

  // ---------------------------------------------------------------- equality up to order and undefined members

  ghost predicate IsDefined(members: seq<VMember>, i: int) {
    0 <= i < |members| && !members[i].value.VUndefined?
  }

  ghost predicate HasKey(members: seq<VMember>, key: string) {
    exists i :: IsDefined(members, i) && members[i].key == key
  }

  /** The same value, whatever the order of its members and whatever members are undefined. */
  ghost predicate Equivalent(a: Value, b: Value)
    decreases a
  {
    match (a, b)
    case (VArray(xs), VArray(ys)) =>
      |xs| == |ys| && forall i :: 0 <= i < |xs| ==> Equivalent(xs[i], ys[i])
    case (VObject(ms), VObject(ns)) =>
      && (forall key :: HasKey(ms, key) <==> HasKey(ns, key))
      && forall i, j :: IsDefined(ms, i) && IsDefined(ns, j) && ms[i].key == ns[j].key ==>
           Equivalent(ms[i].value, ns[j].value)
    case _ => a == b
  }

  lemma {:induction false} WellFormedAt(items: seq<Value>, i: nat)
    requires AllWellFormed(items) && i < |items|
    ensures WellFormed(items[i])
  {
    if i > 0 {
      WellFormedAt(items[1..], i - 1);
    }
  }

  lemma {:induction false} MemberWellFormedAt(members: seq<VMember>, i: nat)
    requires MembersWellFormed(members) && i < |members|
    ensures WellFormed(members[i].value)
  {
    if i > 0 {
      MemberWellFormedAt(members[1..], i - 1);
    }
  }

  lemma {:induction false} NormalItemAt(items: seq<Value>, i: nat)
    requires NormalItems(items).Some? && i < |items|
    ensures Normal(items[i]) == Some(NormalItems(items).value[i])
  {
    if i > 0 {
      NormalItemAt(items[1..], i - 1);
    }
  }

  /** Every defined member has its normal form in the list, in particular one. */
  lemma {:induction false} NormalMemberAt(members: seq<VMember>, i: nat)
    requires NormalMembers(members).Some? && IsDefined(members, i)
    ensures Normal(members[i].value).Some?
    ensures Member(members[i].key, Normal(members[i].value).value) in NormalMembers(members).value
  {
    if i > 0 {
      NormalMemberAt(members[1..], i - 1);
    }
  }

  /** And every member of the list comes from one. */
  lemma {:induction false} NormalMemberFrom(members: seq<VMember>, m: Member) returns (i: nat)
    requires NormalMembers(members).Some? && m in NormalMembers(members).value
    ensures IsDefined(members, i) && members[i].key == m.key && Normal(members[i].value) == Some(m.value)
  {
    if !members[0].value.VUndefined? && m == NormalMembers(members).value[0] {
      i := 0;
    } else {
      var k := NormalMemberFrom(members[1..], m);
      i := k + 1;
    }
  }

  lemma {:induction false} NormalKeysDistinct(members: seq<VMember>)
    requires NormalMembers(members).Some? && DistinctKeys(VKey, members)
    ensures DistinctKeys(Key, NormalMembers(members).value)
  {
    if members == [] {
    } else {
      var rest := members[1..];
      TailKeeps(VKey, members);
      NormalKeysDistinct(rest);
      if !members[0].value.VUndefined? {
        var all, others := NormalMembers(members).value, NormalMembers(rest).value;
        forall i, j | 0 <= i < j < |all|
          ensures all[i].key != all[j].key
        {
          if i == 0 {
            var k := NormalMemberFrom(rest, others[j - 1]);
            assert VKey(members[0]) != VKey(members[k + 1]);
          } else {
            assert Key(others[i - 1]) != Key(others[j - 1]);
          }
        }
      }
    }
  }

  /** Sorted member lists are equal exactly when they have the same members. */
  lemma SortedMembersEqual(xs: seq<Member>, ys: seq<Member>)
    requires DistinctKeys(Key, xs) && DistinctKeys(Key, ys)
    ensures SortBy(Key, xs) == SortBy(Key, ys) <==> forall m :: m in xs <==> m in ys
  {
    SortPermutes(Key, xs);
    SortPermutes(Key, ys);
    if SortBy(Key, xs) == SortBy(Key, ys) {
      forall m
        ensures m in xs <==> m in ys
      {
        assert m in xs <==> m in multiset(xs);
        assert m in ys <==> m in multiset(ys);
      }
    } else if forall m :: m in xs <==> m in ys {
      DistinctFromKeys(xs);
      DistinctFromKeys(ys);
      SameMultiset(xs, ys);
      SortForgetsOrder(Key, xs, ys);
    }
  }

  lemma DistinctFromKeys(xs: seq<Member>)
    requires DistinctKeys(Key, xs)
    ensures Distinct(xs)
  {
    forall i, j | 0 <= i < j < |xs|
      ensures xs[i] != xs[j]
    {
      assert Key(xs[i]) != Key(xs[j]);
    }
  }

  /** Normal forms are equal exactly for equivalent values. */
  lemma {:induction false} NormalEqualExactlyWhenEquivalent(a: Value, b: Value)
    requires WellFormed(a) && WellFormed(b) && Normal(a).Some? && Normal(b).Some?
    ensures Normal(a) == Normal(b) <==> Equivalent(a, b)
    decreases a
  {
    match (a, b)
    case (VArray(xs), VArray(ys)) =>
      if |xs| == |ys| {
        var px, py := NormalItems(xs).value, NormalItems(ys).value;
        forall i | 0 <= i < |xs|
          ensures NormalItems(xs).value[i] == NormalItems(ys).value[i] <==> Equivalent(xs[i], ys[i])
        {
          WellFormedAt(xs, i);
          WellFormedAt(ys, i);
          NormalItemAt(xs, i);
          NormalItemAt(ys, i);
          NormalEqualExactlyWhenEquivalent(xs[i], ys[i]);
        }
        assert (forall i :: 0 <= i < |xs| ==> px[i] == py[i]) ==> px == py;
      }
    case (VObject(ms), VObject(ns)) =>
      forall i, j | IsDefined(ms, i) && IsDefined(ns, j)
        ensures Normal(ms[i].value).Some? && Normal(ns[j].value).Some?
        ensures Normal(ms[i].value) == Normal(ns[j].value) <==> Equivalent(ms[i].value, ns[j].value)
      {
        MemberWellFormedAt(ms, i);
        MemberWellFormedAt(ns, j);
        NormalMemberAt(ms, i);
        NormalMemberAt(ns, j);
        NormalEqualExactlyWhenEquivalent(ms[i].value, ns[j].value);
      }
      ObjectsAgree(ms, ns);
    case _ =>
  }

  lemma SameKeySameIndex(ms: seq<VMember>, i: nat, j: nat)
    requires DistinctKeys(VKey, ms) && i < |ms| && j < |ms| && VKey(ms[i]) == VKey(ms[j])
    ensures i == j
  {
  }

  lemma ObjectsAgree(ms: seq<VMember>, ns: seq<VMember>)
    requires DistinctKeys(VKey, ms) && DistinctKeys(VKey, ns)
    requires NormalMembers(ms).Some? && NormalMembers(ns).Some?
    requires forall i, j :: IsDefined(ms, i) && IsDefined(ns, j) ==>
               (Normal(ms[i].value) == Normal(ns[j].value) <==> Equivalent(ms[i].value, ns[j].value))
    ensures SortBy(Key, NormalMembers(ms).value) == SortBy(Key, NormalMembers(ns).value) <==>
            Equivalent(VObject(ms), VObject(ns))
  {
    var xs, ys := NormalMembers(ms).value, NormalMembers(ns).value;
    NormalKeysDistinct(ms);
    NormalKeysDistinct(ns);
    SortedMembersEqual(xs, ys);
    if Equivalent(VObject(ms), VObject(ns)) {
      MembersIncluded(ms, ns);
      MembersIncluded(ns, ms);
    }
    if forall m :: m in xs <==> m in ys {
      KeysIncluded(ms, ns);
      KeysIncluded(ns, ms);
      forall i, j | IsDefined(ms, i) && IsDefined(ns, j) && ms[i].key == ns[j].key
        ensures Equivalent(ms[i].value, ns[j].value)
      {
        NormalMemberAt(ms, i);
        var m := Member(ms[i].key, Normal(ms[i].value).value);
        var k := NormalMemberFrom(ns, m);
        SameKeySameIndex(ns, j, k);
      }
    }
  }

  /** Same keys and equal normal values: one list's members are in the other. */
  lemma MembersIncluded(ms: seq<VMember>, ns: seq<VMember>)
    requires NormalMembers(ms).Some? && NormalMembers(ns).Some?
    requires forall key :: HasKey(ms, key) <==> HasKey(ns, key)
    requires forall i, j :: IsDefined(ms, i) && IsDefined(ns, j) && ms[i].key == ns[j].key ==>
               Normal(ms[i].value) == Normal(ns[j].value)
    ensures forall m :: m in NormalMembers(ms).value ==> m in NormalMembers(ns).value
  {
    forall m | m in NormalMembers(ms).value
      ensures m in NormalMembers(ns).value
    {
      var i := NormalMemberFrom(ms, m);
      assert HasKey(ms, m.key);
      var j :| IsDefined(ns, j) && ns[j].key == m.key;
      NormalMemberAt(ns, j);
    }
  }

  lemma KeysIncluded(ms: seq<VMember>, ns: seq<VMember>)
    requires NormalMembers(ms).Some? && NormalMembers(ns).Some?
    requires forall m :: m in NormalMembers(ms).value ==> m in NormalMembers(ns).value
    ensures forall key :: HasKey(ms, key) ==> HasKey(ns, key)
  {
    forall key | HasKey(ms, key)
      ensures HasKey(ns, key)
    {
      var i :| IsDefined(ms, i) && ms[i].key == key;
      NormalMemberAt(ms, i);
      var j := NormalMemberFrom(ns, Member(key, Normal(ms[i].value).value));
    }
  }

  /** Two values give the same canonical text exactly when they are equal up to key order and undefined
      members. */
  lemma CanonicalIsCanonical(a: Value, b: Value)
    requires WellFormed(a) && WellFormed(b) && CanonicalJson(a).Some? && CanonicalJson(b).Some?
    ensures CanonicalJson(a) == CanonicalJson(b) <==> Equivalent(a, b)
  {
    CanonicalReads(a);
    CanonicalReads(b);
    CanonicalEqualExactlyWhenNormalEqual(a, b);
    NormalEqualExactlyWhenEquivalent(a, b);
  }
}
