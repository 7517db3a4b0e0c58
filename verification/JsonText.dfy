/** JSON texts: a reader, every way of writing a value with white space and trailing commas, and the round
    trips of the canonical serialiser. */
module JsonText {
  import opened Wrappers
  import opened Sorting
  import opened Json

  // ---------------------------------------------------------------- a reader

  predicate IsBlank(c: char) {
    c == ' ' || c == '\t' || c == '\n' || c == '\r'
  }

  function SkipBlanks(s: string): (r: string)
    ensures |r| <= |s|
    ensures r != "" ==> !IsBlank(r[0])
  {
    if s != "" && IsBlank(s[0]) then SkipBlanks(s[1..]) else s
  }

  function TakeNumber(s: string): (r: string)
    ensures |r| <= |s|
  {
    if s != "" && IsNumberChar(s[0]) then [s[0]] + TakeNumber(s[1..]) else ""
  }

  /** The rest of a string literal after its opening quote. */
  function ParseString(s: string): (r: Option<(string, string)>)
    ensures r.Some? ==> |r.value.1| < |s|
  {
    if s == "" then None
    else if s[0] == '"' then Some(("", s[1..]))
    else
      var piece := if s[0] != '\\' then Some((Plain(s[0]), s[1..]))
                   else if |s| >= 6 && s[1] == 'u' then Some((Hex(s[2], s[3], s[4], s[5]), s[6..]))
                   else if |s| >= 2 && s[1] != 'u' then Some((Short(s[1]), s[2..]))
                   else None;
      if piece.None? || !IsPiece(piece.value.0) then None else
      match ParseString(piece.value.1)
      case None => None
      case Some((text, rest)) => Some(([PieceChar(piece.value.0)] + text, rest))
  }

  /** One value, white space before it skipped, and what follows it. */
  function ParseValue(s: string): (r: Option<(Json, string)>)
    ensures r.Some? ==> |r.value.1| < |s|
    decreases |s|, 1
  {
    ParseToken(SkipBlanks(s))
  }

  function ParseToken(s: string): (r: Option<(Json, string)>)
    ensures r.Some? ==> |r.value.1| < |s|
    decreases |s|, 0
  {
    if s == "" then None
    else if s[0] == '"' then
      match ParseString(s[1..])
      case None => None
      case Some((text, rest)) => Some((Str(text), rest))
    else if s[0] == '[' then
      var inner := SkipBlanks(s[1..]);
      if inner != "" && inner[0] == ']' then Some((Arr([]), inner[1..])) else
      match ParseItems(s[1..])
      case None => None
      case Some((items, rest)) => Some((Arr(items), rest))
    else if s[0] == '{' then
      var inner := SkipBlanks(s[1..]);
      if inner != "" && inner[0] == '}' then Some((Obj([]), inner[1..])) else
      match ParseMembers(s[1..])
      case None => None
      case Some((members, rest)) => Some((Obj(members), rest))
    else if |s| >= 4 && s[..4] == "null" then Some((Null, s[4..]))
    else if |s| >= 4 && s[..4] == "true" then Some((Bool(true), s[4..]))
    else if |s| >= 5 && s[..5] == "false" then Some((Bool(false), s[5..]))
    else
      var text := TakeNumber(s);
      if IsNumberText(text) then Some((Number(text), s[|text|..])) else None
  }

  /** One or more values separated by commas, and the closing bracket. */
  function ParseItems(s: string): (r: Option<(seq<Json>, string)>)
    ensures r.Some? ==> |r.value.1| < |s|
    decreases |s|, 2
  {
    match ParseValue(s)
    case None => None
    case Some((item, after)) =>
      var next := SkipBlanks(after);
      if next == "" then None
      else if next[0] == ']' then Some(([item], next[1..]))
      else if next[0] == ',' then
        match ParseItems(next[1..])
        case None => None
        case Some((items, rest)) => Some(([item] + items, rest))
      else None
  }

  /** One or more members separated by commas, and the closing brace. */
  function ParseMembers(s: string): (r: Option<(seq<Member>, string)>)
    ensures r.Some? ==> |r.value.1| < |s|
    decreases |s|, 2
  {
    match ParseMember(s)
    case None => None
    case Some((member, after)) =>
      var next := SkipBlanks(after);
      if next == "" then None
      else if next[0] == '}' then Some(([member], next[1..]))
      else if next[0] == ',' then
        match ParseMembers(next[1..])
        case None => None
        case Some((members, rest)) => Some(([member] + members, rest))
      else None
  }

  function ParseMember(s: string): (r: Option<(Member, string)>)
    ensures r.Some? ==> |r.value.1| < |s|
    decreases |s|, 1
  {
    var start := SkipBlanks(s);
    if start == "" || start[0] != '"' then None else
    match ParseString(start[1..])
    case None => None
    case Some((key, after)) =>
      var colon := SkipBlanks(after);
      if colon == "" || colon[0] != ':' then None else
      match ParseValue(colon[1..])
      case None => None
      case Some((value, rest)) => Some((Member(key, value), rest))
  }

  /** A whole text: one value and white space. */
  function Parse(s: string): Option<Json> {
    match ParseValue(s)
    case None => None
    case Some((j, rest)) => if SkipBlanks(rest) == "" then Some(j) else None
  }

  // ---------------------------------------------------------------- texts of a value

  /** A value as written: white space around every part, a choice of escapes, optional trailing commas. */
  datatype Doc =
    | DNull
    | DBool(value: bool)
    | DNumber(text: string)
    | DString(pieces: seq<Piece>)
    | DArray(slots: seq<Slot>, trailing: bool, tail: string)
    | DObject(entries: seq<Entry>, trailing: bool, tail: string)

  datatype Slot = Slot(before: string, value: Doc, after: string)

  datatype Entry = Entry(before: string, key: seq<Piece>, beforeColon: string, slot: Slot)

  predicate AreBlanks(s: string) {
    forall i :: 0 <= i < |s| ==> IsBlank(s[i])
  }

  ghost predicate IsDoc(d: Doc)
    decreases d, 1
  {
    match d
    case DNumber(text) => IsNumberText(text)
    case DString(pieces) => ArePieces(pieces)
    case DArray(slots, _, tail) => AreSlots(slots) && AreBlanks(tail)
    case DObject(entries, _, tail) => AreEntries(entries) && AreBlanks(tail)
    case _ => true
  }

  ghost predicate AreSlots(slots: seq<Slot>)
    decreases slots, 0
  {
    slots == [] ||
    (AreBlanks(slots[0].before) && AreBlanks(slots[0].after) && IsDoc(slots[0].value) && AreSlots(slots[1..]))
  }

  ghost predicate AreEntries(entries: seq<Entry>)
    decreases entries, 0
  {
    entries == [] ||
    (AreBlanks(entries[0].before) && ArePieces(entries[0].key) && AreBlanks(entries[0].beforeColon)
     && AreBlanks(entries[0].slot.before) && AreBlanks(entries[0].slot.after) && IsDoc(entries[0].slot.value)
     && AreEntries(entries[1..]))
  }

  /** The text of string pieces, then `rest`. */
  function WritePieces(ps: seq<Piece>, rest: string): string {
    if ps == [] then rest else PieceText(ps[0]) + WritePieces(ps[1..], rest)
  }

  /** The text of a document with its trailing commas kept or left out, then `rest`. */
  function Write(d: Doc, keep: bool, rest: string): string
    decreases d, 1
  {
    match d
    case DNull => "null" + rest
    case DBool(b) => (if b then "true" else "false") + rest
    case DNumber(text) => text + rest
    case DString(pieces) => "\"" + WritePieces(pieces, "\"" + rest)
    case DArray(slots, trailing, tail) => "[" + WriteSlots(slots, keep, Tail(keep && trailing && slots != [], tail, "]" + rest))
    case DObject(entries, trailing, tail) => "{" + WriteEntries(entries, keep, Tail(keep && trailing && entries != [], tail, "}" + rest))
  }

  function Tail(comma: bool, tail: string, rest: string): string {
    if comma then "," + (tail + rest) else tail + rest
  }

  function WriteSlots(slots: seq<Slot>, keep: bool, rest: string): string
    decreases slots, 0
  {
    if slots == [] then rest else
    var more := if |slots| == 1 then rest else "," + WriteSlots(slots[1..], keep, rest);
    slots[0].before + Write(slots[0].value, keep, slots[0].after + more)
  }

  function WriteEntries(entries: seq<Entry>, keep: bool, rest: string): string
    decreases entries, 0
  {
    if entries == [] then rest else
    var e := entries[0];
    var more := if |entries| == 1 then rest else "," + WriteEntries(entries[1..], keep, rest);
    e.before + ("\"" + WritePieces(e.key, "\"" + (e.beforeColon + (":" + (e.slot.before + Write(e.slot.value, keep, e.slot.after + more))))))
  }

  /** The value a document stands for. */
  ghost function ValueOf(d: Doc): Json
    requires IsDoc(d)
    decreases d, 1
  {
    match d
    case DNull => Null
    case DBool(b) => Bool(b)
    case DNumber(text) => Number(text)
    case DString(pieces) => Str(PiecesValue(pieces))
    case DArray(slots, _, _) => Arr(SlotValues(slots))
    case DObject(entries, _, _) => Obj(EntryValues(entries))
  }

  ghost function SlotValues(slots: seq<Slot>): seq<Json>
    requires AreSlots(slots)
    decreases slots, 0
  {
    if slots == [] then [] else [ValueOf(slots[0].value)] + SlotValues(slots[1..])
  }

  ghost function EntryValues(entries: seq<Entry>): seq<Member>
    requires AreEntries(entries)
    decreases entries, 0
  {
    if entries == [] then []
    else [Member(PiecesValue(entries[0].key), ValueOf(entries[0].slot.value))] + EntryValues(entries[1..])
  }

  // ---------------------------------------------------------------- reading a text back

  /** What may follow a number. */
  predicate Stops(s: string) {
    s == "" || !IsNumberChar(s[0])
  }

  lemma {:induction false} SkipsBlanks(blanks: string, rest: string)
    requires AreBlanks(blanks)
    ensures SkipBlanks(blanks + rest) == SkipBlanks(rest)
    ensures Stops(rest) ==> Stops(blanks + rest)
  {
    if blanks == "" {
      assert blanks + rest == rest;
    } else {
      assert (blanks + rest)[1..] == blanks[1..] + rest;
      SkipsBlanks(blanks[1..], rest);
    }
  }

  lemma {:induction false} TakesNumber(text: string, rest: string)
    requires (forall i :: 0 <= i < |text| ==> IsNumberChar(text[i])) && Stops(rest)
    ensures TakeNumber(text + rest) == text
  {
    if text == "" {
      assert text + rest == rest;
    } else {
      assert (text + rest)[1..] == text[1..] + rest;
      TakesNumber(text[1..], rest);
    }
  }

  /** How the reader takes one piece of a string literal. */
  lemma ReadsPiece(p: Piece, after: string)
    requires IsPiece(p)
    ensures ParseString(PieceText(p) + after)
         == match ParseString(after)
            case None => None
            case Some((text, rest)) => Some(([PieceChar(p)] + text, rest))
  {
    var s := PieceText(p) + after;
    match p
    case Plain(c) =>
      assert s[0] == c && s[1..] == after;
    case Short(letter) =>
      assert s[0] == '\\' && s[1] == letter && s[2..] == after;
    case Hex(h3, h2, h1, h0) =>
      assert s[0] == '\\' && s[1] == 'u' && s[2] == h3 && s[3] == h2 && s[4] == h1 && s[5] == h0 && s[6..] == after;
  }

  lemma {:induction false} ReadsPieces(ps: seq<Piece>, rest: string)
    requires ArePieces(ps)
    ensures ParseString(WritePieces(ps, "\"" + rest)) == Some((PiecesValue(ps), rest))
  {
    if ps == [] {
      assert ("\"" + rest)[1..] == rest;
    } else {
      ReadsPieces(ps[1..], rest);
      assert IsPiece(ps[0]);
      ReadsPiece(ps[0], WritePieces(ps[1..], "\"" + rest));
    }
  }

  /** The first character of a value's text. */
  predicate StartsValue(c: char) {
    c == '"' || c == '[' || c == '{' || c == 'n' || c == 't' || c == 'f' || c == '-' || IsDigit(c)
  }

  lemma WriteStarts(d: Doc, keep: bool, rest: string)
    requires IsDoc(d)
    ensures var s := Write(d, keep, rest); s != "" && StartsValue(s[0]) && SkipBlanks(s) == s
  {
  }

  lemma ReadsNumber(text: string, rest: string)
    requires IsNumberText(text) && Stops(rest)
    ensures ParseToken(text + rest) == Some((Number(text), rest))
  {
    var s := text + rest;
    TakesNumber(text, rest);
    assert s[0] == text[0] && (text[0] == '-' || IsDigit(text[0]));
    assert |s| >= 4 ==> s[..4][0] == s[0];
    assert |s| >= 5 ==> s[..5][0] == s[0];
    assert s[|text|..] == rest;
  }

  lemma ReadsWord(d: Doc, rest: string)
    requires d.DNull? || d.DBool?
    ensures ParseToken(Write(d, false, rest)) == Some((ValueOf(d), rest))
  {
    var s := Write(d, false, rest);
    match d
    case DNull => assert s[..4] == "null" && s[4..] == rest;
    case DBool(b) =>
      if b {
        assert s[..4] == "true" && s[4..] == rest;
      } else {
        assert s[..5] == "false" && s[5..] == rest && s[..4][0] == 'f';
      }
  }

  lemma ReadsEmpty(isArray: bool, tail: string, rest: string)
    requires AreBlanks(tail)
    ensures isArray ==> ParseToken("[" + (tail + ("]" + rest))) == Some((Arr([]), rest))
    ensures !isArray ==> ParseToken("{" + (tail + ("}" + rest))) == Some((Obj([]), rest))
  {
    var close := if isArray then "]" + rest else "}" + rest;
    var s := (if isArray then "[" else "{") + (tail + close);
    SkipsBlanks(tail, close);
    assert s[1..] == tail + close;
    assert close[1..] == rest;
  }

  /** A document without trailing commas reads back to its value, whatever its white space and escapes. */
  lemma {:induction false} ReadsDoc(d: Doc, rest: string)
    requires IsDoc(d) && Stops(rest)
    ensures ParseToken(Write(d, false, rest)) == Some((ValueOf(d), rest))
    decreases d, 1
  {
    match d
    case DNull => ReadsWord(d, rest);
    case DBool(_) => ReadsWord(d, rest);
    case DNumber(text) => ReadsNumber(text, rest);
    case DString(pieces) =>
      ReadsPieces(pieces, rest);
      assert Write(d, false, rest)[1..] == WritePieces(pieces, "\"" + rest);
    case DArray(slots, _, tail) =>
      if slots == [] {
        ReadsEmpty(true, tail, rest);
      } else {
        ReadsSlots(slots, tail, rest);
        SlotsOpen(slots, tail + ("]" + rest));
        assert Write(d, false, rest)[1..] == WriteSlots(slots, false, tail + ("]" + rest));
      }
    case DObject(entries, _, tail) =>
      if entries == [] {
        ReadsEmpty(false, tail, rest);
      } else {
        ReadsEntries(entries, tail, rest);
        EntriesOpen(entries, tail + ("}" + rest));
        assert Write(d, false, rest)[1..] == WriteEntries(entries, false, tail + ("}" + rest));
      }
  }

  lemma SlotsOpen(slots: seq<Slot>, rest: string)
    requires AreSlots(slots) && slots != []
    ensures var inner := SkipBlanks(WriteSlots(slots, false, rest)); inner != "" && StartsValue(inner[0])
  {
    var more := if |slots| == 1 then rest else "," + WriteSlots(slots[1..], false, rest);
    var value := Write(slots[0].value, false, slots[0].after + more);
    SkipsBlanks(slots[0].before, value);
    WriteStarts(slots[0].value, false, slots[0].after + more);
  }

  lemma EntriesOpen(entries: seq<Entry>, rest: string)
    requires AreEntries(entries) && entries != []
    ensures var inner := SkipBlanks(WriteEntries(entries, false, rest)); inner != "" && inner[0] == '"'
  {
    var e := entries[0];
    var more := if |entries| == 1 then rest else "," + WriteEntries(entries[1..], false, rest);
    var quoted := "\"" + WritePieces(e.key, "\"" + (e.beforeColon + (":" + (e.slot.before + Write(e.slot.value, false, e.slot.after + more)))));
    SkipsBlanks(e.before, quoted);
  }

  /** One value with white space on both sides. */
  lemma {:induction false} ReadsSlot(slot: Slot, more: string)
    requires AreBlanks(slot.before) && AreBlanks(slot.after) && IsDoc(slot.value) && Stops(more)
    ensures ParseValue(slot.before + Write(slot.value, false, slot.after + more))
         == Some((ValueOf(slot.value), slot.after + more))
    ensures SkipBlanks(slot.after + more) == SkipBlanks(more)
    decreases slot.value, 2
  {
    var after := slot.after + more;
    SkipsBlanks(slot.after, more);
    SkipsBlanks(slot.before, Write(slot.value, false, after));
    WriteStarts(slot.value, false, after);
    ReadsDoc(slot.value, after);
  }

  lemma {:induction false} ReadsSlots(slots: seq<Slot>, tail: string, rest: string)
    requires AreSlots(slots) && slots != [] && AreBlanks(tail)
    ensures ParseItems(WriteSlots(slots, false, tail + ("]" + rest))) == Some((SlotValues(slots), rest))
    decreases slots, 0
  {
    var close := tail + ("]" + rest);
    SkipsBlanks(tail, "]" + rest);
    if |slots| == 1 {
      ReadsSlot(slots[0], close);
      var end := "]" + rest;
      assert end[1..] == rest && SkipBlanks(end) == end;
      assert SlotValues(slots[1..]) == [];
      assert SlotValues(slots) == [ValueOf(slots[0].value)];
    } else {
      var next := WriteSlots(slots[1..], false, close);
      ReadsSlot(slots[0], "," + next);
      ReadsSlots(slots[1..], tail, rest);
      assert ("," + next)[1..] == next;
    }
  }

  /** One member: a key, a colon, a value. */
  lemma {:induction false} ReadsEntry(e: Entry, more: string)
    requires AreBlanks(e.before) && ArePieces(e.key) && AreBlanks(e.beforeColon)
    requires AreBlanks(e.slot.before) && AreBlanks(e.slot.after) && IsDoc(e.slot.value) && Stops(more)
    ensures ParseMember(e.before + ("\"" + WritePieces(e.key, "\"" + (e.beforeColon + (":" + (e.slot.before + Write(e.slot.value, false, e.slot.after + more)))))))
         == Some((Member(PiecesValue(e.key), ValueOf(e.slot.value)), e.slot.after + more))
    ensures SkipBlanks(e.slot.after + more) == SkipBlanks(more)
    decreases e.slot.value, 3
  {
    var value := e.slot.before + Write(e.slot.value, false, e.slot.after + more);
    var colon := ":" + value;
    var quoted := WritePieces(e.key, "\"" + (e.beforeColon + colon));
    SkipsBlanks(e.before, "\"" + quoted);
    assert ("\"" + quoted)[1..] == quoted;
    ReadsPieces(e.key, e.beforeColon + colon);
    SkipsBlanks(e.beforeColon, colon);
    assert colon[1..] == value;
    ReadsSlot(e.slot, more);
  }

  lemma {:induction false} ReadsEntries(entries: seq<Entry>, tail: string, rest: string)
    requires AreEntries(entries) && entries != [] && AreBlanks(tail)
    ensures ParseMembers(WriteEntries(entries, false, tail + ("}" + rest))) == Some((EntryValues(entries), rest))
    decreases entries, 0
  {
    var close := tail + ("}" + rest);
    SkipsBlanks(tail, "}" + rest);
    if |entries| == 1 {
      ReadsEntry(entries[0], close);
      var end := "}" + rest;
      assert end[1..] == rest && SkipBlanks(end) == end;
      assert EntryValues(entries[1..]) == [];
      assert EntryValues(entries) == [Member(PiecesValue(entries[0].key), ValueOf(entries[0].slot.value))];
    } else {
      var next := WriteEntries(entries[1..], false, close);
      ReadsEntry(entries[0], "," + next);
      ReadsEntries(entries[1..], tail, rest);
      assert ("," + next)[1..] == next;
    }
  }
}
