/** `removeTrailingJsonCommas` of `scripts/release-sbom.ts`: a quote/escape state machine that drops commas
    before a closing bracket, and why it preserves the meaning of every JSON text with trailing commas. */
module TrailingCommas {
  import opened Wrappers
  import opened Json
  import opened JsonText

  // ---------------------------------------------------------------- the state machine

  /** White space as the regular expression class of the program has it. */
  predicate IsSpace(c: char) {
    || c == ' ' || ('\t' <= c <= '\r')
    || c as int == 0xA0 || c as int == 0x1680 || 0x2000 <= c as int <= 0x200A
    || c as int == 0x2028 || c as int == 0x2029 || c as int == 0x202F || c as int == 0x205F
    || c as int == 0x3000 || c as int == 0xFEFF
  }

  /** The white space and line terminators of ECMAScript (sections 12.2 and 12.3), one by one. */
  const WHITE_SPACE :=
    "\t\n\U{000B}\U{000C}\r \U{00A0}\U{1680}\U{2000}\U{2001}\U{2002}\U{2003}\U{2004}\U{2005}\U{2006}\U{2007}\U{2008}"
    + "\U{2009}\U{200A}\U{2028}\U{2029}\U{202F}\U{205F}\U{3000}\U{FEFF}"

  lemma SpaceIsWhiteSpace(c: char)
    ensures IsSpace(c) <==> c in WHITE_SPACE
  {
    if IsSpace(c) {
      var n := c as int;
      assert n <= 13 ==> WHITE_SPACE[n - 9] == c;
      assert 0x2000 <= n <= 0x200A ==> WHITE_SPACE[n - 0x2000 + 8] == c;
      assert c in WHITE_SPACE;
    }
  }

  function SkipSpace(s: string): (r: string)
    ensures |r| <= |s|
  {
    if s != "" && IsSpace(s[0]) then SkipSpace(s[1..]) else s
  }

  /** After white space, a closing bracket or brace comes next. */
  predicate ClosesNext(s: string) {
    var next := SkipSpace(s);
    next != "" && (next[0] == '}' || next[0] == ']')
  }

  function Prepend(c: char, r: Option<string>): Option<string> {
    match r
    case None => None
    case Some(text) => Some([c] + text)
  }

  /** The output for the rest of a text, from a state of the machine; none for an unterminated literal. */
  function Strip(s: string, quoted: bool, escaped: bool): Option<string>
    decreases |s|
  {
    if s == "" then (if quoted || escaped then None else Some(""))
    else if quoted then
      if escaped then Prepend(s[0], Strip(s[1..], true, false))
      else if s[0] == '\\' then Prepend(s[0], Strip(s[1..], true, true))
      else Prepend(s[0], Strip(s[1..], s[0] != '"', false))
    else if s[0] == '"' then Prepend(s[0], Strip(s[1..], true, false))
    else if s[0] == ',' && ClosesNext(s[1..]) then Strip(s[1..], false, escaped)
    else Prepend(s[0], Strip(s[1..], false, escaped))
  }

  /** The program's loop. */
  method RemoveTrailingJsonCommas(source: string) returns (r: Option<string>)
    ensures r == Strip(source, false, false)
  {
    var output := "";
    var quoted, escaped := false, false;
    var index := 0;
    assert source[0..] == source;
    OntoNothing(Strip(source, false, false));
    while index < |source|
      invariant 0 <= index <= |source|
      invariant Strip(source, false, false) == Onto(output, Strip(source[index..], quoted, escaped))
    {
      var character := source[index];
      ghost var rest := source[index + 1..];
      assert source[index..][0] == character && source[index..][1..] == rest;
      index := index + 1;
      if quoted {
        OntoNext(output, character, Strip(rest, if escaped || character == '\\' then true else character != '"', !escaped && character == '\\'));
        output := output + [character];
        if escaped {
          escaped := false;
        } else if character == '\\' {
          escaped := true;
        } else if character == '"' {
          quoted := false;
        }
        continue;
      }
      if character == '"' {
        OntoNext(output, character, Strip(rest, true, false));
        quoted := true;
        escaped := false;
        output := output + [character];
        continue;
      }
      if character == ',' {
        var closes := LookAhead(source, index);
        if closes {
          continue;
        }
      }
      OntoNext(output, character, Strip(rest, false, escaped));
      output := output + [character];
    }
    assert source[index..] == "";
    if quoted || escaped {
      return None;
    }
    assert output + "" == output;
    r := Some(output);
  }

  /** The inner loop: skip white space, look at the next character. */
  method LookAhead(source: string, start: nat) returns (closes: bool)
    requires start <= |source|
    ensures closes <==> ClosesNext(source[start..])
  {
    var lookahead := start;
    while lookahead < |source| && IsSpace(source[lookahead])
      invariant start <= lookahead <= |source|
      invariant SkipSpace(source[start..]) == SkipSpace(source[lookahead..])
    {
      assert source[lookahead..][1..] == source[lookahead + 1..];
      lookahead := lookahead + 1;
    }
    closes := lookahead < |source| && (source[lookahead] == '}' || source[lookahead] == ']');
  }

  function Onto(prefix: string, r: Option<string>): Option<string> {
    match r
    case None => None
    case Some(text) => Some(prefix + text)
  }

  lemma OntoNothing(r: Option<string>)
    ensures Onto("", r) == r
  {
    if r.Some? {
      assert "" + r.value == r.value;
    }
  }

  lemma OntoNext(prefix: string, c: char, r: Option<string>)
    ensures Onto(prefix, Prepend(c, r)) == Onto(prefix + [c], r)
  {
    if r.Some? {
      assert prefix + ([c] + r.value) == prefix + [c] + r.value;
    }
  }

  // ---------------------------------------------------------------- what it does to a JSON text

  /** Text outside string literals that has no comma passes through. */
  lemma {:induction false} StripPlain(p: string, rest: string)
    requires '"' !in p && ',' !in p
    ensures Strip(p + rest, false, false) == Onto(p, Strip(rest, false, false))
  {
    if p == "" {
      assert p + rest == rest;
      assert forall text: string :: "" + text == text;
    } else {
      var s := p + rest;
      assert s[0] == p[0] && p[0] in p && s[1..] == p[1..] + rest;
      StripPlain(p[1..], rest);
      var after := Strip(rest, false, false);
      if after.Some? {
        assert [p[0]] + (p[1..] + after.value) == p + after.value;
      }
    }
  }

  /** A piece of a string literal passes through, whatever it is. */
  lemma StripPiece(p: Piece, rest: string)
    requires IsPiece(p)
    ensures Strip(PieceText(p) + rest, true, false) == Onto(PieceText(p), Strip(rest, true, false))
  {
    match p
    case Plain(c) => assert (PieceText(p) + rest)[1..] == rest;
    case Short(letter) => StripEscape(letter, rest);
    case Hex(h3, h2, h1, h0) =>
      assert PieceText(p) == ['\\', 'u'] + [h3, h2, h1, h0];
      StripCode([h3, h2, h1, h0], rest);
  }

  lemma StripCode(digits: string, rest: string)
    requires forall i :: 0 <= i < |digits| ==> HexDigit(digits[i]) >= 0
    ensures Strip(['\\', 'u'] + digits + rest, true, false) == Onto(['\\', 'u'] + digits, Strip(rest, true, false))
  {
    assert ['\\', 'u'] + digits + rest == ['\\', 'u'] + (digits + rest);
    StripEscape('u', digits + rest);
    StripHex(digits, rest);
    OntoTwice(['\\', 'u'], digits, Strip(rest, true, false));
  }

  lemma OntoTwice(a: string, b: string, r: Option<string>)
    ensures Onto(a, Onto(b, r)) == Onto(a + b, r)
  {
    if r.Some? {
      assert a + (b + r.value) == a + b + r.value;
    }
  }

  lemma StripEscape(letter: char, rest: string)
    ensures Strip(['\\', letter] + rest, true, false) == Onto(['\\', letter], Strip(rest, true, false))
  {
    var s, after := ['\\', letter] + rest, Strip(rest, true, false);
    assert s[1..] == [letter] + rest && s[1..][1..] == rest;
    if after.Some? {
      assert ['\\'] + ([letter] + after.value) == ['\\', letter] + after.value;
    }
  }

  lemma {:induction false} StripHex(digits: string, rest: string)
    requires forall i :: 0 <= i < |digits| ==> HexDigit(digits[i]) >= 0
    ensures Strip(digits + rest, true, false) == Onto(digits, Strip(rest, true, false))
  {
    if digits == "" {
      assert digits + rest == rest;
      assert forall text: string :: "" + text == text;
    } else {
      var s, after := digits + rest, Strip(rest, true, false);
      assert s[0] == digits[0] && s[1..] == digits[1..] + rest;
      StripHex(digits[1..], rest);
      if after.Some? {
        assert [digits[0]] + (digits[1..] + after.value) == digits + after.value;
      }
    }
  }

  /** A whole literal passes through: its commas, brackets and escaped quotes are untouched. */
  lemma {:induction false} StripPieces(ps: seq<Piece>, rest: string)
    requires ArePieces(ps)
    ensures Strip(WritePieces(ps, "\"" + rest), true, false)
         == match Strip(rest, false, false)
            case None => None
            case Some(out) => Some(WritePieces(ps, "\"" + out))
  {
    if ps == [] {
      var s := "\"" + rest;
      assert s[1..] == rest;
    } else {
      assert IsPiece(ps[0]);
      StripPiece(ps[0], WritePieces(ps[1..], "\"" + rest));
      StripPieces(ps[1..], rest);
    }
  }

  lemma StripLiteral(ps: seq<Piece>, rest: string)
    requires ArePieces(ps)
    ensures Strip("\"" + WritePieces(ps, "\"" + rest), false, false)
         == match Strip(rest, false, false)
            case None => None
            case Some(out) => Some("\"" + WritePieces(ps, "\"" + out))
  {
    var inner := WritePieces(ps, "\"" + rest);
    assert ("\"" + inner)[1..] == inner;
    StripPieces(ps, rest);
  }

  lemma {:induction false} SkipsSpace(blanks: string, rest: string)
    requires AreBlanks(blanks)
    ensures SkipSpace(blanks + rest) == SkipSpace(rest)
    ensures '"' !in blanks && ',' !in blanks
  {
    if blanks == "" {
      assert blanks + rest == rest;
    } else {
      assert (blanks + rest)[1..] == blanks[1..] + rest;
      assert IsBlank(blanks[0]);
      SkipsSpace(blanks[1..], rest);
      assert blanks == [blanks[0]] + blanks[1..];
    }
  }

  /** White space passes through. */
  lemma StripBlanks(blanks: string, rest: string)
    requires AreBlanks(blanks)
    ensures Strip(blanks + rest, false, false) == Onto(blanks, Strip(rest, false, false))
  {
    SkipsSpace(blanks, rest);
    StripPlain(blanks, rest);
  }

  /** A comma between values stays. */
  lemma StripSeparator(blanks: string, rest: string)
    requires AreBlanks(blanks) && rest != "" && StartsValue(rest[0])
    ensures Strip("," + (blanks + rest), false, false) == Prepend(',', Strip(blanks + rest, false, false))
  {
    var s := "," + (blanks + rest);
    assert s[1..] == blanks + rest;
    SkipsSpace(blanks, rest);
  }

  /** White space and the closing bracket pass through, and a comma before them is dropped. */
  lemma StripTail(comma: bool, tail: string, close: string, rest: string)
    requires AreBlanks(tail) && (close == "]" || close == "}")
    ensures Strip(Tail(comma, tail, close + rest), false, false)
         == match Strip(rest, false, false)
            case None => None
            case Some(out) => Some(Tail(false, tail, close + out))
  {
    var end := tail + (close + rest);
    SkipsSpace(tail, close + rest);
    StripBlanks(tail, close + rest);
    StripPlain(close, rest);
    if comma {
      assert ("," + end)[1..] == end;
    }
  }

  /** The program removes exactly the trailing commas of a JSON text and nothing else. */
  lemma {:induction false} StripDoc(d: Doc, rest: string)
    requires IsDoc(d)
    ensures Strip(Write(d, true, rest), false, false)
         == match Strip(rest, false, false)
            case None => None
            case Some(out) => Some(Write(d, false, out))
    decreases d, 1
  {
    match d
    case DNull => StripPlain("null", rest);
    case DBool(b) => StripPlain(if b then "true" else "false", rest);
    case DNumber(text) => StripPlain(text, rest);
    case DString(pieces) => StripLiteral(pieces, rest);
    case DArray(slots, trailing, tail) =>
      var body := Tail(trailing && slots != [], tail, "]" + rest);
      StripPlain("[", WriteSlots(slots, true, body));
      StripTail(trailing && slots != [], tail, "]", rest);
      StripSlots(slots, body);
    case DObject(entries, trailing, tail) =>
      var body := Tail(trailing && entries != [], tail, "}" + rest);
      StripPlain("{", WriteEntries(entries, true, body));
      StripTail(trailing && entries != [], tail, "}", rest);
      StripEntries(entries, body);
  }

  lemma {:induction false} StripSlots(slots: seq<Slot>, rest: string)
    requires AreSlots(slots)
    ensures Strip(WriteSlots(slots, true, rest), false, false)
         == match Strip(rest, false, false)
            case None => None
            case Some(out) => Some(WriteSlots(slots, false, out))
    decreases slots, 0
  {
    if slots == [] {
    } else {
      var slot := slots[0];
      var next := WriteSlots(slots[1..], true, rest);
      var more := if |slots| == 1 then rest else "," + next;
      var value := Write(slot.value, true, slot.after + more);
      StripBlanks(slot.before, value);
      StripDoc(slot.value, slot.after + more);
      StripBlanks(slot.after, more);
      if |slots| > 1 {
        var second := slots[1..][0];
        StripSlots(slots[1..], rest);
        var more2 := if |slots[1..]| == 1 then rest else "," + WriteSlots(slots[1..][1..], true, rest);
        WriteStarts(second.value, true, second.after + more2);
        StripSeparator(second.before, Write(second.value, true, second.after + more2));
      }
    }
  }

  lemma {:induction false} StripEntry(e: Entry, more: string)
    requires ArePieces(e.key) && AreBlanks(e.before) && AreBlanks(e.beforeColon)
    requires AreBlanks(e.slot.before) && AreBlanks(e.slot.after) && IsDoc(e.slot.value)
    ensures Strip(EntryOnto(e, true, more), false, false)
         == match Strip(more, false, false)
            case None => None
            case Some(out) => Some(EntryOnto(e, false, out))
    decreases e.slot.value, 2
  {
    var value := Write(e.slot.value, true, e.slot.after + more);
    var afterKey := e.beforeColon + (":" + (e.slot.before + value));
    StripBlanks(e.before, "\"" + WritePieces(e.key, "\"" + afterKey));
    StripLiteral(e.key, afterKey);
    StripBlanks(e.beforeColon, ":" + (e.slot.before + value));
    StripPlain(":", e.slot.before + value);
    StripBlanks(e.slot.before, value);
    StripDoc(e.slot.value, e.slot.after + more);
    StripBlanks(e.slot.after, more);
  }

  /** One member, then `more`. */
  function EntryOnto(e: Entry, keep: bool, more: string): string {
    e.before + ("\"" + WritePieces(e.key, "\"" + (e.beforeColon + (":" + (e.slot.before + Write(e.slot.value, keep, e.slot.after + more))))))
  }

  lemma {:induction false} StripEntries(entries: seq<Entry>, rest: string)
    requires AreEntries(entries)
    ensures Strip(WriteEntries(entries, true, rest), false, false)
         == match Strip(rest, false, false)
            case None => None
            case Some(out) => Some(WriteEntries(entries, false, out))
    decreases entries, 0
  {
    if entries == [] {
    } else {
      var next := WriteEntries(entries[1..], true, rest);
      var more := if |entries| == 1 then rest else "," + next;
      StripEntry(entries[0], more);
      assert WriteEntries(entries, true, rest) == EntryOnto(entries[0], true, more);
      if |entries| > 1 {
        var second := entries[1..][0];
        StripEntries(entries[1..], rest);
        var more2 := if |entries[1..]| == 1 then rest else "," + WriteEntries(entries[1..][1..], true, rest);
        StripSeparator(second.before, "\"" + WritePieces(second.key, "\"" + (second.beforeColon + (":" + (second.slot.before + Write(second.slot.value, true, second.slot.after + more2))))));
      }
    }
  }

  /** Stripping a text and reading it gives the value the text was written for: every way of writing the
      value, with white space around it and any choice of trailing commas, means the same afterwards. */
  lemma StrippedTextReads(d: Doc, before: string, after: string)
    requires IsDoc(d) && AreBlanks(before) && AreBlanks(after)
    ensures Strip(before + Write(d, true, after), false, false) == Some(before + Write(d, false, after))
    ensures Parse(before + Write(d, false, after)) == Some(ValueOf(d))
  {
    StripBlanks(before, Write(d, true, after));
    StripDoc(d, after);
    assert after + "" == after;
    StripBlanks(after, "");
    SkipsBlanks(before, Write(d, false, after));
    WriteStarts(d, false, after);
    SkipsBlanks(after, "");
    ReadsDoc(d, after);
  }
}
