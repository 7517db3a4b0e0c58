/** JSON values, the canonical serialiser shared by `scripts/release-sbom.ts`,
    `scripts/opencode-provenance.ts` and `scripts/release-licenses.ts`, and a reader of JSON text. */
module Json {
  import opened Wrappers
  import opened Sorting

  /** A parsed JSON text. A number is its text; members keep their order. */
  datatype Json =
    | Null
    | Bool(value: bool)
    | Number(text: string)
    | Str(text: string)
    | Arr(items: seq<Json>)
    | Obj(members: seq<Member>)

  datatype Member = Member(key: string, value: Json)

  // ---------------------------------------------------------------- number texts

  predicate IsDigit(c: char) {
    '0' <= c <= '9'
  }

  predicate IsNumberChar(c: char) {
    IsDigit(c) || c in "+-.eE"
  }

  function DropDigits(s: string): (r: string)
    ensures |r| <= |s|
  {
    if s != "" && IsDigit(s[0]) then DropDigits(s[1..]) else s
  }

  predicate IsExponent(s: string) {
    s == "" ||
    ((s[0] == 'e' || s[0] == 'E')
     && var digits := if |s| > 1 && (s[1] == '+' || s[1] == '-') then s[2..] else s[1..];
        digits != "" && DropDigits(digits) == "")
  }

  predicate IsFraction(s: string) {
    if s != "" && s[0] == '.' then |s| > 1 && IsDigit(s[1]) && IsExponent(DropDigits(s[1..])) else IsExponent(s)
  }

  /** The number grammar of JSON; its characters are spelled out for the reader's sake. */
  predicate IsNumberText(s: string) {
    var unsigned := if s != "" && s[0] == '-' then s[1..] else s;
    && unsigned != "" && IsDigit(unsigned[0])
    && IsFraction(if unsigned[0] == '0' then unsigned[1..] else DropDigits(unsigned))
    && forall i :: 0 <= i < |s| ==> IsNumberChar(s[i])
  }

  // ---------------------------------------------------------------- string literals

  /** One character of a string literal as it may be written. */
  datatype Piece =
    | Plain(c: char)
    | Short(letter: char)
    | Hex(h3: char, h2: char, h1: char, h0: char)

  function HexDigit(c: char): (r: int)
    ensures -1 <= r < 16
  {
    if '0' <= c <= '9' then c as int - '0' as int
    else if 'a' <= c <= 'f' then c as int - 'a' as int + 10
    else if 'A' <= c <= 'F' then c as int - 'A' as int + 10
    else -1
  }

  /** What a two-character escape stands for. */
  function Unescape(letter: char): Option<char> {
    if letter == '"' || letter == '\\' || letter == '/' then Some(letter)
    else if letter == 'b' then Some(8 as char)
    else if letter == 'f' then Some(12 as char)
    else if letter == 'n' then Some('\n')
    else if letter == 'r' then Some('\r')
    else if letter == 't' then Some('\t')
    else None
  }

  /** The scalar value of four hexadecimal digits; surrogates are not scalar values. */
  function FromHex(h3: char, h2: char, h1: char, h0: char): Option<char> {
    var a, b, c, d := HexDigit(h3), HexDigit(h2), HexDigit(h1), HexDigit(h0);
    if a < 0 || b < 0 || c < 0 || d < 0 then None else
    var code := ((a * 16 + b) * 16 + c) * 16 + d;
    if 0xD800 <= code < 0xE000 then None else Some(code as char)
  }

  predicate IsPiece(p: Piece) {
    match p
    case Plain(c) => c != '"' && c != '\\' && c as int >= 0x20
    case Short(letter) => Unescape(letter).Some?
    case Hex(h3, h2, h1, h0) => FromHex(h3, h2, h1, h0).Some?
  }

  function PieceText(p: Piece): (r: string)
    ensures r != ""
  {
    match p
    case Plain(c) => [c]
    case Short(letter) => ['\\', letter]
    case Hex(h3, h2, h1, h0) => ['\\', 'u', h3, h2, h1, h0]
  }

  function PieceChar(p: Piece): char
    requires IsPiece(p)
  {
    match p
    case Plain(c) => c
    case Short(letter) => Unescape(letter).value
    case Hex(h3, h2, h1, h0) => FromHex(h3, h2, h1, h0).value
  }

  predicate ArePieces(ps: seq<Piece>) {
    forall i :: 0 <= i < |ps| ==> IsPiece(ps[i])
  }

  function PiecesText(ps: seq<Piece>): string {
    if ps == [] then "" else PieceText(ps[0]) + PiecesText(ps[1..])
  }

  function PiecesValue(ps: seq<Piece>): string
    requires ArePieces(ps)
  {
    if ps == [] then "" else [PieceChar(ps[0])] + PiecesValue(ps[1..])
  }

  function LowerHex(n: int): char
    requires 0 <= n < 16
  {
    if n < 10 then ('0' as int + n) as char else ('a' as int + n - 10) as char
  }

  /** How `JSON.stringify` writes a character. */
  function StringifyChar(c: char): (p: Piece) {
    if c == '"' || c == '\\' then Short(c)
    else if c as int == 8 then Short('b')
    else if c as int == 12 then Short('f')
    else if c == '\n' then Short('n')
    else if c == '\r' then Short('r')
    else if c == '\t' then Short('t')
    else if c as int < 0x20 then Hex('0', '0', LowerHex(c as int / 16), LowerHex(c as int % 16))
    else Plain(c)
  }

  function StringifyPieces(s: string): (ps: seq<Piece>)
    ensures |ps| == |s|
  {
    if s == "" then [] else [StringifyChar(s[0])] + StringifyPieces(s[1..])
  }

  /** `JSON.stringify` of a string. */
  function Quote(s: string): string {
    "\"" + PiecesText(StringifyPieces(s)) + "\""
  }

  lemma StringifyCharReads(c: char)
    ensures IsPiece(StringifyChar(c)) && PieceChar(StringifyChar(c)) == c
  {
    if c as int < 0x20 && StringifyChar(c).Hex? {
      assert HexDigit(LowerHex(c as int / 16)) == c as int / 16;
      assert HexDigit(LowerHex(c as int % 16)) == c as int % 16;
    }
  }

  /** `JSON.stringify` escapes only what it must: by a letter where there is one (a slash needs none), by four
      lower-case digits any other control character, and nothing else. */
  lemma StringifyCharIsMinimal(c: char)
    ensures StringifyChar(c).Short? <==> exists letter :: letter != '/' && Unescape(letter) == Some(c)
    ensures StringifyChar(c).Hex? <==> c < ' ' && forall letter :: Unescape(letter) != Some(c)
    ensures match StringifyChar(c)
            case Hex(h3, h2, h1, h0) => forall h :: h in [h3, h2, h1, h0] ==> '0' <= h <= '9' || 'a' <= h <= 'f'
            case _ => true
  {
    var p := StringifyChar(c);
    if p.Short? {
      assert Unescape(p.letter) == Some(c) && p.letter != '/';
    }
  }

  lemma {:induction false} StringifyPiecesRead(s: string)
    ensures ArePieces(StringifyPieces(s)) && PiecesValue(StringifyPieces(s)) == s
  {
    if s == "" {
    } else {
      StringifyCharReads(s[0]);
      StringifyPiecesRead(s[1..]);
    }
  }

  // ---------------------------------------------------------------- the values a program passes in

  /** A JavaScript value as the serialiser sees it. Members of an object have distinct keys. */
  datatype Value =
    | VNull
    | VBool(value: bool)
    | VNumber(text: string)
    | VNonFinite
    | VString(text: string)
    | VArray(items: seq<Value>)
    | VObject(members: seq<VMember>)
    | VUndefined
    | VOther

  datatype VMember = VMember(key: string, value: Value)

  function VKey(m: VMember): string { m.key }

  function Key(m: Member): string { m.key }

  /** Objects have distinct keys and finite numbers their JSON text, all the way down. */
  ghost predicate WellFormed(v: Value)
    decreases v, 1
  {
    match v
    case VNumber(text) => IsNumberText(text)
    case VArray(items) => AllWellFormed(items)
    case VObject(members) => DistinctKeys(VKey, members) && MembersWellFormed(members)
    case _ => true
  }

  ghost predicate AllWellFormed(items: seq<Value>)
    decreases items, 0
  {
    items == [] || (WellFormed(items[0]) && AllWellFormed(items[1..]))
  }

  ghost predicate MembersWellFormed(members: seq<VMember>)
    decreases members, 0
  {
    members == [] || (WellFormed(members[0].value) && MembersWellFormed(members[1..]))
  }

  // ---------------------------------------------------------------- the serialiser

  /** `canonicalJson`: none when it throws. Each member is serialised, then members are put in key order. */
  function CanonicalJson(v: Value): Option<string>
    decreases v, 1
  {
    match v
    case VNull => Some("null")
    case VBool(b) => Some(if b then "true" else "false")
    case VNumber(text) => Some(text)
    case VNonFinite => None
    case VString(text) => Some(Quote(text))
    case VArray(items) =>
      (match CanonicalItems(items)
       case None => None
       case Some(texts) => Some("[" + JoinWithCommas(texts) + "]"))
    case VObject(members) =>
      (match CanonicalMembers(members)
       case None => None
       case Some(pairs) => Some("{" + JoinWithCommas(PairTexts(SortBy(PairKey, pairs))) + "}"))
    case VUndefined => None
    case VOther => None
  }

  function CanonicalItems(items: seq<Value>): (r: Option<seq<string>>)
    ensures r.Some? ==> |r.value| == |items|
    decreases items, 0
  {
    if items == [] then Some([]) else
    match CanonicalJson(items[0])
    case None => None
    case Some(first) =>
      match CanonicalItems(items[1..])
      case None => None
      case Some(rest) => Some([first] + rest)
  }

  /** A key with the text of its value. */
  datatype Pair = Pair(key: string, text: string)

  function PairKey(p: Pair): string { p.key }

  function PairText(p: Pair): string {
    Quote(p.key) + ":" + p.text
  }

  function PairTexts(ps: seq<Pair>): (r: seq<string>)
    ensures |r| == |ps|
  {
    if ps == [] then [] else [PairText(ps[0])] + PairTexts(ps[1..])
  }

  function CanonicalMembers(members: seq<VMember>): (r: Option<seq<Pair>>)
    decreases members, 0
  {
    if members == [] then Some([])
    else if members[0].value.VUndefined? then CanonicalMembers(members[1..])
    else
      match CanonicalJson(members[0].value)
      case None => None
      case Some(text) =>
        match CanonicalMembers(members[1..])
        case None => None
        case Some(rest) => Some([Pair(members[0].key, text)] + rest)
  }

  function JoinWithCommas(texts: seq<string>): string {
    if texts == [] then ""
    else if |texts| == 1 then texts[0]
    else texts[0] + "," + JoinWithCommas(texts[1..])
  }

  // ---------------------------------------------------------------- its meaning

  /** The value a canonical text stands for: undefined members dropped, the rest in key order. */
  function Normal(v: Value): Option<Json>
    decreases v, 1
  {
    match v
    case VNull => Some(Null)
    case VBool(b) => Some(Bool(b))
    case VNumber(text) => Some(Number(text))
    case VNonFinite => None
    case VString(text) => Some(Str(text))
    case VArray(items) =>
      (match NormalItems(items)
       case None => None
       case Some(js) => Some(Arr(js)))
    case VObject(members) =>
      (match NormalMembers(members)
       case None => None
       case Some(ms) => Some(Obj(SortBy(Key, ms))))
    case VUndefined => None
    case VOther => None
  }

  function NormalItems(items: seq<Value>): (r: Option<seq<Json>>)
    ensures r.Some? ==> |r.value| == |items|
    decreases items, 0
  {
    if items == [] then Some([]) else
    match Normal(items[0])
    case None => None
    case Some(first) =>
      match NormalItems(items[1..])
      case None => None
      case Some(rest) => Some([first] + rest)
  }

  function NormalMembers(members: seq<VMember>): (r: Option<seq<Member>>)
    decreases members, 0
  {
    if members == [] then Some([])
    else if members[0].value.VUndefined? then NormalMembers(members[1..])
    else
      match Normal(members[0].value)
      case None => None
      case Some(j) =>
        match NormalMembers(members[1..])
        case None => None
        case Some(rest) => Some([Member(members[0].key, j)] + rest)
  }

  /** Compact text of a parsed value. */
  function Print(j: Json): string
    decreases j, 1
  {
    match j
    case Null => "null"
    case Bool(b) => if b then "true" else "false"
    case Number(text) => text
    case Str(text) => Quote(text)
    case Arr(items) => "[" + JoinWithCommas(PrintItems(items)) + "]"
    case Obj(members) => "{" + JoinWithCommas(PairTexts(PrintMembers(members))) + "}"
  }

  function PrintItems(items: seq<Json>): (r: seq<string>)
    ensures |r| == |items|
    decreases items, 0
  {
    if items == [] then [] else [Print(items[0])] + PrintItems(items[1..])
  }

  function PrintMembers(members: seq<Member>): (r: seq<Pair>)
    ensures |r| == |members|
    decreases members, 0
  {
    if members == [] then [] else [Pair(members[0].key, Print(members[0].value))] + PrintMembers(members[1..])
  }

  function PrintMember(m: Member): Pair {
    Pair(m.key, Print(m.value))
  }

  // ---------------------------------------------------------------- the serialiser prints the normal form

  lemma {:induction false} PrintInsert(m: Member, ms: seq<Member>)
    ensures PrintMembers(Insert(Key, m, ms)) == Insert(PairKey, PrintMember(m), PrintMembers(ms))
  {
    if ms == [] {
      assert [m][1..] == [];
    } else if NotAfter(m.key, ms[0].key) {
      assert ([m] + ms)[1..] == ms;
    } else {
      PrintInsert(m, ms[1..]);
      assert ([ms[0]] + Insert(Key, m, ms[1..]))[1..] == Insert(Key, m, ms[1..]);
    }
  }

  lemma {:induction false} PrintSorted(ms: seq<Member>)
    ensures PrintMembers(SortBy(Key, ms)) == SortBy(PairKey, PrintMembers(ms))
  {
    if ms == [] {
    } else {
      PrintSorted(ms[1..]);
      PrintInsert(ms[0], SortBy(Key, ms[1..]));
      assert PrintMembers(ms)[0] == PrintMember(ms[0]);
      assert PrintMembers(ms)[1..] == PrintMembers(ms[1..]);
    }
  }

  /** The serialiser throws exactly when there is no normal form, and otherwise prints it. */
  lemma {:induction false} CanonicalPrintsNormal(v: Value)
    ensures CanonicalJson(v).Some? <==> Normal(v).Some?
    ensures Normal(v).Some? ==> CanonicalJson(v) == Some(Print(Normal(v).value))
    decreases v, 1
  {
    match v
    case VArray(items) =>
      CanonicalItemsPrintNormal(items);
    case VObject(members) =>
      CanonicalMembersPrintNormal(members);
      if NormalMembers(members).Some? {
        PrintSorted(NormalMembers(members).value);
      }
    case _ =>
  }

  lemma {:induction false} CanonicalItemsPrintNormal(items: seq<Value>)
    ensures CanonicalItems(items).Some? <==> NormalItems(items).Some?
    ensures NormalItems(items).Some? ==> CanonicalItems(items) == Some(PrintItems(NormalItems(items).value))
    decreases items, 0
  {
    if items != [] {
      CanonicalPrintsNormal(items[0]);
      CanonicalItemsPrintNormal(items[1..]);
      if NormalItems(items).Some? {
        var rest := NormalItems(items[1..]).value;
        assert NormalItems(items).value[1..] == rest;
      }
    }
  }

  lemma {:induction false} CanonicalMembersPrintNormal(members: seq<VMember>)
    ensures CanonicalMembers(members).Some? <==> NormalMembers(members).Some?
    ensures NormalMembers(members).Some? ==> CanonicalMembers(members) == Some(PrintMembers(NormalMembers(members).value))
    decreases members, 0
  {
    if members != [] {
      CanonicalMembersPrintNormal(members[1..]);
      if !members[0].value.VUndefined? {
        CanonicalPrintsNormal(members[0].value);
        if NormalMembers(members).Some? {
          assert NormalMembers(members).value[1..] == NormalMembers(members[1..]).value;
        }
      }
    }
  }
}
