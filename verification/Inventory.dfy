/** File receipts and their texts: what `inventoryAddress` of `scripts/s12-closure.ts` hashes, and how inventories
    are compared. */
module Inventory {
  import opened Wrappers
  import opened Sorting
  import opened PortablePath
  import opened Json
  import opened JsonText
  import opened JsonCanonical

  datatype FileReceipt = FileReceipt(path: string, bytes: nat, sha256: string)

  function PathOf(f: FileReceipt): string { f.path }

  // ---------------------------------------------------------------- decimal numbers

  function DecimalDigit(n: nat): char
    requires n < 10
  {
    ('0' as int + n) as char
  }

  /** The JSON text of a natural number. */
  function Decimal(n: nat): (r: string)
    ensures r != ""
  {
    if n < 10 then [DecimalDigit(n)] else Decimal(n / 10) + [DecimalDigit(n % 10)]
  }

  function FromDecimal(s: string): int {
    if s == "" then 0 else FromDecimal(s[..|s| - 1]) * 10 + (s[|s| - 1] as int - '0' as int)
  }

  lemma {:induction false} DecimalReads(n: nat)
    ensures FromDecimal(Decimal(n)) == n
  {
    var s := Decimal(n);
    if n < 10 {
      assert s[..0] == "";
    } else {
      DecimalReads(n / 10);
      assert s[..|s| - 1] == Decimal(n / 10);
    }
  }

  lemma DecimalInjective(m: nat, n: nat)
    ensures Decimal(m) == Decimal(n) ==> m == n
  {
    DecimalReads(m);
    DecimalReads(n);
  }

  lemma {:induction false} DecimalDigits(n: nat)
    ensures forall i :: 0 <= i < |Decimal(n)| ==> IsDigit(Decimal(n)[i])
    ensures Decimal(n)[0] == '0' ==> n == 0
  {
    if n >= 10 {
      DecimalDigits(n / 10);
      assert Decimal(n)[0] == Decimal(n / 10)[0];
    }
  }

  lemma {:induction false} AllDigitsDrop(s: string)
    requires forall i :: 0 <= i < |s| ==> IsDigit(s[i])
    ensures DropDigits(s) == ""
  {
    if s != "" {
      AllDigitsDrop(s[1..]);
    }
  }

  lemma DecimalIsNumber(n: nat)
    ensures IsNumberText(Decimal(n))
  {
    var s := Decimal(n);
    DecimalDigits(n);
    AllDigitsDrop(s);
    assert IsDigit(s[0]);
    if s[0] == '0' {
      assert s == "0";
    }
    assert IsFraction("");
  }

  // ---------------------------------------------------------------- receipts as JSON

  /** A receipt as a triple, and as an object. */
  function Triple(f: FileReceipt): Json {
    Arr([Str(f.path), Number(Decimal(f.bytes)), Str(f.sha256)])
  }

  function Record(f: FileReceipt): Json {
    Obj([Member("path", Str(f.path)), Member("bytes", Number(Decimal(f.bytes))), Member("sha256", Str(f.sha256))])
  }

  function Jsons(write: FileReceipt -> Json, files: seq<FileReceipt>): (r: seq<Json>)
    ensures |r| == |files| && forall i :: 0 <= i < |r| ==> r[i] == write(files[i])
  {
    if files == [] then [] else [write(files[0])] + Jsons(write, files[1..])
  }

  ghost predicate IsWriter(write: FileReceipt -> Json) {
    && (forall f :: IsValid(write(f)))
    && forall f, g :: write(f) == write(g) ==> f == g
  }

  lemma ThreeValid(a: Json, b: Json, c: Json)
    requires IsValid(a) && IsValid(b) && IsValid(c)
    ensures AreValid([a, b, c])
  {
    assert AreValid([]);
    assert [c][1..] == [] && [b, c][1..] == [c] && [a, b, c][1..] == [b, c];
    assert AreValid([c]);
    assert AreValid([b, c]);
  }

  lemma ThreeMembersValid(a: Member, b: Member, c: Member)
    requires IsValid(a.value) && IsValid(b.value) && IsValid(c.value)
    ensures MembersValid([a, b, c])
  {
    assert MembersValid([]);
    assert [c][1..] == [] && [b, c][1..] == [c] && [a, b, c][1..] == [b, c];
    assert MembersValid([c]);
    assert MembersValid([b, c]);
  }

  lemma TripleIsWriter()
    ensures IsWriter(Triple)
  {
    forall f
      ensures IsValid(Triple(f))
    {
      DecimalIsNumber(f.bytes);
      ThreeValid(Str(f.path), Number(Decimal(f.bytes)), Str(f.sha256));
    }
    forall f, g | Triple(f) == Triple(g)
      ensures f == g
    {
      var a, b := Triple(f).items, Triple(g).items;
      assert a[0] == b[0] && a[1] == b[1] && a[2] == b[2];
      DecimalInjective(f.bytes, g.bytes);
    }
  }

  lemma RecordIsWriter()
    ensures IsWriter(Record)
  {
    forall f
      ensures IsValid(Record(f))
    {
      DecimalIsNumber(f.bytes);
      var members := Record(f).members;
      ThreeMembersValid(members[0], members[1], members[2]);
    }
    forall f, g | Record(f) == Record(g)
      ensures f == g
    {
      var a, b := Record(f).members, Record(g).members;
      assert a[0] == b[0] && a[1] == b[1] && a[2] == b[2];
      DecimalInjective(f.bytes, g.bytes);
    }
  }

  lemma {:induction false} JsonsValid(write: FileReceipt -> Json, files: seq<FileReceipt>)
    requires IsWriter(write)
    ensures AreValid(Jsons(write, files))
  {
    if files != [] {
      JsonsValid(write, files[1..]);
      assert Jsons(write, files)[1..] == Jsons(write, files[1..]);
    }
  }

  lemma JsonsInjective(write: FileReceipt -> Json, xs: seq<FileReceipt>, ys: seq<FileReceipt>)
    requires IsWriter(write)
    ensures Jsons(write, xs) == Jsons(write, ys) ==> xs == ys
  {
    if Jsons(write, xs) == Jsons(write, ys) {
      assert |Jsons(write, xs)| == |Jsons(write, ys)|;
      forall i | 0 <= i < |xs|
        ensures xs[i] == ys[i]
      {
        assert Jsons(write, xs)[i] == Jsons(write, ys)[i];
      }
    }
  }

  /** `JSON.stringify` of an inventory. */
  function ReceiptsText(files: seq<FileReceipt>): string {
    Print(Arr(Jsons(Record, files)))
  }

  /** Inventories compared as text are compared as lists. */
  lemma TextDecidesReceipts(xs: seq<FileReceipt>, ys: seq<FileReceipt>)
    ensures ReceiptsText(xs) == ReceiptsText(ys) <==> xs == ys
  {
    RecordIsWriter();
    var a, b := Jsons(Record, xs), Jsons(Record, ys);
    JsonsValid(Record, xs);
    JsonsValid(Record, ys);
    PrintReads(Arr(a));
    PrintReads(Arr(b));
    JsonsInjective(Record, xs, ys);
  }

  // ---------------------------------------------------------------- the content address

  /** `assertPortableInventoryPath`. */
  predicate IsInventoryPath(u: Unicode, path: string) {
    && path != "" && u.nfc(path) == path && path[0] != '/' && '\\' !in path && !HasControl(path)
    && forall i :: 0 <= i < |Split(path)| ==> IsInventorySegment(Split(path)[i])
  }

  predicate IsInventorySegment(s: string) {
    && s != "" && s != "." && s != ".."
    && (forall i :: 0 <= i < |s| ==> !IsForbidden(s[i]))
    && s[|s| - 1] != '.' && s[|s| - 1] != ' '
    && !IsWindowsReserved(s)
  }

  /** A segment no file system mistakes for another name or for a device. */
  ghost predicate IsPlainName(s: string) {
    && s != "" && s != "." && s != ".."
    && (forall i :: 0 <= i < |s| ==> s[i] !in "<>:\"|?*")
    && s[|s| - 1] != '.' && s[|s| - 1] != ' '
    && !NamesDevice(s)
  }

  lemma PlainNameExactly(s: string)
    ensures IsInventorySegment(s) <==> IsPlainName(s)
  {
    ReservedExactly(s);
  }

  ghost predicate ArePlainNames(segments: seq<string>) {
    forall i :: 0 <= i < |segments| ==> IsPlainName(segments[i])
  }

  lemma PlainNamesExactly(segments: seq<string>)
    ensures (forall i :: 0 <= i < |segments| ==> IsInventorySegment(segments[i])) <==> ArePlainNames(segments)
  {
    forall i | 0 <= i < |segments|
      ensures IsInventorySegment(segments[i]) <==> IsPlainName(segments[i])
    {
      PlainNameExactly(segments[i]);
    }
  }

  lemma FreeOfBackslash(path: string)
    ensures IsFreeOf(path, "\\") <==> '\\' !in path && !HasControl(path)
  {
    var backslash := "\\";
    assert forall c: char :: c in backslash <==> c == '\\';
    if '\\' in path {
      var i :| 0 <= i < |path| && path[i] == '\\';
      assert path[i] in backslash;
    }
  }

  /** An inventory path is accepted exactly when it is normalised, relative, without control characters or
      backslashes, and each of its segments is a plain name. */
  lemma InventoryPathExactly(u: Unicode, path: string)
    ensures IsInventoryPath(u, path) <==>
            && path != "" && u.nfc(path) == path && path[0] != '/' && IsFreeOf(path, "\\")
            && ArePlainNames(Split(path))
  {
    FreeOfBackslash(path);
    PlainNamesExactly(Split(path));
  }

  predicate IsHash(s: string) {
    |s| == 64 && forall i :: 0 <= i < |s| ==> '0' <= s[i] <= '9' || 'a' <= s[i] <= 'f'
  }

  /** A SHA-256 digest: 64 lower-case hexadecimal digits. */
  lemma HashExactly(s: string)
    ensures IsHash(s) <==> |s| == 64 && forall i :: 0 <= i < |s| ==> s[i] in "0123456789abcdef"
  {
    forall c: char
      ensures c in "0123456789abcdef" <==> '0' <= c <= '9' || 'a' <= c <= 'f'
    {
      HexDigitExactly(c);
    }
  }

  lemma HexDigitExactly(c: char)
    ensures c in "0123456789abcdef" <==> '0' <= c <= '9' || 'a' <= c <= 'f'
  {
    var digits := "0123456789abcdef";
    if '0' <= c <= '9' {
      assert digits[c as int - '0' as int] == c;
    }
    if 'a' <= c <= 'f' {
      assert digits[c as int - 'a' as int + 10] == c;
    }
  }

  predicate IsReceipt(u: Unicode, f: FileReceipt) {
    IsInventoryPath(u, f.path) && IsHash(f.sha256) && f.bytes < 0x20_0000_0000_0000
  }

  /** A receipt with a portable path, a digest and a size that a JavaScript number holds exactly. */
  ghost predicate IsAddressable(u: Unicode, f: FileReceipt) {
    IsInventoryPath(u, f.path) && IsHash(f.sha256) && f.bytes <= 9007199254740991
  }

  /** The receipt lists that have an address: valid receipts whose paths stay distinct in lower case. */
  ghost predicate HasAddress(u: Unicode, files: seq<FileReceipt>) {
    && (forall f :: f in files ==> IsAddressable(u, f))
    && forall i, j :: 0 <= i < j < |files| ==> u.lower(files[i].path) != u.lower(files[j].path)
  }

  /** The text that is hashed, for a sorted list. */
  function AddressText(sorted: seq<FileReceipt>): string {
    Print(AddressJson(sorted))
  }

  function AddressJson(sorted: seq<FileReceipt>): Json {
    Obj([Member("schemaVersion", Number("1")), Member("files", Arr(Jsons(Triple, sorted)))])
  }

  lemma AddressTextReads(files: seq<FileReceipt>)
    ensures Parse(AddressText(files)) == Some(AddressJson(files))
  {
    TripleIsWriter();
    JsonsValid(Triple, files);
    TwoMembersValid(Member("schemaVersion", Number("1")), Member("files", Arr(Jsons(Triple, files))));
    PrintReads(AddressJson(files));
  }

  /** An item of the hashed text: path, size in decimal, hash. */
  ghost predicate IsItemOf(item: Json, f: FileReceipt) {
    exists size :: item == Arr([Str(f.path), Number(size), Str(f.sha256)]) && FromDecimal(size) == f.bytes
  }

  /** The hashed text parses to schema version 1 and one item for each file, in order. */
  lemma AddressTextMeans(files: seq<FileReceipt>) returns (items: seq<Json>)
    ensures Parse(AddressText(files)) == Some(Obj([Member("schemaVersion", Number("1")), Member("files", Arr(items))]))
    ensures |items| == |files| && forall i :: 0 <= i < |files| ==> IsItemOf(items[i], files[i])
  {
    AddressTextReads(files);
    items := Jsons(Triple, files);
    forall i | 0 <= i < |files|
      ensures IsItemOf(items[i], files[i])
    {
      DecimalReads(files[i].bytes);
    }
  }

  lemma TwoMembersValid(a: Member, b: Member)
    requires IsValid(b.value) && a.value == Number("1")
    ensures MembersValid([a, b])
  {
    DecimalIsNumber(1);
    assert Decimal(1) == "1";
    assert MembersValid([]);
    assert [b][1..] == [] && [a, b][1..] == [b];
    assert MembersValid([b]);
  }

  lemma AddressTextDecidesList(xs: seq<FileReceipt>, ys: seq<FileReceipt>)
    ensures AddressText(xs) == AddressText(ys) ==> xs == ys
  {
    AddressTextReads(xs);
    AddressTextReads(ys);
    TripleIsWriter();
    JsonsInjective(Triple, xs, ys);
    var a, b := AddressJson(xs), AddressJson(ys);
    assert a == b ==> a.members[1].value.items == b.members[1].value.items;
  }

  lemma DistinctPaths(u: Unicode, files: seq<FileReceipt>)
    requires HasAddress(u, files)
    ensures DistinctKeys(PathOf, files)
  {
    forall i, j | 0 <= i < j < |files|
      ensures PathOf(files[i]) != PathOf(files[j])
    {
      assert u.lower(files[i].path) != u.lower(files[j].path);
    }
  }

  /** The same text is hashed for two accepted lists exactly when they are the same receipts in some order. */
  lemma SameAddressText(u: Unicode, xs: seq<FileReceipt>, ys: seq<FileReceipt>)
    requires HasAddress(u, xs) && HasAddress(u, ys)
    ensures AddressText(SortBy(PathOf, xs)) == AddressText(SortBy(PathOf, ys)) <==> multiset(xs) == multiset(ys)
  {
    SortPermutes(PathOf, xs);
    SortPermutes(PathOf, ys);
    AddressTextDecidesList(SortBy(PathOf, xs), SortBy(PathOf, ys));
    if multiset(xs) == multiset(ys) {
      DistinctPaths(u, xs);
      SortForgetsOrder(PathOf, xs, ys);
    }
  }

  // ---------------------------------------------------------------- the loop

  ghost predicate Addressing(u: Unicode, done: seq<FileReceipt>, paths: set<string>, folded: set<string>) {
    && HasAddress(u, done)
    && (forall p :: p in paths <==> exists i :: 0 <= i < |done| && done[i].path == p)
    && (forall p :: p in folded <==> exists i :: 0 <= i < |done| && u.lower(done[i].path) == p)
  }

  lemma AddressingNext(u: Unicode, done: seq<FileReceipt>, paths: set<string>, folded: set<string>, f: FileReceipt)
    requires Addressing(u, done, paths, folded) && IsReceipt(u, f) && u.lower(f.path) !in folded
    ensures Addressing(u, done + [f], paths + {f.path}, folded + {u.lower(f.path)})
  {
    var more := done + [f];
    assert more[|done|] == f;
    assert forall i :: 0 <= i < |done| ==> more[i] == done[i];
    forall p
      ensures p in paths + {f.path} <==> exists i :: 0 <= i < |more| && more[i].path == p
    {
      if p in paths {
        var i :| 0 <= i < |done| && done[i].path == p;
        assert more[i].path == p;
      }
    }
    forall p
      ensures p in folded + {u.lower(f.path)} <==> exists i :: 0 <= i < |more| && u.lower(more[i].path) == p
    {
      if p in folded {
        var i :| 0 <= i < |done| && u.lower(done[i].path) == p;
        assert u.lower(more[i].path) == p;
      }
    }
  }

  lemma Collides(u: Unicode, done: seq<FileReceipt>, paths: set<string>, folded: set<string>, f: FileReceipt, rest: seq<FileReceipt>)
    requires Addressing(u, done, paths, folded) && (f.path in paths || u.lower(f.path) in folded)
    ensures !HasAddress(u, done + [f] + rest)
  {
    var all := done + [f] + rest;
    if f.path in paths {
      var i :| 0 <= i < |done| && done[i].path == f.path;
      assert u.lower(all[i].path) == u.lower(all[|done|].path);
    } else {
      var i :| 0 <= i < |done| && u.lower(done[i].path) == u.lower(f.path);
      assert u.lower(all[i].path) == u.lower(all[|done|].path);
    }
  }

  lemma HasAddressSorted(u: Unicode, files: seq<FileReceipt>)
    ensures HasAddress(u, SortBy(PathOf, files)) <==> HasAddress(u, files)
  {
    SortPermutes(PathOf, files);
    AddressPermuted(u, files, SortBy(PathOf, files));
    AddressPermuted(u, SortBy(PathOf, files), files);
  }

  lemma AddressPermuted(u: Unicode, xs: seq<FileReceipt>, ys: seq<FileReceipt>)
    requires multiset(xs) == multiset(ys)
    ensures HasAddress(u, xs) ==> HasAddress(u, ys)
  {
    if HasAddress(u, xs) {
      forall f | f in ys
        ensures IsAddressable(u, f)
      {
        assert f in multiset(ys);
        assert f in xs;
      }
      forall i, j | 0 <= i < j < |ys|
        ensures u.lower(ys[i].path) != u.lower(ys[j].path)
      {
        FoldedApart(u, xs, ys, i, j);
      }
    }
  }

  lemma FoldedApart(u: Unicode, xs: seq<FileReceipt>, ys: seq<FileReceipt>, i: nat, j: nat)
    requires multiset(xs) == multiset(ys) && HasAddress(u, xs) && i < j < |ys|
    ensures u.lower(ys[i].path) != u.lower(ys[j].path)
  {
    var a := MemberKept(ys, xs, i);
    var b := MemberKept(ys, xs, j);
    if a == b {
      TwiceCounted(ys, i, j);
      OneCopy(u, xs, a);
    }
  }

  lemma OneCopy(u: Unicode, xs: seq<FileReceipt>, i: nat)
    requires HasAddress(u, xs) && i < |xs|
    ensures multiset(xs)[xs[i]] == 1
  {
    forall a, b | 0 <= a < b < |xs|
      ensures xs[a] != xs[b]
    {
      assert u.lower(xs[a].path) != u.lower(xs[b].path);
    }
    DistinctMultiplicity(xs, xs[i]);
  }

  /** The text an inventory's address is the hash of, or none when the inventory is not acceptable. */
  method AddressOf(u: Unicode, files: seq<FileReceipt>) returns (r: Option<string>)
    ensures r.Some? <==> HasAddress(u, files)
    ensures r.Some? ==> r.value == AddressText(SortBy(PathOf, files))
  {
    var sorted := SortBy(PathOf, files);
    HasAddressSorted(u, files);
    var paths: set<string>, folded: set<string> := {}, {};
    for i := 0 to |sorted|
      invariant Addressing(u, sorted[..i], paths, folded)
    {
      var f := sorted[i];
      NextReceipt(sorted, i);
      if !IsReceipt(u, f) {
        return None;
      }
      if f.path in paths || u.lower(f.path) in folded {
        Collides(u, sorted[..i], paths, folded, f, sorted[i + 1..]);
        return None;
      }
      AddressingNext(u, sorted[..i], paths, folded, f);
      paths := paths + {f.path};
      folded := folded + {u.lower(f.path)};
    }
    assert sorted[..|sorted|] == sorted;
    r := Some(AddressText(sorted));
  }

  lemma NextReceipt(sorted: seq<FileReceipt>, i: nat)
    requires i < |sorted|
    ensures sorted[i] in sorted && sorted[..i + 1] == sorted[..i] + [sorted[i]]
    ensures sorted == sorted[..i] + [sorted[i]] + sorted[i + 1..]
  {
  }
}
