/** The ustar header of `scripts/release-archive.ts`: octal fields, the prefix/name split, the checksum, and
    a reader for the "ustar Interchange Format" of `pax` in IEEE Std 1003.1. */
module Ustar {
  import opened Wrappers
  import opened Bits
  import opened Utf8
  import opened Files

  const NAME_BYTES := 100
  const PREFIX_BYTES := 155
  const BLOCK_BYTES := 512

  // ---------------------------------------------------------------- octal fields

  function OctalDigits(n: nat): (r: seq<byte>)
    ensures |r| >= 1
  {
    if n < 8 then [48 + n] else OctalDigits(n / 8) + [48 + n % 8]
  }

  function Pow8(n: nat): (r: nat)
    ensures r >= 1
  {
    if n == 0 then 1 else 8 * Pow8(n - 1)
  }

  /** `n` bytes of the character '0'. */
  function ZeroDigits(n: nat): (r: seq<byte>)
    ensures |r| == n
  {
    seq(n, i => 48)
  }

  /** `writeOctal`: left-padded digits and a NUL, when they fit. */
  function OctalField(n: nat, length: nat): (r: Option<seq<byte>>)
    requires length >= 1
    ensures r.Some? ==> |r.value| == length
  {
    var digits := OctalDigits(n);
    if |digits| > length - 1 then None
    else Some(ZeroDigits(length - 1 - |digits|) + digits + [0])
  }

  /** Octal digits up to a NUL or a space, as a reader of the format takes them. */
  function ReadOctal(s: seq<byte>, soFar: nat): Option<nat>
    decreases |s|
  {
    if s == [] then None
    else if s[0] == 0 || s[0] == 32 then Some(soFar)
    else if 48 <= s[0] < 56 then ReadOctal(s[1..], 8 * soFar + (s[0] - 48))
    else None
  }

  /** The digits of `n` fit `width` places exactly when n < 8^width. */
  lemma {:induction false} OctalLength(n: nat, width: nat)
    requires width >= 1
    ensures |OctalDigits(n)| <= width <==> n < Pow8(width)
  {
    if width == 1 {
      assert Pow8(1) == 8 * Pow8(0);
    } else if n < 8 {
      assert Pow8(width) == 8 * Pow8(width - 1);
    } else {
      OctalLength(n / 8, width - 1);
      assert Pow8(width) == 8 * Pow8(width - 1);
    }
  }

  lemma {:induction false} ReadZeros(count: nat, rest: seq<byte>)
    ensures ReadOctal(ZeroDigits(count) + rest, 0) == ReadOctal(rest, 0)
  {
    if count == 0 {
      assert ZeroDigits(0) + rest == rest;
    } else {
      var s := ZeroDigits(count) + rest;
      assert s[0] == 48 && s[1..] == ZeroDigits(count - 1) + rest;
      ReadZeros(count - 1, rest);
    }
  }

  lemma {:induction false} ReadDigits(n: nat, rest: seq<byte>)
    ensures ReadOctal(OctalDigits(n) + rest, 0) == ReadOctal(rest, n)
    decreases n
  {
    if n < 8 {
      assert (OctalDigits(n) + rest)[1..] == rest;
    } else {
      var last := [48 + n % 8];
      assert OctalDigits(n) + rest == OctalDigits(n / 8) + (last + rest);
      ReadDigits(n / 8, last + rest);
      assert (last + rest)[1..] == rest;
    }
  }

  /** An octal field reads back to the number written. */
  lemma OctalReads(n: nat, length: nat, rest: seq<byte>)
    requires length >= 1 && OctalField(n, length).Some?
    ensures ReadOctal(OctalField(n, length).value + rest, 0) == Some(n)
  {
    var digits := OctalDigits(n);
    var pad := length - 1 - |digits|;
    assert OctalField(n, length).value + rest == ZeroDigits(pad) + (digits + ([0] + rest));
    ReadZeros(pad, digits + ([0] + rest));
    ReadDigits(n, [0] + rest);
  }

  /** A field is written exactly for the numbers its digits can hold. */
  lemma OctalFits(n: nat, length: nat)
    requires length >= 2
    ensures OctalField(n, length).Some? <==> n < Pow8(length - 1)
  {
    OctalLength(n, length - 1);
  }

  // ---------------------------------------------------------------- the path split

  predicate FitsName(name: string) {
    |Encode(name)| <= NAME_BYTES
  }

  predicate FitsPrefix(prefix: string) {
    |Encode(prefix)| <= PREFIX_BYTES
  }

  /** The separators from the last to the first; the first that leaves both parts short enough. */
  function SplitBefore(path: string, end: nat): (r: Option<(string, string)>)
    requires end <= |path|
  {
    if end == 0 then None else
    var index := end - 1;
    if path[index] == '/' && FitsPrefix(path[..index]) && FitsName(path[index + 1..])
    then Some((path[index + 1..], path[..index]))
    else SplitBefore(path, index)
  }

  /** The (name, prefix) pair of the header. */
  function SplitArchivePath(path: string): (r: Option<(string, string)>) {
    if FitsName(path) then Some((path, "")) else SplitBefore(path, |path|)
  }

  /** How a reader joins the two fields. */
  function Rejoin(name: seq<byte>, prefix: seq<byte>): seq<byte> {
    if prefix == [] then name else prefix + [47] + name
  }

  /** A prefix of at most 155 bytes and a name of at most 100, joined by a slash. */
  ghost predicate LegalSplit(path: string, name: string, prefix: string) {
    |Encode(name)| <= 100 && |Encode(prefix)| <= 155 && path == prefix + "/" + name
  }

  /** The path as a whole fits the name field, or some legal split of it exists. */
  ghost predicate CanSplit(path: string) {
    |Encode(path)| <= 100 || exists name, prefix :: LegalSplit(path, name, prefix)
  }

  lemma {:induction false} SplitSearch(path: string, end: nat, name: string, prefix: string)
    requires end <= |path| && |prefix| < end && LegalSplit(path, name, prefix)
    ensures SplitBefore(path, end).Some? && |SplitBefore(path, end).value.1| >= |prefix|
    decreases end
  {
    var index := end - 1;
    if |prefix| == index {
      assert path[..index] == prefix && path[index + 1..] == name;
    } else {
      SplitSearch(path, index, name, prefix);
    }
  }

  lemma {:induction false} SplitFound(path: string, end: nat)
    requires end <= |path| && SplitBefore(path, end).Some?
    ensures LegalSplit(path, SplitBefore(path, end).value.0, SplitBefore(path, end).value.1)
    decreases end
  {
    var index := end - 1;
    if path[index] == '/' && FitsPrefix(path[..index]) && FitsName(path[index + 1..]) {
      assert path == path[..index] + "/" + path[index + 1..];
    } else {
      SplitFound(path, index);
    }
  }

  /** The split succeeds exactly when the whole path fits the name field or some legal split exists. */
  lemma SplitSucceeds(path: string)
    ensures SplitArchivePath(path).Some? <==> CanSplit(path)
  {
    if !FitsName(path) {
      if SplitBefore(path, |path|).Some? {
        SplitFound(path, |path|);
      }
      if name, prefix :| LegalSplit(path, name, prefix) {
        SplitSearch(path, |path|, name, prefix);
      }
    }
  }

  /** Of all legal splits it returns the one with the longest prefix. */
  lemma SplitLongest(path: string, name: string, prefix: string)
    requires |Encode(path)| > 100 && LegalSplit(path, name, prefix)
    ensures SplitArchivePath(path).Some?
    ensures LegalSplit(path, SplitArchivePath(path).value.0, SplitArchivePath(path).value.1)
    ensures |SplitArchivePath(path).value.1| >= |prefix|
  {
    SplitSearch(path, |path|, name, prefix);
    SplitFound(path, |path|);
  }

  /** The fields of a relative path rejoin to it. */
  lemma SplitRejoins(path: string)
    requires SplitArchivePath(path).Some?
    requires path != "" && path[0] != '/'
    ensures var (name, prefix) := SplitArchivePath(path).value;
            Rejoin(Encode(name), Encode(prefix)) == Encode(path) && |Encode(name)| <= 100 && |Encode(prefix)| <= 155
            && (|Encode(path)| <= 100 ==> prefix == "")
  {
    if !FitsName(path) {
      SplitFound(path, |path|);
      var (name, prefix) := SplitArchivePath(path).value;
      JoinEncodes(name, prefix);
    }
  }

  lemma JoinEncodes(name: string, prefix: string)
    ensures Encode(prefix + "/" + name) == Encode(prefix) + [47] + Encode(name)
  {
    EncodeConcat(prefix + "/", name);
    EncodeConcat(prefix, "/");
    assert Encode("/") == EncodeChar('/') + Encode("");
  }

  // ---------------------------------------------------------------- the header block

  function Sum(s: seq<byte>): nat {
    if s == [] then 0 else s[0] + Sum(s[1..])
  }

  function PadRight(s: seq<byte>, length: nat): (r: seq<byte>)
    requires |s| <= length
    ensures |r| == length
  {
    s + ZeroBytes(length - |s|)
  }

  const MAGIC: seq<byte> := [117, 115, 116, 97, 114, 0]
  const VERSION: seq<byte> := [48, 48]
  const REGULAR_FILE: byte := 48

  function Mode(executable: bool): nat {
    if executable then 493 else 420
  }

  /** Fields up to the checksum: name, mode, owner, group, size, modification time. */
  function FrontFields(name: seq<byte>, mode: nat, size: nat, epoch: nat): (r: Option<seq<byte>>)
    requires |name| <= NAME_BYTES
    ensures r.Some? ==> |r.value| == 148
  {
    var modeField, zero := OctalField(mode, 8), OctalField(0, 8);
    var sizeField, timeField := OctalField(size, 12), OctalField(epoch, 12);
    if modeField.None? || zero.None? || sizeField.None? || timeField.None? then None else
    Some(PadRight(name, 100) + (modeField.value + (zero.value + (zero.value + (sizeField.value + timeField.value)))))
  }

  /** Fields after the checksum: type, link name, magic, version, owner names, prefix, padding. */
  function BackFields(prefix: seq<byte>): (r: seq<byte>)
    requires |prefix| <= PREFIX_BYTES
    ensures |r| == 356
  {
    [REGULAR_FILE] + (ZeroBytes(100) + (MAGIC + (VERSION + (ZeroBytes(80) + (PadRight(prefix, 155) + ZeroBytes(12))))))
  }

  /** Six octal digits, a NUL and a space. */
  function ChecksumField(sum: nat): (r: Option<seq<byte>>)
    ensures r.Some? ==> |r.value| == 8
  {
    match OctalField(sum, 7)
    case None => None
    case Some(digits) => Some(digits + [32])
  }

  /** The sum of all bytes of the block with the checksum field taken as eight spaces. */
  function Checksum(front: seq<byte>, back: seq<byte>): nat {
    Sum(front) + 8 * 32 + Sum(back)
  }

  /** The whole block, when every field fits. */
  function Header(path: string, executable: bool, size: nat, epoch: nat): (r: Option<seq<byte>>)
    ensures r.Some? ==> |r.value| == BLOCK_BYTES
  {
    match SplitArchivePath(path)
    case None => None
    case Some((name, prefix)) =>
      if !FitsName(name) || !FitsPrefix(prefix) then None else
      match FrontFields(Encode(name), Mode(executable), size, epoch)
      case None => None
      case Some(front) =>
        var back := BackFields(Encode(prefix));
        match ChecksumField(Checksum(front, back))
        case None => None
        case Some(checksum) => Some(front + checksum + back)
  }

  // ---------------------------------------------------------------- a reader of the block

  datatype Fields = Fields(path: seq<byte>, mode: nat, uid: nat, gid: nat, size: nat, mtime: nat,
                           link: seq<byte>, user: seq<byte>, group: seq<byte>)

  /** The fields of a regular file of user and group 0, which names neither, with mode 0755 or 0644. */
  ghost function FileFields(path: seq<byte>, executable: bool, size: nat, mtime: nat): Fields {
    Fields(path, if executable then 493 else 420, 0, 0, size, mtime, [], [], [])
  }

  /** The sum of the bytes, as a reader adds them up. */
  function Total(s: seq<byte>): nat {
    if s == [] then 0 else Total(s[..|s| - 1]) + s[|s| - 1]
  }

  function UpToNul(s: seq<byte>): seq<byte> {
    if s == [] || s[0] == 0 then [] else [s[0]] + UpToNul(s[1..])
  }

  /** A header of a regular file ("0") with the magic "ustar" and version "00", whose checksum is the sum of its bytes
      with the checksum field read as spaces. */
  function ReadHeader(block: seq<byte>): (r: Option<Fields>)
    requires |block| == 512
  {
    var front, back := block[..148], block[156..];
    var mode, uid, gid := ReadOctal(front[100..108], 0), ReadOctal(front[108..116], 0), ReadOctal(front[116..124], 0);
    var size, mtime := ReadOctal(front[124..136], 0), ReadOctal(front[136..], 0);
    if ReadOctal(block[148..156], 0) == Some(Total(front + [32, 32, 32, 32, 32, 32, 32, 32] + back))
       && back[0] == 48 && back[101..107] == [117, 115, 116, 97, 114, 0] && back[107..109] == [48, 48]
       && mode.Some? && uid.Some? && gid.Some? && size.Some? && mtime.Some?
    then Some(Fields(Rejoin(UpToNul(front[..100]), UpToNul(back[189..344])), mode.value, uid.value, gid.value,
                     size.value, mtime.value, UpToNul(back[1..101]), UpToNul(back[109..141]), UpToNul(back[141..173])))
    else None
  }

  lemma {:induction false} SumConcat(a: seq<byte>, b: seq<byte>)
    ensures Sum(a + b) == Sum(a) + Sum(b)
  {
    if a == [] {
      assert a + b == b;
    } else {
      assert (a + b)[1..] == a[1..] + b;
      SumConcat(a[1..], b);
    }
  }

  lemma {:induction false} TotalIsSum(s: seq<byte>)
    ensures Total(s) == Sum(s)
  {
    if s != [] {
      var front, last := s[..|s| - 1], s[|s| - 1];
      TotalIsSum(front);
      SumConcat(front, [last]);
      assert s == front + [last];
    }
  }

  lemma {:induction false} SumBound(s: seq<byte>)
    ensures Sum(s) <= 255 * |s|
  {
    if s == [] {
    } else {
      SumBound(s[1..]);
    }
  }

  lemma Pow8Values()
    ensures Pow8(6) == 262144 && Pow8(7) == 2097152 && Pow8(11) == 8589934592
  {
    assert Pow8(2) == 64 && Pow8(4) == 4096;
    assert Pow8(6) == 262144 && Pow8(8) == 16777216 && Pow8(10) == 1073741824;
  }

  /** The checksum always fits its six digits: the overflow branch cannot be reached. */
  lemma ChecksumFits(front: seq<byte>, back: seq<byte>)
    requires |front| == 148 && |back| == 356
    ensures ChecksumField(Checksum(front, back)).Some?
  {
    SumBound(front);
    SumBound(back);
    Pow8Values();
    OctalFits(Checksum(front, back), 7);
  }

  ghost predicate NoNul(s: seq<byte>) {
    forall i :: 0 <= i < |s| ==> s[i] != 0
  }

  lemma {:induction false} NulTerminated(s: seq<byte>, rest: seq<byte>)
    requires NoNul(s) && (rest == [] || rest[0] == 0)
    ensures UpToNul(s + rest) == s
  {
    if s == [] {
      assert s + rest == rest;
    } else {
      assert (s + rest)[1..] == s[1..] + rest;
      NulTerminated(s[1..], rest);
    }
  }

  lemma PaddedReads(s: seq<byte>, length: nat)
    requires |s| <= length && NoNul(s)
    ensures UpToNul(PadRight(s, length)) == s
  {
    NulTerminated(s, ZeroBytes(length - |s|));
  }

  lemma Halves(a: seq<byte>, b: seq<byte>)
    ensures (a + b)[..|a|] == a && (a + b)[|a|..] == b
  {
  }

  lemma FieldReads(n: nat, length: nat)
    requires length >= 1 && OctalField(n, length).Some?
    ensures ReadOctal(OctalField(n, length).value, 0) == Some(n)
  {
    OctalReads(n, length, []);
    assert OctalField(n, length).value + [] == OctalField(n, length).value;
  }

  lemma FrontReads(name: seq<byte>, mode: nat, size: nat, epoch: nat)
    requires |name| <= NAME_BYTES && NoNul(name) && FrontFields(name, mode, size, epoch).Some?
    ensures var front := FrontFields(name, mode, size, epoch).value;
            && UpToNul(front[..100]) == name
            && ReadOctal(front[100..108], 0) == Some(mode)
            && ReadOctal(front[108..116], 0) == Some(0)
            && ReadOctal(front[116..124], 0) == Some(0)
            && ReadOctal(front[124..136], 0) == Some(size)
            && ReadOctal(front[136..], 0) == Some(epoch)
  {
    var front := FrontFields(name, mode, size, epoch).value;
    var m, z, s, t := OctalField(mode, 8).value, OctalField(0, 8).value, OctalField(size, 12).value, OctalField(epoch, 12).value;
    var padded := PadRight(name, 100);
    FrontSlices(padded, m, z, s, t, front);
    PaddedReads(name, 100);
    FieldReads(mode, 8);
    FieldReads(0, 8);
    FieldReads(size, 12);
    FieldReads(epoch, 12);
  }

  lemma FrontSlices(n: seq<byte>, m: seq<byte>, z: seq<byte>, s: seq<byte>, t: seq<byte>, front: seq<byte>)
    requires |n| == 100 && |m| == |z| == 8 && |s| == |t| == 12
    requires front == n + (m + (z + (z + (s + t))))
    ensures front[..100] == n && front[100..108] == m && front[108..116] == z && front[116..124] == z && front[124..136] == s && front[136..] == t
  {
  }

  lemma BackReads(prefix: seq<byte>)
    requires |prefix| <= PREFIX_BYTES && NoNul(prefix)
    ensures var back := BackFields(prefix);
            && back[0] == 48 && back[101..107] == [117, 115, 116, 97, 114, 0] && back[107..109] == [48, 48]
            && UpToNul(back[189..344]) == prefix
            && UpToNul(back[1..101]) == [] && UpToNul(back[109..141]) == [] && UpToNul(back[141..173]) == []
  {
    var p := PadRight(prefix, 155);
    BackSlices([REGULAR_FILE], ZeroBytes(100), MAGIC, VERSION, ZeroBytes(80), p, ZeroBytes(12), BackFields(prefix));
    PaddedReads(prefix, 155);
  }

  lemma BackSlices(f: seq<byte>, l: seq<byte>, m: seq<byte>, v: seq<byte>, o: seq<byte>, p: seq<byte>, e: seq<byte>, back: seq<byte>)
    requires |f| == 1 && |l| == 100 && |m| == 6 && |v| == 2 && |o| == 80 && |p| == 155 && |e| == 12
    requires back == f + (l + (m + (v + (o + (p + e)))))
    ensures back[0] == f[0] && back[1..101] == l && back[101..107] == m && back[107..109] == v && back[109..189] == o
    ensures back[189..344] == p
    ensures back[109..141] == o[..32] && back[141..173] == o[32..64]
  {
  }

  // ---------------------------------------------------------------- round trip

  lemma CharHasNoNul(c: char)
    requires c != '\0'
    ensures NoNul(EncodeChar(c))
  {
  }

  lemma {:induction false} EncodedHasNoNul(s: string)
    requires forall i :: 0 <= i < |s| ==> s[i] != '\0'
    ensures NoNul(Encode(s))
  {
    if s == "" {
    } else {
      CharHasNoNul(s[0]);
      EncodedHasNoNul(s[1..]);
    }
  }

  /** A path the archive can carry: relative, without a NUL. */
  ghost predicate Archivable(path: string) {
    path != "" && path[0] != '/' && forall i :: 0 <= i < |path| ==> path[i] != '\0'
  }

  /** A written header reads back: checksum verified, every field as given. */
  lemma HeaderReads(path: string, executable: bool, size: nat, epoch: nat)
    requires Archivable(path)
    requires Header(path, executable, size, epoch).Some?
    ensures ReadHeader(Header(path, executable, size, epoch).value)
         == Some(FileFields(Encode(path), executable, size, epoch))
  {
    var (name, prefix) := SplitArchivePath(path).value;
    var front, back := FrontFields(Encode(name), Mode(executable), size, epoch).value, BackFields(Encode(prefix));
    SplitRejoins(path);
    PartsOfPath(path, name, prefix);
    EncodedHasNoNul(name);
    EncodedHasNoNul(prefix);
    FrontReads(Encode(name), Mode(executable), size, epoch);
    BackReads(Encode(prefix));
    ChecksumReads(front, back);
  }

  lemma PartsOfPath(path: string, name: string, prefix: string)
    requires SplitArchivePath(path) == Some((name, prefix))
    ensures forall i :: 0 <= i < |name| ==> name[i] in path
    ensures forall i :: 0 <= i < |prefix| ==> prefix[i] in path
  {
    if !FitsName(path) {
      SplitFound(path, |path|);
      forall i | 0 <= i < |name|
        ensures name[i] in path
      {
        assert path[|prefix| + 1 + i] == name[i];
      }
    }
  }

  lemma ChecksumReads(front: seq<byte>, back: seq<byte>)
    requires |front| == 148 && |back| == 356 && ChecksumField(Checksum(front, back)).Some?
    ensures var block := front + ChecksumField(Checksum(front, back)).value + back;
            && block[..148] == front && block[156..] == back
            && ReadOctal(block[148..156], 0) == Some(Total(front + [32, 32, 32, 32, 32, 32, 32, 32] + back))
  {
    SpacesSum(front, back);
    TotalIsSum(front + seq(8, i => 32) + back);
    assert seq(8, i => 32) == [32, 32, 32, 32, 32, 32, 32, 32];
    var sum := Checksum(front, back);
    var field := ChecksumField(sum).value;
    var block := front + field + back;
    assert block[148..156] == field;
    OctalReads(sum, 7, [32]);
  }

  /** Which entries can be written: the path splits, and size and time stay below 8^11. */
  lemma HeaderExists(path: string, executable: bool, size: nat, epoch: nat)
    ensures Header(path, executable, size, epoch).Some? <==>
            CanSplit(path) && size < Pow8(11) && epoch < Pow8(11)
  {
    SplitSucceeds(path);
    Pow8Values();
    OctalFits(Mode(executable), 8);
    OctalFits(0, 8);
    OctalFits(size, 12);
    OctalFits(epoch, 12);
    if SplitArchivePath(path).Some? {
      var (name, prefix) := SplitArchivePath(path).value;
      if !FitsName(path) {
        SplitFound(path, |path|);
      } else {
        assert Encode("") == [];
      }
      var front := FrontFields(Encode(name), Mode(executable), size, epoch);
      if front.Some? {
        ChecksumFits(front.value, BackFields(Encode(prefix)));
      }
    }
  }

  // ---------------------------------------------------------------- the writer

  /** `s` with `bytes` copied over it at `offset`. */
  function Splice(s: seq<byte>, offset: nat, bytes: seq<byte>): (r: seq<byte>)
    requires offset + |bytes| <= |s|
    ensures |r| == |s|
  {
    s[..offset] + bytes + s[offset + |bytes|..]
  }

  /** Copies a text into its field, unless it is too long for it. */
  method WriteText(target: array<byte>, offset: nat, length: nat, bytes: seq<byte>) returns (ok: bool)
    requires offset + length <= target.Length
    modifies target
    ensures ok <==> |bytes| <= length
    ensures ok ==> target[..] == Splice(old(target[..]), offset, bytes)
    ensures !ok ==> target[..] == old(target[..])
  {
    if |bytes| > length {
      return false;
    }
    for k := 0 to |bytes|
      invariant target[..] == Splice(old(target[..]), offset, bytes[..k])
    {
      target[offset + k] := bytes[k];
      SpliceNext(old(target[..]), offset, bytes, k);
    }
    assert bytes[..|bytes|] == bytes;
    ok := true;
  }

  lemma SpliceNext(s: seq<byte>, offset: nat, bytes: seq<byte>, k: nat)
    requires offset + |bytes| <= |s| && k < |bytes|
    ensures Splice(s, offset, bytes[..k])[offset + k := bytes[k]] == Splice(s, offset, bytes[..k + 1])
  {
    assert bytes[..k + 1] == bytes[..k] + [bytes[k]];
  }

  /** Writes a number as an octal field, unless its digits do not fit. */
  method WriteOctal(target: array<byte>, offset: nat, length: nat, value: nat) returns (ok: bool)
    requires length >= 1 && offset + length <= target.Length
    modifies target
    ensures ok <==> OctalField(value, length).Some?
    ensures ok ==> target[..] == Splice(old(target[..]), offset, OctalField(value, length).value)
  {
    var octal := OctalDigits(value);
    if |octal| > length - 1 {
      return false;
    }
    ok := WriteText(target, offset, length, ZeroDigits(length - 1 - |octal|) + octal + [0]);
  }

  /** Written from the front: `done`, then nothing but zeros. */
  ghost predicate Filled(block: seq<byte>, done: seq<byte>) {
    |done| <= |block| && block == done + ZeroBytes(|block| - |done|)
  }

  /** A write past the filled part extends it by the gap and the padded field. */
  lemma FillForward(block: seq<byte>, done: seq<byte>, gap: nat, length: nat, bytes: seq<byte>)
    requires Filled(block, done) && |bytes| <= length && |done| + gap + length <= |block|
    ensures Filled(Splice(block, |done| + gap, bytes), done + (ZeroBytes(gap) + PadRight(bytes, length)))
  {
  }

  lemma FillNext(block: seq<byte>, done: seq<byte>, bytes: seq<byte>)
    requires Filled(block, done) && |done| + |bytes| <= |block|
    ensures Filled(Splice(block, |done|, bytes), done + bytes)
  {
  }

  /** `WriteOctal` right after the filled part. */
  method AppendOctal(target: array<byte>, ghost done: seq<byte>, offset: nat, length: nat, value: nat) returns (ok: bool)
    requires length >= 1 && offset + length <= target.Length
    requires Filled(target[..], done) && |done| == offset
    modifies target
    ensures ok <==> OctalField(value, length).Some?
    ensures ok ==> Filled(target[..], done + OctalField(value, length).value)
  {
    ghost var before := target[..];
    ok := WriteOctal(target, offset, length, value);
    if ok {
      FillNext(before, done, OctalField(value, length).value);
    }
  }

  /** The front half: name to modification time, and the checksum field still blank. */
  method WriteFront(header: array<byte>, name: seq<byte>, mode: nat, size: nat, epoch: nat) returns (ok: bool)
    requires header.Length == BLOCK_BYTES && header[..] == ZeroBytes(BLOCK_BYTES) && |name| <= NAME_BYTES
    modifies header
    ensures ok <==> FrontFields(name, mode, size, epoch).Some?
    ensures ok ==> Filled(header[..], FrontFields(name, mode, size, epoch).value)
  {
    ghost var done := PadRight(name, 100);
    ghost var m, z := OctalField(mode, 8), OctalField(0, 8);
    ghost var s, t := OctalField(size, 12), OctalField(epoch, 12);
    ok := WriteText(header, 0, 100, name);
    assert Filled(header[..], done);
    ok := AppendOctal(header, done, 100, 8, mode);
    if !ok {
      return;
    }
    ok := AppendOctal(header, done + m.value, 108, 8, 0);
    if !ok {
      return;
    }
    ok := AppendOctal(header, done + m.value + z.value, 116, 8, 0);
    ok := AppendOctal(header, done + m.value + z.value + z.value, 124, 12, size);
    if !ok {
      return;
    }
    ok := AppendOctal(header, done + m.value + z.value + z.value + s.value, 136, 12, epoch);
    if ok {
      FrontAssociates(done, m.value, z.value, s.value, t.value);
    }
  }

  lemma FrontAssociates(n: seq<byte>, m: seq<byte>, z: seq<byte>, s: seq<byte>, t: seq<byte>)
    ensures n + m + z + z + s + t == n + (m + (z + (z + (s + t))))
  {
  }

  /** The back half: type, magic, version and prefix, after the blanked checksum field. */
  method WriteBack(header: array<byte>, ghost front: seq<byte>, prefix: seq<byte>) returns (ok: bool)
    requires header.Length == BLOCK_BYTES && |front| == 148 && Filled(header[..], front)
    requires |prefix| <= PREFIX_BYTES
    modifies header
    ensures ok
    ensures header[..] == front + seq(8, i => 32) + BackFields(prefix)
  {
    ghost var spaces := seq(8, i => 32);
    ghost var h := header[..];
    ok := WriteText(header, 148, 8, seq(8, i => 32));
    FillNext(h, front, spaces);
    ghost var done := front + spaces;
    h := header[..];
    ok := WriteText(header, 156, 1, [REGULAR_FILE]);
    FillNext(h, done, [REGULAR_FILE]);
    h := header[..];
    ok := WriteText(header, 257, 6, MAGIC);
    FillForward(h, done + [REGULAR_FILE], 100, 6, MAGIC);
    assert PadRight(MAGIC, 6) == MAGIC;
    h := header[..];
    ok := WriteText(header, 263, 2, VERSION);
    FillNext(h, done + [REGULAR_FILE] + (ZeroBytes(100) + MAGIC), VERSION);
    h := header[..];
    ok := WriteText(header, 345, 155, prefix);
    ghost var p := PadRight(prefix, 155);
    FillForward(h, done + [REGULAR_FILE] + (ZeroBytes(100) + MAGIC) + VERSION, 80, 155, prefix);
    BackAssociates(done, [REGULAR_FILE], ZeroBytes(100), MAGIC, VERSION, ZeroBytes(80), p, ZeroBytes(12));
  }

  lemma BackAssociates(d: seq<byte>, f: seq<byte>, l: seq<byte>, m: seq<byte>, v: seq<byte>, o: seq<byte>, p: seq<byte>, e: seq<byte>)
    ensures d + f + (l + m) + v + (o + p) + e == d + (f + (l + (m + (v + (o + (p + e))))))
  {
  }

  /** Fills a 512-byte block with the header of one entry. */
  method TarHeader(path: string, executable: bool, size: nat, epoch: nat) returns (ok: bool, header: array<byte>)
    ensures fresh(header) && header.Length == BLOCK_BYTES
    ensures ok <==> Header(path, executable, size, epoch).Some?
    ensures ok ==> header[..] == Header(path, executable, size, epoch).value
  {
    header := new byte[BLOCK_BYTES](i => 0);
    assert header[..] == ZeroBytes(BLOCK_BYTES);
    var split := SplitArchivePath(path);
    if split.None? {
      return false, header;
    }
    var (name, prefix) := split.value;
    if !FitsName(name) || !FitsPrefix(prefix) {
      return false, header;
    }
    ok := WriteFront(header, Encode(name), Mode(executable), size, epoch);
    if !ok {
      return;
    }
    ghost var front, back := FrontFields(Encode(name), Mode(executable), size, epoch).value, BackFields(Encode(prefix));
    ok := WriteBack(header, front, Encode(prefix));
    var checksum := SumBytes(header);
    SpacesSum(front, back);
    ghost var h := header[..];
    var digits := OctalDigits(checksum);
    if |digits| > 6 {
      return false, header;
    }
    ok := WriteText(header, 148, 8, ZeroDigits(6 - |digits|) + digits + [0, 32]);
    assert ZeroDigits(6 - |digits|) + digits + [0, 32] == ChecksumField(checksum).value;
    SpliceMiddle(front, seq(8, i => 32), back, ChecksumField(checksum).value);
  }

  lemma SpliceMiddle(front: seq<byte>, middle: seq<byte>, back: seq<byte>, bytes: seq<byte>)
    requires |bytes| == |middle|
    ensures Splice(front + middle + back, |front|, bytes) == front + bytes + back
  {
  }

  lemma SpacesSum(front: seq<byte>, back: seq<byte>)
    ensures Sum(front + seq(8, i => 32) + back) == Checksum(front, back)
  {
    var spaces: seq<byte> := seq(8, i => 32);
    SumConcat(front + spaces, back);
    SumConcat(front, spaces);
    assert spaces == [32, 32, 32, 32] + [32, 32, 32, 32];
    SumConcat([32, 32, 32, 32], [32, 32, 32, 32]);
    assert Sum([32, 32, 32, 32]) == 128 by {
      SumConcat([32, 32], [32, 32]);
      assert [32, 32] + [32, 32] == [32, 32, 32, 32];
      assert Sum([32, 32]) == 64;
    }
  }

  method SumBytes(block: array<byte>) returns (sum: nat)
    ensures sum == Sum(block[..])
  {
    sum := 0;
    for k := 0 to block.Length
      invariant sum == Sum(block[..k])
    {
      sum := sum + block[k];
      assert block[..k + 1] == block[..k] + [block[k]];
      SumConcat(block[..k], [block[k]]);
    }
    assert block[..block.Length] == block[..];
  }
}
