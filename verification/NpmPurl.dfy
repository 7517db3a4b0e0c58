/** Package URLs of npm packages (`npmPurl` in `scripts/release-sbom.ts` and `scripts/release-licenses.ts`):
    `encodeURIComponent`, a percent decoder, and the proof that a purl names one package. */
module NpmPurl {
  import opened Bits
  import opened Utf8
  import opened PortablePath
  import Json

  /** The characters `encodeURIComponent` keeps. */
  predicate IsKept(c: char) {
    || 'A' <= c <= 'Z' || 'a' <= c <= 'z' || '0' <= c <= '9'
    || c in "-_.!~*'()"
  }

  function UpperHex(n: int): char
    requires 0 <= n < 16
  {
    if n < 10 then ('0' as int + n) as char else ('A' as int + n - 10) as char
  }

  function PercentBytes(bytes: seq<byte>): string {
    if bytes == [] then ""
    else ['%', UpperHex(bytes[0] / 16), UpperHex(bytes[0] % 16)] + PercentBytes(bytes[1..])
  }

  function EscapeChar(c: char): string {
    if IsKept(c) then [c] else PercentBytes(EncodeChar(c))
  }

  /** `encodeURIComponent`. */
  function EncodeComponent(s: string): string {
    if s == "" then "" else EscapeChar(s[0]) + EncodeComponent(s[1..])
  }

  function EncodeSegments(segments: seq<string>): (r: seq<string>)
    ensures |r| == |segments|
    ensures forall i :: 0 <= i < |segments| ==> r[i] == EncodeComponent(segments[i])
  {
    if segments == [] then [] else [EncodeComponent(segments[0])] + EncodeSegments(segments[1..])
  }

  function EncodedName(name: string): string {
    if name != "" && name[0] == '@' then "%40" + Join(EncodeSegments(Split(name[1..]))) else EncodeComponent(name)
  }

  function Purl(name: string, version: string): string {
    "pkg:npm/" + (EncodedName(name) + "@" + EncodeComponent(version))
  }

  // ---------------------------------------------------------------- percent decoding

  /** The bytes a percent-encoded text stands for. */
  function Decode(s: string): seq<byte> {
    if s == "" then []
    else if s[0] == '%' && |s| >= 3 then
      [if Json.HexDigit(s[1]) < 0 || Json.HexDigit(s[2]) < 0 then 0 else Json.HexDigit(s[1]) * 16 + Json.HexDigit(s[2])]
      + Decode(s[3..])
    else [s[0] as int % 256] + Decode(s[1..])
  }

  lemma {:induction false} DecodePercent(bytes: seq<byte>, rest: string)
    ensures Decode(PercentBytes(bytes) + rest) == bytes + Decode(rest)
  {
    if bytes == [] {
      assert PercentBytes(bytes) + rest == rest;
    } else {
      var b := bytes[0];
      var text := ['%', UpperHex(b / 16), UpperHex(b % 16)];
      assert PercentBytes(bytes) + rest == text + (PercentBytes(bytes[1..]) + rest);
      assert (PercentBytes(bytes) + rest)[3..] == PercentBytes(bytes[1..]) + rest;
      assert Json.HexDigit(UpperHex(b / 16)) == b / 16 && Json.HexDigit(UpperHex(b % 16)) == b % 16;
      DecodePercent(bytes[1..], rest);
      assert bytes == [b] + bytes[1..];
    }
  }

  lemma DecodeKept(c: char, rest: string)
    requires IsKept(c) || c == '/' || c == '@'
    ensures Decode([c] + rest) == EncodeChar(c) + Decode(rest)
  {
    assert ([c] + rest)[1..] == rest;
  }

  lemma DecodeEscape(c: char, rest: string)
    ensures Decode(EscapeChar(c) + rest) == EncodeChar(c) + Decode(rest)
  {
    if IsKept(c) {
      DecodeKept(c, rest);
    } else {
      DecodePercent(EncodeChar(c), rest);
    }
  }

  lemma Reassociate<T>(a: seq<T>, b: seq<T>, c: seq<T>)
    ensures (a + b) + c == a + (b + c)
  {
  }

  lemma {:induction false} DecodeComponent(s: string, rest: string)
    ensures Decode(EncodeComponent(s) + rest) == Encode(s) + Decode(rest)
  {
    if s == "" {
      assert EncodeComponent(s) + rest == rest;
    } else {
      var first, tail := EscapeChar(s[0]), EncodeComponent(s[1..]);
      Reassociate(first, tail, rest);
      DecodeEscape(s[0], tail + rest);
      DecodeComponent(s[1..], rest);
      Reassociate(EncodeChar(s[0]), Encode(s[1..]), Decode(rest));
    }
  }

  const SLASH: seq<byte> := [0x2F]

  lemma DecodeAfterSlash(first: string, tail: string)
    ensures Decode(EncodeComponent(first) + ("/" + tail)) == Encode(first) + (SLASH + Decode(tail))
  {
    DecodeComponent(first, "/" + tail);
    DecodeKept('/', tail);
    assert EncodeChar('/') == SLASH;
  }

  lemma EncodeAfterSlash(first: string, tail: string)
    ensures Encode(first + ("/" + tail)) == Encode(first) + (SLASH + Encode(tail))
  {
    EncodeConcat(first, "/" + tail);
    EncodeConcat("/", tail);
    assert Encode("/") == EncodeChar('/') + Encode("");
    assert EncodeChar('/') == SLASH;
  }

  lemma {:induction false} DecodeJoined(segments: seq<string>)
    requires segments != []
    ensures Decode(Join(EncodeSegments(segments))) == Encode(Join(segments))
  {
    var first := segments[0];
    if |segments| == 1 {
      DecodeComponent(first, "");
      assert EncodeComponent(first) + "" == EncodeComponent(first);
    } else {
      var rest := segments[1..];
      var tail := Join(EncodeSegments(rest));
      assert EncodeSegments(segments)[1..] == EncodeSegments(rest);
      Reassociate(EncodeComponent(first), "/", tail);
      Reassociate(first, "/", Join(rest));
      DecodeAfterSlash(first, tail);
      EncodeAfterSlash(first, Join(rest));
      DecodeJoined(rest);
    }
  }

  lemma DecodeScope(rest: string)
    ensures Decode("%40" + rest) == Encode("@") + Decode(rest)
  {
    assert ("%40" + rest)[3..] == rest;
    assert Json.HexDigit('4') == 4 && Json.HexDigit('0') == 0;
    assert Encode("@") == EncodeChar('@') + Encode("");
  }

  /** Decoding an encoded name gives the UTF-8 bytes of the name, scoped or not. */
  lemma DecodeName(name: string)
    ensures Decode(EncodedName(name)) == Encode(name)
  {
    if name != "" && name[0] == '@' {
      JoinSplit(name[1..]);
      DecodeJoined(Split(name[1..]));
      DecodeScope(Join(EncodeSegments(Split(name[1..]))));
      EncodeConcat("@", name[1..]);
      assert name == "@" + name[1..];
    } else {
      DecodeComponent(name, "");
      assert EncodeComponent(name) + "" == EncodeComponent(name);
    }
  }

  // ---------------------------------------------------------------- no raw separators

  lemma {:induction false} PercentHasNoAt(bytes: seq<byte>)
    ensures '@' !in PercentBytes(bytes) && '/' !in PercentBytes(bytes)
  {
    if bytes != [] {
      PercentHasNoAt(bytes[1..]);
    }
  }

  lemma {:induction false} ComponentHasNoAt(s: string)
    ensures '@' !in EncodeComponent(s) && '/' !in EncodeComponent(s)
  {
    if s != "" {
      ComponentHasNoAt(s[1..]);
      PercentHasNoAt(EncodeChar(s[0]));
    }
  }

  lemma {:induction false} JoinedHasNoAt(segments: seq<string>)
    ensures '@' !in Join(EncodeSegments(segments))
  {
    if segments != [] {
      ComponentHasNoAt(segments[0]);
      assert EncodeSegments(segments)[1..] == EncodeSegments(segments[1..]);
      JoinedHasNoAt(segments[1..]);
    }
  }

  lemma NameHasNoAt(name: string)
    ensures '@' !in EncodedName(name)
  {
    if name != "" && name[0] == '@' {
      JoinedHasNoAt(Split(name[1..]));
    } else {
      ComponentHasNoAt(name);
    }
  }

  lemma FirstAtDiffers(a: string, b: string, c: string, d: string)
    requires '@' !in c && |a| < |c|
    ensures a + "@" + b != c + "@" + d
  {
    assert (a + "@" + b)[|a|] == '@';
    assert (c + "@" + d)[|a|] == c[|a|];
  }

  lemma SplitAtFirst(a: string, b: string, c: string, d: string)
    requires '@' !in a && '@' !in c && a + "@" + b == c + "@" + d
    ensures a == c && b == d
  {
    var s, t := a + "@" + b, c + "@" + d;
    if |a| < |c| {
      FirstAtDiffers(a, b, c, d);
    }
    if |c| < |a| {
      FirstAtDiffers(c, d, a, b);
    }
    assert s[..|a|] == a && t[..|c|] == c;
    assert s[|a| + 1..] == b && t[|c| + 1..] == d;
  }

  /** A purl names exactly one package. */
  lemma PurlInjective(name: string, version: string, other: string, otherVersion: string)
    requires Purl(name, version) == Purl(other, otherVersion)
    ensures name == other && version == otherVersion
  {
    var a, b := EncodedName(name), EncodeComponent(version);
    var c, d := EncodedName(other), EncodeComponent(otherVersion);
    assert Purl(name, version)[8..] == a + "@" + b && Purl(other, otherVersion)[8..] == c + "@" + d;
    NameHasNoAt(name);
    NameHasNoAt(other);
    SplitAtFirst(a, b, c, d);
    DecodeName(name);
    DecodeName(other);
    EncodeInjective(name, other);
    DecodeComponent(version, "");
    DecodeComponent(otherVersion, "");
    assert b + "" == b && d + "" == d;
    assert Encode(version) + Decode("") == Encode(version);
    assert Encode(otherVersion) + Decode("") == Encode(otherVersion);
    EncodeInjective(version, otherVersion);
  }

  // ---------------------------------------------------------------- byte by byte

  /** The bytes `encodeURIComponent` leaves alone: letters, digits and - _ . ! ~ * ' ( ) */
  ghost predicate IsUnescaped(b: byte) {
    || 65 <= b <= 90 || 97 <= b <= 122 || 48 <= b <= 57
    || b == 45 || b == 95 || b == 46 || b == 33 || b == 126 || b == 42 || b == 39 || b == 40 || b == 41
  }

  /** Each byte as itself or as a percent sign and two capital hexadecimal digits (section 2.1 of RFC 3986); a slash
      as itself when it separates segments. */
  ghost function Percent(slash: bool, bytes: seq<byte>): string {
    if bytes == [] then ""
    else PercentByte(slash, bytes[0]) + Percent(slash, bytes[1..])
  }

  ghost function PercentByte(slash: bool, b: byte): string {
    if IsUnescaped(b) || (slash && b == 47) then [b as char]
    else ['%', "0123456789ABCDEF"[b / 16], "0123456789ABCDEF"[b % 16]]
  }

  lemma UpperHexIs(n: nat)
    requires n < 16
    ensures UpperHex(n) == "0123456789ABCDEF"[n]
  {
    assert "0123456789ABCDEF"[n] == UpperHex(n);
  }

  lemma {:induction false} PercentConcat(slash: bool, a: seq<byte>, b: seq<byte>)
    ensures Percent(slash, a + b) == Percent(slash, a) + Percent(slash, b)
  {
    if a == [] {
      assert a + b == b;
    } else {
      assert (a + b)[1..] == a[1..] + b;
      PercentConcat(slash, a[1..], b);
      Reassociate(PercentByte(slash, a[0]), Percent(slash, a[1..]), Percent(slash, b));
    }
  }

  lemma {:induction false} PercentAll(slash: bool, bytes: seq<byte>)
    requires forall i :: 0 <= i < |bytes| ==> !IsUnescaped(bytes[i]) && !(slash && bytes[i] == 47)
    ensures Percent(slash, bytes) == PercentBytes(bytes)
  {
    if bytes != [] {
      UpperHexIs(bytes[0] / 16);
      UpperHexIs(bytes[0] % 16);
      PercentAll(slash, bytes[1..]);
    }
  }

  lemma EncodedBytes(c: char)
    ensures c as int < 128 ==> EncodeChar(c) == [c as int]
    ensures c as int >= 128 ==> forall i :: 0 <= i < |EncodeChar(c)| ==> EncodeChar(c)[i] >= 128
  {
  }

  lemma KeptIsUnescaped(c: char)
    ensures IsKept(c) <==> c as int < 128 && IsUnescaped(c as int)
  {
  }

  lemma PercentOne(slash: bool, b: byte)
    ensures Percent(slash, [b]) == PercentByte(slash, b)
  {
    assert Percent(slash, []) == "";
  }

  lemma CharIsPercent(slash: bool, c: char)
    requires !(slash && c == '/')
    ensures EscapeChar(c) == Percent(slash, EncodeChar(c))
  {
    EncodedBytes(c);
    KeptIsUnescaped(c);
    if IsKept(c) {
      PercentOne(slash, c as int);
    } else {
      PercentAll(slash, EncodeChar(c));
    }
  }

  /** `encodeURIComponent` works on the UTF-8 bytes one by one. */
  lemma {:induction false} ComponentIsPercent(slash: bool, s: string)
    requires slash ==> '/' !in s
    ensures EncodeComponent(s) == Percent(slash, Encode(s))
  {
    if s != "" {
      CharIsPercent(slash, s[0]);
      ComponentIsPercent(slash, s[1..]);
      PercentConcat(slash, EncodeChar(s[0]), Encode(s[1..]));
    }
  }

  lemma {:induction false} SegmentsArePercent(segments: seq<string>)
    requires NoSlash(segments)
    ensures Join(EncodeSegments(segments)) == Percent(true, Encode(Join(segments)))
  {
    if segments != [] {
      var first, rest := segments[0], segments[1..];
      ComponentIsPercent(true, first);
      assert EncodeSegments(segments)[1..] == EncodeSegments(rest);
      if |segments| > 1 {
        SegmentsArePercent(rest);
        var tail := Encode(Join(rest));
        assert Join(segments) == first + ("/" + Join(rest));
        EncodeAfterSlash(first, Join(rest));
        PercentConcat(true, Encode(first), SLASH + tail);
        PercentConcat(true, SLASH, tail);
        PercentOne(true, 47);
        Reassociate(EncodeComponent(first), "/", Percent(true, tail));
      }
    }
  }

  /** A purl: the scheme and type, the name with its scope marked by an escaped `@` and its segments kept apart, and
      the version, each byte by byte. */
  lemma PurlExactly(name: string, version: string)
    ensures Purl(name, version) ==
            "pkg:npm/"
            + (if name != "" && name[0] == '@' then "%40" + Percent(true, Encode(name[1..])) else Percent(false, Encode(name)))
            + "@" + Percent(false, Encode(version))
  {
    ComponentIsPercent(false, version);
    if name != "" && name[0] == '@' {
      JoinSplit(name[1..]);
      SegmentsArePercent(Split(name[1..]));
    } else {
      ComponentIsPercent(false, name);
    }
  }
}
