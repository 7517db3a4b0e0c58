/** Path segments that are safe on every platform, and paths joined from them. */
module PortablePath {

  /** The Unicode tables the program calls: NFC normalisation and locale-independent lower case. */
  datatype Unicode = Unicode(nfc: string -> string, lower: string -> string)

  predicate IsControl(c: char) {
    c as int <= 0x1f || c as int == 0x7f
  }

  predicate HasControl(s: string) {
    exists i :: 0 <= i < |s| && IsControl(s[i])
  }

  predicate IsForbidden(c: char) {
    c in "<>:\"|?*"
  }

  predicate IsLineTerminator(c: char) {
    c == '\n' || c == '\r' || c as int == 0x2028 || c as int == 0x2029
  }

  function AsciiLower(s: string): (r: string)
    ensures |r| == |s|
    ensures forall i :: 0 <= i < |s| ==> r[i] == if 'A' <= s[i] <= 'Z' then (s[i] as int + 32) as char else s[i]
  {
    if s == "" then "" else [if 'A' <= s[0] <= 'Z' then (s[0] as int + 32) as char else s[0]] + AsciiLower(s[1..])
  }

  /** The part of a segment before its first dot. */
  function Stem(s: string): (r: string)
    ensures r <= s && '.' !in r
    ensures |r| == |s| || s[|r|] == '.'
  {
    if s == "" || s[0] == '.' then "" else [s[0]] + Stem(s[1..])
  }

  /** Device names of Windows, alone or before an extension, in any case. */
  predicate IsWindowsReserved(s: string) {
    var stem := AsciiLower(Stem(s));
    && (stem in ["con", "prn", "aux", "nul"]
        || (|stem| == 4 && stem[..3] in ["com", "lpt"] && '1' <= stem[3] <= '9'))
    && forall i :: |stem| <= i < |s| ==> !IsLineTerminator(s[i])
  }

  /** `validateArchiveSegment` and `assertPortableSegment`. */
  predicate IsPortableSegment(u: Unicode, s: string) {
    && s == u.nfc(s)
    && s != "" && s != "." && s != ".."
    && '/' !in s && '\\' !in s && '\0' !in s
    && !HasControl(s)
    && (forall i :: 0 <= i < |s| ==> !IsForbidden(s[i]))
    && s[|s| - 1] != '.' && s[|s| - 1] != ' '
    && !IsWindowsReserved(s)
  }

  predicate ArePortable(u: Unicode, segments: seq<string>) {
    forall i :: 0 <= i < |segments| ==> IsPortableSegment(u, segments[i])
  }

  /** Segments joined by slashes. */
  function Join(segments: seq<string>): string {
    if segments == [] then ""
    else if |segments| == 1 then segments[0]
    else segments[0] + "/" + Join(segments[1..])
  }

  /** What `path.split("/")` returns. */
  function Split(path: string): (r: seq<string>)
    ensures r != []
  {
    if path == "" then [""]
    else if path[0] == '/' then [""] + Split(path[1..])
    else var rest := Split(path[1..]); [[path[0]] + rest[0]] + rest[1..]
  }

  ghost predicate NoSlash(segments: seq<string>) {
    forall i :: 0 <= i < |segments| ==> '/' !in segments[i]
  }

  lemma {:induction false} SplitFirst(segment: string, rest: string)
    requires '/' !in segment
    ensures Split(segment + "/" + rest) == [segment] + Split(rest)
  {
    var path := segment + "/" + rest;
    if segment == "" {
      assert path == "/" + rest;
      assert path[1..] == rest;
    } else {
      assert path[0] == segment[0];
      assert path[1..] == segment[1..] + "/" + rest;
      SplitFirst(segment[1..], rest);
      assert segment == [segment[0]] + segment[1..];
    }
  }

  lemma {:induction false} SplitOne(segment: string)
    requires '/' !in segment
    ensures Split(segment) == [segment]
  {
    if segment == "" {
    } else {
      SplitOne(segment[1..]);
      assert segment == [segment[0]] + segment[1..];
    }
  }

  /** Joining slash-free segments loses nothing. */
  lemma {:induction false} SplitJoin(segments: seq<string>)
    requires segments != [] && NoSlash(segments)
    ensures Split(Join(segments)) == segments
  {
    if |segments| == 1 {
      SplitOne(segments[0]);
    } else {
      SplitJoin(segments[1..]);
      SplitFirst(segments[0], Join(segments[1..]));
    }
  }

  lemma {:induction false} JoinSplit(path: string)
    ensures Join(Split(path)) == path
    ensures NoSlash(Split(path))
  {
    if path == "" {
    } else {
      var rest := Split(path[1..]);
      JoinSplit(path[1..]);
      assert path == [path[0]] + path[1..];
      if path[0] == '/' {
        var r := [""] + rest;
        assert r[1..] == rest;
        assert Join(r) == "" + "/" + Join(rest);
      } else {
        var r := [[path[0]] + rest[0]] + rest[1..];
        assert r[1..] == rest[1..];
        if |rest| > 1 {
          assert Join(r) == ([path[0]] + rest[0]) + "/" + Join(rest[1..]);
          assert Join(rest) == rest[0] + "/" + Join(rest[1..]);
        }
      }
    }
  }

  lemma JoinInjective(a: seq<string>, b: seq<string>)
    requires a != [] && b != [] && NoSlash(a) && NoSlash(b)
    requires Join(a) == Join(b)
    ensures a == b
  {
    SplitJoin(a);
    SplitJoin(b);
  }

  /** A path of portable segments is relative and free of NUL characters. */
  lemma {:induction false} JoinIsRelative(u: Unicode, segments: seq<string>)
    requires segments != [] && ArePortable(u, segments)
    ensures Join(segments) != "" && Join(segments)[0] != '/' && '\0' !in Join(segments)
  {
    var first := segments[0];
    assert IsPortableSegment(u, first);
    assert first[0] in first;
    if |segments| > 1 {
      JoinIsRelative(u, segments[1..]);
    }
  }

  // ---------------------------------------------------------------- what portable means

  /** A device name of Windows in lower case. */
  ghost predicate IsDeviceName(d: string) {
    || d == "con" || d == "prn" || d == "aux" || d == "nul"
    || exists digit :: '1' <= digit <= '9' && (d == "com" + [digit] || d == "lpt" + [digit])
  }

  /** The same text up to the case of ASCII letters, where the second has no capitals. */
  ghost predicate Folds(s: string, lower: string) {
    && |s| == |lower|
    && forall i :: 0 <= i < |s| ==> lower[i] == s[i] || ('A' <= s[i] <= 'Z' && lower[i] as int == s[i] as int + 32)
  }

  /** A device name in any case, alone or followed by a dot and the rest of a line. */
  ghost predicate NamesDevice(s: string) {
    exists name, d :: IsDeviceName(d) && Folds(name, d) && IsOrExtends(s, name)
  }

  ghost predicate IsOrExtends(s: string, name: string) {
    || s == name
    || (name + "." <= s && forall i :: |name| < i < |s| ==> !IsLineTerminator(s[i]))
  }

  lemma DeviceStem(stem: string)
    ensures stem in ["con", "prn", "aux", "nul"] || (|stem| == 4 && stem[..3] in ["com", "lpt"] && '1' <= stem[3] <= '9') <==>
            IsDeviceName(stem)
  {
    if |stem| == 4 {
      assert stem == stem[..3] + [stem[3]];
    }
    forall digit | '1' <= digit <= '9'
      ensures ("com" + [digit])[..3] == "com" && ("lpt" + [digit])[..3] == "lpt"
    {
    }
  }

  lemma LowerFolds(s: string, d: string)
    requires forall i :: 0 <= i < |d| ==> 'a' <= d[i] <= 'z' || '0' <= d[i] <= '9'
    ensures AsciiLower(s) == d <==> Folds(s, d)
  {
  }

  lemma DeviceIsLower(d: string)
    requires IsDeviceName(d)
    ensures forall i :: 0 <= i < |d| ==> 'a' <= d[i] <= 'z' || '0' <= d[i] <= '9'
  {
  }

  lemma FoldedHasNoDot(s: string, d: string)
    requires IsDeviceName(d) && Folds(s, d)
    ensures '.' !in s
  {
    DeviceIsLower(d);
  }

  lemma StemIs(s: string, name: string)
    requires '.' !in name && IsOrExtends(s, name)
    ensures Stem(s) == name
  {
    if s != name {
      assert s[..|name| + 1] == name + ".";
      assert s[|name|] == '.' && s[..|name|] == name;
    }
  }

  lemma StemExtends(s: string)
    requires forall i :: |Stem(s)| <= i < |s| ==> !IsLineTerminator(s[i])
    ensures IsOrExtends(s, Stem(s))
  {
    var stem := Stem(s);
    if |stem| < |s| {
      assert s[..|stem| + 1] == stem + ".";
    }
  }

  /** The pattern for reserved names matches exactly the device names, alone or extended. */
  lemma ReservedExactly(s: string)
    ensures IsWindowsReserved(s) <==> NamesDevice(s)
  {
    var stem := AsciiLower(Stem(s));
    DeviceStem(stem);
    if IsWindowsReserved(s) {
      DeviceIsLower(stem);
      LowerFolds(Stem(s), stem);
      StemExtends(s);
    }
    if NamesDevice(s) {
      var name, d :| IsDeviceName(d) && Folds(name, d) && IsOrExtends(s, name);
      FoldedHasNoDot(name, d);
      StemIs(s, name);
      DeviceIsLower(d);
      LowerFolds(name, d);
      assert stem == d;
    }
  }

  /** No control character, and none of the given ones. */
  ghost predicate IsFreeOf(s: string, others: string) {
    forall i :: 0 <= i < |s| ==> ' ' <= s[i] && s[i] as int != 127 && s[i] !in others
  }

  /** A segment is portable exactly when it is normalised, is no directory reference, holds no control character, no
      separator and none of the characters Windows refuses, does not end in a dot or a space, and names no device. */
  lemma PortableExactly(u: Unicode, s: string)
    ensures IsPortableSegment(u, s) <==>
            && u.nfc(s) == s && s != "" && s != "." && s != ".."
            && IsFreeOf(s, "/\\<>:\"|?*")
            && s[|s| - 1] != '.' && s[|s| - 1] != ' '
            && !NamesDevice(s)
  {
    ReservedExactly(s);
    var others := "/\\<>:\"|?*";
    forall c: char
      ensures c in others <==> c == '/' || c == '\\' || IsForbidden(c)
    {
    }
  }
}
