/** Trimmed text, and lists of strings compared as JSON text. */
module Texts {
  import opened Json
  import opened JsonCanonical
  import TrailingCommas

  // ---------------------------------------------------------------- trimming

  /** Whether `trim` leaves anything of a text. */
  predicate HasText(s: string) {
    exists i :: 0 <= i < |s| && !TrailingCommas.IsSpace(s[i])
  }

  function TrimStart(s: string): (r: string)
    ensures |r| <= |s|
    ensures r == "" || !TrailingCommas.IsSpace(r[0])
  {
    if s != "" && TrailingCommas.IsSpace(s[0]) then TrimStart(s[1..]) else s
  }

  function TrimEnd(s: string): (r: string)
    ensures |r| <= |s| && r <= s
    ensures r == "" || !TrailingCommas.IsSpace(r[|r| - 1])
  {
    if s != "" && TrailingCommas.IsSpace(s[|s| - 1]) then TrimEnd(s[..|s| - 1]) else s
  }

  function Trim(s: string): string {
    TrimEnd(TrimStart(s))
  }

  lemma {:induction false} TrimStartKeeps(s: string)
    ensures HasText(TrimStart(s)) <==> HasText(s)
  {
    if s != "" && TrailingCommas.IsSpace(s[0]) {
      TrimStartKeeps(s[1..]);
      assert forall i :: 0 <= i < |s[1..]| ==> s[1..][i] == s[i + 1];
      if HasText(s) {
        var i :| 0 <= i < |s| && !TrailingCommas.IsSpace(s[i]);
        assert s[1..][i - 1] == s[i];
      }
    }
  }

  lemma {:induction false} TrimEndKeeps(s: string)
    ensures HasText(TrimEnd(s)) <==> HasText(s)
  {
    if s != "" && TrailingCommas.IsSpace(s[|s| - 1]) {
      var t := s[..|s| - 1];
      TrimEndKeeps(t);
      if HasText(s) {
        var i :| 0 <= i < |s| && !TrailingCommas.IsSpace(s[i]);
        assert t[i] == s[i];
      }
    }
  }

  /** Trimming keeps every character that is not white space. */
  lemma TrimKeepsText(s: string)
    ensures HasText(Trim(s)) <==> HasText(s)
    ensures Trim(s) != "" <==> HasText(s)
  {
    TrimStartKeeps(s);
    TrimEndKeeps(TrimStart(s));
    var r := Trim(s);
    assert r != "" ==> !TrailingCommas.IsSpace(r[|r| - 1]);
  }

  // ---------------------------------------------------------------- lists of strings as text

  function Strs(xs: seq<string>): (r: seq<Json>)
    ensures |r| == |xs|
    ensures forall i :: 0 <= i < |xs| ==> r[i] == Str(xs[i])
  {
    if xs == [] then [] else [Str(xs[0])] + Strs(xs[1..])
  }

  lemma {:induction false} StrsValid(xs: seq<string>)
    ensures AreValid(Strs(xs))
  {
    if xs != [] {
      StrsValid(xs[1..]);
    }
  }

  /** `JSON.stringify` of a list of strings. */
  function ListText(xs: seq<string>): string {
    Print(Arr(Strs(xs)))
  }

  /** `JSON.stringify` of a list of strings tells lists apart. */
  lemma TextDecidesList(xs: seq<string>, ys: seq<string>)
    ensures ListText(xs) == ListText(ys) <==> xs == ys
  {
    StrsValid(xs);
    StrsValid(ys);
    PrintReads(Arr(Strs(xs)));
    PrintReads(Arr(Strs(ys)));
    if Strs(xs) == Strs(ys) {
      forall i | 0 <= i < |xs|
        ensures xs[i] == ys[i]
      {
        assert Strs(xs)[i] == Strs(ys)[i];
      }
    }
  }
}
