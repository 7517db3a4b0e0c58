/** Sorting by `compareUtf8Bytes`: what every sorted list of the release surfaces is, and why it does not
    depend on the order things were listed in. */
module Sorting {
  import opened Utf8

  predicate NotAfter(a: string, b: string) {
    CompareUtf8Bytes(a, b) <= 0
  }

  /** A stable sort of records by a string key. */
  function SortBy<T>(key: T -> string, xs: seq<T>): (r: seq<T>)
    ensures |r| == |xs|
  {
    if xs == [] then [] else Insert(key, xs[0], SortBy(key, xs[1..]))
  }

  function Insert<T>(key: T -> string, x: T, xs: seq<T>): (r: seq<T>)
    ensures |r| == |xs| + 1
  {
    if xs == [] then [x]
    else if NotAfter(key(x), key(xs[0])) then [x] + xs
    else [xs[0]] + Insert(key, x, xs[1..])
  }

  ghost predicate IsSorted<T>(key: T -> string, xs: seq<T>) {
    forall i, j :: 0 <= i < j < |xs| ==> NotAfter(key(xs[i]), key(xs[j]))
  }

  ghost predicate DistinctKeys<T>(key: T -> string, xs: seq<T>) {
    forall i, j :: 0 <= i < j < |xs| ==> key(xs[i]) != key(xs[j])
  }

  lemma ConsMultiset<T>(x: T, xs: seq<T>)
    ensures multiset([x] + xs) == multiset{x} + multiset(xs)
  {
  }

  lemma {:induction false} InsertPermutes<T>(key: T -> string, x: T, xs: seq<T>)
    ensures multiset(Insert(key, x, xs)) == multiset{x} + multiset(xs)
  {
    if xs == [] {
    } else if NotAfter(key(x), key(xs[0])) {
      ConsMultiset(x, xs);
    } else {
      var first, tail := xs[0], xs[1..];
      var inserted := Insert(key, x, tail);
      assert multiset(inserted) == multiset{x} + multiset(tail) by { InsertPermutes(key, x, tail); }
      assert multiset(xs) == multiset{first} + multiset(tail) by {
        ConsMultiset(first, tail);
        assert xs == [first] + tail;
      }
      assert Insert(key, x, xs) == [first] + inserted;
      ConsMultiset(first, inserted);
      SwapFirst(multiset{first}, multiset{x}, multiset(tail));
    }
  }

  lemma SwapFirst<T>(a: multiset<T>, b: multiset<T>, c: multiset<T>)
    ensures a + (b + c) == b + (a + c)
  {
  }

  lemma {:induction false} SortPermutes<T>(key: T -> string, xs: seq<T>)
    ensures multiset(SortBy(key, xs)) == multiset(xs)
  {
    if xs == [] {
    } else {
      SortPermutes(key, xs[1..]);
      InsertPermutes(key, xs[0], SortBy(key, xs[1..]));
      assert xs == [xs[0]] + xs[1..];
    }
  }

  lemma {:induction false} InsertSorts<T>(key: T -> string, x: T, xs: seq<T>)
    requires IsSorted(key, xs)
    ensures IsSorted(key, Insert(key, x, xs))
  {
    var r := Insert(key, x, xs);
    if xs == [] {
    } else if NotAfter(key(x), key(xs[0])) {
      forall i, j | 0 <= i < j < |r|
        ensures NotAfter(key(r[i]), key(r[j]))
      {
        if i == 0 && j > 1 {
          OrderIsTransitive(key(x), key(xs[0]), key(xs[j - 1]));
        }
      }
    } else {
      var rest := Insert(key, x, xs[1..]);
      InsertSorts(key, x, xs[1..]);
      InsertPermutes(key, x, xs[1..]);
      OrderIsTotal(key(x), key(xs[0]));
      forall j | 0 <= j < |rest|
        ensures NotAfter(key(xs[0]), key(rest[j]))
      {
        assert rest[j] in multiset(rest);
        assert rest[j] in multiset{x} + multiset(xs[1..]);
        assert rest[j] in [x] + xs[1..];
      }
    }
  }

  lemma {:induction false} SortSorts<T>(key: T -> string, xs: seq<T>)
    ensures IsSorted(key, SortBy(key, xs))
  {
    if xs == [] {
    } else {
      SortSorts(key, xs[1..]);
      InsertSorts(key, xs[0], SortBy(key, xs[1..]));
    }
  }

  lemma MemberKept<T>(xs: seq<T>, ys: seq<T>, i: nat) returns (j: nat)
    requires multiset(xs) == multiset(ys) && i < |xs|
    ensures j < |ys| && ys[j] == xs[i]
  {
    assert xs[i] in multiset(xs);
    assert xs[i] in ys;
    j :| 0 <= j < |ys| && ys[j] == xs[i];
  }

  lemma FirstRemoved<T>(xs: seq<T>)
    requires xs != []
    ensures multiset(xs[1..]) == multiset(xs) - multiset{xs[0]}
  {
    assert xs == [xs[0]] + xs[1..];
  }

  lemma TailKeeps<T>(key: T -> string, xs: seq<T>)
    requires xs != []
    ensures IsSorted(key, xs) ==> IsSorted(key, xs[1..])
    ensures DistinctKeys(key, xs) ==> DistinctKeys(key, xs[1..])
  {
    assert forall i :: 0 <= i < |xs[1..]| ==> xs[1..][i] == xs[i + 1];
  }

  /** The first records of two sorted lists of the same records agree. */
  lemma HeadsAgree<T>(key: T -> string, xs: seq<T>, ys: seq<T>)
    requires IsSorted(key, xs) && IsSorted(key, ys) && DistinctKeys(key, xs)
    requires multiset(xs) == multiset(ys) && xs != [] && ys != []
    ensures xs[0] == ys[0]
  {
    var j := MemberKept(xs, ys, 0);
    var i := MemberKept(ys, xs, 0);
    OrderIsTotal(key(xs[0]), key(ys[0]));
    if i > 0 {
      assert NotAfter(key(xs[0]), key(xs[i]));
      assert key(xs[0]) != key(xs[i]);
      assert j > 0 ==> NotAfter(key(ys[0]), key(ys[j]));
    }
  }

  /** Two sorted lists of the same records, with no key twice, are the same list. */
  lemma {:induction false} SortedUnique<T>(key: T -> string, xs: seq<T>, ys: seq<T>)
    requires IsSorted(key, xs) && IsSorted(key, ys) && DistinctKeys(key, xs)
    requires multiset(xs) == multiset(ys)
    ensures xs == ys
  {
    assert |xs| == |multiset(xs)| == |multiset(ys)| == |ys|;
    if xs == [] {
    } else {
      assert xs[0] == ys[0] by { HeadsAgree(key, xs, ys); }
      var xt, yt := xs[1..], ys[1..];
      assert multiset(xt) == multiset(yt) by {
        FirstRemoved(xs);
        FirstRemoved(ys);
      }
      TailKeeps(key, xs);
      TailKeeps(key, ys);
      SortedUnique(key, xt, yt);
      assert xs == [xs[0]] + xs[1..] && ys == [ys[0]] + ys[1..];
    }
  }

  lemma {:induction false} InsertMembers<T>(key: T -> string, x: T, xs: seq<T>, y: T)
    ensures y in Insert(key, x, xs) <==> y == x || y in xs
  {
    InsertPermutes(key, x, xs);
    assert y in Insert(key, x, xs) <==> y in multiset(Insert(key, x, xs));
    assert y in multiset{x} + multiset(xs) <==> y == x || y in xs;
  }

  lemma {:induction false} InsertDistinct<T>(key: T -> string, x: T, xs: seq<T>)
    requires DistinctKeys(key, [x] + xs)
    ensures DistinctKeys(key, Insert(key, x, xs))
  {
    var all := [x] + xs;
    if xs == [] || NotAfter(key(x), key(xs[0])) {
      assert xs == [] ==> [x] + xs == [x];
    } else {
      var rest := Insert(key, x, xs[1..]);
      var without := [x] + xs[1..];
      assert forall i :: 0 <= i < |without| ==> without[i] == all[if i == 0 then 0 else i + 1];
      InsertDistinct(key, x, xs[1..]);
      forall j | 0 <= j < |rest|
        ensures key(xs[0]) != key(rest[j])
      {
        InsertMembers(key, x, xs[1..], rest[j]);
        if rest[j] == x {
          assert key(all[0]) != key(all[1]);
        } else {
          var k :| 0 <= k < |xs[1..]| && xs[1..][k] == rest[j];
          assert key(all[1]) != key(all[k + 2]);
        }
      }
    }
  }

  lemma {:induction false} SortDistinct<T>(key: T -> string, xs: seq<T>)
    requires DistinctKeys(key, xs)
    ensures DistinctKeys(key, SortBy(key, xs))
  {
    if xs == [] {
    } else {
      var rest, sorted := xs[1..], SortBy(key, xs[1..]);
      SortDistinct(key, rest);
      SortPermutes(key, rest);
      var all := [xs[0]] + sorted;
      forall i, j | 0 <= i < j < |all|
        ensures key(all[i]) != key(all[j])
      {
        if i == 0 {
          var k := MemberKept(sorted, rest, j - 1);
          assert key(xs[0]) != key(xs[k + 1]);
        } else {
          assert all[i] == sorted[i - 1] && all[j] == sorted[j - 1];
        }
      }
      InsertDistinct(key, xs[0], sorted);
    }
  }

  /** Sorting forgets the order of its input. */
  lemma SortForgetsOrder<T>(key: T -> string, xs: seq<T>, ys: seq<T>)
    requires multiset(xs) == multiset(ys) && DistinctKeys(key, xs)
    ensures SortBy(key, xs) == SortBy(key, ys)
  {
    SortPermutes(key, xs);
    SortPermutes(key, ys);
    SortSorts(key, xs);
    SortSorts(key, ys);
    SortDistinct(key, xs);
    SortedUnique(key, SortBy(key, xs), SortBy(key, ys));
  }

  /** "Equals its own sorted copy" is the same as being sorted. */
  lemma {:induction false} SortedFixpoint<T>(key: T -> string, xs: seq<T>)
    ensures SortBy(key, xs) == xs <==> IsSorted(key, xs)
  {
    SortSorts(key, xs);
    if IsSorted(key, xs) && xs != [] {
      SortedFixpoint(key, xs[1..]);
      assert xs[1..] != [] ==> NotAfter(key(xs[0]), key(xs[1..][0]));
      assert xs == [xs[0]] + xs[1..];
    }
  }

  function Itself(s: string): string { s }

  /** Sorting plain strings. */
  function Sort(xs: seq<string>): (r: seq<string>)
    ensures |r| == |xs|
  {
    SortBy(Itself, xs)
  }

  lemma SortMembers(xs: seq<string>, x: string)
    ensures x in Sort(xs) <==> x in xs
  {
    SortPermutes(Itself, xs);
    assert x in Sort(xs) <==> x in multiset(Sort(xs));
    assert x in xs <==> x in multiset(xs);
  }

  ghost predicate Distinct<T>(xs: seq<T>) {
    forall i, j :: 0 <= i < j < |xs| ==> xs[i] != xs[j]
  }

  function Members<T(==)>(xs: seq<T>): set<T> {
    set x | x in xs
  }

  lemma {:induction false} DistinctCount<T>(xs: seq<T>)
    ensures |Members(xs)| <= |xs|
    ensures |Members(xs)| == |xs| <==> Distinct(xs)
  {
    if xs == [] {
      assert Members(xs) == {};
    } else {
      var rest := xs[1..];
      DistinctCount(rest);
      assert xs == [xs[0]] + rest;
      assert Members(xs) == Members(rest) + {xs[0]};
      if xs[0] in rest {
        assert Members(xs) == Members(rest);
        var j :| 0 <= j < |rest| && rest[j] == xs[0];
        assert xs[0] == xs[j + 1];
      } else {
        assert |Members(xs)| == |Members(rest)| + 1;
        if Distinct(rest) {
          forall i, j | 0 <= i < j < |xs|
            ensures xs[i] != xs[j]
          {
            assert xs[j] == rest[j - 1];
            assert i > 0 ==> xs[i] == rest[i - 1];
          }
        }
        if Distinct(xs) {
          forall i, j | 0 <= i < j < |rest|
            ensures rest[i] != rest[j]
          {
            assert xs[i + 1] != xs[j + 1];
          }
        }
      }
    }
  }

  /** Distinct strings with the same members sort to the same list. */
  lemma SortOfSameSet(xs: seq<string>, ys: seq<string>)
    requires Distinct(xs) && Distinct(ys)
    ensures Sort(xs) == Sort(ys) <==> Members(xs) == Members(ys)
  {
    SortPermutes(Itself, xs);
    SortPermutes(Itself, ys);
    if Sort(xs) == Sort(ys) {
      forall x
        ensures x in xs <==> x in ys
      {
        assert x in xs <==> x in multiset(xs);
        assert x in ys <==> x in multiset(ys);
      }
    }
    if Members(xs) == Members(ys) {
      forall x
        ensures x in xs <==> x in ys
      {
        assert x in xs <==> x in Members(xs);
        assert x in ys <==> x in Members(ys);
      }
      SameMultiset(xs, ys);
      SortForgetsOrder(Itself, xs, ys);
    }
  }

  lemma {:induction false} DistinctMultiplicity<T>(xs: seq<T>, x: T)
    requires Distinct(xs)
    ensures multiset(xs)[x] == if x in xs then 1 else 0
  {
    if xs == [] {
    } else {
      var rest := xs[1..];
      assert xs == [xs[0]] + rest;
      assert multiset(xs) == multiset([xs[0]]) + multiset(rest);
      assert xs[0] !in rest;
      DistinctMultiplicity(rest, x);
    }
  }

  lemma SameMultiset<T(!new)>(xs: seq<T>, ys: seq<T>)
    requires Distinct(xs) && Distinct(ys)
    requires forall x :: x in xs <==> x in ys
    ensures multiset(xs) == multiset(ys)
  {
    var a, b := multiset(xs), multiset(ys);
    forall x
      ensures a[x] == b[x]
    {
      DistinctMultiplicity(xs, x);
      DistinctMultiplicity(ys, x);
    }
  }

  /** Sorting keeps distinct strings distinct. */
  lemma SortedDistinct(xs: seq<string>)
    requires Distinct(xs)
    ensures Distinct(Sort(xs))
  {
    assert DistinctKeys(Itself, xs);
    SortDistinct(Itself, xs);
    forall i, j | 0 <= i < j < |Sort(xs)|
      ensures Sort(xs)[i] != Sort(xs)[j]
    {
      assert Itself(Sort(xs)[i]) != Itself(Sort(xs)[j]);
    }
  }

  lemma TwiceCounted<T>(xs: seq<T>, i: nat, j: nat)
    requires i < j < |xs| && xs[i] == xs[j]
    ensures multiset(xs)[xs[i]] >= 2
  {
    assert xs == xs[..j] + xs[j..];
    assert xs[i] in xs[..j] && xs[j] in xs[j..];
    assert multiset(xs) == multiset(xs[..j]) + multiset(xs[j..]);
  }

  // ---------------------------------------------------------------- any strict order

  ghost predicate Ordered<T>(before: (T, T) -> bool, xs: seq<T>) {
    forall i, j :: 0 <= i < j < |xs| ==> before(xs[i], xs[j])
  }

  ghost predicate Asymmetric<T(!new)>(before: (T, T) -> bool) {
    forall a, b :: before(a, b) ==> !before(b, a)
  }

  lemma OrderedHeads<T(!new)>(before: (T, T) -> bool, xs: seq<T>, ys: seq<T>)
    requires Asymmetric(before) && Ordered(before, xs) && Ordered(before, ys) && xs != [] && ys != []
    requires xs[0] in ys && ys[0] in xs
    ensures xs[0] == ys[0]
  {
    var j :| 0 <= j < |ys| && ys[j] == xs[0];
    var i :| 0 <= i < |xs| && xs[i] == ys[0];
    assert i > 0 ==> before(xs[0], xs[i]);
    assert j > 0 ==> before(ys[0], ys[j]);
  }

  lemma OrderedTails<T(!new)>(before: (T, T) -> bool, xs: seq<T>, ys: seq<T>)
    requires Asymmetric(before) && Ordered(before, xs) && xs != [] && ys != [] && xs[0] == ys[0]
    requires forall c :: c in xs ==> c in ys
    ensures Ordered(before, xs[1..])
    ensures forall c :: c in xs[1..] ==> c in ys[1..]
  {
    assert forall i :: 0 <= i < |xs[1..]| ==> xs[1..][i] == xs[i + 1];
    forall c | c in xs[1..]
      ensures c in ys[1..]
    {
      var i :| 0 <= i < |xs[1..]| && xs[1..][i] == c;
      assert before(xs[0], xs[i + 1]);
      assert xs[i + 1] in xs;
      var j :| 0 <= j < |ys| && ys[j] == c;
      assert ys[1..][j - 1] == c;
    }
  }

  lemma SomethingIn<T(!new)>(xs: seq<T>)
    requires xs != []
    ensures exists c :: c in xs
  {
    assert xs[0] in xs;
  }

  /** Two ordered lists with the same members are the same list. */
  lemma {:induction false} OrderedUnique<T(!new)>(before: (T, T) -> bool, xs: seq<T>, ys: seq<T>)
    requires Asymmetric(before) && Ordered(before, xs) && Ordered(before, ys)
    requires forall c :: c in xs <==> c in ys
    ensures xs == ys
  {
    if xs == [] {
      if ys != [] {
        SomethingIn(ys);
      }
    } else {
      assert xs[0] in ys;
      OrderedHeads(before, xs, ys);
      OrderedTails(before, xs, ys);
      OrderedTails(before, ys, xs);
      OrderedUnique(before, xs[1..], ys[1..]);
      assert xs == [xs[0]] + xs[1..] && ys == [ys[0]] + ys[1..];
    }
  }
}
