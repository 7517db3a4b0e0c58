/** Filtering a list, as `filter` does. */
module Lists {
  import opened Sorting

  function Where<T(!new)>(keep: T -> bool, xs: seq<T>): (r: seq<T>)
    ensures forall x :: x in r <==> x in xs && keep(x)
  {
    if xs == [] then [] else if keep(xs[0]) then [xs[0]] + Where(keep, xs[1..]) else Where(keep, xs[1..])
  }

  lemma {:induction false} WhereConcat<T(!new)>(keep: T -> bool, xs: seq<T>, ys: seq<T>)
    ensures Where(keep, xs + ys) == Where(keep, xs) + Where(keep, ys)
  {
    if xs == [] {
      assert xs + ys == ys;
    } else {
      assert (xs + ys)[1..] == xs[1..] + ys;
      WhereConcat(keep, xs[1..], ys);
    }
  }

  lemma WhereOne<T(!new)>(keep: T -> bool, x: T)
    ensures Where(keep, [x]) == if keep(x) then [x] else []
  {
  }

  lemma {:induction false} WhereAll<T(!new)>(keep: T -> bool, xs: seq<T>)
    requires forall x :: x in xs ==> keep(x)
    ensures Where(keep, xs) == xs
  {
    if xs != [] {
      WhereAll(keep, xs[1..]);
    }
  }

  lemma {:induction false} WhereNone<T(!new)>(keep: T -> bool, xs: seq<T>)
    requires forall x :: x in xs ==> !keep(x)
    ensures Where(keep, xs) == []
  {
    if xs != [] {
      WhereNone(keep, xs[1..]);
    }
  }

  lemma {:induction false} WhereDistinct<T(!new)>(key: T -> string, keep: T -> bool, xs: seq<T>)
    requires DistinctKeys(key, xs)
    ensures DistinctKeys(key, Where(keep, xs))
  {
    if xs != [] {
      TailKeeps(key, xs);
      WhereDistinct(key, keep, xs[1..]);
      var rest := Where(keep, xs[1..]);
      forall j | 0 <= j < |rest|
        ensures key(xs[0]) != key(rest[j])
      {
        assert rest[j] in xs[1..];
        var k :| 0 <= k < |xs[1..]| && xs[1..][k] == rest[j];
        assert key(xs[0]) != key(xs[k + 1]);
      }
    }
  }
}
