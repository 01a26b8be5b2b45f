/** De-duplication and truncation of lists. The extractor de-duplicates with
    `list(set(...))`, whose order Python leaves unspecified; this model keeps the
    first occurrence of each value in input order, and the contracts below state
    the facts that hold whatever order a set would produce. */
module Unique {

  predicate NoDups<T(==)>(s: seq<T>) {
    forall i, j | 0 <= i < j < |s| :: s[i] != s[j]
  }

  /** The distinct values of `s`. */
  function Elems<T>(s: seq<T>): set<T> {
    set x | x in s
  }

  /** Keeps the first occurrence of each value of `s` not already in `seen`. */
  function DedupFrom<T(==)>(s: seq<T>, seen: set<T>): (r: seq<T>)
    ensures NoDups(r)
    ensures Elems(r) == Elems(s) - seen
    ensures |r| <= |s|
    decreases |s|
  {
    if |s| == 0 then []
    else if s[0] in seen then
      assert Elems(s) == Elems(s[1..]) + {s[0]};
      DedupFrom(s[1..], seen)
    else
      var rest := DedupFrom(s[1..], seen + {s[0]});
      assert Elems(s) == Elems(s[1..]) + {s[0]};
      assert Elems([s[0]] + rest) == Elems(rest) + {s[0]};
      [s[0]] + rest
  }

  /** `list(set(s))`, in first-seen order. */
  function Dedup<T(==)>(s: seq<T>): (r: seq<T>)
    ensures NoDups(r)
    ensures Elems(r) == Elems(s)
    ensures |r| <= |s|
  {
    DedupFrom(s, {})
  }

  /** `s[:n]`. */
  function Take<T>(s: seq<T>, n: nat): (r: seq<T>)
    ensures |r| == if |s| <= n then |s| else n
    ensures r <= s
  {
    if |s| <= n then s else s[..n]
  }

  /** A duplicate-free list has as many values as elements. */
  lemma {:induction false} NoDupsCard<T>(s: seq<T>)
    requires NoDups(s)
    ensures |Elems(s)| == |s|
    decreases |s|
  {
    if |s| > 0 {
      NoDupsCard(s[1..]);
      assert Elems(s) == Elems(s[1..]) + {s[0]};
      assert s[0] !in Elems(s[1..]);
    } else {
      assert Elems(s) == {};
    }
  }

  /** A list has at most as many distinct values as elements. */
  lemma {:induction false} ElemsCard<T>(s: seq<T>)
    ensures |Elems(s)| <= |s|
    decreases |s|
  {
    if |s| > 0 {
      ElemsCard(s[1..]);
      assert Elems(s) == Elems(s[1..]) + {s[0]};
    } else {
      assert Elems(s) == {};
    }
  }

  /** A subset is no larger than its superset. */
  lemma SubsetCard<T>(a: set<T>, b: set<T>)
    requires a <= b
    ensures |a| <= |b|
  {
    assert b == a + (b - a);
  }

  /** A subset as large as its superset is the whole superset. */
  lemma EqualCardSubset<T>(a: set<T>, b: set<T>)
    requires a <= b
    requires |a| == |b|
    ensures a == b
  {
    assert b == a + (b - a);
    assert |b - a| == 0;
  }

  /** De-duplication keeps exactly one copy of every distinct value, so its length is
      the number of distinct values — the size of Python's `set(s)`. */
  lemma DedupSize<T>(s: seq<T>)
    ensures |Dedup(s)| == |Elems(s)|
  {
    NoDupsCard(Dedup(s));
    assert Elems(Dedup(s)) == Elems(s);
  }

  /** A list without duplicates is left unchanged. */
  lemma {:induction false} DedupFromNoDups<T>(s: seq<T>, seen: set<T>)
    requires NoDups(s)
    requires Elems(s) !! seen
    ensures DedupFrom(s, seen) == s
    decreases |s|
  {
    if |s| > 0 {
      assert s[0] !in s[1..];
      DedupFromNoDups(s[1..], seen + {s[0]});
    }
  }

  /** The truncated de-duplicated list: no duplicates, only values of `s`, as many of
      them as the cap allows, and when it is shorter than the cap, every value of `s`. */
  function TakeUnique<T(==)>(s: seq<T>, n: nat): (r: seq<T>)
    ensures NoDups(r)
    ensures Elems(r) <= Elems(s)
    ensures |r| == if |Elems(s)| <= n then |Elems(s)| else n
    ensures |r| < n ==> Elems(r) == Elems(s)
  {
    var d := Dedup(s);
    DedupSize(s);
    var r := Take(d, n);
    assert forall i, j | 0 <= i < j < |r| :: r[i] == d[i] && r[j] == d[j];
    r
  }

  /** When the list holds no more distinct values than the cap, nothing is cut. */
  lemma TakeUniqueKeepsAll<T>(s: seq<T>, n: nat)
    requires |Elems(s)| <= n
    ensures Elems(TakeUnique(s, n)) == Elems(s)
  {
    var r := TakeUnique(s, n);
    if |r| == n {
      NoDupsCard(r);
      EqualCardSubset(Elems(r), Elems(s));
    }
  }

  /** A short list without duplicates passes through unchanged. This is a fact about
      the first-occurrence order of `Dedup`; a set may give the same values in another
      order. */
  lemma TakeUniqueNoDups<T>(s: seq<T>, n: nat)
    requires NoDups(s) && |s| <= n
    ensures TakeUnique(s, n) == s
  {
    DedupFromNoDups(s, {});
  }

  /** `[f(x) for x in xs if keep(x)]`. */
  function KeepMap<A, B>(xs: seq<A>, keep: A -> bool, f: A -> B): (r: seq<B>)
    ensures |r| <= |xs|
  {
    if |xs| == 0 then []
    else if keep(xs[0]) then [f(xs[0])] + KeepMap(xs[1..], keep, f)
    else KeepMap(xs[1..], keep, f)
  }

  /** `y` is the image under `f` of some input of `xs` that `keep` accepts. */
  predicate ImageOfKept<A, B(==)>(xs: seq<A>, keep: A -> bool, f: A -> B, y: B) {
    exists j | 0 <= j < |xs| :: keep(xs[j]) && y == f(xs[j])
  }

  /** Every output is the image of a kept input, and every kept input has its image. */
  lemma {:induction false} KeepMapMembers<A, B>(xs: seq<A>, keep: A -> bool, f: A -> B)
    ensures forall i | 0 <= i < |KeepMap(xs, keep, f)| :: ImageOfKept(xs, keep, f, KeepMap(xs, keep, f)[i])
    ensures forall j | 0 <= j < |xs| && keep(xs[j]) :: f(xs[j]) in KeepMap(xs, keep, f)
    decreases |xs|
  {
    if |xs| > 0 {
      var tail := xs[1..];
      KeepMapMembers(tail, keep, f);
      var r := KeepMap(xs, keep, f);
      var rest := KeepMap(tail, keep, f);
      var d := if keep(xs[0]) then 1 else 0;
      assert r[d..] == rest;
      forall i | 0 <= i < |r| ensures ImageOfKept(xs, keep, f, r[i])
      {
        if i < d {
          assert keep(xs[0]) && r[i] == f(xs[0]);
          assert exists j | 0 <= j < |xs| :: keep(xs[j]) && r[i] == f(xs[j]);
        } else {
          assert ImageOfKept(tail, keep, f, rest[i - d]);
          var j :| 0 <= j < |tail| && keep(tail[j]) && rest[i - d] == f(tail[j]);
          assert xs[j + 1] == tail[j] && r[i] == rest[i - d];
          assert exists j | 0 <= j < |xs| :: keep(xs[j]) && r[i] == f(xs[j]);
        }
      }
      forall j | 0 <= j < |xs| && keep(xs[j]) ensures f(xs[j]) in r {
        if j > 0 {
          assert xs[j] == tail[j - 1];
        }
      }
    } else {
      assert KeepMap(xs, keep, f) == [];
    }
  }

  /** Inputs are handled one at a time, in order. */
  lemma {:induction false} KeepMapAppend<A, B>(a: seq<A>, b: seq<A>, keep: A -> bool, f: A -> B)
    ensures KeepMap(a + b, keep, f) == KeepMap(a, keep, f) + KeepMap(b, keep, f)
    decreases |a|
  {
    if |a| > 0 {
      assert (a + b)[1..] == a[1..] + b;
      KeepMapAppend(a[1..], b, keep, f);
    } else {
      assert a + b == b;
    }
  }

  /** `[x for x in xs if keep(x)]`. */
  function Filter<T>(xs: seq<T>, keep: T -> bool): (r: seq<T>)
    ensures |r| <= |xs|
  {
    if |xs| == 0 then []
    else if keep(xs[0]) then [xs[0]] + Filter(xs[1..], keep)
    else Filter(xs[1..], keep)
  }

  lemma FilterCons<T>(x: T, xs: seq<T>, keep: T -> bool)
    ensures Filter([x] + xs, keep) == (if keep(x) then [x] else []) + Filter(xs, keep)
  {
    assert ([x] + xs)[1..] == xs;
  }

  /** The filter keeps exactly the accepted values. */
  lemma {:induction false} FilterMembers<T>(xs: seq<T>, keep: T -> bool)
    ensures forall x | x in Filter(xs, keep) :: x in xs && keep(x)
    ensures forall i | 0 <= i < |xs| && keep(xs[i]) :: xs[i] in Filter(xs, keep)
    decreases |xs|
  {
    if |xs| > 0 {
      FilterMembers(xs[1..], keep);
      assert forall x | x in xs[1..] :: x in xs;
      assert forall i | 1 <= i < |xs| :: xs[i] == xs[1..][i - 1];
    }
  }

  /** Filtering a list without duplicates gives a list without duplicates. */
  lemma {:induction false} FilterNoDups<T>(xs: seq<T>, keep: T -> bool)
    requires NoDups(xs)
    ensures NoDups(Filter(xs, keep))
    decreases |xs|
  {
    if |xs| > 0 {
      FilterNoDups(xs[1..], keep);
      FilterMembers(xs[1..], keep);
      assert xs[0] !in xs[1..];
      var rest := Filter(xs[1..], keep);
      if keep(xs[0]) {
        var r := [xs[0]] + rest;
        assert forall i | 0 < i < |r| :: r[i] == rest[i - 1];
      }
    }
  }
}
