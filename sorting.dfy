/** Python's `sorted`, which is stable, as an insertion sort over an
    ordering relation `le`: `le(a, b)` holds when `a` may come before `b`.
    `sorted(..., key=k)` is `le := (a, b) => k(a) <= k(b)` and
    `sorted(..., key=k, reverse=True)` is `le := (a, b) => k(a) >= k(b)`;
    in both, an element is placed before the first later one it may
    precede, so equal keys keep their order. */
module Sorting {

  /** `x` placed before the first element of `s` it may precede. */
  function Insert<T>(x: T, s: seq<T>, le: (T, T) -> bool): (r: seq<T>)
    ensures multiset(r) == multiset(s) + multiset{x}
    ensures |r| == |s| + 1
  {
    if s == [] then [x]
    else if le(x, s[0]) then [x] + s
    else
      assert s == [s[0]] + s[1..];
      [s[0]] + Insert(x, s[1..], le)
  }

  function Sort<T>(s: seq<T>, le: (T, T) -> bool): seq<T>
  {
    if s == [] then [] else Insert(s[0], Sort(s[1..], le), le)
  }

  /** `le` orders every pair one way or the other, transitively. */
  ghost predicate TotalPreorder<T(!new)>(le: (T, T) -> bool)
  {
    && (forall a, b :: le(a, b) || le(b, a))
    && (forall a, b, c :: le(a, b) && le(b, c) ==> le(a, c))
  }

  /** Each element may precede every later one. */
  ghost predicate Sorted<T>(s: seq<T>, le: (T, T) -> bool)
  {
    forall i, j :: 0 <= i < j < |s| ==> le(s[i], s[j])
  }

  /** Sorting rearranges the input, neither adding nor dropping anything. */
  lemma {:induction false} SortPermutes<T>(s: seq<T>, le: (T, T) -> bool)
    ensures multiset(Sort(s, le)) == multiset(s)
    ensures |Sort(s, le)| == |s|
  {
    if s != [] {
      SortPermutes(s[1..], le);
      assert s == [s[0]] + s[1..];
    }
  }

  lemma {:induction false} InsertSorted<T(!new)>(x: T, s: seq<T>, le: (T, T) -> bool)
    requires TotalPreorder(le)
    requires Sorted(s, le)
    ensures Sorted(Insert(x, s, le), le)
  {
    if s != [] && !le(x, s[0]) {
      InsertSorted(x, s[1..], le);
      var t := Insert(x, s[1..], le);
      assert le(s[0], x);
      assert forall j :: 0 <= j < |t| ==> t[j] in multiset(s[1..]) + multiset{x};
      forall j | 0 <= j < |t|
        ensures le(s[0], t[j])
      {
        assert t[j] in multiset(s[1..]) + multiset{x};
        if t[j] != x {
          assert t[j] in s[1..];
        }
      }
    }
  }

  /** The result is in order, for an ordering that relates every pair. */
  lemma {:induction false} SortSorted<T(!new)>(s: seq<T>, le: (T, T) -> bool)
    requires TotalPreorder(le)
    ensures Sorted(Sort(s, le), le)
  {
    if s != [] {
      SortSorted(s[1..], le);
      InsertSorted(s[0], Sort(s[1..], le), le);
    }
  }

  /** The elements of `s` that `le` cannot tell apart from `c`, in order. */
  function Ties<T>(s: seq<T>, le: (T, T) -> bool, c: T): seq<T>
  {
    if s == [] then []
    else (if le(s[0], c) && le(c, s[0]) then [s[0]] else []) + Ties(s[1..], le, c)
  }

  lemma {:induction false} InsertTies<T(!new)>(x: T, s: seq<T>, le: (T, T) -> bool, c: T)
    requires TotalPreorder(le)
    ensures Ties(Insert(x, s, le), le, c)
      == (if le(x, c) && le(c, x) then [x] else []) + Ties(s, le, c)
  {
    if s == [] {
      assert Insert(x, s, le) == [x];
      TiesCons(x, [], le, c);
    } else if le(x, s[0]) {
      assert Insert(x, s, le) == [x] + s;
      TiesCons(x, s, le, c);
    } else {
      var y, t := s[0], Insert(x, s[1..], le);
      assert Insert(x, s, le) == [y] + t && s == [y] + s[1..];
      InsertTies(x, s[1..], le, c);
      assert le(x, c) && le(c, y) ==> le(x, y);
      TiesPast(x, y, t, s[1..], le, c);
    }
  }

  /** The step of `InsertTies` where `x` moves past `y`. */
  lemma TiesPast<T>(x: T, y: T, t: seq<T>, rest: seq<T>, le: (T, T) -> bool, c: T)
    requires !le(x, y) && (le(x, c) && le(c, y) ==> le(x, y))
    requires Ties(t, le, c) == (if le(x, c) && le(c, x) then [x] else []) + Ties(rest, le, c)
    ensures Ties([y] + t, le, c) == (if le(x, c) && le(c, x) then [x] else []) + Ties([y] + rest, le, c)
  {
    var tx := if le(x, c) && le(c, x) then [x] else [];
    var ty := if le(y, c) && le(c, y) then [y] else [];
    TiesCons(y, t, le, c);
    TiesCons(y, rest, le, c);
    ConsSwap(ty, tx, Ties(rest, le, c));
  }

  lemma TiesCons<T>(y: T, s: seq<T>, le: (T, T) -> bool, c: T)
    ensures Ties([y] + s, le, c) == (if le(y, c) && le(c, y) then [y] else []) + Ties(s, le, c)
  {
    assert ([y] + s)[0] == y && ([y] + s)[1..] == s;
  }

  lemma ConsSwap<T>(a: seq<T>, b: seq<T>, rest: seq<T>)
    requires a == [] || b == []
    ensures a + (b + rest) == b + (a + rest)
  {
    if a == [] {
      assert a + (b + rest) == b + rest;
    } else {
      assert b + (a + rest) == a + rest;
    }
  }

  /** Stability: elements the ordering cannot tell apart keep their
      relative order. */
  lemma {:induction false} SortStable<T(!new)>(s: seq<T>, le: (T, T) -> bool, c: T)
    requires TotalPreorder(le)
    ensures Ties(Sort(s, le), le, c) == Ties(s, le, c)
  {
    if s != [] {
      SortStable(s[1..], le, c);
      InsertTies(s[0], Sort(s[1..], le), le, c);
    }
  }
}
