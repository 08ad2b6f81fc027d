/** `sort` followed by `dedup`, and the orders the components sort by. */
module Sorting {
  import opened Paths

  ghost predicate TotalOrder<T(!new)>(le: (T, T) -> bool) {
    && (forall x, y :: le(x, y) || le(y, x))
    && (forall x, y :: le(x, y) && le(y, x) ==> x == y)
    && (forall x, y, z :: le(x, y) && le(y, z) ==> le(x, z))
  }

  predicate Sorted<T>(xs: seq<T>, le: (T, T) -> bool) {
    forall i, j :: 0 <= i < j < |xs| ==> le(xs[i], xs[j])
  }

  predicate Distinct<T(==)>(xs: seq<T>) {
    forall i, j :: 0 <= i < j < |xs| ==> xs[i] != xs[j]
  }

  /** No element equals the one before it. */
  predicate NoRepeats<T(==)>(xs: seq<T>) {
    forall i :: 0 < i < |xs| ==> xs[i - 1] != xs[i]
  }

  function LastOf<T>(start: T, xs: seq<T>): T {
    if xs == [] then start else xs[|xs| - 1]
  }

  /** The elements left when every one equal to its predecessor is dropped; `start` precedes the first. */
  function Changes<T(==)>(start: T, xs: seq<T>): seq<T> {
    if xs == [] then [] else
      var before, last := xs[..|xs| - 1], xs[|xs| - 1];
      Changes(start, before) + (if last == LastOf(start, before) then [] else [last])
  }

  lemma {:induction false} ChangesKeepLast<T>(start: T, xs: seq<T>)
    ensures LastOf(start, Changes(start, xs)) == LastOf(start, xs)
  {
    if xs != [] {
      ChangesKeepLast(start, xs[..|xs| - 1]);
    }
  }

  function Before<T>(start: T, xs: seq<T>, i: nat): T
    requires i < |xs|
  {
    if i == 0 then start else xs[i - 1]
  }

  predicate Increasing(at: seq<nat>) {
    forall i, j :: 0 <= i < j < |at| ==> at[i] < at[j]
  }

  /** Where an element differs from the one before it. */
  predicate ChangesAt<T(==)>(start: T, xs: seq<T>, i: nat) {
    i < |xs| && xs[i] != Before(start, xs, i)
  }

  /** They are the elements at the places where one differs from the one before it, all of them and in order. */
  lemma {:induction false} ChangesExactly<T>(start: T, xs: seq<T>) returns (at: seq<nat>)
    ensures Increasing(at) && forall i :: i in at <==> ChangesAt(start, xs, i)
    ensures |Changes(start, xs)| == |at| && forall k :: 0 <= k < |at| ==> at[k] < |xs| && Changes(start, xs)[k] == xs[at[k]]
  {
    hide Changes, ChangesAt;
    at := [];
    if xs == [] {
      NoChanges(start, xs);
    } else {
      var front := xs[..|xs| - 1];
      at := ChangesExactly(start, front);
      PlacesOfFront(start, xs, at);
      assert forall k :: 0 <= k < |at| ==> at[k] in at;
      LastChanges(start, xs);
      if ChangesAt(start, xs, |front|) { at := at + [|front|]; }
    }
  }

  lemma NoChanges<T>(start: T, xs: seq<T>)
    requires xs == []
    ensures Changes(start, xs) == [] && forall i: nat :: !ChangesAt(start, xs, i)
  {
  }

  lemma PlacesOfFront<T>(start: T, xs: seq<T>, at: seq<nat>)
    requires xs != [] && forall i :: i in at <==> ChangesAt(start, xs[..|xs| - 1], i)
    ensures forall i: nat :: i in at <==> i < |xs| - 1 && ChangesAt(start, xs, i)
    ensures forall i: nat :: ChangesAt(start, xs, i) ==> i < |xs|
  {
    var front := xs[..|xs| - 1];
    forall i: nat ensures i in at <==> i < |xs| - 1 && ChangesAt(start, xs, i) {
      assert i < |front| ==> (ChangesAt(start, front, i) <==> ChangesAt(start, xs, i));
    }
  }

  lemma LastChanges<T>(start: T, xs: seq<T>)
    requires xs != []
    ensures ChangesAt(start, xs, |xs| - 1) <==> xs[|xs| - 1] != LastOf(start, xs[..|xs| - 1])
    ensures Changes(start, xs) ==
      Changes(start, xs[..|xs| - 1]) + if ChangesAt(start, xs, |xs| - 1) then [xs[|xs| - 1]] else []
  {
  }

  function Insert<T>(x: T, xs: seq<T>, le: (T, T) -> bool): (r: seq<T>)
    ensures multiset(r) == multiset(xs) + multiset{x}
  {
    if xs == [] then [x]
    else if le(x, xs[0]) then [x] + xs
    else
      assert xs == [xs[0]] + xs[1..];
      [xs[0]] + Insert(x, xs[1..], le)
  }

  function Sort<T>(xs: seq<T>, le: (T, T) -> bool): (r: seq<T>)
    ensures multiset(r) == multiset(xs)
  {
    if xs == [] then []
    else
      assert xs == [xs[0]] + xs[1..];
      Insert(xs[0], Sort(xs[1..], le), le)
  }

  lemma {:induction false} InsertSorted<T(!new)>(x: T, xs: seq<T>, le: (T, T) -> bool)
    requires TotalOrder(le) && Sorted(xs, le)
    ensures Sorted(Insert(x, xs, le), le)
  {
    if xs != [] && !le(x, xs[0]) {
      var rest := Insert(x, xs[1..], le);
      InsertSorted(x, xs[1..], le);
      forall i | 0 <= i < |rest| ensures le(xs[0], rest[i]) {
        assert rest[i] in multiset(rest);
        assert rest[i] == x || rest[i] in xs[1..];
      }
    }
  }

  lemma {:induction false} SortSorted<T(!new)>(xs: seq<T>, le: (T, T) -> bool)
    requires TotalOrder(le)
    ensures Sorted(Sort(xs, le), le)
  {
    if xs != [] {
      SortSorted(xs[1..], le);
      InsertSorted(xs[0], Sort(xs[1..], le), le);
    }
  }

  lemma SameMembers<T>(xs: seq<T>, ys: seq<T>)
    requires multiset(xs) == multiset(ys)
    ensures forall x :: x in xs <==> x in ys
  {
    forall x ensures x in xs <==> x in ys {
      assert x in xs <==> x in multiset(xs);
      assert x in ys <==> x in multiset(ys);
    }
  }

  /** `Vec::dedup`: of consecutive equal elements the first stays. */
  function Dedup<T(==, !new)>(xs: seq<T>): (r: seq<T>)
    ensures forall x :: x in r <==> x in xs
  {
    if |xs| < 2 then xs
    else
      assert forall x :: x in xs <==> x == xs[0] || x in xs[1..];
      if xs[0] == xs[1] then Dedup(xs[1..]) else [xs[0]] + Dedup(xs[1..])
  }

  lemma {:induction false} DedupSorted<T(!new)>(xs: seq<T>, le: (T, T) -> bool)
    requires TotalOrder(le) && Sorted(xs, le)
    ensures Sorted(Dedup(xs), le) && Distinct(Dedup(xs))
  {
    if |xs| >= 2 {
      DedupSorted(xs[1..], le);
      var rest := Dedup(xs[1..]);
      if xs[0] != xs[1] {
        forall i | 0 <= i < |rest| ensures le(xs[0], rest[i]) && rest[i] != xs[0] {
          assert rest[i] in rest;
          assert rest[i] in xs[1..];
          assert le(xs[1], rest[i]);
        }
      }
    }
  }

  function SortDedup<T(==, !new)>(xs: seq<T>, le: (T, T) -> bool): seq<T> {
    Dedup(Sort(xs, le))
  }

  /** The result lists the set of the input's elements in increasing order, so it is determined by that set. */
  lemma SortDedupSpec<T(!new)>(xs: seq<T>, le: (T, T) -> bool)
    requires TotalOrder(le)
    ensures Sorted(SortDedup(xs, le), le) && Distinct(SortDedup(xs, le))
    ensures forall x :: x in SortDedup(xs, le) <==> x in xs
  {
    SortSorted(xs, le);
    DedupSorted(Sort(xs, le), le);
    SameMembers(Sort(xs, le), xs);
  }

  /** Two increasing lists of the same elements are one list. */
  lemma {:induction false} IncreasingIsUnique<T(!new)>(xs: seq<T>, ys: seq<T>, le: (T, T) -> bool)
    requires TotalOrder(le)
    requires Sorted(xs, le) && Distinct(xs) && Sorted(ys, le) && Distinct(ys)
    requires forall x :: x in xs <==> x in ys
    ensures xs == ys
  {
    if xs == [] {
      assert forall i :: 0 <= i < |ys| ==> ys[i] in ys;
    } else {
      assert xs[0] in ys && ys != [] && ys[0] in xs;
      assert xs[0] == ys[0];
      forall x ensures x in xs[1..] <==> x in ys[1..] {
        assert x in xs <==> x == xs[0] || x in xs[1..];
        assert x in ys <==> x == ys[0] || x in ys[1..];
      }
      IncreasingIsUnique(xs[1..], ys[1..], le);
      assert xs == [xs[0]] + xs[1..] && ys == [ys[0]] + ys[1..];
    }
  }

  // ---- orders ----

  /** Lexicographic order from an order on the elements. */
  predicate LexLe<T(==)>(a: seq<T>, b: seq<T>, le: (T, T) -> bool) {
    a == [] || (b != [] && (if a[0] == b[0] then LexLe(a[1..], b[1..], le) else le(a[0], b[0])))
  }

  predicate CharLe(a: char, b: char) { a <= b }

  predicate StringLe(a: string, b: string) { LexLe(a, b, CharLe) }

  /** Paths compare component by component. */
  predicate PathLe(a: Path, b: Path) { LexLe(a, b, StringLe) }

  lemma {:induction false} LexTotal<T(!new)>(a: seq<T>, b: seq<T>, le: (T, T) -> bool)
    requires TotalOrder(le)
    ensures LexLe(a, b, le) || LexLe(b, a, le)
    ensures LexLe(a, b, le) && LexLe(b, a, le) ==> a == b
  {
    if a != [] && b != [] && a[0] == b[0] {
      LexTotal(a[1..], b[1..], le);
      assert a == [a[0]] + a[1..] && b == [b[0]] + b[1..];
    }
  }

  lemma {:induction false} LexTransitive<T(!new)>(a: seq<T>, b: seq<T>, c: seq<T>, le: (T, T) -> bool)
    requires TotalOrder(le) && LexLe(a, b, le) && LexLe(b, c, le)
    ensures LexLe(a, c, le)
  {
    if a != [] && a[0] == b[0] == c[0] { LexTransitive(a[1..], b[1..], c[1..], le); }
  }

  lemma LexIsTotalOrder<T(!new)>(le: (T, T) -> bool)
    requires TotalOrder(le)
    ensures TotalOrder((a: seq<T>, b: seq<T>) => LexLe(a, b, le))
  {
    forall a: seq<T>, b: seq<T>
      ensures (LexLe(a, b, le) || LexLe(b, a, le)) && (LexLe(a, b, le) && LexLe(b, a, le) ==> a == b)
    {
      LexTotal(a, b, le);
    }
    forall a: seq<T>, b: seq<T>, c: seq<T> | LexLe(a, b, le) && LexLe(b, c, le) ensures LexLe(a, c, le) {
      LexTransitive(a, b, c, le);
    }
  }

  lemma StringOrder()
    ensures TotalOrder(StringLe)
  {
    assert TotalOrder(CharLe);
    LexIsTotalOrder(CharLe);
    var lex := (a: string, b: string) => LexLe(a, b, CharLe);
    assert TotalOrder(lex);
    assert forall a, b :: StringLe(a, b) <==> lex(a, b);
  }

  lemma PathOrder()
    ensures TotalOrder(PathLe)
  {
    StringOrder();
    LexIsTotalOrder(StringLe);
    var lex := (a: Path, b: Path) => LexLe(a, b, StringLe);
    assert TotalOrder(lex);
    assert forall a, b :: PathLe(a, b) <==> lex(a, b);
  }

  /** The first position where two sequences differ, or the length of the shorter one. */
  function Common<T(==)>(a: seq<T>, b: seq<T>): (n: nat)
    ensures n <= |a| && n <= |b| && a[..n] == b[..n]
    ensures n < |a| && n < |b| ==> a[n] != b[n]
  {
    if a == [] || b == [] || a[0] != b[0] then 0 else
      assert forall n: nat :: n < |a| && n < |b| && a[1..][..n] == b[1..][..n] ==> a[..n + 1] == b[..n + 1];
      1 + Common(a[1..], b[1..])
  }

  lemma {:induction false} LexExactly<T>(a: seq<T>, b: seq<T>, le: (T, T) -> bool)
    ensures var n := Common(a, b);
      LexLe(a, b, le) <==> n == |a| || (n < |b| && le(a[n], b[n]))
  {
    if a != [] && b != [] && a[0] == b[0] { LexExactly(a[1..], b[1..], le); }
  }

  /** A path comes before another exactly when it contains it or the first component that differs comes before,
      and a component exactly when it is a prefix or the first character that differs is smaller. */
  lemma PathOrderExactly(a: Path, b: Path)
    ensures var n := Common(a, b);
      n == |a| || n == |b| ==> (PathLe(a, b) <==> n == |a|)
    ensures var n := Common(a, b);
      n < |a| && n < |b| ==>
        var m := Common(a[n], b[n]);
        PathLe(a, b) <==> m == |a[n]| || (m < |b[n]| && a[n][m] <= b[n][m])
  {
    LexExactly(a, b, StringLe);
    var n := Common(a, b);
    if n < |a| && n < |b| { LexExactly(a[n], b[n], CharLe); }
  }
}
