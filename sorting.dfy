/** A stable sort by a comparison, as both runtimes of the source provide one: Python's
    `sorted(..., key=...)` and ECMAScript's `Array.prototype.sort` are both required to keep
    elements that compare equal in their input order. The model is an insertion sort, and what
    callers rely on is proved about it: the result is a permutation, it is ordered, and each class
    of equally-ranked elements keeps its input order. */
module Sorting {

  /** `less` is a strict weak order: irreflexive, transitive, and "incomparable" is transitive
      (stated as: if a < c then any b is above a or below c). */
  ghost predicate StrictWeakOrder<T(!new)>(less: (T, T) -> bool) {
    && (forall a :: !less(a, a))
    && (forall a, b, c :: less(a, b) && less(b, c) ==> less(a, c))
    && (forall a, b, c :: less(a, c) ==> less(a, b) || less(b, c))
  }

  /** Neither ranks before the other. */
  predicate Tied<T>(less: (T, T) -> bool, a: T, b: T) {
    !less(a, b) && !less(b, a)
  }

  /** No element ranks strictly before an element to its left. */
  ghost predicate Ordered<T>(s: seq<T>, less: (T, T) -> bool) {
    forall i, j :: 0 <= i < j < |s| ==> !less(s[j], s[i])
  }

  /** The elements of `s` tied with `x`, in the order they appear in `s`. */
  function TiedWith<T>(s: seq<T>, less: (T, T) -> bool, x: T): (r: seq<T>)
    ensures |r| <= |s|
    ensures forall k :: 0 <= k < |r| ==> Tied(less, r[k], x)
  {
    if s == [] then []
    else (if Tied(less, s[0], x) then [s[0]] else []) + TiedWith(s[1..], less, x)
  }

  lemma {:induction false} TiedWithAppend<T>(a: seq<T>, b: seq<T>, less: (T, T) -> bool, x: T)
    ensures TiedWith(a + b, less, x) == TiedWith(a, less, x) + TiedWith(b, less, x)
    decreases |a|
  {
    if a != [] {
      assert (a + b)[1..] == a[1..] + b;
      TiedWithAppend(a[1..], b, less, x);
    } else {
      assert a + b == b;
    }
  }

  /** Places `x` in front of the first element it ranks strictly before, so after every element
      it ties with: the step that makes the sort stable. */
  function Insert<T>(r: seq<T>, x: T, less: (T, T) -> bool): (r': seq<T>)
    ensures |r'| == |r| + 1
    ensures multiset(r') == multiset(r) + multiset{x}
  {
    if r == [] then [x]
    else if less(x, r[0]) then [x] + r
    else
      assert r == [r[0]] + r[1..];
      [r[0]] + Insert(r[1..], x, less)
  }

  /** Stable insertion sort: each element in input order is inserted into the sorted prefix. */
  function Sort<T>(s: seq<T>, less: (T, T) -> bool): (r: seq<T>)
    ensures |r| == |s|
    ensures multiset(r) == multiset(s)
  {
    if s == [] then []
    else
      assert s == s[..|s| - 1] + [s[|s| - 1]];
      Insert(Sort(s[..|s| - 1], less), s[|s| - 1], less)
  }

  lemma {:induction false} InsertOrdered<T(!new)>(r: seq<T>, x: T, less: (T, T) -> bool)
    requires StrictWeakOrder(less)
    requires Ordered(r, less)
    ensures Ordered(Insert(r, x, less), less)
    decreases |r|
  {
    if r != [] && !less(x, r[0]) {
      var tail := Insert(r[1..], x, less);
      InsertOrdered(r[1..], x, less);
      var res := [r[0]] + tail;
      assert multiset(tail) == multiset(r[1..]) + multiset{x};
      forall j | 0 < j < |res| ensures !less(res[j], r[0]) {
        var e := res[j];
        assert e in multiset(tail);
        if e != x {
          assert e in multiset(r[1..]);
          var k :| 0 <= k < |r[1..]| && r[1..][k] == e;
          assert r[1 + k] == e;
        }
      }
    }
  }

  /** The result of `Sort` is ordered. */
  lemma {:induction false} SortOrdered<T(!new)>(s: seq<T>, less: (T, T) -> bool)
    requires StrictWeakOrder(less)
    ensures Ordered(Sort(s, less), less)
    decreases |s|
  {
    if s != [] {
      SortOrdered(s[..|s| - 1], less);
      InsertOrdered(Sort(s[..|s| - 1], less), s[|s| - 1], less);
    }
  }

  /** In an ordered sequence, everything after an element `x` ranks strictly below is also
      ranked strictly below it, so none of it ties with `x`. */
  lemma {:induction false} NothingTiedAfter<T(!new)>(r: seq<T>, x: T, y: T, less: (T, T) -> bool)
    requires StrictWeakOrder(less)
    requires Ordered(r, less)
    requires r != [] && less(x, r[0])
    requires Tied(less, x, y)
    ensures TiedWith(r, less, y) == []
    decreases |r|
  {
    assert !Tied(less, r[0], y);
    if |r| > 1 {
      assert !less(r[1..][0], r[0]);
      NothingTiedAfter(r[1..], x, y, less);
    }
  }

  lemma ConsTail<T>(x: T, r: seq<T>)
    ensures ([x] + r)[1..] == r && ([x] + r)[0] == x
  {
  }

  lemma ConcatAssoc<T>(a: seq<T>, b: seq<T>, c: seq<T>)
    ensures (a + b) + c == a + (b + c)
  {
  }

  lemma OrderedTail<T>(r: seq<T>, less: (T, T) -> bool)
    requires r != [] && Ordered(r, less)
    ensures Ordered(r[1..], less)
  {
    forall i, j | 0 <= i < j < |r[1..]| ensures !less(r[1..][j], r[1..][i]) {
      assert r[1..][j] == r[j + 1] && r[1..][i] == r[i + 1];
    }
  }

  lemma {:induction false} InsertStable<T(!new)>(r: seq<T>, x: T, y: T, less: (T, T) -> bool)
    requires StrictWeakOrder(less)
    requires Ordered(r, less)
    ensures TiedWith(Insert(r, x, less), less, y)
         == if Tied(less, x, y) then TiedWith(r, less, y) + [x] else TiedWith(r, less, y)
    decreases |r|, 1
  {
    if r == [] {
    } else if less(x, r[0]) {
      ConsTail(x, r);
      if Tied(less, x, y) {
        NothingTiedAfter(r, x, y, less);
      }
    } else {
      InsertStablePast(r, x, y, less);
    }
  }

  /** The inductive step where `x` goes past the head of `r`. */
  lemma {:induction false} InsertStablePast<T(!new)>(r: seq<T>, x: T, y: T, less: (T, T) -> bool)
    requires StrictWeakOrder(less)
    requires Ordered(r, less)
    requires r != [] && !less(x, r[0])
    ensures TiedWith(Insert(r, x, less), less, y)
         == if Tied(less, x, y) then TiedWith(r, less, y) + [x] else TiedWith(r, less, y)
    decreases |r|, 0
  {
    var rest := Insert(r[1..], x, less);
    var head := if Tied(less, r[0], y) then [r[0]] else [];
    var extra := if Tied(less, x, y) then [x] else [];
    ConsTail(r[0], rest);
    OrderedTail(r, less);
    InsertStable(r[1..], x, y, less);
    assert TiedWith(Insert(r, x, less), less, y) == head + (TiedWith(r[1..], less, y) + extra);
    ConcatAssoc(head, TiedWith(r[1..], less, y), extra);
  }

  lemma InitLast<T>(s: seq<T>)
    requires s != []
    ensures s == s[..|s| - 1] + [s[|s| - 1]]
  {
  }

  /** Stability: for every `y`, the elements tied with `y` come out in their input order. */
  lemma {:induction false} SortStable<T(!new)>(s: seq<T>, less: (T, T) -> bool, y: T)
    requires StrictWeakOrder(less)
    ensures TiedWith(Sort(s, less), less, y) == TiedWith(s, less, y)
    decreases |s|
  {
    if s != [] {
      var init, last := s[..|s| - 1], s[|s| - 1];
      var sorted := Sort(init, less);
      assert Sort(s, less) == Insert(sorted, last, less);
      SortStable(init, less, y);
      SortOrdered(init, less);
      InsertStable(sorted, last, y, less);
      InitLast(s);
      TiedWithAppend(init, [last], less, y);
    }
  }

  /** The first element of a class in a sequence is preceded only by elements outside it. */
  lemma {:induction false} FirstTied<T>(s: seq<T>, less: (T, T) -> bool, y: T)
    requires TiedWith(s, less, y) != []
    ensures exists i :: 0 <= i < |s| && s[i] == TiedWith(s, less, y)[0]
                        && forall j :: 0 <= j < i ==> !Tied(less, s[j], y)
    decreases |s|
  {
    if !Tied(less, s[0], y) {
      FirstTied(s[1..], less, y);
      var i :| 0 <= i < |s[1..]| && s[1..][i] == TiedWith(s[1..], less, y)[0]
                && forall j :: 0 <= j < i ==> !Tied(less, s[1..][j], y);
      assert s[i + 1] == TiedWith(s, less, y)[0];
      assert forall j :: 0 < j <= i ==> s[j] == s[1..][j - 1];
    } else {
      assert s[0] == TiedWith(s, less, y)[0];
    }
  }

  /** What a caller of a stable sort takes from its first element: the winner is an input
      element, no input element ranks strictly before it, and it is the earliest in input
      order among those it ties with (every earlier element ranks strictly after it). */
  lemma SortFirst<T(!new)>(s: seq<T>, less: (T, T) -> bool)
    requires StrictWeakOrder(less)
    requires s != []
    ensures Sort(s, less)[0] in s
    ensures forall i :: 0 <= i < |s| ==> !less(s[i], Sort(s, less)[0])
    ensures exists i :: 0 <= i < |s| && s[i] == Sort(s, less)[0]
                        && forall j :: 0 <= j < i ==> less(Sort(s, less)[0], s[j])
  {
    var r := Sort(s, less);
    var w := r[0];
    assert w in multiset(r);
    SortOrdered(s, less);
    forall i | 0 <= i < |s| ensures !less(s[i], w) {
      assert s[i] in multiset(s);
      var k :| 0 <= k < |r| && r[k] == s[i];
      assert k == 0 || !less(r[k], r[0]);
    }
    SortStable(s, less, w);
    assert TiedWith(r, less, w)[0] == w;
    FirstTied(s, less, w);
  }

  /** Sorting neither adds nor drops an element. */
  lemma SortMember<T>(s: seq<T>, less: (T, T) -> bool, x: T)
    ensures x in Sort(s, less) <==> x in s
  {
    assert x in Sort(s, less) <==> x in multiset(Sort(s, less));
  }
}
