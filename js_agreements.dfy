/** What the three JavaScript effective-terms resolvers (the browser app, the in-memory Express
    server and the Postgres-backed API) have in common: they keep the agreements a predicate
    accepts, sort them ascending by `(effective date or 0, priority or derived priority)` with a
    stable sort, and then call `Map.prototype.set(clauseType, …)` once per clause in that order,
    so the last clause written for a type wins. */
module JsAgreements {
  import opened Wrappers
  import Sorting

  // ---------------------------------------------------------------------------------------
  // Filtering

  /** `Array.prototype.filter`: the elements `keep` accepts, in their order. */
  function Filter<T>(s: seq<T>, keep: T -> bool): (r: seq<T>)
    ensures |r| <= |s|
    decreases |s|
  {
    if s == [] then []
    else Filter(s[..|s| - 1], keep) + (if keep(s[|s| - 1]) then [s[|s| - 1]] else [])
  }

  lemma {:induction false} FilterMember<T>(s: seq<T>, keep: T -> bool, x: T)
    ensures x in Filter(s, keep) <==> x in s && keep(x)
    decreases |s|
  {
    if s != [] {
      FilterMember(s[..|s| - 1], keep, x);
      assert s == s[..|s| - 1] + [s[|s| - 1]];
    }
  }

  /** Filtering keeps every element when `keep` accepts them all. */
  lemma {:induction false} FilterAll<T>(s: seq<T>, keep: T -> bool)
    requires forall k :: 0 <= k < |s| ==> keep(s[k])
    ensures Filter(s, keep) == s
    decreases |s|
  {
    if s != [] {
      FilterAll(s[..|s| - 1], keep);
      assert s == s[..|s| - 1] + [s[|s| - 1]];
    }
  }

  // ---------------------------------------------------------------------------------------
  // The sort key

  /** The comparator's key `(timestamp or 0, priority || derivePriority(docType))`. */
  datatype SortKey = SortKey(date: int, priority: int)

  /** The comparator returns a negative number: an earlier date, or the same date and a lower
      priority. */
  predicate KeyBefore(a: SortKey, b: SortKey) {
    a.date < b.date || (a.date == b.date && a.priority < b.priority)
  }

  /** `effectiveDate ? new Date(effectiveDate).getTime() : 0`, with a present date already read as
      its timestamp; a missing or empty date sorts as the epoch. */
  function DateKey(d: Option<int>): (t: int)
    ensures d.None? ==> t == 0
    ensures d.Some? ==> t == d.value
  {
    match d
    case Some(v) => v
    case None => 0
  }

  /** `priority || derived`: a stored priority of 0 (or none at all) falls back to the table. */
  function PriorityKey(priority: int, derived: int): (p: int)
    ensures priority != 0 ==> p == priority
    ensures priority == 0 ==> p == derived
  {
    if priority != 0 then priority else derived
  }

  /** Keys are ordered lexicographically, which is a strict weak order. */
  lemma KeyBeforeIsStrictWeakOrder()
    ensures Sorting.StrictWeakOrder(KeyBefore)
  {
  }

  // ---------------------------------------------------------------------------------------
  // Last writer wins

  /** The `Map` left after performing `writes` in order with `set`: a later write replaces an
      earlier one with the same key. */
  function LastWins<K, V>(writes: seq<(K, V)>): map<K, V>
    decreases |writes|
  {
    if writes == [] then map[]
    else LastWins(writes[..|writes| - 1])[writes[|writes| - 1].0 := writes[|writes| - 1].1]
  }

  lemma LastWinsSnoc<K, V>(writes: seq<(K, V)>, x: (K, V))
    ensures LastWins(writes + [x]) == LastWins(writes)[x.0 := x.1]
  {
    assert (writes + [x])[..|writes|] == writes;
  }

  /** One more write inside the writes of the agreement being visited. */
  lemma LastWinsStep<K, V>(done: seq<(K, V)>, part: seq<(K, V)>, x: (K, V))
    ensures LastWins(done + (part + [x])) == LastWins(done + part)[x.0 := x.1]
  {
    assert done + (part + [x]) == (done + part) + [x];
    LastWinsSnoc(done + part, x);
  }

  /** A key is present exactly when some write used it. */
  lemma {:induction false} LastWinsKeys<K, V>(writes: seq<(K, V)>, k: K)
    ensures k in LastWins(writes) <==> exists i :: 0 <= i < |writes| && writes[i].0 == k
    decreases |writes|
  {
    if writes != [] {
      var init := writes[..|writes| - 1];
      LastWinsKeys(init, k);
      assert forall i :: 0 <= i < |init| ==> init[i] == writes[i];
    }
  }

  /** The value kept for a key is the one of the last write to that key. */
  lemma {:induction false} LastWinsValue<K, V>(writes: seq<(K, V)>, k: K)
    requires k in LastWins(writes)
    ensures exists i :: 0 <= i < |writes| && writes[i] == (k, LastWins(writes)[k])
                        && forall j :: i < j < |writes| ==> writes[j].0 != k
    decreases |writes|
  {
    var init, x := writes[..|writes| - 1], writes[|writes| - 1];
    if x.0 == k {
      assert writes[|writes| - 1] == (k, LastWins(writes)[k]);
    } else {
      LastWinsValue(init, k);
      var i :| 0 <= i < |init| && init[i] == (k, LastWins(init)[k])
               && forall j :: i < j < |init| ==> init[j].0 != k;
      assert writes[i] == init[i];
      assert forall j :: i < j < |init| ==> writes[j] == init[j];
    }
  }

  /** Writing `a` and then `b` leaves `b`'s keys as `b` alone leaves them, and the rest as `a` does. */
  lemma {:induction false} LastWinsAppend<K, V>(a: seq<(K, V)>, b: seq<(K, V)>)
    ensures LastWins(a + b) == LastWins(a) + LastWins(b)
    decreases |b|
  {
    if b == [] {
      assert a + b == a;
    } else {
      var init, x := b[..|b| - 1], b[|b| - 1];
      assert a + b == (a + init) + [x];
      LastWinsSnoc(a + init, x);
      LastWinsAppend(a, init);
    }
  }

  // ---------------------------------------------------------------------------------------
  // Writes made agreement by agreement

  /** The writes a fold performs when it visits the agreements `ags` in order and, for each, makes
      the writes `w` lists for it. */
  function Writes<A, K, V>(ags: seq<A>, w: A -> seq<(K, V)>): seq<(K, V)>
    decreases |ags|
  {
    if ags == [] then [] else Writes(ags[..|ags| - 1], w) + w(ags[|ags| - 1])
  }

  lemma WritesSnoc<A, K, V>(ags: seq<A>, w: A -> seq<(K, V)>, i: nat)
    requires i < |ags|
    ensures Writes(ags[..i + 1], w) == Writes(ags[..i], w) + w(ags[i])
  {
    assert ags[..i + 1][..i] == ags[..i];
  }

  /** A key is present after the fold exactly when some agreement writes it. */
  lemma {:induction false} FoldKeys<A, K, V>(ags: seq<A>, w: A -> seq<(K, V)>, k: K)
    ensures k in LastWins(Writes(ags, w)) <==>
              exists i, p :: 0 <= i < |ags| && 0 <= p < |w(ags[i])| && w(ags[i])[p].0 == k
    decreases |ags|
  {
    if ags != [] {
      var init, last := ags[..|ags| - 1], ags[|ags| - 1];
      FoldKeys(init, w, k);
      LastWinsAppend(Writes(init, w), w(last));
      LastWinsKeys(w(last), k);
      if exists i, p :: 0 <= i < |ags| && 0 <= p < |w(ags[i])| && w(ags[i])[p].0 == k {
        var i, p :| 0 <= i < |ags| && 0 <= p < |w(ags[i])| && w(ags[i])[p].0 == k;
        if i < |init| {
          assert init[i] == ags[i];
        }
      }
      if exists i, p :: 0 <= i < |init| && 0 <= p < |w(init[i])| && w(init[i])[p].0 == k {
        var i, p :| 0 <= i < |init| && 0 <= p < |w(init[i])| && w(init[i])[p].0 == k;
        assert ags[i] == init[i];
      }
    }
  }

  /** The value the fold keeps for a key was written by some agreement `ags[i]` at position `p`
      of its writes; no later agreement writes that key, and `ags[i]` does not write it again. */
  lemma {:induction false} FoldWriter<A, K, V>(ags: seq<A>, w: A -> seq<(K, V)>, k: K)
    requires k in LastWins(Writes(ags, w))
    ensures exists i, p :: 0 <= i < |ags| && 0 <= p < |w(ags[i])| && w(ags[i])[p] == (k, LastWins(Writes(ags, w))[k])
                           && (forall j, q :: i < j < |ags| && 0 <= q < |w(ags[j])| ==> w(ags[j])[q].0 != k)
                           && (forall q :: p < q < |w(ags[i])| ==> w(ags[i])[q].0 != k)
    decreases |ags|
  {
    var init, last := ags[..|ags| - 1], ags[|ags| - 1];
    var m := LastWins(Writes(ags, w));
    LastWinsAppend(Writes(init, w), w(last));
    if k in LastWins(w(last)) {
      LastWinsValue(w(last), k);
      var p :| 0 <= p < |w(last)| && w(last)[p] == (k, LastWins(w(last))[k])
               && forall q :: p < q < |w(last)| ==> w(last)[q].0 != k;
      assert ags[|ags| - 1] == last;
    } else {
      FoldWriter(init, w, k);
      var i, p :| 0 <= i < |init| && 0 <= p < |w(init[i])| && w(init[i])[p] == (k, LastWins(Writes(init, w))[k])
                  && (forall j, q :: i < j < |init| && 0 <= q < |w(init[j])| ==> w(init[j])[q].0 != k)
                  && (forall q :: p < q < |w(init[i])| ==> w(init[i])[q].0 != k);
      assert ags[i] == init[i];
      LastWinsKeys(w(last), k);
      forall j, q | i < j < |ags| && 0 <= q < |w(ags[j])| ensures w(ags[j])[q].0 != k {
        if j < |init| {
          assert ags[j] == init[j];
        }
      }
    }
  }

  /** Folding over agreements sorted by a strict weak order: the agreement whose write survives
      for a key sorts no earlier than any other agreement that writes that key. */
  lemma FoldWinnerIsLatest<A(!new), K, V>(sorted: seq<A>, less: (A, A) -> bool, w: A -> seq<(K, V)>, k: K)
    requires Sorting.StrictWeakOrder(less) && Sorting.Ordered(sorted, less)
    requires k in LastWins(Writes(sorted, w))
    ensures exists i, p :: 0 <= i < |sorted| && 0 <= p < |w(sorted[i])| && w(sorted[i])[p] == (k, LastWins(Writes(sorted, w))[k])
                           && (forall q :: p < q < |w(sorted[i])| ==> w(sorted[i])[q].0 != k)
                           && (forall j, q :: 0 <= j < |sorted| && 0 <= q < |w(sorted[j])| && w(sorted[j])[q].0 == k
                                 ==> !less(sorted[i], sorted[j]))
  {
    FoldWriter(sorted, w, k);
    var i, p :| 0 <= i < |sorted| && 0 <= p < |w(sorted[i])| && w(sorted[i])[p] == (k, LastWins(Writes(sorted, w))[k])
                && (forall j, q :: i < j < |sorted| && 0 <= q < |w(sorted[j])| ==> w(sorted[j])[q].0 != k)
                && (forall q :: p < q < |w(sorted[i])| ==> w(sorted[i])[q].0 != k);
    forall j, q | 0 <= j < |sorted| && 0 <= q < |w(sorted[j])| && w(sorted[j])[q].0 == k
      ensures !less(sorted[i], sorted[j])
    {
      assert j <= i;
    }
  }
  /** Agreement `a` makes a write to key `k`. */
  ghost predicate WritesKey<A, K, V>(w: A -> seq<(K, V)>, a: A, k: K) {
    exists q :: 0 <= q < |w(a)| && w(a)[q].0 == k
  }

  /** The fold over a sorted copy of `s` holds a key exactly when some agreement of `s` writes it. */
  lemma FoldSortedKeys<A, K, V>(s: seq<A>, less: (A, A) -> bool, w: A -> seq<(K, V)>, k: K)
    ensures k in LastWins(Writes(Sorting.Sort(s, less), w)) <==> exists a :: a in s && WritesKey(w, a, k)
  {
    var sorted := Sorting.Sort(s, less);
    FoldKeys(sorted, w, k);
    if exists a :: a in s && WritesKey(w, a, k) {
      var a :| a in s && WritesKey(w, a, k);
      var q :| 0 <= q < |w(a)| && w(a)[q].0 == k;
      Sorting.SortMember(s, less, a);
      var i :| 0 <= i < |sorted| && sorted[i] == a;
    }
    if exists i, p :: 0 <= i < |sorted| && 0 <= p < |w(sorted[i])| && w(sorted[i])[p].0 == k {
      var i, p :| 0 <= i < |sorted| && 0 <= p < |w(sorted[i])| && w(sorted[i])[p].0 == k;
      Sorting.SortMember(s, less, sorted[i]);
      assert WritesKey(w, sorted[i], k);
    }
  }

  /** The value the fold over a stably sorted copy of `s` keeps for a key was written by an
      agreement of `s` at a position after which that agreement does not write the key again, and
      no agreement of `s` that writes the key sorts after it. */
  lemma FoldSortedWinner<A(!new), K, V>(s: seq<A>, less: (A, A) -> bool, w: A -> seq<(K, V)>, k: K)
    requires Sorting.StrictWeakOrder(less)
    requires k in LastWins(Writes(Sorting.Sort(s, less), w))
    ensures exists a, p :: a in s && 0 <= p < |w(a)| && w(a)[p] == (k, LastWins(Writes(Sorting.Sort(s, less), w))[k])
                           && (forall q :: p < q < |w(a)| ==> w(a)[q].0 != k)
                           && (forall b :: b in s && WritesKey(w, b, k) ==> !less(a, b))
  {
    var sorted := Sorting.Sort(s, less);
    var m := LastWins(Writes(sorted, w));
    Sorting.SortOrdered(s, less);
    FoldWinnerIsLatest(sorted, less, w, k);
    var i, p :| 0 <= i < |sorted| && 0 <= p < |w(sorted[i])| && w(sorted[i])[p] == (k, m[k])
                && (forall q :: p < q < |w(sorted[i])| ==> w(sorted[i])[q].0 != k)
                && (forall j, q :: 0 <= j < |sorted| && 0 <= q < |w(sorted[j])| && w(sorted[j])[q].0 == k
                      ==> !less(sorted[i], sorted[j]));
    assert sorted[i] in multiset(s);
    forall b | b in s && WritesKey(w, b, k) ensures !less(sorted[i], b) {
      var q :| 0 <= q < |w(b)| && w(b)[q].0 == k;
      assert b in multiset(sorted);
      var j :| 0 <= j < |sorted| && sorted[j] == b;
    }
  }
}
