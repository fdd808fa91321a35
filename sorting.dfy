/** The stable sort the scheduler applies to its registry.

    Since ECMAScript 2019 (section 22.1.3.27), `Array.prototype.sort` must
    be stable: entries the comparator ties keep their input order. `Sort`
    below is a stable insertion sort, and `StableSortUnique` shows it is
    the only ordering that is both sorted and stable, so it is the result
    any conforming engine produces. */
module StableSort {
  import opened Orders
  import opened Animations

  /** Inserts `x` after every entry of `s` that it does not sort before,
      scanning from the back. */
  function Insert(s: seq<Animation>, x: Animation): (r: seq<Animation>)
    ensures |r| == |s| + 1
  {
    if s == [] then [x]
    else if Less(x.order, s[|s| - 1].order) then Insert(s[..|s| - 1], x) + [s[|s| - 1]]
    else s + [x]
  }

  /** Stable insertion sort: each entry, left to right, goes in behind the
      already sorted entries it ties with. */
  function Sort(s: seq<Animation>): (r: seq<Animation>)
    ensures |r| == |s|
  {
    if s == [] then [] else Insert(Sort(s[..|s| - 1]), s[|s| - 1])
  }

  /** The entries of `s` whose order ties with `k`, in their order in `s`.
      A sort is stable when it leaves every such sequence unchanged. */
  function TiedWith(s: seq<Animation>, k: Order): seq<Animation> {
    if s == [] then []
    else TiedWith(s[..|s| - 1], k) + (if Tied(s[|s| - 1].order, k) then [s[|s| - 1]] else [])
  }

  /** Where `Insert` puts `x`: after the last entry it does not sort before. */
  function InsertionPoint(s: seq<Animation>, x: Animation): (p: nat)
    ensures p <= |s|
  {
    if s == [] then 0
    else if Less(x.order, s[|s| - 1].order) then InsertionPoint(s[..|s| - 1], x)
    else |s|
  }

  lemma {:induction false} TiedWithAppend(a: seq<Animation>, b: seq<Animation>, k: Order)
    ensures TiedWith(a + b, k) == TiedWith(a, k) + TiedWith(b, k)
    decreases |b|
  {
    if b == [] {
      assert a + b == a;
    } else {
      var b' := b[..|b| - 1];
      assert (a + b)[..|a + b| - 1] == a + b';
      assert (a + b)[|a + b| - 1] == b[|b| - 1];
      TiedWithAppend(a, b', k);
    }
  }

  lemma {:induction false} TiedWithMembers(s: seq<Animation>, k: Order, e: Animation)
    ensures e in TiedWith(s, k) <==> e in s && Tied(e.order, k)
  {
    if s != [] {
      var s' := s[..|s| - 1];
      TiedWithMembers(s', k, e);
      assert s == s' + [s[|s| - 1]];
    }
  }

  /** Inserting `x` appends it to its own tie class and leaves every other
      class as it was. */
  lemma {:induction false} InsertTied(s: seq<Animation>, x: Animation, k: Order)
    ensures TiedWith(Insert(s, x), k) == TiedWith(s, k) + TiedWith([x], k)
  {
    assert TiedWith([x], k) == TiedWith([], k) + (if Tied(x.order, k) then [x] else []);
    if s == [] {
    } else if Less(x.order, s[|s| - 1].order) {
      var s', last := s[..|s| - 1], s[|s| - 1];
      InsertTied(s', x, k);
      TiedWithAppend(Insert(s', x), [last], k);
      assert TiedWith([last], k) == TiedWith([], k) + (if Tied(last.order, k) then [last] else []);
      if Tied(x.order, k) {
        LessRespectsTies(x.order, last.order, k);
      }
      assert s == s' + [last];
      TiedWithAppend(s', [last], k);
    } else {
      TiedWithAppend(s, [x], k);
    }
  }

  /** `Sort` is stable: every tie class keeps its input order. */
  lemma {:induction false} SortStable(s: seq<Animation>, k: Order)
    ensures TiedWith(Sort(s), k) == TiedWith(s, k)
  {
    if s != [] {
      var s', last := s[..|s| - 1], s[|s| - 1];
      SortStable(s', k);
      InsertTied(Sort(s'), last, k);
      assert s == s' + [last];
      TiedWithAppend(s', [last], k);
    }
  }

  lemma {:induction false} InsertPermutes(s: seq<Animation>, x: Animation)
    ensures multiset(Insert(s, x)) == multiset(s) + multiset{x}
  {
    if s != [] && Less(x.order, s[|s| - 1].order) {
      var s' := s[..|s| - 1];
      InsertPermutes(s', x);
      assert s == s' + [s[|s| - 1]];
      assert multiset(s) == multiset(s') + multiset{s[|s| - 1]};
    }
  }

  /** `Sort` returns a permutation of its input. */
  lemma {:induction false} SortPermutes(s: seq<Animation>)
    ensures multiset(Sort(s)) == multiset(s)
  {
    if s != [] {
      var s' := s[..|s| - 1];
      SortPermutes(s');
      InsertPermutes(Sort(s'), s[|s| - 1]);
      assert s == s' + [s[|s| - 1]];
    }
  }

  lemma {:induction false} InsertSorted(s: seq<Animation>, x: Animation)
    requires Sorted(s)
    ensures Sorted(Insert(s, x))
  {
    if s == [] {
    } else if Less(x.order, s[|s| - 1].order) {
      var s', last := s[..|s| - 1], s[|s| - 1];
      SortedPrefix(s, |s| - 1);
      InsertSorted(s', x);
      InsertPermutes(s', x);
      forall e | e in Insert(s', x)
        ensures !Less(last.order, e.order)
      {
        assert e in multiset(Insert(s', x));
        if e == x {
          CompareAntisymmetric(x.order, last.order);
        } else {
          assert e in s;
          SortedLast(s, e);
        }
      }
      SortedSnoc(Insert(s', x), last);
    } else {
      var last := s[|s| - 1];
      forall e | e in s
        ensures !Less(x.order, e.order)
      {
        SortedLast(s, e);
        NotLessTransitive(e.order, last.order, x.order);
      }
      SortedSnoc(s, x);
    }
  }

  /** `Sort` returns a list sorted ascending by order. */
  lemma {:induction false} SortSorted(s: seq<Animation>)
    ensures Sorted(Sort(s))
  {
    if s != [] {
      SortSorted(s[..|s| - 1]);
      InsertSorted(Sort(s[..|s| - 1]), s[|s| - 1]);
    }
  }

  /** Sorting an already sorted list changes nothing. */
  lemma {:induction false} SortOfSorted(s: seq<Animation>)
    requires Sorted(s)
    ensures Sort(s) == s
  {
    if s != [] {
      var s' := s[..|s| - 1];
      SortedPrefix(s, |s| - 1);
      SortOfSorted(s');
      if s' != [] {
        assert !Less(s[|s| - 1].order, s'[|s'| - 1].order);
      }
      assert s == s' + [s[|s| - 1]];
    }
  }

  /** Sorting twice is sorting once. */
  lemma SortIdempotent(s: seq<Animation>)
    ensures Sort(Sort(s)) == Sort(s)
  {
    SortSorted(s);
    SortOfSorted(Sort(s));
  }

  lemma {:induction false} InsertSplits(s: seq<Animation>, x: Animation)
    ensures Insert(s, x) == s[..InsertionPoint(s, x)] + [x] + s[InsertionPoint(s, x)..]
  {
    if s != [] && Less(x.order, s[|s| - 1].order) {
      var s' := s[..|s| - 1];
      InsertSplits(s', x);
      var p := InsertionPoint(s', x);
      assert s[..p] == s'[..p];
      assert s[p..] == s'[p..] + [s[|s| - 1]];
    }
  }

  lemma {:induction false} InsertionPointBounds(s: seq<Animation>, x: Animation)
    requires Sorted(s)
    ensures forall i :: 0 <= i < InsertionPoint(s, x) ==> !Less(x.order, s[i].order)
    ensures forall i :: InsertionPoint(s, x) <= i < |s| ==> Less(x.order, s[i].order)
  {
    if s == [] {
    } else if Less(x.order, s[|s| - 1].order) {
      var s' := s[..|s| - 1];
      SortedPrefix(s, |s| - 1);
      InsertionPointBounds(s', x);
      assert forall i :: 0 <= i < |s'| ==> s'[i] == s[i];
    } else {
      forall i | 0 <= i < |s|
        ensures !Less(x.order, s[i].order)
      {
        SortedLast(s, s[i]);
        NotLessTransitive(s[i].order, s[|s| - 1].order, x.order);
      }
    }
  }

  /** On a sorted list, push-then-sort is a single insertion. */
  lemma AddIsInsert(s: seq<Animation>, x: Animation)
    requires Sorted(s)
    ensures Sort(s + [x]) == Insert(s, x)
  {
    assert (s + [x])[..|s|] == s;
    SortOfSorted(s);
  }

  /** Pushing an entry onto a sorted list and sorting places it after every
      entry whose order is not greater than its own (so after those it ties
      with) and before every entry with a greater order; nothing else moves. */
  lemma AddPlacement(s: seq<Animation>, x: Animation)
    requires Sorted(s)
    ensures Sort(s + [x]) == s[..InsertionPoint(s, x)] + [x] + s[InsertionPoint(s, x)..]
    ensures forall i :: 0 <= i < InsertionPoint(s, x) ==> !Less(x.order, s[i].order)
    ensures forall i :: InsertionPoint(s, x) <= i < |s| ==> Less(x.order, s[i].order)
  {
    assert (s + [x])[..|s|] == s;
    SortOfSorted(s);
    InsertSplits(s, x);
    InsertionPointBounds(s, x);
  }

  /** The last entry of a list is the last entry of its own tie class. */
  lemma LastOfTied(s: seq<Animation>)
    requires s != []
    ensures TiedWith(s, s[|s| - 1].order) == TiedWith(s[..|s| - 1], s[|s| - 1].order) + [s[|s| - 1]]
  {
    TiedEquivalence(s[|s| - 1].order, s[|s| - 1].order, s[|s| - 1].order);
  }

  /** Two non-empty sorted lists end alike when the tie classes of their
      last entries agree. */
  lemma SortedLastsAgree(r: seq<Animation>, t: seq<Animation>)
    requires Sorted(r) && Sorted(t) && r != [] && t != []
    requires TiedWith(r, r[|r| - 1].order) == TiedWith(t, r[|r| - 1].order)
    requires TiedWith(r, t[|t| - 1].order) == TiedWith(t, t[|t| - 1].order)
    ensures r[|r| - 1] == t[|t| - 1]
  {
    var x, y := r[|r| - 1], t[|t| - 1];
    var r', t' := r[..|r| - 1], t[..|t| - 1];
    LastOfTied(r);
    assert x in TiedWith(r, x.order);
    TiedWithMembers(t, x.order, x);
    SortedLast(t, x);
    LastOfTied(t);
    assert y in TiedWith(t, y.order);
    TiedWithMembers(r, y.order, y);
    SortedLast(r, y);
    TiedIffNeitherLess(y.order, x.order);
    var cls := TiedWith(t, x.order);
    assert cls == TiedWith(t', x.order) + [y];
    assert cls == TiedWith(r', x.order) + [x];
    assert cls[|cls| - 1] == y;
  }

  /** Dropping the same last entry from two lists leaves a tie class equal
      when it was equal before. */
  lemma TiedPrefixAgrees(r: seq<Animation>, t: seq<Animation>, k: Order)
    requires r != [] && t != [] && r[|r| - 1] == t[|t| - 1]
    requires TiedWith(r, k) == TiedWith(t, k)
    ensures TiedWith(r[..|r| - 1], k) == TiedWith(t[..|t| - 1], k)
  {
    var x := r[|r| - 1];
    var tail := if Tied(x.order, k) then [x] else [];
    var a, b := TiedWith(r[..|r| - 1], k), TiedWith(t[..|t| - 1], k);
    assert a + tail == b + tail;
    assert a == (a + tail)[..|a|];
    assert b == (b + tail)[..|b|];
  }

  /** Two sorted lists with the same tie classes are equal. */
  lemma {:induction false} SortedTiedUnique(r: seq<Animation>, t: seq<Animation>)
    requires Sorted(r) && Sorted(t)
    requires forall k :: TiedWith(r, k) == TiedWith(t, k)
    ensures r == t
    decreases |r|
  {
    if r == [] || t == [] {
      if r != [] || t != [] {
        var u := if r != [] then r else t;
        var e := u[|u| - 1];
        LastOfTied(u);
        assert false;
      }
    } else {
      var r', t' := r[..|r| - 1], t[..|t| - 1];
      SortedLastsAgree(r, t);
      forall k
        ensures TiedWith(r', k) == TiedWith(t', k)
      {
        TiedPrefixAgrees(r, t, k);
      }
      SortedPrefix(r, |r| - 1);
      SortedPrefix(t, |t| - 1);
      SortedTiedUnique(r', t');
      assert r == r' + [r[|r| - 1]];
      assert t == t' + [t[|t| - 1]];
    }
  }

  /** A stable sort is unique: any sorted list whose tie classes are those
      of `s` is `Sort(s)`. */
  lemma StableSortUnique(r: seq<Animation>, s: seq<Animation>)
    requires Sorted(r)
    requires forall k :: TiedWith(r, k) == TiedWith(s, k)
    ensures r == Sort(s)
  {
    SortSorted(s);
    forall k
      ensures TiedWith(r, k) == TiedWith(Sort(s), k)
    {
      SortStable(s, k);
    }
    SortedTiedUnique(r, Sort(s));
  }
}
