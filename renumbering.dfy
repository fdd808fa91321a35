/** The renumbering step of `reorder`: walking the sorted registry, the
    entries with a finite order get 0, 1, 2, … in turn, and the entries at
    negative or positive infinity keep their order. */
module Renumbering {
  import opened Orders
  import opened Animations
  import opened StableSort

  /** `a` with its order replaced by `rank` when that order is finite. */
  function Renamed(a: Animation, rank: nat): Animation {
    if a.order.IsFinite() then a.(order := Fin(rank as real)) else a
  }

  /** How many entries of `s` have a finite order. */
  function FiniteCount(s: seq<Animation>): (n: nat)
    ensures n <= |s|
  {
    if s == [] then 0
    else FiniteCount(s[..|s| - 1]) + (if s[|s| - 1].order.IsFinite() then 1 else 0)
  }

  /** Every entry renamed with the number of finite entries before it. */
  function Renumber(s: seq<Animation>): (r: seq<Animation>)
    ensures |r| == |s|
  {
    if s == [] then []
    else Renumber(s[..|s| - 1]) + [Renamed(s[|s| - 1], FiniteCount(s[..|s| - 1]))]
  }

  /** What `reorder` leaves in the registry: sort, then renumber. */
  function Reordered(s: seq<Animation>): seq<Animation> {
    Renumber(Sort(s))
  }

  /** The finite order values of `s`, in list order. */
  function FiniteOrders(s: seq<Animation>): seq<real> {
    if s == [] then []
    else FiniteOrders(s[..|s| - 1]) + (if s[|s| - 1].order.IsFinite() then [s[|s| - 1].order.r] else [])
  }

  /** The numbers 0, 1, …, n - 1. */
  function Ranks(n: nat): seq<real> {
    if n == 0 then [] else Ranks(n - 1) + [(n - 1) as real]
  }

  /** Renumbering changes nothing but finite orders: entry `i` keeps its id
      and callback, keeps an infinite order, and a finite order becomes the
      number of finite entries before it. */
  lemma {:induction false} RenumberAt(s: seq<Animation>, i: nat)
    requires i < |s|
    ensures Renumber(s)[i] == Renamed(s[i], FiniteCount(s[..i]))
    ensures Renumber(s)[i].id == s[i].id && Renumber(s)[i].update == s[i].update
    ensures !s[i].order.IsFinite() ==> Renumber(s)[i].order == s[i].order
    ensures s[i].order.IsFinite() ==> Renumber(s)[i].order == Fin(FiniteCount(s[..i]) as real)
  {
    if i < |s| - 1 {
      var s' := s[..|s| - 1];
      RenumberAt(s', i);
      assert s'[..i] == s[..i];
    }
  }

  /** The i-th entry with a finite order gets order i: the finite orders
      after renumbering are exactly 0, 1, 2, … */
  lemma {:induction false} RenumberRanks(s: seq<Animation>)
    ensures FiniteOrders(Renumber(s)) == Ranks(FiniteCount(s))
  {
    if s != [] {
      var s' := s[..|s| - 1];
      RenumberRanks(s');
      var r := Renumber(s);
      assert r[..|r| - 1] == Renumber(s');
    }
  }

  /** Renumbering keeps the number of finite entries. */
  lemma {:induction false} RenumberFiniteCount(s: seq<Animation>)
    ensures FiniteCount(Renumber(s)) == FiniteCount(s)
  {
    if s != [] {
      var s' := s[..|s| - 1];
      RenumberFiniteCount(s');
      var r := Renumber(s);
      assert r[..|r| - 1] == Renumber(s');
    }
  }

  /** A finite entry earlier in the list has strictly fewer finite entries
      before it. */
  lemma {:induction false} FiniteCountGrows(s: seq<Animation>, i: nat, j: nat)
    requires i < j <= |s| && s[i].order.IsFinite()
    ensures FiniteCount(s[..i]) < FiniteCount(s[..j])
    decreases j
  {
    var p := s[..j];
    assert p[..j - 1] == s[..j - 1];
    if i < j - 1 {
      FiniteCountGrows(s, i, j - 1);
    } else {
      assert p[j - 1] == s[i];
    }
    FiniteCountMonotone(s, j - 1);
  }

  lemma FiniteCountMonotone(s: seq<Animation>, j: nat)
    requires j < |s|
    ensures FiniteCount(s[..j]) <= FiniteCount(s[..j + 1])
  {
    assert s[..j + 1][..j] == s[..j];
  }

  /** Renumbering keeps a sorted list sorted: finite entries get strictly
      growing ranks and the infinities stay at the ends. */
  lemma RenumberSorted(s: seq<Animation>)
    requires Sorted(s)
    ensures Sorted(Renumber(s))
  {
    var r := Renumber(s);
    forall i, j | 0 <= i < j < |r|
      ensures !Less(r[j].order, r[i].order)
    {
      RenumberAt(s, i);
      RenumberAt(s, j);
      InfinitiesAreAnchors(s[i].order);
      InfinitiesAreAnchors(s[j].order);
      if s[i].order.IsFinite() && s[j].order.IsFinite() {
        FiniteCountGrows(s, i, j);
      }
    }
  }

  /** Renumbering an already renumbered list changes nothing. */
  lemma {:induction false} RenumberIdempotent(s: seq<Animation>)
    ensures Renumber(Renumber(s)) == Renumber(s)
  {
    if s != [] {
      var s' := s[..|s| - 1];
      RenumberIdempotent(s');
      RenumberFiniteCount(s');
      var r := Renumber(s);
      assert r[..|r| - 1] == Renumber(s');
    }
  }

  /** `reorder` returns a sorted list, keeps the ids and callbacks of the
      sorted registry position by position, and renumbers only finite orders. */
  lemma ReorderedShape(s: seq<Animation>)
    ensures |Reordered(s)| == |s|
    ensures Sorted(Reordered(s))
    ensures forall i :: 0 <= i < |s| ==> Reordered(s)[i].id == Sort(s)[i].id
    ensures forall i :: 0 <= i < |s| ==> Reordered(s)[i].update == Sort(s)[i].update
    ensures forall i :: 0 <= i < |s| && !Sort(s)[i].order.IsFinite() ==> Reordered(s)[i].order == Sort(s)[i].order
    ensures FiniteOrders(Reordered(s)) == Ranks(FiniteCount(s))
  {
    SortSorted(s);
    RenumberSorted(Sort(s));
    forall i | 0 <= i < |s|
      ensures Reordered(s)[i].id == Sort(s)[i].id && Reordered(s)[i].update == Sort(s)[i].update
      ensures !Sort(s)[i].order.IsFinite() ==> Reordered(s)[i].order == Sort(s)[i].order
    {
      RenumberAt(Sort(s), i);
    }
    RenumberRanks(Sort(s));
    SortFiniteCount(s);
  }

  /** Reordering twice is reordering once. */
  lemma ReorderIdempotent(s: seq<Animation>)
    ensures Reordered(Reordered(s)) == Reordered(s)
  {
    SortSorted(s);
    RenumberSorted(Sort(s));
    SortOfSorted(Reordered(s));
    RenumberIdempotent(Sort(s));
  }

  /** Inserting an entry adds one to the finite count exactly when its
      order is finite. */
  lemma {:induction false} InsertFiniteCount(s: seq<Animation>, x: Animation)
    ensures FiniteCount(Insert(s, x)) == FiniteCount(s) + FiniteCount([x])
  {
    if s == [] {
      assert Insert(s, x) == [x];
    } else if Less(x.order, s[|s| - 1].order) {
      var s', last := s[..|s| - 1], s[|s| - 1];
      InsertFiniteCount(s', x);
      FiniteCountAppend(Insert(s', x), [last]);
      assert s == s' + [last];
      FiniteCountAppend(s', [last]);
    } else {
      FiniteCountAppend(s, [x]);
    }
  }

  /** Sorting keeps the number of finite entries. */
  lemma {:induction false} SortFiniteCount(s: seq<Animation>)
    ensures FiniteCount(Sort(s)) == FiniteCount(s)
  {
    if s != [] {
      var s', last := s[..|s| - 1], s[|s| - 1];
      SortFiniteCount(s');
      InsertFiniteCount(Sort(s'), last);
      assert s == s' + [last];
      FiniteCountAppend(s', [last]);
    }
  }

  lemma {:induction false} FiniteCountAppend(a: seq<Animation>, b: seq<Animation>)
    ensures FiniteCount(a + b) == FiniteCount(a) + FiniteCount(b)
    decreases |b|
  {
    if b == [] {
      assert a + b == a;
    } else {
      var b' := b[..|b| - 1];
      assert (a + b)[..|a + b| - 1] == a + b';
      FiniteCountAppend(a, b');
    }
  }

  /** The renumbering loop of `reorder`: a counter threaded through the
      list gives each finite entry the number of finite entries before it. */
  method RenumberOrders(sorted: seq<Animation>) returns (renumbered: seq<Animation>)
    ensures renumbered == Renumber(sorted)
  {
    var counter: nat := 0;
    renumbered := [];
    var i := 0;
    while i < |sorted|
      invariant i <= |sorted|
      invariant counter == FiniteCount(sorted[..i])
      invariant renumbered == Renumber(sorted[..i])
    {
      var animation := sorted[i];
      assert sorted[..i + 1][..i] == sorted[..i];
      if !animation.order.IsFinite() {
        renumbered := renumbered + [animation];
      } else {
        counter := counter + 1;
        renumbered := renumbered + [animation.(order := Fin((counter - 1) as real))];
      }
      i := i + 1;
    }
    assert sorted[..i] == sorted;
  }
}
