/** Removal by id: `animations.filter((animation) => animation.id !== id)`. */
module Removal {
  import opened Orders
  import opened Animations

  /** The entries of `s` whose id is not `id`, in their order in `s`. */
  function Without(s: seq<Animation>, id: string): (r: seq<Animation>)
    ensures |r| <= |s|
  {
    if s == [] then []
    else Without(s[..|s| - 1], id) + (if s[|s| - 1].id != id then [s[|s| - 1]] else [])
  }

  /** Removal deletes every entry with the id, each with all its copies, and
      keeps every other entry as often as it occurred. */
  lemma {:induction false} WithoutCounts(s: seq<Animation>, id: string, e: Animation)
    ensures multiset(Without(s, id))[e] == if e.id == id then 0 else multiset(s)[e]
  {
    if s != [] {
      var s' := s[..|s| - 1];
      WithoutCounts(s', id, e);
      assert Without(s, id) == Without(s', id) + (if s[|s| - 1].id != id then [s[|s| - 1]] else []);
      assert s == s' + [s[|s| - 1]];
      assert multiset(s) == multiset(s') + multiset{s[|s| - 1]};
    }
  }

  /** An entry survives removal exactly when it was present with another id. */
  lemma WithoutMembers(s: seq<Animation>, id: string, e: Animation)
    ensures e in Without(s, id) <==> e in s && e.id != id
  {
    WithoutCounts(s, id, e);
    assert e in Without(s, id) <==> e in multiset(Without(s, id));
  }

  /** Removal works piecewise, so the survivors keep their relative order. */
  lemma {:induction false} WithoutAppend(a: seq<Animation>, b: seq<Animation>, id: string)
    ensures Without(a + b, id) == Without(a, id) + Without(b, id)
    decreases |b|
  {
    if b == [] {
      assert a + b == a;
    } else {
      var b' := b[..|b| - 1];
      assert (a + b)[..|a + b| - 1] == a + b';
      assert (a + b)[|a + b| - 1] == b[|b| - 1];
      WithoutAppend(a, b', id);
    }
  }

  /** Removing an id no entry carries leaves the list as it was. */
  lemma {:induction false} WithoutAbsent(s: seq<Animation>, id: string)
    requires forall i :: 0 <= i < |s| ==> s[i].id != id
    ensures Without(s, id) == s
  {
    if s != [] {
      var s' := s[..|s| - 1];
      WithoutAbsent(s', id);
      assert s == s' + [s[|s| - 1]];
    }
  }

  /** Removing the same id again is a no-op, so the unregister closure that
      `add` hands out may be called any number of times. */
  lemma WithoutIdempotent(s: seq<Animation>, id: string)
    ensures Without(Without(s, id), id) == Without(s, id)
  {
    var w := Without(s, id);
    forall i | 0 <= i < |w|
      ensures w[i].id != id
    {
      WithoutMembers(s, id, w[i]);
    }
    WithoutAbsent(w, id);
  }

  /** Removal keeps a sorted registry sorted. */
  lemma {:induction false} WithoutSorted(s: seq<Animation>, id: string)
    requires Sorted(s)
    ensures Sorted(Without(s, id))
  {
    if s != [] {
      var s', last := s[..|s| - 1], s[|s| - 1];
      SortedPrefix(s, |s| - 1);
      WithoutSorted(s', id);
      if last.id != id {
        forall e | e in Without(s', id)
          ensures !Less(last.order, e.order)
        {
          WithoutMembers(s', id, e);
          SortedLast(s, e);
        }
        SortedSnoc(Without(s', id), last);
      }
    }
  }
}
