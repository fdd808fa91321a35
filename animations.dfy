/** Registry entries and the sortedness the registry keeps. */
module Animations {
  import opened Orders

  /** Stand-in for an entry's update callback. The scheduler never inspects
      it; it only carries it along. */
  datatype Callback = Callback(tag: nat)

  /** One registered animation: `{ id, update, order }`. Ids need not be
      unique. */
  datatype Animation = Animation(id: string, update: Callback, order: Order)

  /** Ascending by order: no entry sorts strictly before an earlier one. */
  predicate Sorted(s: seq<Animation>) {
    forall i, j :: 0 <= i < j < |s| ==> !Less(s[j].order, s[i].order)
  }

  /** Appending an entry that sorts no earlier than every present entry
      keeps a sorted list sorted. */
  lemma SortedSnoc(s: seq<Animation>, x: Animation)
    requires Sorted(s)
    requires forall e :: e in s ==> !Less(x.order, e.order)
    ensures Sorted(s + [x])
  {
    var t := s + [x];
    forall i, j | 0 <= i < j < |t|
      ensures !Less(t[j].order, t[i].order)
    {
      if j == |s| {
        assert t[i] in s;
      }
    }
  }

  /** Every entry of a sorted list sorts no later than its last entry. */
  lemma SortedLast(s: seq<Animation>, e: Animation)
    requires Sorted(s) && s != [] && e in s
    ensures !Less(s[|s| - 1].order, e.order)
  {
    var m :| 0 <= m < |s| && s[m] == e;
    if m == |s| - 1 {
      assert Compare(e.order, e.order) == 0 by {
        TiedEquivalence(e.order, e.order, e.order);
      }
    }
  }

  /** A prefix of a sorted list is sorted. */
  lemma SortedPrefix(s: seq<Animation>, n: nat)
    requires Sorted(s) && n <= |s|
    ensures Sorted(s[..n])
  {
    var p := s[..n];
    forall i, j | 0 <= i < j < |p|
      ensures !Less(p[j].order, p[i].order)
    {
      assert p[i] == s[i] && p[j] == s[j];
    }
  }
}
