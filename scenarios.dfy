/** Client runs of the scheduler, stated from the contracts alone. */
module Scenarios {
  import opened Orders
  import opened Animations
  import opened StableSort
  import opened Removal
  import opened Renumbering
  import opened FrameClocks
  import opened Scheduler

  /** Starting a loop that is already running, as the source does, leaves
      the first frame registration pending. `stop` cancels only the newest,
      so when the host fires the leftover the loop is running again. */
  method DoubleStartSurvivesStop() returns (runningAfterStop: bool, runningAfterFrame: bool)
    ensures !runningAfterStop && runningAfterFrame
  {
    var clock := new FrameClock();
    var filmer := new Filmer(clock);
    filmer.StartAsWritten();
    filmer.StartAsWritten();
    filmer.Stop();
    runningAfterStop := filmer.IsAnimating();
    assert clock.pending == {0};
    filmer.OnFrame(0);
    runningAfterFrame := filmer.IsAnimating();
  }

  /** With `Start` cancelling first, a second start still leaves one
      registration, and `stop` leaves none for the host to fire. */
  method DoubleStartThenStopHalts() returns (pending: set<nat>, running: bool)
    ensures pending == {} && !running
  {
    var clock := new FrameClock();
    var filmer := new Filmer(clock);
    filmer.Start();
    filmer.Start();
    filmer.Stop();
    pending := clock.pending;
    running := filmer.IsAnimating();
  }

  /** Time grows once the host fires a tick; `stop` keeps it and `reset`
      zeroes it. */
  method TimeAcrossStopAndReset() returns (afterTick: real, afterStop: real, afterReset: real)
    ensures afterTick > 0.0 && afterStop == afterTick && afterReset == 0.0
  {
    var clock := new FrameClock();
    var filmer := new Filmer(clock);
    filmer.Start();
    clock.Advance(16.0);
    filmer.OnFrame(0);
    afterTick := filmer.CurrentTime();
    filmer.Stop();
    afterStop := filmer.CurrentTime();
    filmer.Reset();
    afterReset := filmer.CurrentTime();
  }

  /** Three `add` calls with orders 1, 2, 0, then one without an order:
      the registry runs the third, first and second entry, and the fourth
      gets the counter, 3, as its order and runs last. */
  method ExplicitAndDefaultOrders() returns (list: seq<Animation>)
    ensures list == [Animation("animation3", Callback(3), Fin(0.0)), Animation("animation1", Callback(1), Fin(1.0)),
                     Animation("animation2", Callback(2), Fin(2.0)), Animation("animation4", Callback(4), Fin(3.0))]
  {
    var clock := new FrameClock();
    var filmer := new Filmer(clock);
    var before := filmer.animations;
    filmer.Add("animation1", Callback(1), Some(Fin(1.0)));
    AddIsInsert(before, Animation("animation1", Callback(1), Fin(1.0)));
    before := filmer.animations;
    filmer.Add("animation2", Callback(2), Some(Fin(2.0)));
    AddIsInsert(before, Animation("animation2", Callback(2), Fin(2.0)));
    before := filmer.animations;
    filmer.Add("animation3", Callback(3), Some(Fin(0.0)));
    AddIsInsert(before, Animation("animation3", Callback(3), Fin(0.0)));
    before := filmer.animations;
    filmer.Add("animation4", Callback(4));
    AddIsInsert(before, Animation("animation4", Callback(4), Fin(3.0)));
    InsertionsOfTheTest();
    list := filmer.AnimationList();
  }

  /** The four insertions of `ExplicitAndDefaultOrders`, one by one. */
  lemma InsertionsOfTheTest()
    ensures var a1, a2, a3, a4 := Animation("animation1", Callback(1), Fin(1.0)), Animation("animation2", Callback(2), Fin(2.0)),
                                  Animation("animation3", Callback(3), Fin(0.0)), Animation("animation4", Callback(4), Fin(3.0));
            Insert(Insert(Insert(Insert([], a1), a2), a3), a4) == [a3, a1, a2, a4]
  {
    var a1, a2, a3, a4 := Animation("animation1", Callback(1), Fin(1.0)), Animation("animation2", Callback(2), Fin(2.0)),
                          Animation("animation3", Callback(3), Fin(0.0)), Animation("animation4", Callback(4), Fin(3.0));
    assert Insert([], a1) == [a1];
    assert Insert([a1], a2) == [a1, a2];
    assert [a1, a2][..1] == [a1];
    assert Insert([a1], a3) == Insert([], a3) + [a1] == [a3, a1];
    assert Insert([a1, a2], a3) == Insert([a1], a3) + [a2] == [a3, a1, a2];
    assert Insert([a3, a1, a2], a4) == [a3, a1, a2, a4];
  }

  /** Orders 3, -∞, 0.2, ∞, 8.5 run as -∞, 0.2, 3, 8.5, ∞. */
  lemma InfinitiesSortAtTheEnds()
    ensures var a, b, c, d, e := Animation("a", Callback(0), Fin(3.0)), Animation("b", Callback(0), NegInf),
                                 Animation("c", Callback(0), Fin(0.2)), Animation("d", Callback(0), PosInf),
                                 Animation("e", Callback(0), Fin(8.5));
            Sort([a, b, c, d, e]) == [b, c, a, e, d]
  {
    var a, b, c, d, e := Animation("a", Callback(0), Fin(3.0)), Animation("b", Callback(0), NegInf),
                         Animation("c", Callback(0), Fin(0.2)), Animation("d", Callback(0), PosInf),
                         Animation("e", Callback(0), Fin(8.5));
    var s := [a, b, c, d, e];
    assert s[..1] == [a] && s[..2] == [a, b] && s[..3] == [a, b, c] && s[..4] == [a, b, c, d];
    assert Sort([a]) == [a];
    assert Sort(s[..2]) == Insert([a], b) == Insert([], b) + [a] == [b, a];
    assert Insert([b], c) == [b, c];
    assert [b, a][..1] == [b];
    assert [a, b, c][..2] == [a, b];
    assert Sort(s[..3]) == Insert(Sort([a, b]), c) == Insert([b, a], c) == Insert([b], c) + [a] == [b, c, a];
    assert [a, b, c, d][..3] == [a, b, c];
    assert Sort(s[..4]) == Insert(Sort([a, b, c]), d) == Insert([b, c, a], d) == [b, c, a, d];
    assert [b, c, a, d][..3] == [b, c, a];
    assert Insert([b, c, a], e) == [b, c, a, e];
    assert Sort(s) == Insert([b, c, a, d], e) == Insert([b, c, a], e) + [d] == [b, c, a, e, d];
  }

  /** Reordering -∞, 0.2, 3, 8.5, ∞ gives -∞, 0, 1, 2, ∞. */
  lemma InfinitiesStayAnchored()
    ensures var b, c, a, e, d := Animation("b", Callback(0), NegInf), Animation("c", Callback(0), Fin(0.2)),
                                 Animation("a", Callback(0), Fin(3.0)), Animation("e", Callback(0), Fin(8.5)),
                                 Animation("d", Callback(0), PosInf);
            Reordered([b, c, a, e, d]) == [b, c.(order := Fin(0.0)), a.(order := Fin(1.0)), e.(order := Fin(2.0)), d]
  {
    var b, c, a, e, d := Animation("b", Callback(0), NegInf), Animation("c", Callback(0), Fin(0.2)),
                         Animation("a", Callback(0), Fin(3.0)), Animation("e", Callback(0), Fin(8.5)),
                         Animation("d", Callback(0), PosInf);
    var s := [b, c, a, e, d];
    assert Sorted(s);
    SortOfSorted(s);
    assert s[..1] == [b] && s[..2] == [b, c] && s[..3] == [b, c, a] && s[..4] == [b, c, a, e];
    assert FiniteCount([b]) == 0;
    assert FiniteCount([b, c]) == 1;
    assert [b, c][..1] == [b];
    assert [b, c, a][..2] == [b, c];
    assert FiniteCount([b, c, a]) == 2;
    assert [b, c, a, e][..3] == [b, c, a];
    assert FiniteCount([b, c, a, e]) == 3;
    RenumberAt(s, 0);
    RenumberAt(s, 1);
    RenumberAt(s, 2);
    RenumberAt(s, 3);
    RenumberAt(s, 4);
  }

  /** Adding to the registry one entry at a time leaves it as the stable
      sort of everything pushed so far. */
  lemma {:induction false} AddAfterAdd(s: seq<Animation>, x: Animation)
    ensures Sort(Sort(s) + [x]) == Sort(s + [x])
  {
    assert (Sort(s) + [x])[..|s|] == Sort(s);
    assert (s + [x])[..|s|] == s;
    SortIdempotent(s);
  }

  /** `stop` is idempotent: a second call leaves every field and the
      clock exactly as the first call left them. */
  method StopTwice(filmer: Filmer)
      returns (time: real, deltaTime: real, lastTimestamp: real, count: nat, list: seq<Animation>,
               id: Option<nat>, pending: set<nat>, next: nat, now: real)
    modifies filmer, filmer.clock
    ensures time == old(filmer.time) && deltaTime == old(filmer.deltaTime) && lastTimestamp == 0.0
    ensures count == old(filmer.animationCount) && list == old(filmer.animations) && id == None
    ensures pending == old(filmer.clock.pending) - old(filmer.Registered())
    ensures next == old(filmer.clock.next) && now == old(filmer.clock.now)
    ensures filmer.time == time && filmer.deltaTime == deltaTime && filmer.lastTimestamp == lastTimestamp
    ensures filmer.animationCount == count && filmer.animations == list && filmer.animationId == id
    ensures filmer.clock.pending == pending && filmer.clock.next == next && filmer.clock.now == now
  {
    filmer.Stop();
    time, deltaTime, lastTimestamp := filmer.time, filmer.deltaTime, filmer.lastTimestamp;
    count, list, id := filmer.animationCount, filmer.animations, filmer.animationId;
    pending, next, now := filmer.clock.pending, filmer.clock.next, filmer.clock.now;
    filmer.Stop();
  }

  /** With the source's start, `reset` does not halt a loop started twice:
      the leftover registration outlives it, and when the host fires it the
      loop is running again and time grows from zero. */
  method DoubleStartSurvivesReset() returns (runningAfterReset: bool, runningAfterFrame: bool, timeAfterFrame: real)
    ensures !runningAfterReset && runningAfterFrame && timeAfterFrame > 0.0
  {
    var clock := new FrameClock();
    var filmer := new Filmer(clock);
    filmer.StartAsWritten();
    filmer.StartAsWritten();
    filmer.Reset();
    runningAfterReset := filmer.IsAnimating();
    assert clock.pending == {0};
    clock.Advance(16.0);
    filmer.OnFrame(0);
    runningAfterFrame := filmer.IsAnimating();
    timeAfterFrame := filmer.CurrentTime();
  }
}
