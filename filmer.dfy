/** The animation scheduler: a registry of `{ id, update, order }` entries
    kept sorted by order, a counter that supplies default orders, and a
    frame-loop handle whose presence means "running". */
module Scheduler {
  import opened Orders
  import opened Animations
  import opened StableSort
  import opened Removal
  import opened Renumbering
  import opened FrameClocks

  datatype Option<T> = None | Some(value: T)

  class Filmer {
    /** Accumulated seconds. */
    var time: real
    /** Seconds between the last two ticks. */
    var deltaTime: real
    /** Clock reading of the last tick, in milliseconds; 0 when stopped. */
    var lastTimestamp: real
    /** The default order for the next `add`: the number of `add` calls
        since the registry was last cleared, or the registry's length after
        the last `reorder` plus the `add` calls since. */
    var animationCount: nat
    /** Handle of the outstanding frame registration, if running. */
    var animationId: Option<nat>
    var animations: seq<Animation>
    /** The host's frame clock. */
    const clock: FrameClock

    /** The registrations the scheduler knows of. */
    function Registered(): set<nat>
      reads this
    {
      if animationId.Some? then {animationId.value} else {}
    }

    /** The baseline lies between 0 and the clock's reading, and the
        accumulated time is not negative. Every method keeps this, however
        many registrations are pending. */
    ghost predicate Timed()
      reads this, clock
    {
      0.0 <= lastTimestamp <= clock.now && 0.0 <= time
    }

    /** Exactly one frame registration is outstanding while running and
        none while stopped, and the clock readings are in order. */
    ghost predicate Scheduled()
      reads this, clock
    {
      clock.Valid() && clock.pending == Registered() && Timed()
    }

    /** The scheduler's invariant: its frame registration is in order and
        the registry is sorted ascending by order. */
    ghost predicate Valid()
      reads this, clock
    {
      Scheduled() && Sorted(animations)
    }

    /** A fresh scheduler: no time, not running, empty registry. */
    constructor (clock: FrameClock)
      requires clock.Valid() && clock.pending == {}
      ensures Valid() && this.clock == clock
      ensures time == 0.0 && deltaTime == 0.0 && lastTimestamp == 0.0
      ensures animationCount == 0 && animationId == None && animations == []
    {
      time := 0.0;
      deltaTime := 0.0;
      lastTimestamp := 0.0;
      animationCount := 0;
      animationId := None;
      animations := [];
      this.clock := clock;
    }

    /** The registry, in the order the tick runs it. */
    function AnimationList(): (list: seq<Animation>)
      reads this
      ensures |list| == |animations| && multiset(list) == multiset(animations)
      ensures Sorted(animations) ==> Sorted(list)
    {
      animations
    }

    /** The accumulated seconds, never negative while the loop is in order. */
    function CurrentTime(): (t: real)
      reads this, clock
      ensures t == time
      ensures Timed() ==> 0.0 <= t
    {
      time
    }

    /** Running exactly when a frame registration is outstanding. */
    function IsAnimating(): (running: bool)
      reads this, clock
      ensures Scheduled() ==> (running <==> clock.pending != {})
    {
      animationId.Some?
    }

    /** Registers an entry. A missing order defaults to the counter, which
        grows by one whether or not an order was given. A running loop is
        stopped around the change and started again. */
    method Add(id: string, update: Callback, order: Option<Order> := None)
      requires clock.Valid()
      modifies this, clock
      ensures clock.Valid() && Sorted(animations)
      ensures animations == Sort(old(animations) + [Animation(id, update, if order.Some? then order.value else Fin(old(animationCount) as real))])
      ensures multiset(animations) == multiset(old(animations)) + multiset{Animation(id, update, if order.Some? then order.value else Fin(old(animationCount) as real))}
      ensures animationCount == old(animationCount) + 1
      ensures IsAnimating() == old(IsAnimating()) && time == old(time) && clock.now == old(clock.now)
      ensures clock.pending == old(clock.pending) - old(Registered()) + (if old(IsAnimating()) then {old(clock.next)} else {})
      ensures old(IsAnimating()) ==> animationId == Some(old(clock.next)) && clock.next == old(clock.next) + 1
                                     && lastTimestamp == clock.now && deltaTime == 0.0
      ensures !old(IsAnimating()) ==> animationId == old(animationId) && clock.next == old(clock.next)
                                      && lastTimestamp == old(lastTimestamp) && deltaTime == old(deltaTime)
      ensures old(Timed()) ==> Timed()
      ensures old(Scheduled()) ==> Scheduled()
    {
      var needsRestarting := animationId.Some?;
      if needsRestarting {
        Stop();
      }
      var newOrder := if order.Some? then order.value else Fin(animationCount as real);
      animations := animations + [Animation(id, update, newOrder)];
      SortAnimationsArray();
      if needsRestarting {
        StartAsWritten();
      }
      animationCount := animationCount + 1;
    }

    /** Deletes every entry with the id; no effect when there is none. A
        running loop is stopped around the change and started again. */
    method Remove(id: string)
      requires clock.Valid()
      modifies this, clock
      ensures clock.Valid()
      ensures animations == Without(old(animations), id)
      ensures old(Sorted(animations)) ==> Sorted(animations)
      ensures animationCount == old(animationCount)
      ensures IsAnimating() == old(IsAnimating()) && time == old(time) && clock.now == old(clock.now)
      ensures clock.pending == old(clock.pending) - old(Registered()) + (if old(IsAnimating()) then {old(clock.next)} else {})
      ensures old(IsAnimating()) ==> animationId == Some(old(clock.next)) && clock.next == old(clock.next) + 1
                                     && lastTimestamp == clock.now && deltaTime == 0.0
      ensures !old(IsAnimating()) ==> animationId == old(animationId) && clock.next == old(clock.next)
                                      && lastTimestamp == old(lastTimestamp) && deltaTime == old(deltaTime)
      ensures old(Timed()) ==> Timed()
      ensures old(Scheduled()) ==> Scheduled()
    {
      var needsRestarting := animationId.Some?;
      if needsRestarting {
        Stop();
      }
      if Sorted(animations) {
        WithoutSorted(animations, id);
      }
      animations := Without(animations, id);
      if needsRestarting {
        StartAsWritten();
      }
    }

    /** Stops the loop and clears the registry and the counter; keeps time.
        Only the registration the scheduler knows of is cancelled. */
    method RemoveAll()
      modifies this, clock
      ensures animations == [] && animationCount == 0 && animationId == None && lastTimestamp == 0.0
      ensures time == old(time) && deltaTime == old(deltaTime)
      ensures clock.pending == old(clock.pending) - old(Registered())
      ensures clock.next == old(clock.next) && clock.now == old(clock.now)
      ensures old(clock.Valid()) ==> clock.Valid()
      ensures old(Timed()) ==> Timed()
      ensures old(Scheduled()) ==> Valid() && clock.pending == {}
    {
      Stop();
      animations := [];
      animationCount := 0;
    }

    /** The loop as the source starts it: resets the baseline to the clock
        and runs one tick, which registers the next frame. It does not
        cancel a registration that is already outstanding. */
    method StartAsWritten()
      requires clock.Valid()
      modifies this, clock
      ensures clock.Valid()
      ensures animationId == Some(old(clock.next))
      ensures clock.pending == old(clock.pending) + {old(clock.next)}
      ensures clock.next == old(clock.next) + 1 && clock.now == old(clock.now)
      ensures lastTimestamp == clock.now && deltaTime == 0.0 && time == old(time)
      ensures animations == old(animations) && animationCount == old(animationCount)
      ensures old(Timed()) ==> Timed()
      ensures old(Scheduled()) && !old(IsAnimating()) ==> Scheduled()
    {
      lastTimestamp := clock.Now();
      Animate();
    }

    /** Starts the loop: cancels an outstanding registration first, then
        resets the baseline to the clock and runs one tick, which registers
        the next frame. The one registration it leaves is the only one. */
    method Start()
      requires clock.Valid()
      modifies this, clock
      ensures clock.Valid()
      ensures animationId == Some(old(clock.next))
      ensures clock.pending == old(clock.pending) - old(Registered()) + {old(clock.next)}
      ensures clock.next == old(clock.next) + 1 && clock.now == old(clock.now)
      ensures lastTimestamp == clock.now && deltaTime == 0.0 && time == old(time)
      ensures animations == old(animations) && animationCount == old(animationCount)
      ensures old(Timed()) ==> Timed()
      ensures old(Scheduled()) ==> Scheduled() && clock.pending == {old(clock.next)}
    {
      if animationId.Some? {
        Stop();
      }
      lastTimestamp := clock.Now();
      Animate();
    }

    /** Cancels the outstanding registration, if any, and forgets the
        handle and the baseline; time and the registry stay as they are. */
    method Stop()
      modifies this, clock
      ensures animationId == None && lastTimestamp == 0.0
      ensures time == old(time) && deltaTime == old(deltaTime)
      ensures animations == old(animations) && animationCount == old(animationCount)
      ensures clock.pending == old(clock.pending) - old(Registered())
      ensures clock.next == old(clock.next) && clock.now == old(clock.now)
      ensures old(clock.Valid()) ==> clock.Valid()
      ensures old(Timed()) ==> Timed()
      ensures old(Scheduled()) ==> Scheduled() && clock.pending == {}
    {
      if animationId.Some? {
        clock.Cancel(animationId.value);
      }
      lastTimestamp := 0.0;
      animationId := None;
    }

    /** Stops the loop and zeroes time; with `needsAllRemoving` (the
        default) also clears the registry and the counter. */
    method Reset(needsAllRemoving: bool := true)
      modifies this, clock
      ensures animationId == None && time == 0.0 && lastTimestamp == 0.0 && deltaTime == old(deltaTime)
      ensures clock.pending == old(clock.pending) - old(Registered())
      ensures clock.next == old(clock.next) && clock.now == old(clock.now)
      ensures needsAllRemoving ==> animations == [] && animationCount == 0
      ensures !needsAllRemoving ==> animations == old(animations) && animationCount == old(animationCount)
      ensures old(clock.Valid()) ==> (Scheduled() <==> clock.pending == {})
      ensures old(Timed()) ==> Timed()
      ensures old(Scheduled()) ==> Scheduled() && clock.pending == {}
    {
      Stop();
      time := 0.0;
      if needsAllRemoving {
        RemoveAll();
      }
    }

    /** Sorts the registry, then gives the entries with a finite order the
        orders 0, 1, 2, … in sorted position, and sets the counter to the
        number of entries. */
    method Reorder()
      modifies this
      ensures animations == Reordered(old(animations))
      ensures Sorted(animations) && animationCount == |animations|
      ensures time == old(time) && deltaTime == old(deltaTime) && lastTimestamp == old(lastTimestamp)
      ensures animationId == old(animationId)
      ensures old(Timed()) ==> Timed()
      ensures old(Scheduled()) ==> Scheduled()
    {
      SortAnimationsArray();
      var sorted := animations;
      RenumberSorted(sorted);
      var renumbered := RenumberOrders(sorted);
      animationCount := |renumbered|;
      animations := renumbered;
    }

    /** One tick: reads the clock, registers the next frame, and adds the
        elapsed seconds since the baseline to the time. */
    method Animate()
      requires clock.Valid()
      modifies this, clock
      ensures clock.Valid()
      ensures animationId == Some(old(clock.next))
      ensures clock.pending == old(clock.pending) + {old(clock.next)}
      ensures clock.next == old(clock.next) + 1 && clock.now == old(clock.now)
      ensures deltaTime == (old(clock.now) - old(lastTimestamp)) * 0.001
      ensures time == old(time) + deltaTime && lastTimestamp == old(clock.now)
      ensures animations == old(animations) && animationCount == old(animationCount)
      ensures old(Timed()) ==> Timed() && time >= old(time)
      ensures old(Scheduled()) && !old(IsAnimating()) ==> Scheduled()
    {
      var timestamp := clock.Now();
      var handle := clock.Request();
      animationId := Some(handle);
      deltaTime := (timestamp - lastTimestamp) * 0.001;
      time := time + deltaTime;
      lastTimestamp := timestamp;
    }

    /** The host fires the registration `h`: the tick runs. Time never
        decreases, and a loop with its one registration keeps it. */
    method OnFrame(h: nat)
      requires clock.Valid() && h in clock.pending
      modifies this, clock
      ensures clock.Valid()
      ensures clock.pending == old(clock.pending) - {h} + {old(clock.next)}
      ensures animationId == Some(old(clock.next)) && lastTimestamp == clock.now
      ensures deltaTime == (old(clock.now) - old(lastTimestamp)) * 0.001 && time == old(time) + deltaTime
      ensures animations == old(animations) && animationCount == old(animationCount)
      ensures clock.next == old(clock.next) + 1 && clock.now == old(clock.now)
      ensures old(Timed()) ==> Timed() && time >= old(time)
      ensures old(Scheduled()) ==> Scheduled()
    {
      clock.Fire(h);
      Animate();
    }

    /** The array sort with comparator `a.order - b.order`. */
    method SortAnimationsArray()
      modifies this
      ensures animations == Sort(old(animations))
      ensures Sorted(animations) && multiset(animations) == multiset(old(animations))
      ensures forall k :: TiedWith(animations, k) == TiedWith(old(animations), k)
      ensures time == old(time) && deltaTime == old(deltaTime) && lastTimestamp == old(lastTimestamp)
      ensures animationId == old(animationId) && animationCount == old(animationCount)
      ensures old(Timed()) ==> Timed()
      ensures old(Scheduled()) ==> Scheduled()
    {
      SortSorted(animations);
      SortPermutes(animations);
      forall k
        ensures TiedWith(Sort(animations), k) == TiedWith(animations, k)
      {
        SortStable(animations, k);
      }
      animations := Sort(animations);
    }
  }
}
