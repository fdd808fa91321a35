/** The host's frame clock, which the scheduler relies on: a monotonic
    millisecond clock (`performance.now`) and one-shot frame callbacks
    (`requestAnimationFrame` / `cancelAnimationFrame`). Handles come from a
    counter, and `pending` holds the registrations not yet fired or
    cancelled. */
module FrameClocks {

  class FrameClock {
    /** Current clock reading, in milliseconds. */
    var now: real
    /** The handle the next registration receives. */
    var next: nat
    /** Registrations that are still waiting for a frame. */
    var pending: set<nat>

    ghost predicate Valid()
      reads this
    {
      0.0 <= now && forall h :: h in pending ==> h < next
    }

    constructor ()
      ensures Valid() && now == 0.0 && next == 0 && pending == {}
    {
      now := 0.0;
      next := 0;
      pending := {};
    }

    /** `performance.now()`. */
    method Now() returns (t: real)
      ensures t == now
    {
      t := now;
    }

    /** `requestAnimationFrame`: a fresh handle, now pending. */
    method Request() returns (h: nat)
      requires Valid()
      modifies this
      ensures Valid()
      ensures h == old(next) && h !in old(pending)
      ensures pending == old(pending) + {h} && next == old(next) + 1 && now == old(now)
    {
      h := next;
      next := next + 1;
      pending := pending + {h};
    }

    /** `cancelAnimationFrame`: no effect on a handle that is not pending. */
    method Cancel(h: nat)
      modifies this
      ensures pending == old(pending) - {h} && next == old(next) && now == old(now)
      ensures old(Valid()) ==> Valid()
    {
      pending := pending - {h};
    }

    /** The host lets `dt` milliseconds pass. */
    method Advance(dt: real)
      requires dt >= 0.0
      modifies this
      ensures now == old(now) + dt && next == old(next) && pending == old(pending)
      ensures old(Valid()) ==> Valid()
    {
      now := now + dt;
    }

    /** The host fires the pending registration `h`. */
    method Fire(h: nat)
      requires h in pending
      modifies this
      ensures pending == old(pending) - {h} && next == old(next) && now == old(now)
      ensures old(Valid()) ==> Valid()
    {
      pending := pending - {h};
    }
  }
}
