# Filmer: a verified model of the animation scheduler

Filmer is a per-frame animation scheduler. It keeps a registry of
`{ id, update, order }` entries sorted by `order`. On every display frame it
runs each entry's `update` callback in that order. The frame loop runs on the
host's `requestAnimationFrame`. This project models the `Filmer` class of
`src/index.ts` in Dafny and proves what its operations do to the registry, the
default-order counter, the running state and the accumulated time.

Layout, one module per file:

- `orders.dfy` (`Orders`): an order is `NegInf | Fin(real) | PosInf`.
  `Compare` is the sign of `a.order - b.order`. The NaN that `∞ - ∞` gives
  counts as 0, so equal infinities tie. The lemmas show this comparator is
  consistent: antisymmetric, transitive, with ties forming an equivalence.
- `animations.dfy` (`Animations`): the entry datatype and `Sorted`. The update
  callback is an opaque `Callback` token carried along unchanged.
- `sorting.dfy` (`StableSort`): `Sort` is a stable insertion sort. It is the
  behaviour ECMAScript 2019 (section 22.1.3.27) requires of
  `Array.prototype.sort`. Its output is proved sorted, a permutation of its
  input, and stable: every tie class keeps its input order. It is also the
  only list with those properties.
- `removal.dfy` (`Removal`): `Without` is the `filter` in `remove`.
- `renumbering.dfy` (`Renumbering`): `Renumber` and `Reordered`, the
  specification of `reorder`, and `RenumberOrders`, the counter loop that
  `reorder` runs.
- `frame_clock.dfy` (`FrameClocks`): the host. It has a millisecond clock, a
  handle counter for `requestAnimationFrame`, and the set of pending
  registrations. `Advance` and `Fire` are how the host lets time pass and
  fires a frame.
- `filmer.dfy` (`Scheduler`): class `Filmer` with the source's fields. Every
  method states every field of the scheduler and of the clock it may change,
  in terms of the old state. Two invariants are stated:
  - `Timed()` says the baseline lies between 0 and the clock's reading and
    that time is not negative. Every method keeps it.
  - `Scheduled()` adds that exactly one frame registration is pending while
    running and none while stopped. `Valid()` adds that the registry is
    sorted.

  The methods do not require `Scheduled()`, since the source's own `start`
  can break it. They state what they do in any state. Every method except
  `StartAsWritten` and `Animate` keeps `Scheduled()` whenever it held. Those
  two add a registration beside the known one, so they keep it only when
  called on a stopped loop.
- `scenarios.dfy` (`Scenarios`): client runs and concrete cases, taken from
  the source's tests and from the finding below.

Three facts about the code that its name and comments do not suggest:

- The counter is not always a count of `add` calls: `reorder` sets it to
  the number of entries (src/index.ts:106).
- `animationList` hands out the live array, not a copy (src/index.ts:33-35).
- A second `start` on a running loop does more than restart the time
  baseline. It leaves the earlier frame registration pending (see Findings).

## Model

| member | source | states |
|---|---|---|
| Orders.Compare | src/index.ts:122 | the comparator `a.order - b.order` read as a sign: always -1, 0 or 1, and 0 for equal orders (NaN from equal infinities counts as a tie) |
| Orders.CompareAntisymmetric | src/index.ts:122 | swapping the operands of the comparator negates its sign |
| Orders.TiedIffNeitherLess | src/index.ts:122 | two orders tie exactly when neither sorts before the other |
| Orders.NotLessTransitive | src/index.ts:122 | "sorts no later than" is transitive, so the comparator is a total preorder |
| Orders.LessTransitive | src/index.ts:122 | "sorts strictly before" is transitive and irreflexive |
| Orders.TiedEquivalence | src/index.ts:122 | ties are reflexive, symmetric and transitive; -∞ ties with -∞ and +∞ with +∞ (NaN read as a tie) |
| Orders.LessRespectsTies | src/index.ts:122 | an order strictly below another never ties with the larger one's class |
| Orders.InfinitiesAreAnchors | src/index.ts:122 | nothing sorts before -∞ or after +∞; every finite order lies strictly between them |
| Animations.SortedSnoc | src/index.ts:121-123 | appending an entry not below any present entry keeps a list sorted |
| Animations.SortedLast | src/index.ts:121-123 | in a sorted list every entry sorts no later than the last |
| Animations.SortedPrefix | src/index.ts:121-123 | every prefix of a sorted list is sorted |
| StableSort.TiedWithAppend | src/index.ts:122 | a tie class of a concatenation is the concatenation of the tie classes |
| StableSort.TiedWithMembers | src/index.ts:122 | an entry is in a tie class exactly when it is in the list and ties with the class |
| StableSort.InsertTied | src/index.ts:121-123 | inserting an entry appends it to its own tie class and changes no other class |
| StableSort.SortStable | src/index.ts:121-123 | the sort is stable: every tie class keeps its input order |
| StableSort.InsertPermutes | src/index.ts:121-123 | insertion adds exactly the new entry to the multiset |
| StableSort.SortPermutes | src/index.ts:121-123 | the sort returns a permutation of its input |
| StableSort.InsertSorted | src/index.ts:121-123 | inserting into a sorted list gives a sorted list |
| StableSort.SortSorted | src/index.ts:121-123 | the sort returns a list sorted ascending by order |
| StableSort.SortOfSorted | src/index.ts:121-123 | sorting a sorted list changes nothing |
| StableSort.SortIdempotent | src/index.ts:121-123 | sorting twice is sorting once |
| StableSort.InsertSplits | src/index.ts:54-55 | insertion puts the new entry at the insertion point and keeps the rest in order |
| StableSort.InsertionPointBounds | src/index.ts:54-55 | in a sorted list, every entry before the insertion point sorts no later than the new entry and every entry from it on sorts strictly after |
| StableSort.AddIsInsert | src/index.ts:54-55 | on a sorted registry, push-then-sort is one insertion |
| StableSort.AddPlacement | src/index.ts:53-55 | pushing an entry onto a sorted registry and sorting places it after all entries with a lower or tied order and before all entries with a higher one; nothing else moves |
| StableSort.LastOfTied | src/index.ts:122 | the last entry of a list is the last entry of its own tie class |
| StableSort.SortedLastsAgree | src/index.ts:121-123 | two non-empty sorted lists whose last entries' tie classes agree end with the same entry |
| StableSort.TiedPrefixAgrees | src/index.ts:122 | dropping the same last entry from two lists keeps an equal tie class equal |
| StableSort.SortedTiedUnique | src/index.ts:121-123 | two sorted lists with the same tie classes are equal |
| StableSort.StableSortUnique | src/index.ts:121-123 | every sorted list with the tie classes of `s` is `Sort(s)`, so any conforming stable sort gives the modelled result |
| Removal.Without | src/index.ts:66 | the filter keeping the entries whose id differs, in order; never longer than its input |
| Removal.WithoutCounts | src/index.ts:66 | removal drops every copy of every entry with the id and keeps every other entry as often as before |
| Removal.WithoutMembers | src/index.ts:66 | an entry survives exactly when it was present with another id |
| Removal.WithoutAppend | src/index.ts:66 | removal distributes over concatenation, so survivors keep their relative order |
| Removal.WithoutAbsent | src/index.ts:66 | removing an id that no entry carries leaves the list unchanged |
| Removal.WithoutIdempotent | src/index.ts:58-60 | removing the same id again is a no-op, so the closure `add` returns may be called repeatedly |
| Removal.WithoutSorted | src/index.ts:66-67 | removal keeps a sorted registry sorted |
| Renumbering.Renumber | src/index.ts:96-105 | the counter map: every entry renamed with the number of finite entries before it, the list length unchanged |
| Renumbering.RenumberAt | src/index.ts:96-105 | each entry keeps its id and callback; an infinite order is kept; a finite order becomes the number of finite entries before it |
| Renumbering.RenumberRanks | src/index.ts:99-103 | the finite orders after renumbering are exactly 0, 1, 2, … in list order |
| Renumbering.RenumberFiniteCount | src/index.ts:99-103 | renumbering keeps the number of finite entries |
| Renumbering.FiniteCountGrows | src/index.ts:100-103 | a finite entry earlier in the list gets a strictly smaller rank |
| Renumbering.FiniteCountMonotone | src/index.ts:100 | the finite-entry count of a prefix never decreases as the prefix grows |
| Renumbering.RenumberSorted | src/index.ts:94-107 | renumbering a sorted list keeps it sorted |
| Renumbering.RenumberIdempotent | src/index.ts:97-105 | renumbering twice is renumbering once |
| Renumbering.ReorderedShape | src/index.ts:94-108 | after reorder the list is sorted and as long as before; ids and callbacks follow the sorted order position by position; infinite orders are unchanged; the finite orders are 0, 1, 2, … |
| Renumbering.ReorderIdempotent | src/index.ts:94-108 | reordering twice is reordering once |
| Renumbering.InsertFiniteCount | src/index.ts:95-100 | inserting an entry adds one to the finite count exactly when its order is finite |
| Renumbering.SortFiniteCount | src/index.ts:95-100 | sorting does not change how many entries have a finite order |
| Renumbering.RenumberOrders | src/index.ts:96-105 | the loop that threads the counter through the list returns exactly the renumbered list |
| Renumbering.FiniteCountAppend | src/index.ts:100 | the finite-entry count of a concatenation is the sum of the counts |
| Scheduler.Filmer.constructor | src/index.ts:21-31 | a new scheduler has time 0, is not running, and has an empty registry and counter 0 |
| Scheduler.Filmer.AnimationList | src/index.ts:33-35 | the list handed out holds exactly the registry's entries and is sorted whenever the registry is |
| Scheduler.Filmer.CurrentTime | src/index.ts:37-39 | the accumulated time, which is never negative while the baseline and time are in order (`Timed()`) |
| Scheduler.Filmer.IsAnimating | src/index.ts:41-43 | running exactly when the handle is set; while `Scheduled()` holds, exactly when a registration is pending (after the source's double `start` and a `stop` it is false with a registration still pending) |
| Scheduler.Filmer.Add | src/index.ts:49-61 | in any state: the registry becomes the stable sort of the old registry plus the new entry; a missing order defaults to the old counter; the counter grows by exactly one; a running loop swaps its known registration for a fresh one and a stopped one stays stopped; time is unchanged; the one-registration invariant is kept |
| Scheduler.Filmer.Remove | src/index.ts:63-69 | in any state: the registry loses exactly the entries with the id and stays sorted if it was; the counter is unchanged; a running loop swaps its known registration for a fresh one; the one-registration invariant is kept |
| Scheduler.Filmer.RemoveAll | src/index.ts:71-75 | in any state: empty registry, counter 0, not running, only the known registration cancelled, time unchanged; from the invariant, nothing is left pending |
| Scheduler.Filmer.StartAsWritten | src/index.ts:77-80 | the source's start: running on a fresh registration added beside any earlier one; baseline is the clock; time unchanged by the synchronous tick; keeps `Timed()`, and keeps `Scheduled()` only when started from stopped |
| Scheduler.Filmer.Start | src/index.ts:77-80 | start with the outstanding registration cancelled first: running on a fresh registration that replaces the known one, and from the invariant the only one pending |
| Scheduler.Filmer.Stop | src/index.ts:82-86 | not running, baseline 0, its registration cancelled; time, registry and counter unchanged; a second call changes nothing |
| Scheduler.Filmer.Reset | src/index.ts:88-92 | in any state ends stopped with time 0, cancelling only the known registration; the registry and counter are cleared only when asked to, and otherwise unchanged; the invariant holds afterwards exactly when nothing is left pending |
| Scheduler.Filmer.Reorder | src/index.ts:94-108 | the registry becomes the renumbered stable sort of the old one, stays sorted, and the counter equals its length; time and running state unchanged; both invariants kept |
| Scheduler.Filmer.Animate | src/index.ts:110-119 | a tick registers the next frame, sets delta to the elapsed clock time in seconds, adds it to time, and moves the baseline to the clock; time never decreases under `Timed()`; keeps `Scheduled()` only when called on a stopped loop |
| Scheduler.Filmer.OnFrame | src/index.ts:110-114 | a fired frame runs a tick on a fresh handle without moving the clock; however many registrations are pending, time never decreases under `Timed()`; with one registration outstanding, the single registration is kept |
| Scheduler.Filmer.SortAnimationsArray | src/index.ts:121-123 | the registry becomes its stable sort: sorted, a permutation, every tie class in its old order; both invariants kept |
| Scenarios.DoubleStartSurvivesStop | src/index.ts:77-86 | with the source's start, start twice then stop reports not running, yet the leftover frame turns the loop back on |
| Scenarios.DoubleStartThenStopHalts | src/index.ts:82-86 | with the corrected start, start twice then stop leaves nothing pending and not running |
| Scenarios.TimeAcrossStopAndReset | src/index.test.ts:66-83 | time is positive after a fired frame, stop keeps it, reset zeroes it |
| Scenarios.ExplicitAndDefaultOrders | src/index.test.ts:86-104 | after `add` with orders 1, 2, 0 and one `add` without an order, the registry runs the third, first and second entry, then the fourth with the default order 3 |
| Scenarios.InsertionsOfTheTest | src/index.ts:54-55 | inserting the four entries of that scenario one by one puts the third first, then the first, the second and the fourth |
| Scenarios.InfinitiesSortAtTheEnds | src/index.ts:121-123 | orders 3, -∞, 0.2, ∞, 8.5 sort as -∞, 0.2, 3, 8.5, ∞ |
| Scenarios.InfinitiesStayAnchored | src/index.ts:94-108 | reordering -∞, 0.2, 3, 8.5, ∞ gives -∞, 0, 1, 2, ∞ |
| Scenarios.AddAfterAdd | src/index.ts:54-55 | adding entries one at a time leaves the stable sort of everything pushed so far |
| Scenarios.StopTwice | src/index.ts:82-86 | the first stop clears the handle and baseline and cancels the known registration, keeping everything else; the second leaves every field and the clock exactly as the first did |
| Scenarios.DoubleStartSurvivesReset | src/index.ts:77-92 | with the source's start, start twice then reset reports not running, yet the leftover frame turns the loop back on with time growing from zero |

## Left out

- `getLerpCoeff`, both the free function and the method (src/index.ts:14-18, 45-47): floating-point exponentiation with no discrete property to state.
- The update callbacks: `Animate` does not invoke them. The model cannot capture what they do, and it cannot capture a callback that calls `add` or `remove` from inside a tick. A callback that throws is out of scope too.
- Floating-point arithmetic: orders, `time` and `deltaTime` are exact reals. There is no rounding and no `-0`, and a NaN order cannot be expressed. The source would accept a NaN passed as an explicit order, and its comparator would then tie NaN with every order.
- Clock reads: within one synchronous call they all return the same value; time passes only through `FrameClock.Advance`. So the tick that `start` runs adds 0 seconds. On a real host it adds the few microseconds between its two clock reads.
- The closure returned by `add` is not a value in the model. Calling it is `Remove(id)`, and `WithoutIdempotent` covers calling it again.
- Aliasing: `animationList` returns the live array, so a caller could reorder it behind the scheduler's back. The model hands out a `seq` value, and `Valid()` assumes the registry is changed only through the class.
- The counter and the handles are unbounded naturals. JavaScript numbers lose precision above 2^53, and browsers number frame handles from 1.
- The default-exported singleton: the model builds a `Filmer` around an explicit `FrameClock`.
- `eslint.config.js` and `vite.config.js`: build configuration, no logic.
- `src/index.test.ts` calls `add` with an object argument and imports a named `filmer`. Neither matches `src/index.ts`, so the scenarios use the `add(id, update, order)` signature.

## Findings

| source | as written | input that shows it | evidently intended | confidence | as-written member | corrected member |
|---|---|---|---|---|---|---|
| src/index.ts:77-86 | `start` runs a tick that calls `requestAnimationFrame` without cancelling a registration that is already pending, and `stop` cancels only the newest handle | `start(); start(); stop();` then the host fires the first frame: the tick re-registers and `isAnimating` is true again | `stop` halts the loop, and at most one frame registration is pending at a time | medium, not executed | Scenarios.DoubleStartSurvivesStop | Scheduler.Filmer.Start |
