/** The triple buffer between a producer and consumers. */
module Tribuf {

  // The producer fills the back buffer, a consumer shows the front buffer, and a third, orphan,
  // buffer is exchanged with either.

  /** The handler's fields; buffers are named by numbers, ready is the semaphore's counter, and
      waiting is the length of its queue of threads. */
  datatype Handler = Handler(front: nat, back: nat, orphan: nat, ready: int, waiting: nat)
  {
    /** Threads wait exactly while the counter is below 0, one for each count. */
    predicate Consistent()
    {
      waiting == if ready < 0 then -ready else 0
    }

    function SwapFront(): Handler
    {
      this.(front := orphan, orphan := front)
    }

    /** Raises the counter, which wakes a thread if any waits. */
    function Signal(): Handler
      requires Consistent()
    {
      this.(ready := ready + 1, waiting := if ready < 0 then waiting - 1 else waiting)
    }

    function SwapBack(): Handler
      requires Consistent()
    {
      var h := this.(back := orphan, orphan := back);
      if ready < 1 then h.Signal() else h
    }

    /** A wait returns at once or leaves its thread waiting. */
    function Wait(): Handler
    {
      this.(ready := ready - 1, waiting := if ready < 1 then waiting + 1 else waiting)
    }

    /** A wait with an immediate timeout. */
    function Poll(): Handler
    {
      if ready < 1 then this else this.(ready := ready - 1)
    }

    /** The timeout of a waiting thread; one that fires after the release does nothing. */
    function Expire(): Handler
    {
      if waiting == 0 then this else this.(ready := ready + 1, waiting := waiting - 1)
    }
  }

  class TripleBuffer {
    var front: nat
    var back: nat
    var orphan: nat
    var ready: int
    var waiting: nat

    ghost function Abs(): Handler
      reads this
    {
      Handler(front, back, orphan, ready, waiting)
    }

    constructor (front: nat, back: nat, orphan: nat)
      ensures Abs() == Handler(front, back, orphan, 0, 0)
    {
      this.front, this.back, this.orphan, ready, waiting := front, back, orphan, 0, 0;
    }

    method SwapFrontI()
      modifies this
      ensures Abs() == old(Abs()).SwapFront()
    {
      var f := orphan;
      orphan := front;
      front := f;
    }

    method SwapBackI()
      requires Abs().Consistent()
      modifies this
      ensures Abs() == old(Abs()).SwapBack()
    {
      var b := orphan;
      orphan := back;
      back := b;
      if ready < 1 {
        ready := ready + 1;
        if ready <= 0 {
          waiting := waiting - 1;
        }
      }
    }

    method IsReadyI() returns (b: bool)
      ensures b <==> ready != 0
    {
      b := ready != 0;
    }

    /** The wait up to its return or to its falling asleep. */
    method WaitReadyS() returns (asleep: bool)
      modifies this
      ensures Abs() == old(Abs()).Wait() && (asleep <==> old(ready) <= 0)
    {
      ready := ready - 1;
      asleep := ready < 0;
      if asleep {
        waiting := waiting + 1;
      }
    }

    /** The wait with an immediate timeout. */
    method PollReadyS() returns (ok: bool)
      modifies this
      ensures Abs() == old(Abs()).Poll() && (ok <==> old(ready) > 0)
    {
      ready := ready - 1;
      ok := ready >= 0;
      if !ok {
        ready := ready + 1;
      }
    }

    method Expire()
      modifies this
      ensures Abs() == old(Abs()).Expire()
    {
      if waiting > 0 {
        ready, waiting := ready + 1, waiting - 1;
      }
    }
  }

  // ----- The protocol ------------------------------------------------------------

  /** The handler, which frame each buffer holds (0 if none), and the last frame published. */
  datatype State = State(h: Handler, frames: seq<nat>, last: nat)
  {
    ghost predicate WellFormed()
    {
      |frames| == 3 && h.front < 3 && h.back < 3 && h.orphan < 3 && h.Consistent()
    }

    function Shown(): nat
      requires WellFormed()
    {
      frames[h.front]
    }

    /** The orphan holds a newer frame than the front. */
    ghost predicate Fresh()
      requires WellFormed()
    {
      frames[h.orphan] > frames[h.front]
    }
  }

  /** The atomic steps: the producer fills the back buffer with the next frame and swaps it out;
      a consumer calls for the ready signal, to wait for it or with an immediate timeout; the
      timeout of a waiting consumer fires; a consumer swaps the front buffer. */
  datatype Event = Publish | Wait | Poll | Expire | SwapFront

  function Next(s: State, e: Event): (s': State)
    requires s.WellFormed()
    ensures s'.WellFormed()
  {
    match e
    case Publish => State(s.h.SwapBack(), s.frames[s.h.back := s.last + 1], s.last + 1)
    case Wait => s.(h := s.h.Wait())
    case Poll => s.(h := s.h.Poll())
    case Expire => s.(h := s.h.Expire())
    case SwapFront => s.(h := s.h.SwapFront())
  }

  function Start(front: nat, back: nat, orphan: nat): State
  {
    State(Handler(front, back, orphan, 0, 0), [0, 0, 0], 0)
  }

  ghost predicate Distinct3(a: nat, b: nat, c: nat)
  {
    a < 3 && b < 3 && c < 3 && a != b && a != c && b != c
  }

  function After(s: State, evs: seq<Event>): (s': State)
    requires s.WellFormed()
    ensures s'.WellFormed()
    decreases |evs|
  {
    if evs == [] then s else Next(After(s, evs[..|evs|-1]), evs[|evs|-1])
  }

  /** A frame was published that no call for the signal has claimed. */
  predicate Pending(evs: seq<Event>)
    decreases |evs|
  {
    evs != [] && var before := evs[..|evs|-1];
                 match evs[|evs|-1]
                 case Publish => Waiters(before) == 0
                 case Wait => false
                 case Poll => false
                 case _ => Pending(before)
  }

  /** The calls that wait for a publication. */
  function Waiters(evs: seq<Event>): nat
    decreases |evs|
  {
    if evs == [] then 0
    else
      var w := Waiters(evs[..|evs|-1]);
      match evs[|evs|-1]
      case Wait => if Pending(evs[..|evs|-1]) then w else w + 1
      case Publish => if w == 0 then 0 else w - 1
      case Expire => if w == 0 then 0 else w - 1
      case _ => w
  }

  predicate EverPublished(evs: seq<Event>)
    decreases |evs|
  {
    evs != [] && (evs[|evs|-1] == Publish || EverPublished(evs[..|evs|-1]))
  }

  /** Front swaps since the last publication. */
  function SwapsSincePublish(evs: seq<Event>): nat
    decreases |evs|
  {
    if evs == [] || evs[|evs|-1] == Publish then 0
    else SwapsSincePublish(evs[..|evs|-1]) + if evs[|evs|-1] == SwapFront then 1 else 0
  }

  ghost predicate Invariant(s: State)
    requires s.WellFormed()
  {
    && Distinct3(s.h.front, s.h.back, s.h.orphan)
    && s.h.ready <= 1
    && (forall b :: 0 <= b < 3 ==> s.frames[b] <= s.last)
    && (s.frames[s.h.front] == s.last || s.frames[s.h.orphan] == s.last)
    && (s.last > 0 ==> s.frames[s.h.front] != s.frames[s.h.orphan])
  }

  /** What the semaphore of s tells of the run that led to s. */
  ghost predicate Tells(s: State, evs: seq<Event>)
  {
    s.h.waiting == Waiters(evs) && (s.h.ready == 1 <==> Pending(evs))
  }

  /** Safety in every interleaving of a producer with any number of consumers: the three buffers
      stay a permutation of the initial ones, so producer and consumers never share one; the
      ready counter is 1 if a frame is pending and otherwise minus the number of waiting threads;
      the newest frame is never lost; and the orphan is newer than the front exactly if frames
      were published and the front was swapped an even number of times since. */
  lemma {:induction false} EveryInterleaving(front: nat, back: nat, orphan: nat, evs: seq<Event>)
    requires Distinct3(front, back, orphan)
    ensures var s := After(Start(front, back, orphan), evs);
      && Invariant(s)
      && s.h.waiting == Waiters(evs)
      && s.h.ready == (if Pending(evs) then 1 else 0) - Waiters(evs)
      && (Pending(evs) ==> Waiters(evs) == 0)
      && (s.last > 0 <==> EverPublished(evs))
      && (s.Fresh() <==> EverPublished(evs) && SwapsSincePublish(evs) % 2 == 0)
    decreases |evs|
  {
    if evs != [] {
      var n := |evs| - 1;
      var s0 := Start(front, back, orphan);
      EveryInterleaving(front, back, orphan, evs[..n]);
      StepKeeps(After(s0, evs[..n]), evs[n]);
      StepTells(After(s0, evs[..n]), evs);
      HistoryStep(evs);
      assert After(s0, evs) == Next(After(s0, evs[..n]), evs[n]);
    }
  }

  /** How the last event changes what the run's history says of the frames. */
  lemma HistoryStep(evs: seq<Event>)
    requires evs != []
    ensures var before, e := evs[..|evs|-1], evs[|evs|-1];
      && (EverPublished(evs) <==> e.Publish? || EverPublished(before))
      && (SwapsSincePublish(evs) % 2 == 0 <==>
          e.Publish? || (e.SwapFront? != (SwapsSincePublish(before) % 2 == 0)))
  {
  }

  lemma StepKeeps(s: State, e: Event)
    requires s.WellFormed() && Invariant(s)
    ensures var s' := Next(s, e);
      && Invariant(s')
      && (s'.Fresh() <==> match e
                          case Publish => true
                          case SwapFront => s.last > 0 && !s.Fresh()
                          case _ => s.Fresh())
  {
  }

  lemma StepTells(s: State, evs: seq<Event>)
    requires s.WellFormed() && s.h.ready <= 1 && evs != [] && Tells(s, evs[..|evs|-1])
    ensures Tells(Next(s, evs[|evs|-1]), evs)
  {
  }

  /** A front swap shows the newest frame exactly if the orphan was newer than the front (or
      nothing was ever published); otherwise it goes back to an older frame. */
  lemma SwapShowsNewest(front: nat, back: nat, orphan: nat, evs: seq<Event>)
    requires Distinct3(front, back, orphan)
    ensures var s := After(Start(front, back, orphan), evs);
      var s' := Next(s, SwapFront);
      && (s'.Shown() == s.last <==> !EverPublished(evs) || SwapsSincePublish(evs) % 2 == 0)
      && (s'.Shown() < s.Shown() <==> EverPublished(evs) && SwapsSincePublish(evs) % 2 == 1)
  {
    EveryInterleaving(front, back, orphan, evs);
  }

  // ----- Readiness ---------------------------------------------------------------

  /** Whenever the handler is asked in a run, it says ready exactly if a frame is pending or a
      thread waits; so the answer is right exactly if no thread waits. */
  lemma ReadinessExact(front: nat, back: nat, orphan: nat, evs: seq<Event>)
    requires Distinct3(front, back, orphan)
    ensures var ready := After(Start(front, back, orphan), evs).h.ready != 0;
      && (ready <==> Pending(evs) || Waiters(evs) > 0)
      && ((ready <==> Pending(evs)) <==> Waiters(evs) == 0)
  {
    EveryInterleaving(front, back, orphan, evs);
  }

  /** A wait on a new handler makes it look ready with nothing published. */
  lemma BlockedWaitLooksReady(front: nat, back: nat, orphan: nat)
    requires Distinct3(front, back, orphan)
    ensures After(Start(front, back, orphan), [Wait]).h.ready == -1
    ensures !EverPublished([Wait]) && !Pending([Wait]) && Waiters([Wait]) == 1
  {
    assert [Wait][..0] == [];
    assert After(Start(front, back, orphan), [Wait]) == Next(Start(front, back, orphan), Wait);
  }

  /** One consumer thread: it does nothing while it waits. */
  ghost predicate OneConsumer(evs: seq<Event>)
  {
    forall k :: 0 <= k < |evs| && (evs[k].Wait? || evs[k].Poll? || evs[k].SwapFront?) ==> Waiters(evs[..k]) == 0
  }

  lemma {:induction false} OneWaiter(evs: seq<Event>)
    requires OneConsumer(evs)
    ensures Waiters(evs) <= 1
    decreases |evs|
  {
    if evs != [] {
      var n := |evs| - 1;
      forall k | 0 <= k < n ensures evs[..n][..k] == evs[..k] {}
      OneWaiter(evs[..n]);
    }
  }

  /** With one consumer the counter stays in -1..1, and it is -1 exactly while the consumer waits. */
  lemma OneConsumerCounts(front: nat, back: nat, orphan: nat, evs: seq<Event>)
    requires Distinct3(front, back, orphan) && OneConsumer(evs)
    ensures var ready := After(Start(front, back, orphan), evs).h.ready;
      -1 <= ready <= 1 && (ready == -1 <==> Waiters(evs) > 0) && (ready == 1 <==> Pending(evs))
  {
    EveryInterleaving(front, back, orphan, evs);
    OneWaiter(evs);
  }

  // ----- Claiming the signal and swapping in one step ----------------------------

  /** The step with which a call for the signal succeeds: the call itself, or the publication
      that wakes a waiting thread. */
  predicate Claims(s: State, e: Event)
  {
    match e
    case Wait => s.h.ready > 0
    case Poll => s.h.ready > 0
    case Publish => s.h.waiting > 0
    case _ => false
  }

  /** The consumers swap the front exactly when they have just claimed the signal. */
  predicate SwapsAtOnce(s0: State, evs: seq<Event>)
    requires s0.WellFormed()
    decreases |evs|
  {
    var n := |evs|;
    if evs == [] then true
    else if evs[n-1].SwapFront? then
      n >= 2 && Claims(After(s0, evs[..n-2]), evs[n-2]) && SwapsAtOnce(s0, evs[..n-2])
    else !Claims(After(s0, evs[..n-1]), evs[n-1]) && SwapsAtOnce(s0, evs[..n-1])
  }

  /** The frames shown by the front swaps of a run, in order. */
  function FramesShown(s: State, evs: seq<Event>): seq<nat>
    requires s.WellFormed()
    decreases |evs|
  {
    if evs == [] then []
    else FramesShown(s, evs[..|evs|-1]) +
         if evs[|evs|-1] == SwapFront then [After(s, evs).Shown()] else []
  }

  predicate StrictlyIncreasing(s: seq<nat>)
  {
    forall i, j :: 0 <= i < j < |s| ==> s[i] < s[j]
  }

  /** If every claim and its swap are one step, a frame is pending exactly if the orphan is newer
      than the front, the consumers see the frames in strictly increasing order, and every swap
      shows the newest published frame. */
  lemma {:induction false} AtomicConsumerSeesNewest(front: nat, back: nat, orphan: nat, evs: seq<Event>)
    requires Distinct3(front, back, orphan) && SwapsAtOnce(Start(front, back, orphan), evs)
    ensures var s := After(Start(front, back, orphan), evs);
      && Ordered(s, FramesShown(Start(front, back, orphan), evs))
      && (evs != [] && evs[|evs|-1].SwapFront? ==> s.Shown() == s.last)
    decreases |evs|
  {
    var s0 := Start(front, back, orphan);
    if evs == [] {
    } else if evs[|evs|-1].SwapFront? {
      var n := |evs| - 2;
      AtomicConsumerSeesNewest(front, back, orphan, evs[..n]);
      EveryInterleaving(front, back, orphan, evs[..n]);
      AfterClaimAndSwap(s0, evs);
    } else {
      var n := |evs| - 1;
      AtomicConsumerSeesNewest(front, back, orphan, evs[..n]);
      EveryInterleaving(front, back, orphan, evs[..n]);
      AfterOther(s0, evs);
    }
  }

  /** A frame is pending exactly if the orphan is newer than the front, and the frames shown so
      far increase up to the front's. */
  ghost predicate Ordered(s: State, seen: seq<nat>)
    requires s.WellFormed()
  {
    && (s.h.ready == 1 <==> s.Fresh())
    && StrictlyIncreasing(seen)
    && forall i :: 0 <= i < |seen| ==> 0 < seen[i] <= s.Shown()
  }

  lemma {:induction false} AfterClaimAndSwap(s0: State, evs: seq<Event>)
    requires s0.WellFormed() && |evs| >= 2 && evs[|evs|-1].SwapFront?
    requires Invariant(After(s0, evs[..|evs|-2])) && Claims(After(s0, evs[..|evs|-2]), evs[|evs|-2])
    requires Ordered(After(s0, evs[..|evs|-2]), FramesShown(s0, evs[..|evs|-2]))
    ensures Ordered(After(s0, evs), FramesShown(s0, evs)) && After(s0, evs).Shown() == After(s0, evs).last
  {
    var n := |evs| - 2;
    LastTwo(s0, evs);
    ClaimThenSwap(After(s0, evs[..n]), evs[n], FramesShown(s0, evs[..n]));
  }

  lemma {:induction false} AfterOther(s0: State, evs: seq<Event>)
    requires s0.WellFormed() && evs != [] && !evs[|evs|-1].SwapFront?
    requires Invariant(After(s0, evs[..|evs|-1])) && !Claims(After(s0, evs[..|evs|-1]), evs[|evs|-1])
    requires Ordered(After(s0, evs[..|evs|-1]), FramesShown(s0, evs[..|evs|-1]))
    ensures Ordered(After(s0, evs), FramesShown(s0, evs))
  {
    var n := |evs| - 1;
    NoClaim(After(s0, evs[..n]), evs[n], FramesShown(s0, evs[..n]));
    OtherEvent(s0, evs);
  }

  lemma {:induction false} OtherEvent(s0: State, evs: seq<Event>)
    requires s0.WellFormed() && evs != [] && !evs[|evs|-1].SwapFront?
    ensures After(s0, evs) == Next(After(s0, evs[..|evs|-1]), evs[|evs|-1])
    ensures FramesShown(s0, evs) == FramesShown(s0, evs[..|evs|-1])
  {
  }

  lemma NoClaim(s: State, e: Event, seen: seq<nat>)
    requires s.WellFormed() && Invariant(s) && !e.SwapFront? && !Claims(s, e) && Ordered(s, seen)
    ensures Ordered(Next(s, e), seen)
  {
    StepKeeps(s, e);
    assert Next(s, e).Shown() == s.Shown();
  }

  lemma LastTwo(s0: State, evs: seq<Event>)
    requires s0.WellFormed() && |evs| >= 2 && evs[|evs|-1].SwapFront? && !evs[|evs|-2].SwapFront?
    ensures var before := evs[..|evs|-2];
      && After(s0, evs) == Next(Next(After(s0, before), evs[|evs|-2]), SwapFront)
      && FramesShown(s0, evs) == FramesShown(s0, before) + [After(s0, evs).Shown()]
  {
    var n := |evs| - 2;
    assert evs[..n+1][..n] == evs[..n];
    assert After(s0, evs[..n+1]) == Next(After(s0, evs[..n]), evs[n]);
    assert FramesShown(s0, evs[..n+1]) == FramesShown(s0, evs[..n]);
  }

  /** Swapping right after a claim shows the newest frame, which is newer than the one shown. */
  lemma ClaimThenSwap(s: State, e: Event, seen: seq<nat>)
    requires s.WellFormed() && Invariant(s) && Claims(s, e) && Ordered(s, seen)
    ensures var s' := Next(Next(s, e), SwapFront);
      Ordered(s', seen + [s'.Shown()]) && s'.Shown() == s'.last && s.Shown() < s'.Shown()
  {
    var s' := Next(Next(s, e), SwapFront);
    StepKeeps(s, e);
    StepKeeps(Next(s, e), SwapFront);
    Larger(seen, s.Shown(), s'.Shown());
  }

  lemma Larger(seen: seq<nat>, m: nat, x: nat)
    requires StrictlyIncreasing(seen) && m < x && forall i :: 0 <= i < |seen| ==> 0 < seen[i] <= m
    ensures StrictlyIncreasing(seen + [x])
    ensures forall i :: 0 <= i < |seen + [x]| ==> 0 < (seen + [x])[i] <= x
  {
  }

  /** The next publication reaches a consumer: the one that waits, or one that then calls. */
  function Served(s: State): State
    requires s.WellFormed()
  {
    if s.h.waiting > 0 then Next(s, Publish) else Next(Next(s, Publish), Wait)
  }

  /** Claiming and swapping in two steps does not keep this, from any state with at most one
      waiting thread: a frame published between them is shown at once, its signal survives, and
      the next wait and swap go back to the frame shown before both. A thread that had to wait
      always swaps in a second step, after it was woken. */
  lemma SplitConsumerGoesBack(s: State)
    requires s.WellFormed() && Invariant(s) && s.h.waiting <= 1
    ensures var swapped := Next(Next(Served(s), Publish), SwapFront);
      var again := Next(Next(swapped, Wait), SwapFront);
      && Claims(swapped, Wait)
      && s.Shown() < swapped.Shown() == s.last + 2 == again.last
      && again.Shown() == s.Shown()
  {
    StepKeeps(s, Publish);
    ServedKeeps(s);
    StepKeeps(Served(s), Publish);
    StepKeeps(Next(Served(s), Publish), SwapFront);
  }

  lemma ServedKeeps(s: State)
    requires s.WellFormed() && Invariant(s) && s.h.waiting <= 1
    ensures var t := Served(s);
      && t.WellFormed() && Invariant(t) && t.h.waiting == 0 && t.h.ready == 0
      && t.Fresh() && t.Shown() == s.Shown() && t.last == s.last + 1
  {
    StepKeeps(s, Publish);
    StepKeeps(Next(s, Publish), Wait);
  }

  // ----- The object over a run -------------------------------------------------------------

  /** One step on the handler and the contents of the three buffers. */
  method Perform(buffer: TripleBuffer, frames: array<nat>, last: nat, e: Event, ghost s: State) returns (last': nat)
    requires frames.Length == 3 && s.WellFormed() && s == State(buffer.Abs(), frames[..], last)
    modifies buffer, frames
    ensures State(buffer.Abs(), frames[..], last') == Next(s, e)
  {
    last' := last;
    match e {
      case Publish =>
        last' := last + 1;
        frames[buffer.back] := last';
        buffer.SwapBackI();
      case Wait => var asleep := buffer.WaitReadyS();
      case Poll => var ok := buffer.PollReadyS();
      case Expire => buffer.Expire();
      case SwapFront => buffer.SwapFrontI();
    }
  }

  /** Plays a run on a handler: what the front swaps show, and what asking for readiness after
      every step answers. */
  method Play(front: nat, back: nat, orphan: nat, evs: seq<Event>) returns (shown: seq<nat>, ready: seq<bool>)
    requires Distinct3(front, back, orphan)
    ensures shown == FramesShown(Start(front, back, orphan), evs)
    ensures SwapsAtOnce(Start(front, back, orphan), evs) ==> StrictlyIncreasing(shown)
    ensures |ready| == |evs| && Readiness(evs, ready)
  {
    var buffer := new TripleBuffer(front, back, orphan);
    var frames := new nat[3](_ => 0);
    var last := 0;
    ghost var s0 := Start(front, back, orphan);
    assert frames[..] == [0, 0, 0];
    shown, ready := [], [];
    for n := 0 to |evs|
      invariant State(buffer.Abs(), frames[..], last) == After(s0, evs[..n])
      invariant shown == FramesShown(s0, evs[..n]) && Readiness(evs, ready) && |ready| == n
    {
      var r, b;
      OneMoreEvent(s0, evs, n);
      last, r, b := PlayOne(buffer, frames, last, evs[n], After(s0, evs[..n]));
      OneMoreReadiness(front, back, orphan, evs, ready, b);
      shown, ready := shown + r, ready + [b];
    }
    assert evs[..|evs|] == evs;
    if SwapsAtOnce(s0, evs) {
      AtomicConsumerSeesNewest(front, back, orphan, evs);
    }
  }

  /** Answer k tells whether a frame is pending, or a thread waits, after k + 1 events. */
  ghost predicate Readiness(evs: seq<Event>, ready: seq<bool>)
  {
    && |ready| <= |evs|
    && forall k :: 0 <= k < |ready| ==> ready[k] == (Pending(evs[..k+1]) || Waiters(evs[..k+1]) > 0)
  }

  lemma OneMoreReadiness(front: nat, back: nat, orphan: nat, evs: seq<Event>, ready: seq<bool>, b: bool)
    requires Distinct3(front, back, orphan) && |ready| < |evs| && Readiness(evs, ready)
    requires b <==> After(Start(front, back, orphan), evs[..|ready|+1]).h.ready != 0
    ensures Readiness(evs, ready + [b])
  {
    ReadinessExact(front, back, orphan, evs[..|ready|+1]);
  }

  /** One step, what it shows, and the answer to asking for readiness after it. */
  method PlayOne(buffer: TripleBuffer, frames: array<nat>, last: nat, e: Event, ghost s: State)
    returns (last': nat, shown: seq<nat>, ready: bool)
    requires frames.Length == 3 && s.WellFormed() && s == State(buffer.Abs(), frames[..], last)
    modifies buffer, frames
    ensures State(buffer.Abs(), frames[..], last') == Next(s, e)
    ensures shown == if e == SwapFront then [Next(s, e).Shown()] else []
    ensures ready <==> Next(s, e).h.ready != 0
  {
    last' := Perform(buffer, frames, last, e, s);
    shown := if e.SwapFront? then [frames[buffer.front]] else [];
    ready := buffer.IsReadyI();
  }

  lemma OneMoreEvent(s0: State, evs: seq<Event>, n: nat)
    requires s0.WellFormed() && n < |evs|
    ensures After(s0, evs[..n+1]) == Next(After(s0, evs[..n]), evs[n])
    ensures FramesShown(s0, evs[..n+1]) ==
            FramesShown(s0, evs[..n]) + if evs[n] == SwapFront then [After(s0, evs[..n+1]).Shown()] else []
  {
    assert evs[..n+1][..n] == evs[..n];
  }
}
