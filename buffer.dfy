/** The readout buffer of the dead-time simulation: a bounded count of
    queued events with a single readout slot that needs READOUT_TICKS
    ticks to move one event out of the buffer.

    The value-level functions AfterAdd, AfterRead and AfterStep specify
    the three mutating operations; the class Buffer holds the mutable
    fields and its methods are proved to follow those functions. */
module Buffers {

  const U64_MODULUS: int := 0x1_0000_0000_0000_0000
  const U64_MAX: int := U64_MODULUS - 1

  /** The unsigned 64-bit integers the fields are declared with. */
  type u64 = x: int | 0 <= x < U64_MODULUS

  /** Ticks one readout takes once it has started. */
  const READOUT_TICKS: u64 := 424

  /** A snapshot of the three fields of a buffer. */
  datatype BufferState = BufferState(queue: u64, limit: u64, waitTime: u64)

  /** The buffer contains events. */
  predicate Filled(s: BufferState) {
    s.queue > 0
  }

  /** The buffer can accept one more event. */
  predicate HasRoom(s: BufferState) {
    s.queue < s.limit
  }

  /** The state the run loop keeps: capacity respected, a readout never
      longer than READOUT_TICKS, and no readout of an empty buffer. */
  predicate BufferInvariant(s: BufferState) {
    s.queue <= s.limit && s.waitTime <= READOUT_TICKS && (s.waitTime > 0 ==> s.queue > 0)
  }

  /** Adding an event: no bounds check, 64-bit wrap-around. */
  function AfterAdd(s: BufferState): (r: BufferState)
    ensures r.limit == s.limit && r.waitTime == s.waitTime
    ensures s.queue < U64_MAX ==> r.queue == s.queue + 1
    ensures HasRoom(s) ==> r.queue == s.queue + 1 && r.queue <= r.limit
    ensures s.queue == U64_MAX ==> r.queue == 0
  {
    s.(queue := (s.queue + 1) % U64_MODULUS)
  }

  /** Starting a readout, if there is an event and no readout running. */
  function AfterRead(s: BufferState): (r: BufferState)
    ensures r.queue == s.queue && r.limit == s.limit
    ensures r != s <==> Filled(s) && s.waitTime == 0
    ensures r != s ==> r.waitTime == READOUT_TICKS
  {
    if Filled(s) && s.waitTime == 0 then s.(waitTime := READOUT_TICKS) else s
  }

  /** One tick of the running readout; the event leaves the buffer when
      the countdown reaches zero. */
  function AfterStep(s: BufferState): (r: BufferState)
    ensures r.limit == s.limit
    ensures Filled(s) && s.waitTime > 0 ==> r.waitTime == s.waitTime - 1
    ensures !(Filled(s) && s.waitTime > 0) ==> r == s
    ensures r.queue == s.queue || r.queue == s.queue - 1
    ensures r.queue == s.queue - 1 <==> Filled(s) && s.waitTime == 1
  {
    if Filled(s) && s.waitTime > 0 then
      var w := s.waitTime - 1;
      s.(waitTime := w, queue := if w == 0 then s.queue - 1 else s.queue)
    else
      s
  }

  /** n consecutive steps. */
  function Steps(s: BufferState, n: nat): BufferState
    decreases n
  {
    if n == 0 then s else Steps(AfterStep(s), n - 1)
  }

  /** Calling read a second time changes nothing: a running countdown is
      neither reset nor extended. */
  lemma ReadIdempotent(s: BufferState)
    ensures AfterRead(AfterRead(s)) == AfterRead(s)
    ensures s.waitTime > 0 ==> AfterRead(s) == s
  {
  }

  /** Each operation keeps BufferInvariant; add only when there is room. */
  lemma InvariantPreserved(s: BufferState)
    requires BufferInvariant(s)
    ensures BufferInvariant(AfterStep(s))
    ensures BufferInvariant(AfterRead(s))
    ensures HasRoom(s) ==> BufferInvariant(AfterAdd(s))
  {
  }

  /** While a readout of w ticks is running, k <= w steps count it down by
      k and keep the event in the buffer until the last of the w steps. */
  lemma {:induction false} StepsDuringReadout(s: BufferState, k: nat)
    requires Filled(s) && k <= s.waitTime
    ensures Steps(s, k).limit == s.limit
    ensures Steps(s, k).waitTime == s.waitTime - k
    ensures Steps(s, k).queue == if k == s.waitTime && k > 0 then s.queue - 1 else s.queue
    decreases k
  {
    if k > 0 {
      var t := AfterStep(s);
      if s.waitTime == 1 {
        assert Steps(s, k) == t;
      } else {
        StepsDuringReadout(t, k - 1);
      }
    }
  }

  /** A readout started on a non-empty idle buffer removes exactly one
      event after READOUT_TICKS steps, and not a step earlier. */
  lemma ReadoutRemovesOneEvent(s: BufferState)
    requires Filled(s) && s.waitTime == 0
    ensures Steps(AfterRead(s), READOUT_TICKS as nat) == s.(queue := s.queue - 1)
    ensures forall k: nat :: k < READOUT_TICKS as nat ==> Steps(AfterRead(s), k).queue == s.queue
  {
    var r := AfterRead(s);
    StepsDuringReadout(r, READOUT_TICKS as nat);
    forall k: nat | k < READOUT_TICKS as nat
      ensures Steps(r, k).queue == s.queue
    {
      StepsDuringReadout(r, k);
    }
  }

  /** From one queued event and an idle slot, one read and 424 steps empty
      the buffer; after 423 steps the event is still there. */
  lemma FullReadoutCycle(limit: u64)
    ensures Steps(AfterRead(BufferState(1, limit, 0)), 424) == BufferState(0, limit, 0)
    ensures Steps(AfterRead(BufferState(1, limit, 0)), 423).queue == 1
  {
    ReadoutRemovesOneEvent(BufferState(1, limit, 0));
  }

  /** The buffer the simulation owns, updated in place. */
  class Buffer {
    var queue: u64
    var limit: u64
    var waitTime: u64

    function State(): BufferState
      reads this
    {
      BufferState(queue, limit, waitTime)
    }

    ghost predicate Valid()
      reads this
    {
      BufferInvariant(State())
    }

    constructor (queue: u64, limit: u64, waitTime: u64)
      ensures State() == BufferState(queue, limit, waitTime)
      ensures BufferInvariant(BufferState(queue, limit, waitTime)) ==> Valid()
    {
      this.queue := queue;
      this.limit := limit;
      this.waitTime := waitTime;
    }

    /** The buffer contains events; while it does not, step and read
        change nothing. */
    predicate IsFilled()
      reads this
      ensures IsFilled() <==> queue > 0
      ensures !IsFilled() ==> AfterStep(State()) == State() && AfterRead(State()) == State()
    {
      Filled(State())
    }

    /** The buffer can take one more event: add then grows the queue by
        exactly one without exceeding the capacity. */
    predicate Free()
      reads this
      ensures Free() <==> queue < limit
      ensures Free() ==> AfterAdd(State()).queue == queue + 1 <= limit
    {
      HasRoom(State())
    }

    method Add()
      modifies this
      ensures State() == AfterAdd(old(State()))
      ensures old(Valid() && Free()) ==> Valid()
    {
      queue := (queue + 1) % U64_MODULUS;
    }

    method Read()
      modifies this
      ensures State() == AfterRead(old(State()))
      ensures old(Valid()) ==> Valid()
    {
      if IsFilled() && waitTime == 0 {
        waitTime := READOUT_TICKS;
      }
    }

    method Step()
      modifies this
      ensures State() == AfterStep(old(State()))
      ensures old(Valid()) ==> Valid()
    {
      if IsFilled() && waitTime > 0 {
        waitTime := waitTime - 1;
        if waitTime == 0 {
          queue := queue - 1;
        }
      }
    }
  }
}
