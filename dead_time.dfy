/** One dead-time simulation run: a buffer and a trigger-block countdown
    advanced once per tick. The random draw of each tick is an input: the
    flag fired[i] says whether the draw of tick i fell below the trigger
    probability.

    Tick and Simulate are the value-level specification; CalcDeadTime is
    the imperative loop, proved to compute Simulate's counters. */
module DeadTime {
  import opened Buffers

  /** Ticks the trigger logic stays blocked after accepting a trigger; the
      same countdown times the event's arrival at the buffer. */
  const BLOCK_TICKS: u64 := 5

  /** The locals of the run loop after some ticks. `accepted` counts the
      events handed to the buffer by add; it is not a variable of the
      loop, only a bookkeeping counter for the accounting invariant. */
  datatype SimState = SimState(
    buf: BufferState,
    block: nat,
    nL1a: nat,
    notRecorded: nat,
    events: nat,
    accepted: nat)

  /** An empty, idle buffer of the given capacity and all counters zero. */
  function Init(limit: u64): (r: SimState)
    ensures r.buf.limit == limit && !Filled(r.buf) && r.buf.waitTime == 0
    ensures r.block == r.nL1a == r.notRecorded == r.accepted == r.events == 0
  {
    SimState(BufferState(0, limit, 0), 0, 0, 0, 0, 0)
  }

  /** 1 while a triggered event is on its way to the buffer. */
  function InFlight(st: SimState): nat {
    if st.block > 0 then 1 else 0
  }

  /** Stage 1 of a tick: advance the running readout. */
  function StepStage(st: SimState): SimState {
    st.(buf := AfterStep(st.buf))
  }

  /** Stage 2 of a tick: count the block down; when it reaches zero the
      triggered event arrives and is added if the buffer is free, and
      otherwise counted as not recorded. */
  function BlockStage(st: SimState): SimState {
    if st.block == 0 then st
    else if st.block > 1 then st.(block := st.block - 1)
    else if HasRoom(st.buf) then st.(block := 0, buf := AfterAdd(st.buf), accepted := st.accepted + 1)
    else st.(block := 0, notRecorded := st.notRecorded + 1)
  }

  /** Stage 3 of a tick: start a readout if possible. */
  function ReadStage(st: SimState): SimState {
    st.(buf := AfterRead(st.buf))
  }

  /** Stage 4 of a tick: count the tick and handle the trigger draw; a
      trigger while blocked is lost, otherwise it starts the block. */
  function DrawStage(st: SimState, fired: bool): SimState {
    var st1 := st.(events := st.events + 1);
    if !fired then st1
    else if st.block == 0 then st1.(nL1a := st.nL1a + 1, block := BLOCK_TICKS as nat)
    else st1.(nL1a := st.nL1a + 1, notRecorded := st.notRecorded + 1)
  }

  /** One tick: the four stages in the order the loop runs them. */
  function Tick(st: SimState, fired: bool): (r: SimState)
    ensures r.events == st.events + 1
    ensures r.buf.limit == st.buf.limit
    ensures fired ==> r.nL1a == st.nL1a + 1
    ensures !fired ==> r.nL1a == st.nL1a
    ensures st.block == 1 ==> r.accepted + r.notRecorded == st.accepted + st.notRecorded + 1
    ensures st.block != 1 ==> r.accepted == st.accepted
    ensures r.notRecorded <= st.notRecorded + 1
    ensures r.block == BLOCK_TICKS as nat || r.block == if st.block > 0 then st.block - 1 else 0
  {
    DrawStage(ReadStage(BlockStage(StepStage(st))), fired)
  }

  /** The state after the first n ticks, tick i using the draw fired[i]. */
  function Simulate(limit: u64, fired: seq<bool>, n: nat): (r: SimState)
    requires n <= |fired|
    ensures r.events == n
    ensures r.buf.limit == limit
    decreases n
  {
    if n == 0 then Init(limit)
    else Tick(Simulate(limit, fired, n - 1), fired[n - 1])
  }

  /** The number of the first n draws that produced a trigger. */
  function CountFired(fired: seq<bool>, n: nat): nat
    requires n <= |fired|
    decreases n
  {
    if n == 0 then 0
    else CountFired(fired, n - 1) + (if fired[n - 1] then 1 else 0)
  }

  /** What holds after every tick: the buffer invariant, the block countdown
      within 0..BLOCK_TICKS, and every trigger either handed to the buffer,
      lost, or still in flight. */
  predicate Consistent(st: SimState) {
    BufferInvariant(st.buf)
    && st.block <= BLOCK_TICKS as nat
    && st.nL1a == st.accepted + st.notRecorded + InFlight(st)
  }

  lemma TickPreservesConsistent(st: SimState, fired: bool)
    requires Consistent(st)
    ensures Consistent(Tick(st, fired))
  {
  }

  /** The run keeps Consistent on every tick. */
  lemma {:induction false} SimulateConsistent(limit: u64, fired: seq<bool>, n: nat)
    requires n <= |fired|
    ensures Consistent(Simulate(limit, fired, n))
    decreases n
  {
    if n > 0 {
      SimulateConsistent(limit, fired, n - 1);
      TickPreservesConsistent(Simulate(limit, fired, n - 1), fired[n - 1]);
    }
  }

  /** Every draw that fired is counted as a trigger, and no other tick is. */
  lemma {:induction false} TriggersCounted(limit: u64, fired: seq<bool>, n: nat)
    requires n <= |fired|
    ensures Simulate(limit, fired, n).nL1a == CountFired(fired, n)
    ensures CountFired(fired, n) <= n
    decreases n
  {
    if n > 0 {
      TriggersCounted(limit, fired, n - 1);
    }
  }

  /** After every tick the buffer keeps its capacity and never reads out an
      empty buffer, and no more triggers are lost than were seen. */
  lemma RunBounds(limit: u64, fired: seq<bool>, n: nat)
    requires n <= |fired|
    ensures Simulate(limit, fired, n).buf.queue <= limit
    ensures Simulate(limit, fired, n).buf.waitTime <= READOUT_TICKS
    ensures Simulate(limit, fired, n).buf.waitTime > 0 ==> Simulate(limit, fired, n).buf.queue > 0
    ensures Simulate(limit, fired, n).block <= BLOCK_TICKS as nat
    ensures Simulate(limit, fired, n).notRecorded + Simulate(limit, fired, n).accepted
            <= Simulate(limit, fired, n).nL1a
    ensures Simulate(limit, fired, n).nL1a <= n
  {
    SimulateConsistent(limit, fired, n);
    TriggersCounted(limit, fired, n);
  }

  /** The trigger count is the number of fired draws, and no more triggers
      are lost than were counted: the part of RunBounds and TriggersCounted
      that CalcDeadTime promises, stated on its own so that the loop's
      proof stays small. */
  lemma TriggersLost(limit: u64, fired: seq<bool>, n: nat)
    requires n <= |fired|
    ensures Simulate(limit, fired, n).nL1a == CountFired(fired, n) <= n
    ensures Simulate(limit, fired, n).notRecorded <= Simulate(limit, fired, n).nL1a
  {
    SimulateConsistent(limit, fired, n);
    TriggersCounted(limit, fired, n);
  }

  /** With capacity zero the buffer never accepts an event: it stays empty,
      and every trigger not still in flight is counted as lost. */
  lemma {:induction false} ZeroCapacityLosesEverything(fired: seq<bool>, n: nat)
    requires n <= |fired|
    ensures Simulate(0, fired, n).buf.queue == 0
    ensures Simulate(0, fired, n).accepted == 0
    ensures Simulate(0, fired, n).notRecorded + InFlight(Simulate(0, fired, n))
            == Simulate(0, fired, n).nL1a
    decreases n
  {
    SimulateConsistent(0, fired, n);
    if n > 0 {
      var prev := Simulate(0, fired, n - 1);
      ZeroCapacityLosesEverything(fired, n - 1);
      assert !HasRoom(AfterStep(prev.buf));
    }
  }

  /** The body of the tick loop, on the buffer object and the loop's
      counters: proved to perform exactly one Tick of the state they
      represent, keeping the buffer invariant. */
  method RunTick(b: Buffer, block0: u64, nL1a0: u64, notRecorded0: u64, events0: u64,
                 ghost st: SimState, fired: bool)
    returns (block: u64, nL1a: u64, notRecorded: u64, events: u64)
    requires b.State() == st.buf && b.Valid()
    requires block0 == st.block && nL1a0 == st.nL1a && notRecorded0 == st.notRecorded
    requires events0 == st.events < U64_MAX && nL1a0 <= events0 && notRecorded0 <= events0
    modifies b
    ensures b.State() == Tick(st, fired).buf && b.Valid()
    ensures block == Tick(st, fired).block && nL1a == Tick(st, fired).nL1a
    ensures notRecorded == Tick(st, fired).notRecorded && events == Tick(st, fired).events
    ensures nL1a <= events && notRecorded <= events
  {
    block, nL1a, notRecorded, events := block0, nL1a0, notRecorded0, events0;
    b.Step();
    if block > 0 {
      block := block - 1;
      if block == 0 {
        if b.Free() {
          b.Add();
        } else {
          notRecorded := notRecorded + 1;
        }
      }
    }
    b.Read();
    events := events + 1;
    if fired {
      nL1a := nL1a + 1;
      if block == 0 {
        block := BLOCK_TICKS;
      } else {
        notRecorded := notRecorded + 1;
      }
    }
  }

  /** The tick loop of one run over the first maxEvent draws, returning the
      trigger count and the count of lost triggers. */
  method CalcDeadTime(bufferLimit: u64, maxEvent: u64, fired: seq<bool>)
    returns (nL1a: u64, notRecorded: u64)
    requires 1 <= maxEvent <= |fired|
    ensures nL1a == Simulate(bufferLimit, fired, maxEvent).nL1a
    ensures notRecorded == Simulate(bufferLimit, fired, maxEvent).notRecorded
    ensures nL1a == CountFired(fired, maxEvent)
    ensures notRecorded <= nL1a <= maxEvent
  {
    var block: u64 := 0;
    nL1a, notRecorded := 0, 0;
    var events: u64 := 0;
    var b := new Buffer(0, bufferLimit, 0);
    ghost var st := Init(bufferLimit);

    while true
      invariant events < maxEvent
      invariant st == Simulate(bufferLimit, fired, events)
      invariant b.State() == st.buf && b.Valid()
      invariant block == st.block && nL1a == st.nL1a && notRecorded == st.notRecorded
      invariant events == st.events && nL1a <= events && notRecorded <= events
      decreases maxEvent - events
    {
      block, nL1a, notRecorded, events := RunTick(b, block, nL1a, notRecorded, events, st, fired[events]);
      ghost var next := Tick(st, fired[st.events]);
      assert next == Simulate(bufferLimit, fired, events);
      st := next;
      if events == maxEvent {
        TriggersLost(bufferLimit, fired, events);
        return;
      }
    }
  }
}
