/**
 * The controller poll state machine. One call of the timer interrupt advances
 * a sixteen-phase sequencer that pulses the latch and clock lines of both
 * controllers and samples their two active-low data lines, one button per
 * clock. At the end of a cycle a changed snapshot goes into a bounded queue.
 */
module Poll {
  import opened Opt
  import opened Keymaps

  /** Phases in one poll cycle: latch plus seven clocks, each a high and a low half. */
  const CycleLength: nat := 16

  /** Capacity of the queue between the interrupt and the translator task. */
  const QueueLength: nat := 10

  /** Current and previous mask of both controllers; also the queue item. */
  datatype ButtonState = ButtonState(p1: bv8, p1Old: bv8, p2: bv8, p2Old: bv8)

  /** The sequencer: phase counter plus button state. */
  datatype Fsm = Fsm(state: nat, btn: ButtonState)

  /** The line driven in one phase. */
  datatype PinEdge = LatchHigh | LatchLow | ClockHigh | ClockLow

  /** What one tick does: the new sequencer, the edge driven, the snapshot enqueued, and whether the cycle ended. */
  datatype TickOutcome = TickOutcome(next: Fsm, edge: PinEdge, event: Option<ButtonState>, done: bool)

  /** The mask with bit k set. */
  function SetBit(mask: bv8, k: nat): (r: bv8)
    requires k < 8
    ensures forall j :: 0 <= j < 8 ==> (Bit(r, j) <==> Bit(mask, j) || j == k)
  {
    mask | BitMask(k)
  }

  /** A data line reading low means the button is pressed. */
  function Sample(mask: bv8, high: bool, k: nat): (r: bv8)
    requires k < 8
    ensures forall j :: 0 <= j < 8 ==> (Bit(r, j) <==> Bit(mask, j) || (j == k && !high))
  {
    if high then mask else SetBit(mask, k)
  }

  /**
   * nes_clk_tick as a state transition: even phases raise the latch (phase 0,
   * which also clears both masks) or the clock; odd phases lower it and sample
   * both data lines into bit state/2. The sixteenth phase ends the cycle: a
   * snapshot with the previous masks is produced when either mask changed, the
   * previous masks are brought up to date, and the counter returns to 0.
   */
  function TickSpec(f: Fsm, high1: bool, high2: bool): (r: TickOutcome)
    requires f.state < CycleLength
    ensures r.next.state < CycleLength
  {
    var sampled := SampleStep(f.btn, f.state, high1, high2);
    var edge := EdgeAt(f.state);
    if f.state + 1 == CycleLength then
      if sampled.p1 != sampled.p1Old || sampled.p2 != sampled.p2Old then
        TickOutcome(Fsm(0, sampled.(p1Old := sampled.p1, p2Old := sampled.p2)), edge, Some(sampled), true)
      else
        TickOutcome(Fsm(0, sampled), edge, None, true)
    else
      TickOutcome(Fsm(f.state + 1, sampled), edge, None, false)
  }

  /** What one tick does, phase by phase. */
  lemma TickSpecFacts(f: Fsm, high1: bool, high2: bool)
    requires f.state < CycleLength
    ensures var r := TickSpec(f, high1, high2);
      && r.next.state == (f.state + 1) % CycleLength
      && (r.done <==> f.state == CycleLength - 1)
      && r.edge == EdgeAt(f.state)
      && (f.state == 0 ==> r.next.btn.p1 == 0 && r.next.btn.p2 == 0)
      && (f.state % 2 == 1 ==> forall k :: 0 <= k < 8 ==>
          && (Bit(r.next.btn.p1, k) <==> Bit(f.btn.p1, k) || (k == f.state / 2 && !high1))
          && (Bit(r.next.btn.p2, k) <==> Bit(f.btn.p2, k) || (k == f.state / 2 && !high2)))
      && (f.state % 2 == 0 && f.state > 0 ==> r.next.btn.p1 == f.btn.p1 && r.next.btn.p2 == f.btn.p2)
      && (r.event.Some? <==> r.done && (r.next.btn.p1 != f.btn.p1Old || r.next.btn.p2 != f.btn.p2Old))
      && (r.event.Some? ==> r.event.value == ButtonState(r.next.btn.p1, f.btn.p1Old, r.next.btn.p2, f.btn.p2Old))
      && (r.done ==> r.next.btn.p1Old == r.next.btn.p1 && r.next.btn.p2Old == r.next.btn.p2)
      && (!r.done ==> r.next.btn.p1Old == f.btn.p1Old && r.next.btn.p2Old == f.btn.p2Old)
  {
  }

  /** The masks after the phase's own work: cleared at phase 0, sampled at odd phases. */
  function SampleStep(b: ButtonState, s: nat, high1: bool, high2: bool): (r: ButtonState)
    requires s < CycleLength
    ensures r.p1Old == b.p1Old && r.p2Old == b.p2Old
    ensures s == 0 ==> r.p1 == 0 && r.p2 == 0
    ensures s % 2 == 0 && s > 0 ==> r.p1 == b.p1 && r.p2 == b.p2
    ensures s % 2 == 1 ==> forall k :: 0 <= k < 8 ==>
      && (Bit(r.p1, k) <==> Bit(b.p1, k) || (k == s / 2 && !high1))
      && (Bit(r.p2, k) <==> Bit(b.p2, k) || (k == s / 2 && !high2))
  {
    if s % 2 == 0 then
      if s == 0 then b.(p1 := 0, p2 := 0) else b
    else
      b.(p1 := Sample(b.p1, high1, s / 2), p2 := Sample(b.p2, high2, s / 2))
  }

  /** The edge driven at a phase: latch in phases 0 and 1, clock after; high in even phases, low in odd. */
  function EdgeAt(s: nat): (e: PinEdge)
    ensures (e == LatchHigh || e == LatchLow) <==> s < 2
    ensures (e == LatchHigh || e == ClockHigh) <==> s % 2 == 0
  {
    if s % 2 == 0 then (if s == 0 then LatchHigh else ClockHigh)
    else (if s == 1 then LatchLow else ClockLow)
  }

  /** The sequencer, the edges driven and the snapshots produced by a run of ticks. */
  datatype Run = Run(fsm: Fsm, edges: seq<PinEdge>, events: seq<ButtonState>)

  /** Successive ticks; high1[t] and high2[t] are the data lines at tick t. */
  function RunTicks(f: Fsm, high1: seq<bool>, high2: seq<bool>): (r: Run)
    requires f.state < CycleLength && |high1| == |high2|
    ensures r.fsm.state < CycleLength && |r.edges| == |high1|
    decreases |high1|
  {
    if high1 == [] then Run(f, [], [])
    else
      var n := |high1| - 1;
      var prev := RunTicks(f, high1[..n], high2[..n]);
      var o := TickSpec(prev.fsm, high1[n], high2[n]);
      Run(o.next, prev.edges + [o.edge], prev.events + if o.event.Some? then [o.event.value] else [])
  }

  /** One tick's effect on one mask, in terms of the lines read so far. */
  lemma MaskStep(before: bv8, after: bv8, high: seq<bool>, n: nat)
    requires 0 < n < CycleLength && |high| == n + 1
    requires forall k :: 0 <= k < 8 ==> (Bit(before, k) <==> 2 * k + 1 < n && !high[2 * k + 1])
    requires n % 2 == 1 ==> forall k :: 0 <= k < 8 ==> (Bit(after, k) <==> Bit(before, k) || (k == n / 2 && !high[n]))
    requires n % 2 == 0 ==> after == before
    ensures forall k :: 0 <= k < 8 ==> (Bit(after, k) <==> 2 * k + 1 < n + 1 && !high[2 * k + 1])
  {
  }

  /**
   * Part of a cycle from phase 0: after n ticks (0 < n < 16) the phase is n,
   * tick t drove EdgeAt(t), nothing was produced and the previous masks are
   * untouched.
   */
  lemma {:induction false} PartialCycleState(f: Fsm, high1: seq<bool>, high2: seq<bool>)
    requires f.state == 0 && |high1| == |high2| && 0 < |high1| < CycleLength
    ensures var r := RunTicks(f, high1, high2);
      && r.fsm.state == |high1|
      && (forall t :: 0 <= t < |high1| ==> r.edges[t] == EdgeAt(t))
      && r.events == []
      && r.fsm.btn.p1Old == f.btn.p1Old && r.fsm.btn.p2Old == f.btn.p2Old
  {
    var n := |high1| - 1;
    if n > 0 {
      var h1, h2 := high1[..n], high2[..n];
      PartialCycleState(f, h1, h2);
      var prev := RunTicks(f, h1, h2);
      var o := TickSpec(prev.fsm, high1[n], high2[n]);
      TickSpecFacts(prev.fsm, high1[n], high2[n]);
      assert o.event == None && !o.done;
      EdgesExtend(prev.edges, o.edge);
      assert RunTicks(f, high1, high2) == Run(o.next, prev.edges + [o.edge], prev.events);
    } else {
      TickSpecFacts(f, high1[0], high2[0]);
      assert RunTicks(f, high1, high2) == Run(TickSpec(f, high1[0], high2[0]).next, [EdgeAt(0)], []);
    }
  }

  /**
   * The masks during a cycle from phase 0: after n ticks (0 < n < 16) bit k
   * of each mask is set exactly when its line read low at tick 2k+1 < n.
   */
  lemma {:induction false} PartialCycleMasks(f: Fsm, high1: seq<bool>, high2: seq<bool>)
    requires f.state == 0 && |high1| == |high2| && 0 < |high1| < CycleLength
    ensures var r := RunTicks(f, high1, high2);
      && (forall k :: 0 <= k < 8 ==> (Bit(r.fsm.btn.p1, k) <==> 2 * k + 1 < |high1| && !high1[2 * k + 1]))
      && (forall k :: 0 <= k < 8 ==> (Bit(r.fsm.btn.p2, k) <==> 2 * k + 1 < |high2| && !high2[2 * k + 1]))
  {
    var n := |high1| - 1;
    if n > 0 {
      var h1, h2 := high1[..n], high2[..n];
      PartialCycleState(f, h1, h2);
      PartialCycleMasks(f, h1, h2);
      var prev := RunTicks(f, h1, h2);
      var o := TickSpec(prev.fsm, high1[n], high2[n]);
      assert forall k :: 0 <= k < 8 && 2 * k + 1 < n ==> h1[2 * k + 1] == high1[2 * k + 1];
      assert forall k :: 0 <= k < 8 && 2 * k + 1 < n ==> h2[2 * k + 1] == high2[2 * k + 1];
      MasksTick(prev.fsm, o, high1, high2, n);
      assert RunTicks(f, high1, high2).fsm == o.next;
    } else {
      assert forall k :: 0 <= k < 8 ==> !Bit(0, k);
    }
  }

  /** Tick n of a cycle extends both masks by the line read at that tick. */
  lemma MasksTick(prev: Fsm, o: TickOutcome, high1: seq<bool>, high2: seq<bool>, n: nat)
    requires 0 < n < CycleLength && |high1| == n + 1 && |high2| == n + 1 && prev.state == n
    requires forall k :: 0 <= k < 8 ==> (Bit(prev.btn.p1, k) <==> 2 * k + 1 < n && !high1[2 * k + 1])
    requires forall k :: 0 <= k < 8 ==> (Bit(prev.btn.p2, k) <==> 2 * k + 1 < n && !high2[2 * k + 1])
    requires o == TickSpec(prev, high1[n], high2[n])
    ensures forall k :: 0 <= k < 8 ==> (Bit(o.next.btn.p1, k) <==> 2 * k + 1 < n + 1 && !high1[2 * k + 1])
    ensures forall k :: 0 <= k < 8 ==> (Bit(o.next.btn.p2, k) <==> 2 * k + 1 < n + 1 && !high2[2 * k + 1])
  {
    TickSpecFacts(prev, high1[n], high2[n]);
    MaskStep(prev.btn.p1, o.next.btn.p1, high1, n);
    MaskStep(prev.btn.p2, o.next.btn.p2, high2, n);
  }

  /**
   * A whole cycle from phase 0: sixteen ticks drive a latch pulse and seven
   * clock pulses (tick t drives EdgeAt(t)) and end at phase 0 with bit k of each mask set exactly when
   * its line read low at tick 2k+1. One snapshot, carrying the masks of the
   * previous cycle as its old values, is produced exactly when a mask
   * changed, and the previous masks become the new ones.
   */
  lemma FullCycle(f: Fsm, high1: seq<bool>, high2: seq<bool>)
    requires f.state == 0 && |high1| == CycleLength && |high2| == CycleLength
    ensures var r := RunTicks(f, high1, high2);
      && r.fsm.state == 0
      && (forall t :: 0 <= t < CycleLength ==> r.edges[t] == EdgeAt(t))
      && (forall k :: 0 <= k < 8 ==> (Bit(r.fsm.btn.p1, k) <==> !high1[2 * k + 1]))
      && (forall k :: 0 <= k < 8 ==> (Bit(r.fsm.btn.p2, k) <==> !high2[2 * k + 1]))
      && r.fsm.btn.p1Old == r.fsm.btn.p1 && r.fsm.btn.p2Old == r.fsm.btn.p2
      && r.events == if r.fsm.btn.p1 != f.btn.p1Old || r.fsm.btn.p2 != f.btn.p2Old
                     then [ButtonState(r.fsm.btn.p1, f.btn.p1Old, r.fsm.btn.p2, f.btn.p2Old)]
                     else []
  {
    var n := CycleLength - 1;
    var h1, h2 := high1[..n], high2[..n];
    PartialCycleState(f, h1, h2);
    PartialCycleMasks(f, h1, h2);
    var prev := RunTicks(f, h1, h2);
    assert forall k :: 0 <= k < 8 && 2 * k + 1 < n ==> h1[2 * k + 1] == high1[2 * k + 1];
    assert forall k :: 0 <= k < 8 && 2 * k + 1 < n ==> h2[2 * k + 1] == high2[2 * k + 1];
    var o := TickSpec(prev.fsm, high1[n], high2[n]);
    LastTick(f, prev, o, high1, high2);
    assert RunTicks(f, high1, high2) == Run(o.next, prev.edges + [o.edge], prev.events + if o.event.Some? then [o.event.value] else []);
  }

  /** The sixteenth tick of a cycle, given what the first fifteen did. */
  lemma LastTick(f: Fsm, prev: Run, o: TickOutcome, high1: seq<bool>, high2: seq<bool>)
    requires |high1| == CycleLength && |high2| == CycleLength
    requires prev.fsm.state == CycleLength - 1 && prev.events == [] && |prev.edges| == CycleLength - 1
    requires forall t :: 0 <= t < CycleLength - 1 ==> prev.edges[t] == EdgeAt(t)
    requires prev.fsm.btn.p1Old == f.btn.p1Old && prev.fsm.btn.p2Old == f.btn.p2Old
    requires forall k :: 0 <= k < 8 ==> (Bit(prev.fsm.btn.p1, k) <==> 2 * k + 1 < CycleLength - 1 && !high1[2 * k + 1])
    requires forall k :: 0 <= k < 8 ==> (Bit(prev.fsm.btn.p2, k) <==> 2 * k + 1 < CycleLength - 1 && !high2[2 * k + 1])
    requires o == TickSpec(prev.fsm, high1[CycleLength - 1], high2[CycleLength - 1])
    ensures var r := Run(o.next, prev.edges + [o.edge], prev.events + if o.event.Some? then [o.event.value] else []);
      && r.fsm.state == 0
      && (forall t :: 0 <= t < CycleLength ==> r.edges[t] == EdgeAt(t))
      && (forall k :: 0 <= k < 8 ==> (Bit(r.fsm.btn.p1, k) <==> !high1[2 * k + 1]))
      && (forall k :: 0 <= k < 8 ==> (Bit(r.fsm.btn.p2, k) <==> !high2[2 * k + 1]))
      && r.fsm.btn.p1Old == r.fsm.btn.p1 && r.fsm.btn.p2Old == r.fsm.btn.p2
      && r.events == if r.fsm.btn.p1 != f.btn.p1Old || r.fsm.btn.p2 != f.btn.p2Old
                     then [ButtonState(r.fsm.btn.p1, f.btn.p1Old, r.fsm.btn.p2, f.btn.p2Old)]
                     else []
  {
    var n := CycleLength - 1;
    TickSpecFacts(prev.fsm, high1[n], high2[n]);
    LastTickMask(prev.fsm.btn.p1, o.next.btn.p1, high1);
    LastTickMask(prev.fsm.btn.p2, o.next.btn.p2, high2);
    EdgesExtend(prev.edges, o.edge);
  }

  /** The last odd tick completes a mask: bit k is set exactly when line read low at tick 2k+1. */
  lemma LastTickMask(before: bv8, after: bv8, high: seq<bool>)
    requires |high| == CycleLength
    requires forall k :: 0 <= k < 8 ==> (Bit(before, k) <==> 2 * k + 1 < CycleLength - 1 && !high[2 * k + 1])
    requires forall k :: 0 <= k < 8 ==> (Bit(after, k) <==> Bit(before, k) || (k == 7 && !high[CycleLength - 1]))
    ensures forall k :: 0 <= k < 8 ==> (Bit(after, k) <==> !high[2 * k + 1])
  {
  }

  lemma EdgesExtend(edges: seq<PinEdge>, e: PinEdge)
    requires forall t :: 0 <= t < |edges| ==> edges[t] == EdgeAt(t)
    requires e == EdgeAt(|edges|)
    ensures forall t :: 0 <= t < |edges| + 1 ==> (edges + [e])[t] == EdgeAt(t)
  {
  }

  /** The FreeRTOS queue between the interrupt and the translator task. */
  class EventQueue {
    const capacity: nat
    var items: seq<ButtonState>

    ghost predicate Valid()
      reads this
    {
      |items| <= capacity
    }

    /** xQueueCreate with room for QueueLength snapshots. */
    constructor ()
      ensures Valid() && capacity == QueueLength && items == []
    {
      capacity := QueueLength;
      items := [];
    }

    /** xQueueSendFromISR: never blocks; a full queue drops the item. */
    method TrySend(x: ButtonState) returns (ok: bool)
      requires Valid()
      modifies this
      ensures Valid()
      ensures ok == (|old(items)| < capacity)
      ensures items == if ok then old(items) + [x] else old(items)
    {
      ok := |items| < capacity;
      if ok {
        items := items + [x];
      }
    }

    /** xQueueReceive: the oldest item, or None while the queue is empty. */
    method Receive() returns (r: Option<ButtonState>)
      requires Valid()
      modifies this
      ensures Valid()
      ensures old(items) == [] ==> r == None && items == []
      ensures old(items) != [] ==> r == Some(old(items)[0]) && items == old(items)[1..]
    {
      if items == [] {
        r := None;
      } else {
        r := Some(items[0]);
        items := items[1..];
      }
    }
  }

  /** The global nes_fsm together with the TIM4 flags it uses. */
  class NesFsm {
    var state: nat
    /** The btn member: both controllers' current and previous masks. */
    var btn: ButtonState
    /** The TIM4 update-interrupt flag. */
    var updateFlag: bool
    /** Whether the TIM4 counter runs; stopped at the end of each cycle. */
    var counterEnabled: bool
    /** The latch and clock edges driven so far. */
    ghost var edges: seq<PinEdge>
    const queue: EventQueue

    ghost predicate Valid()
      reads this, queue
    {
      state < CycleLength && queue.Valid() && queue.capacity == QueueLength
    }

    function Abstract(): Fsm
      reads this
    {
      Fsm(state, btn)
    }

    constructor (queue: EventQueue)
      requires queue.Valid() && queue.capacity == QueueLength
      ensures Valid() && this.queue == queue
      ensures Abstract() == Fsm(0, ButtonState(0, 0, 0, 0))
      ensures !updateFlag && !counterEnabled && edges == []
    {
      state := 0;
      btn := ButtonState(0, 0, 0, 0);
      updateFlag, counterEnabled := false, false;
      edges := [];
      this.queue := queue;
    }

    /** The first part of nes_clk_tick: drive this phase's edge and, in odd phases, sample both lines. */
    method Drive(high1: bool, high2: bool)
      requires Valid()
      modifies this
      ensures Valid()
      ensures state == old(state) && btn == SampleStep(old(btn), state, high1, high2)
      ensures edges == old(edges) + [EdgeAt(state)]
      ensures updateFlag == old(updateFlag) && counterEnabled == old(counterEnabled)
    {
      if state % 2 == 0 {
        if state == 0 {
          edges := edges + [LatchHigh];
          btn := btn.(p1 := 0, p2 := 0);
        } else {
          edges := edges + [ClockHigh];
        }
      } else {
        if state == 1 {
          edges := edges + [LatchLow];
        } else {
          edges := edges + [ClockLow];
        }
        if !high1 {
          btn := btn.(p1 := SetBit(btn.p1, state / 2));
        }
        if !high2 {
          btn := btn.(p2 := SetBit(btn.p2, state / 2));
        }
      }
    }

    /** nes_clk_tick; high1 and high2 are what the two data lines read during this tick. */
    method Tick(high1: bool, high2: bool)
      requires Valid()
      modifies this, queue
      ensures Valid()
      ensures var o := TickSpec(old(Abstract()), high1, high2);
        && Abstract() == o.next
        && edges == old(edges) + [o.edge]
        && queue.items == (if o.event.Some? && |old(queue.items)| < queue.capacity
                           then old(queue.items) + [o.event.value] else old(queue.items))
        && counterEnabled == (old(counterEnabled) && !o.done)
        && updateFlag == old(updateFlag)
    {
      Drive(high1, high2);
      state := state + 1;
      if state == CycleLength {
        if btn.p1 != btn.p1Old || btn.p2 != btn.p2Old {
          var _ := queue.TrySend(btn);
          btn := btn.(p1Old := btn.p1, p2Old := btn.p2);
        }
        state := 0;
        counterEnabled := false;
      }
    }

    /** tim4_isr: a tick only when the update flag is set, which it clears. */
    method Isr(high1: bool, high2: bool)
      requires Valid()
      modifies this, queue
      ensures Valid()
      ensures !old(updateFlag) ==> unchanged(this, queue)
      ensures old(updateFlag) ==> var o := TickSpec(old(Abstract()), high1, high2);
        && !updateFlag
        && Abstract() == o.next
        && edges == old(edges) + [o.edge]
        && queue.items == (if o.event.Some? && |old(queue.items)| < queue.capacity
                           then old(queue.items) + [o.event.value] else old(queue.items))
        && counterEnabled == (old(counterEnabled) && !o.done)
    {
      if updateFlag {
        updateFlag := false;
        Tick(high1, high2);
      }
    }
  }
}
