/**
 * The translator task: one pass of the receive loop takes a snapshot from the
 * queue, sets the LED brightness from it, translates the controllers whose
 * mask changed into the shared report and sends the report when a key slot
 * was written.
 */
module Task {
  import opened Opt
  import opened Keymaps
  import opened Report
  import opened Poll

  /** PWM compare value for the status LED: brighter the more controllers are active. */
  function Duty(e: ButtonState): (d: nat)
    ensures d == 100 <==> e.p1 != 0 && e.p2 != 0
    ensures d == 50 <==> e.p1 != 0 && e.p2 == 0
    ensures d == 10 <==> e.p1 == 0 && e.p2 != 0
    ensures d == 0 <==> e.p1 == 0 && e.p2 == 0
  {
    if e.p1 != 0 && e.p2 != 0 then 100
    else if e.p1 != 0 then 50
    else if e.p2 != 0 then 10
    else 0
  }

  /** The duty value tells apart exactly the four activity levels: idle, either controller alone, both. */
  lemma DutyDeterminesActivity(a: ButtonState, b: ButtonState)
    ensures Duty(a) == Duty(b) <==> ((a.p1 != 0) == (b.p1 != 0) && (a.p2 != 0) == (b.p2 != 0))
  {
  }

  /**
   * The report edits of one snapshot: controller 1 through its keymap when
   * its mask changed, then controller 2. Skipping an unchanged controller is
   * the same as translating it, since equal masks change nothing.
   */
  function HandleEvent(k: KeyState, e: ButtonState): (r: Translation)
    ensures |r.state.keys| == |k.keys|
    ensures r == Translate(Translate(Translation(k, false), e.p1, e.p1Old, P1Keymap()), e.p2, e.p2Old, P2Keymap())
    ensures e.p1 == e.p1Old && e.p2 == e.p2Old ==> r == Translation(k, false)
    ensures !r.changed ==> r.state.keys == k.keys
  {
    var t0 := Translation(k, false);
    var t1 := if e.p1 != e.p1Old then Translate(t0, e.p1, e.p1Old, P1Keymap()) else t0;
    if e.p2 != e.p2Old then Translate(t1, e.p2, e.p2Old, P2Keymap()) else t1
  }

  /**
   * Controller 1 presses Up on an empty report: the report gets the Up Arrow
   * code in the first slot, the modifier stays clear, the report is sent,
   * and the LED shows controller 1 alone.
   */
  lemma UpPressScenario()
    ensures var e := ButtonState(NesUp, 0, 0, 0);
      && HandleEvent(EmptyReport(), e) == Translation(KeyState(0, [KeyUp as bv8, 0, 0, 0, 0, 0]), true)
      && Duty(e) == 50
  {
    UpPressTranslate();
  }

  /** Controller 1's half of the scenario: only the Up bit acts, and it takes slot 0. */
  lemma UpPressTranslate()
    ensures Translate(Translation(EmptyReport(), false), NesUp, 0, P1Keymap())
         == Translation(KeyState(0, [KeyUp as bv8, 0, 0, 0, 0, 0]), true)
  {
    var t0 := Translation(EmptyReport(), false);
    assert AgreeExcept(NesUp, 0, 4) && Bit(NesUp, 4) && !Bit(0, 4);
    TranslateOneBit(t0, NesUp, 0, P1Keymap(), 4, 8);
    assert P1Keymap()[4] == KeyUp;
    assert FirstIndex(EmptyReport().keys, 0) == 0;
  }

  /** nes_task_fn's loop, together with the report, the LED duty and the reports sent. */
  class NesTask {
    /** The TIM2 channel 4 compare value driving the LED. */
    var duty: nat
    /** Every report written to the keyboard endpoint, as its eight bytes. */
    ghost var sent: seq<seq<bv8>>
    const report: KbdReport
    const queue: EventQueue

    ghost predicate Valid()
      reads this, report, queue
    {
      report.Valid() && queue.Valid()
    }

    constructor (report: KbdReport, queue: EventQueue)
      requires report.Valid() && queue.Valid()
      ensures Valid() && this.report == report && this.queue == queue
      ensures duty == 0 && sent == []
    {
      this.report := report;
      this.queue := queue;
      duty := 0;
      sent := [];
    }

    /** One iteration of the receive loop; an empty queue leaves everything as it was. */
    method Step()
      requires Valid()
      modifies this, report, queue
      ensures Valid()
      ensures old(queue.items) == [] ==>
        && queue.items == [] && report.Value() == old(report.Value())
        && duty == old(duty) && sent == old(sent)
      ensures old(queue.items) != [] ==>
        var e := old(queue.items)[0];
        var r := HandleEvent(old(report.Value()), e);
        && queue.items == old(queue.items)[1..]
        && duty == Duty(e)
        && report.Value() == r.state
        && sent == old(sent) + if r.changed then [Serialize(r.state)] else []
    {
      var received := queue.Receive();
      if received.None? {
        return;
      }
      var e := received.value;
      duty := Duty(e);
      var changed := false;
      if e.p1 != e.p1Old {
        changed := report.ApplyEvent(e.p1, e.p1Old, P1Keymap(), changed);
      }
      if e.p2 != e.p2Old {
        changed := report.ApplyEvent(e.p2, e.p2Old, P2Keymap(), changed);
      }
      if changed {
        sent := sent + [Serialize(report.Value())];
      }
    }
  }
}
