/** The sequencer's state machine as pure transitions over an abstract state:
    whether an escape sequence is being collected, and the buffered events.
    The deadline timer is an abstract `Timeout` input. */
module Steps {
  import opened Events
  import opened Matching

  /** The buffer's fixed capacity (`var buffer [10]Event`). */
  const Capacity: nat := 10

  /** `collecting` is `inEscapeSequence`; `buffered` is `buffer[0:bufferLen]`.
      After a timeout `buffered` keeps its stale contents while idle, since
      the timeout does not reset `bufferLen`. */
  datatype Config = Config(collecting: bool, buffered: seq<Event>)

  /** The state the sequencer starts in. */
  const Initial: Config := Config(false, [])

  /** One input of the sequencer's select: an event from the backend, or the
      deadline timer firing. */
  datatype Input = Incoming(e: RawEvent) | Timeout

  /** The state after one input, and the events emitted for it, in order. */
  datatype Outcome = Outcome(next: Config, out: seq<Event>)

  /** Store a run in the buffer and match it: on a match emit the synthetic
      event after `before` and go idle; otherwise keep collecting. */
  function Collect(masks: seq<SequenceMask>, run: seq<Event>, before: seq<Event>): (r: Outcome)
    ensures r.next.collecting ==> r == Outcome(Config(true, run), before)
    ensures !r.next.collecting ==>
              r.next == Initial &&
              exists k :: IsFirstMatch(masks, run, k) && r.out == before + [Synthetic(masks[k].sequence)]
  {
    match Detect(masks, run)
    case Ok(found) =>
      DetectSound(masks, run);
      Outcome(Config(false, []), before + [found])
    case Err(_) => Outcome(Config(true, run), before)
  }

  /** The transition for an incoming backend event. While it leaves the
      sequencer collecting, nothing is lost: what it emits followed by the
      new buffer is what was held back followed by the new event. */
  function OnEventStep(masks: seq<SequenceMask>, c: Config, e: RawEvent): (r: Outcome)
    ensures |r.out| <= |Pending(c)| + 1
    ensures r.next.collecting ==> r.out + r.next.buffered == Pending(c) + [MakeEvent(e)]
  {
    var ev := MakeEvent(e);
    if IsEsc(ev) then
      Collect(masks, [ev], if c.collecting then c.buffered else [])
    else if c.collecting then
      Collect(masks, c.buffered + [ev], [])
    else
      Outcome(c, [ev])
  }

  /** The transition for the timer firing: go idle and flush the buffer,
      leaving the counter (and so `buffered`) as it was. */
  function OnTimeoutStep(c: Config): Outcome {
    Outcome(Config(false, c.buffered), c.buffered)
  }

  function Step(masks: seq<SequenceMask>, c: Config, i: Input): Outcome {
    match i
    case Incoming(e) => OnEventStep(masks, c, e)
    case Timeout => OnTimeoutStep(c)
  }

  /** A whole run of inputs: the final state and everything emitted, in order. */
  function Run(masks: seq<SequenceMask>, c: Config, inputs: seq<Input>): Outcome
    decreases |inputs|
  {
    if inputs == [] then Outcome(c, [])
    else
      var first := Step(masks, c, inputs[0]);
      var rest := Run(masks, first.next, inputs[1..]);
      Outcome(rest.next, first.out + rest.out)
  }

  /** An input the array buffer can take without writing past its end: the
      source indexes `buffer[bufferLen]`, which is out of range at 10. */
  predicate Fits(c: Config, i: Input) {
    i.Incoming? && c.collecting && !IsEsc(MakeEvent(i.e)) ==> |c.buffered| < Capacity
  }

  predicate FitsRun(masks: seq<SequenceMask>, c: Config, inputs: seq<Input>)
    decreases |inputs|
  {
    inputs != [] ==>
      Fits(c, inputs[0]) && FitsRun(masks, Step(masks, c, inputs[0]).next, inputs[1..])
  }

  /** The events held back while collecting (none while idle). */
  function Pending(c: Config): seq<Event> {
    if c.collecting then c.buffered else []
  }

  /** The backend events of a run, translated, in arrival order. */
  function Arrivals(inputs: seq<Input>): (r: seq<Event>)
    ensures |r| <= |inputs|
  {
    if inputs == [] then [] else ArrivalOf(inputs[0]) + Arrivals(inputs[1..])
  }

  function ArrivalOf(i: Input): seq<Event> {
    if i.Incoming? then [MakeEvent(i.e)] else []
  }

  /** The step recognises a sequence. */
  predicate Recognises(masks: seq<SequenceMask>, c: Config, i: Input) {
    match i
    case Timeout => false
    case Incoming(e) =>
      var ev := MakeEvent(e);
      if IsEsc(ev) then Detect(masks, [ev]).Ok?
      else c.collecting && Detect(masks, c.buffered + [ev]).Ok?
  }

  /** A run in which no sequence is recognised and the timer fires only while
      collecting (it is armed by an Esc and stopped by a match). */
  predicate Unmatched(masks: seq<SequenceMask>, c: Config, inputs: seq<Input>)
    decreases |inputs|
  {
    inputs != [] ==>
      !Recognises(masks, c, inputs[0]) &&
      (inputs[0].Timeout? ==> c.collecting) &&
      Unmatched(masks, Step(masks, c, inputs[0]).next, inputs[1..])
  }

  /** The states the sequencer can be in: while collecting, the buffer starts
      with the Esc that opened it and holds no other Esc; every buffered event
      is ordinary. */
  predicate WellFormed(c: Config) {
    (forall k :: 0 <= k < |c.buffered| ==> c.buffered[k].sequence == SeqNone) &&
    (c.collecting ==>
       |c.buffered| >= 1 && IsEsc(c.buffered[0]) &&
       forall k :: 1 <= k < |c.buffered| ==> !IsEsc(c.buffered[k]))
  }

  // ---------------------------------------------------------------------
  // Single transitions

  /** Idle, a non-Esc event passes through alone and the state stays idle. */
  lemma IdlePassThrough(masks: seq<SequenceMask>, c: Config, e: RawEvent)
    requires !c.collecting && !IsEsc(MakeEvent(e))
    ensures OnEventStep(masks, c, e) == Outcome(c, [MakeEvent(e)])
  {
  }

  /** Idle, an Esc emits nothing and opens a buffer holding only itself,
      unless a mask with no follow-up characters matches it at once. */
  lemma IdleEsc(masks: seq<SequenceMask>, c: Config, e: RawEvent)
    requires !c.collecting && IsEsc(MakeEvent(e))
    ensures Detect(masks, [MakeEvent(e)]).Err? ==>
              OnEventStep(masks, c, e) == Outcome(Config(true, [MakeEvent(e)]), [])
    ensures Detect(masks, [MakeEvent(e)]).Ok? ==>
              OnEventStep(masks, c, e) == Outcome(Initial, [Detect(masks, [MakeEvent(e)]).value])
  {
  }

  /** Collecting, an Esc first flushes the whole buffer oldest-first, then
      restarts the buffer with only the new Esc. */
  lemma CollectingEsc(masks: seq<SequenceMask>, c: Config, e: RawEvent)
    requires c.collecting && IsEsc(MakeEvent(e))
    ensures var o := OnEventStep(masks, c, e);
            |o.out| >= |c.buffered| && o.out[..|c.buffered|] == c.buffered
    ensures Detect(masks, [MakeEvent(e)]).Err? ==>
              OnEventStep(masks, c, e) == Outcome(Config(true, [MakeEvent(e)]), c.buffered)
  {
    var o := OnEventStep(masks, c, e);
    assert o.out == c.buffered || o.out == c.buffered + [Detect(masks, [MakeEvent(e)]).value];
  }

  /** Collecting, a non-Esc event is appended; a match emits exactly the one
      synthetic event of the first matching mask and goes idle with an empty
      buffer, and otherwise nothing is emitted and the buffer grows by one. */
  lemma CollectingAppend(masks: seq<SequenceMask>, c: Config, e: RawEvent)
    requires c.collecting && !IsEsc(MakeEvent(e))
    ensures var run := c.buffered + [MakeEvent(e)];
            var o := OnEventStep(masks, c, e);
            (forall k :: IsFirstMatch(masks, run, k) ==>
               o == Outcome(Initial, [Synthetic(masks[k].sequence)])) &&
            ((forall k :: 0 <= k < |masks| ==> !Matches(masks[k], run)) ==>
               o == Outcome(Config(true, run), []) && |o.next.buffered| == |c.buffered| + 1)
  {
    DetectIsFirstMatch(masks, c.buffered + [MakeEvent(e)]);
  }

  /** The timer going off makes the state idle and emits the buffer as it was. */
  lemma TimeoutFlushes(c: Config)
    ensures OnTimeoutStep(c).out == c.buffered
    ensures !OnTimeoutStep(c).next.collecting
  {
  }

  /** The timeout leaves the counter alone: were the timer to fire again
      before the next Esc, the same events would be emitted a second time.
      `Unmatched` admits only runs in which the timer fires while collecting. */
  lemma TimeoutKeepsStaleBuffer(c: Config)
    ensures OnTimeoutStep(OnTimeoutStep(c).next).out == c.buffered
  {
  }

  /** A step that recognises nothing neither loses nor reorders events:
      emitted plus held back equals held back before plus what arrived. */
  lemma StepConserves(masks: seq<SequenceMask>, c: Config, i: Input)
    requires !Recognises(masks, c, i)
    requires i.Timeout? ==> c.collecting
    ensures Step(masks, c, i).out + Pending(Step(masks, c, i).next) == Pending(c) + ArrivalOf(i)
  {
  }

  /** Every transition keeps the state well formed. */
  lemma StepWellFormed(masks: seq<SequenceMask>, c: Config, i: Input)
    requires WellFormed(c)
    ensures WellFormed(Step(masks, c, i).next)
  {
    if i.Incoming? && !IsEsc(MakeEvent(i.e)) && c.collecting {
      var run := c.buffered + [MakeEvent(i.e)];
      assert forall k :: 0 <= k < |c.buffered| ==> run[k] == c.buffered[k];
      assert run[|c.buffered|] == MakeEvent(i.e);
    }
  }

  /** Every emitted event is either an event as it arrived (and then ordinary)
      or the synthetic event of some registered mask. */
  lemma StepEmitsOrdinaryOrSynthetic(masks: seq<SequenceMask>, c: Config, i: Input)
    requires WellFormed(c)
    ensures forall ev :: ev in Step(masks, c, i).out ==>
              ev.sequence == SeqNone ||
              exists k :: 0 <= k < |masks| && ev == Synthetic(masks[k].sequence)
  {
    var o := Step(masks, c, i);
    if i.Incoming? {
      var ev := MakeEvent(i.e);
      var run := if IsEsc(ev) then [ev] else c.buffered + [ev];
      if Detect(masks, run).Ok? {
        DetectSound(masks, run);
      }
    }
  }

  // ---------------------------------------------------------------------
  // Whole runs

  lemma {:induction false} RunAppend(masks: seq<SequenceMask>, c: Config, xs: seq<Input>, ys: seq<Input>)
    ensures var a := Run(masks, c, xs);
            var b := Run(masks, a.next, ys);
            Run(masks, c, xs + ys) == Outcome(b.next, a.out + b.out)
    decreases |xs|
  {
    if xs == [] {
      assert xs + ys == ys;
    } else {
      var first := Step(masks, c, xs[0]);
      assert (xs + ys)[0] == xs[0];
      assert (xs + ys)[1..] == xs[1..] + ys;
      RunAppend(masks, first.next, xs[1..], ys);
      var a' := Run(masks, first.next, xs[1..]);
      var b := Run(masks, a'.next, ys);
      assert Run(masks, c, xs + ys) == Outcome(b.next, first.out + (a'.out + b.out));
      assert first.out + (a'.out + b.out) == (first.out + a'.out) + b.out;
    }
  }

  /** Every state reached from a well-formed one is well formed. */
  lemma {:induction false} RunWellFormed(masks: seq<SequenceMask>, c: Config, inputs: seq<Input>)
    requires WellFormed(c)
    ensures WellFormed(Run(masks, c, inputs).next)
    decreases |inputs|
  {
    if inputs != [] {
      StepWellFormed(masks, c, inputs[0]);
      RunWellFormed(masks, Step(masks, c, inputs[0]).next, inputs[1..]);
    }
  }

  /** On every run the ten-slot array can take, the buffer never holds more
      than `Capacity` events: there the unbounded buffer of `OnEventStep`
      is the source's array prefix. */
  lemma {:induction false} FitsRunBounded(masks: seq<SequenceMask>, c: Config, inputs: seq<Input>)
    requires |c.buffered| <= Capacity
    requires FitsRun(masks, c, inputs)
    ensures |Run(masks, c, inputs).next.buffered| <= Capacity
    decreases |inputs|
  {
    if inputs != [] {
      var first := Step(masks, c, inputs[0]);
      assert |first.next.buffered| <= Capacity;
      FitsRunBounded(masks, first.next, inputs[1..]);
    }
  }

  /** No loss, no reordering: over a run that recognises nothing, everything
      emitted followed by what is still held back is what was held back at
      the start followed by every arrived event, in arrival order. */
  lemma {:induction false} RunConserves(masks: seq<SequenceMask>, c: Config, inputs: seq<Input>)
    requires Unmatched(masks, c, inputs)
    ensures Run(masks, c, inputs).out + Pending(Run(masks, c, inputs).next) ==
            Pending(c) + Arrivals(inputs)
    decreases |inputs|
  {
    if inputs != [] {
      var first := Step(masks, c, inputs[0]);
      var rest := Run(masks, first.next, inputs[1..]);
      StepConserves(masks, c, inputs[0]);
      RunConserves(masks, first.next, inputs[1..]);
      assert Run(masks, c, inputs) == Outcome(rest.next, first.out + rest.out);
      assert Arrivals(inputs) == ArrivalOf(inputs[0]) + Arrivals(inputs[1..]);
      Regroup(first.out, rest.out, Pending(rest.next), Pending(first.next), Pending(c),
              ArrivalOf(inputs[0]), Arrivals(inputs[1..]));
    }
  }

  /** The sequence algebra of one step of RunConserves. */
  lemma Regroup<T>(out1: seq<T>, out2: seq<T>, held2: seq<T>, held1: seq<T>, held0: seq<T>,
                   came1: seq<T>, came2: seq<T>)
    requires out2 + held2 == held1 + came2
    requires out1 + held1 == held0 + came1
    ensures (out1 + out2) + held2 == held0 + (came1 + came2)
  {
    calc {
      (out1 + out2) + held2;
      out1 + (out2 + held2);
      out1 + (held1 + came2);
      (out1 + held1) + came2;
      (held0 + came1) + came2;
    }
  }

  /** A run that ends with the timer firing ends idle. */
  lemma {:induction false} RunEndingInTimeoutIsIdle(masks: seq<SequenceMask>, c: Config, inputs: seq<Input>)
    requires inputs != [] && inputs[|inputs| - 1] == Timeout
    ensures !Run(masks, c, inputs).next.collecting
    decreases |inputs|
  {
    if |inputs| > 1 {
      RunEndingInTimeoutIsIdle(masks, Step(masks, c, inputs[0]).next, inputs[1..]);
    }
  }

  /** From the initial state, a run that recognises nothing and ends in a
      timeout emits exactly the arrived events, unchanged and in order. */
  lemma UnmatchedRunIsPassThrough(masks: seq<SequenceMask>, inputs: seq<Input>)
    requires Unmatched(masks, Initial, inputs)
    requires inputs != [] && inputs[|inputs| - 1] == Timeout
    ensures Run(masks, Initial, inputs).out == Arrivals(inputs)
  {
    RunConserves(masks, Initial, inputs);
    RunEndingInTimeoutIsIdle(masks, Initial, inputs);
    var r := Run(masks, Initial, inputs);
    assert Pending(r.next) == [] && Pending(Initial) == [];
    assert r.out + [] == r.out;
    assert [] + Arrivals(inputs) == Arrivals(inputs);
  }

  /** A run of events none of which is the Esc key passes through unchanged
      from the initial state, whatever is registered. */
  lemma {:induction false} NoEscIsPassThrough(masks: seq<SequenceMask>, es: seq<RawEvent>)
    requires forall k :: 0 <= k < |es| ==> !IsEsc(MakeEvent(es[k]))
    ensures Run(masks, Initial, IncomingAll(es)) == Outcome(Initial, MakeEvents(es))
    decreases |es|
  {
    if es != [] {
      assert IncomingAll(es)[1..] == IncomingAll(es[1..]);
      NoEscIsPassThrough(masks, es[1..]);
    }
  }

  function IncomingAll(es: seq<RawEvent>): (r: seq<Input>)
    ensures |r| == |es|
    ensures forall k :: 0 <= k < |es| ==> r[k] == Incoming(es[k])
  {
    if es == [] then [] else [Incoming(es[0])] + IncomingAll(es[1..])
  }

  /** An Esc followed by events carrying a registered mask's characters, when
      no shorter prefix of that run is recognised, gives exactly the synthetic
      event of the first matching mask, after flushing what was held back. */
  lemma {:induction false} SequenceCollapses(masks: seq<SequenceMask>, c: Config, esc: RawEvent, follow: seq<RawEvent>, k: nat)
    requires IsEsc(MakeEvent(esc))
    requires forall t :: 0 <= t < |follow| ==> !IsEsc(MakeEvent(follow[t]))
    requires IsFirstMatch(masks, [MakeEvent(esc)] + MakeEvents(follow), k)
    requires forall n :: 0 < n <= |follow| ==>
               Detect(masks, ([MakeEvent(esc)] + MakeEvents(follow))[..n]).Err?
    ensures Run(masks, c, [Incoming(esc)] + IncomingAll(follow)) ==
            Outcome(Initial, Pending(c) + [Synthetic(masks[k].sequence)])
  {
    var ev := MakeEvent(esc);
    var run := [ev] + MakeEvents(follow);
    var inputs := [Incoming(esc)] + IncomingAll(follow);
    assert inputs[0] == Incoming(esc) && inputs[1..] == IncomingAll(follow);
    var first := Step(masks, c, Incoming(esc));
    if follow == [] {
      assert run == [ev];
      DetectIsFirstMatch(masks, run);
      assert first == Outcome(Initial, Pending(c) + [Synthetic(masks[k].sequence)]);
    } else {
      assert run[..1] == [ev];
      assert first == Outcome(Config(true, [ev]), Pending(c));
      assert run[1..] == MakeEvents(follow);
      CollectingCollapses(masks, run, 1, follow, k);
    }
  }

  /** A run of incoming events unfolds one event at a time. */
  lemma RunIncomingCons(masks: seq<SequenceMask>, c: Config, follow: seq<RawEvent>)
    requires follow != []
    ensures var first := Step(masks, c, Incoming(follow[0]));
            var rest := Run(masks, first.next, IncomingAll(follow[1..]));
            Run(masks, c, IncomingAll(follow)) == Outcome(rest.next, first.out + rest.out)
  {
    var inputs := IncomingAll(follow);
    assert inputs[0] == Incoming(follow[0]);
    assert inputs[1..] == IncomingAll(follow[1..]);
  }

  /** A non-Esc event arriving while the first `p` events of `run` are
      buffered hands the first `p + 1` of them to the matcher. */
  lemma CollectingStep(masks: seq<SequenceMask>, run: seq<Event>, p: nat, f: RawEvent)
    requires p < |run| && run[p] == MakeEvent(f) && !IsEsc(MakeEvent(f))
    ensures Step(masks, Config(true, run[..p]), Incoming(f)) == Collect(masks, run[..p + 1], [])
  {
    assert run[..p] + [MakeEvent(f)] == run[..p + 1];
  }

  /** While collecting the first `p` events of `run`, the events that carry
      the rest of it end in exactly the synthetic event of the first mask
      matching `run`, provided no longer prefix is recognised first. */
  lemma {:induction false} CollectingCollapses(masks: seq<SequenceMask>, run: seq<Event>, p: nat, follow: seq<RawEvent>, k: nat)
    requires p < |run| && run[p..] == MakeEvents(follow)
    requires forall t :: 0 <= t < |follow| ==> !IsEsc(MakeEvent(follow[t]))
    requires IsFirstMatch(masks, run, k)
    requires forall n :: p < n < |run| ==> Detect(masks, run[..n]).Err?
    ensures Run(masks, Config(true, run[..p]), IncomingAll(follow)) ==
            Outcome(Initial, [Synthetic(masks[k].sequence)])
    decreases |run| - p
  {
    var first := Step(masks, Config(true, run[..p]), Incoming(follow[0]));
    RunIncomingCons(masks, Config(true, run[..p]), follow);
    CollectingStep(masks, run, p, follow[0]);
    if p + 1 == |run| {
      assert run[..p + 1] == run;
      DetectIsFirstMatch(masks, run);
      assert first == Outcome(Initial, [Synthetic(masks[k].sequence)]);
      assert follow[1..] == [];
    } else {
      assert first == Outcome(Config(true, run[..p + 1]), []);
      assert run[p + 1..] == MakeEvents(follow[1..]);
      CollectingCollapses(masks, run, p + 1, follow[1..], k);
    }
  }
}
