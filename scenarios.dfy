/** Concrete runs of the sequencer with the Shift+Tab mask that the example
    program registers: Esc, '[' (91), 'Z' (90) reported as sequence 1. */
module Scenarios {
  import opened Events
  import opened Matching
  import opened Steps

  const ShiftTab: SequenceMask := SequenceMask([91, 90], 1)

  function Key(key: int, ch: int): RawEvent {
    RawEvent(EventKey, 0, key, ch, 0, 0, NoErr, 0, 0, 0)
  }

  /** Esc, 91, 90 within the deadline gives the single synthetic event. */
  lemma ShiftTabIsRecognised()
    ensures Run([ShiftTab], Initial, [Incoming(Key(KeyEsc, 0)), Incoming(Key(0, 91)), Incoming(Key(0, 90))])
            == Outcome(Initial, [Synthetic(1)])
  {
    var esc, lb, z := MakeEvent(Key(KeyEsc, 0)), MakeEvent(Key(0, 91)), MakeEvent(Key(0, 90));
    var inputs := [Incoming(Key(KeyEsc, 0)), Incoming(Key(0, 91)), Incoming(Key(0, 90))];
    assert !Matches(ShiftTab, [esc]);
    assert !Matches(ShiftTab, [esc, lb]);
    assert [esc] + [lb] == [esc, lb];
    assert [esc, lb] + [z] == [esc, lb, z];
    assert Matches(ShiftTab, [esc, lb, z]);
    assert [ShiftTab][1..] == [];
    assert Detect([ShiftTab], [esc]) == Err(NoSequenceFound);
    assert Detect([ShiftTab], [esc, lb]) == Err(NoSequenceFound);
    var c1 := Config(true, [esc]);
    var c2 := Config(true, [esc, lb]);
    assert Step([ShiftTab], Initial, inputs[0]) == Outcome(c1, []);
    assert Step([ShiftTab], c1, inputs[1]) == Outcome(c2, []);
    assert Step([ShiftTab], c2, inputs[2]) == Outcome(Initial, [Synthetic(1)]);
    assert inputs[1..][1..][1..] == [];
    assert Run([ShiftTab], c2, inputs[1..][1..]) == Outcome(Initial, [Synthetic(1)]);
    assert Run([ShiftTab], c1, inputs[1..]) == Outcome(Initial, [Synthetic(1)]);
  }

  /** Esc, 91, 99 and then the deadline gives the three events back, in order. */
  lemma MismatchIsFlushedOnTimeout()
    ensures Run([ShiftTab], Initial, [Incoming(Key(KeyEsc, 0)), Incoming(Key(0, 91)), Incoming(Key(0, 99)), Timeout]).out
            == [MakeEvent(Key(KeyEsc, 0)), MakeEvent(Key(0, 91)), MakeEvent(Key(0, 99))]
  {
    var esc, lb, q := MakeEvent(Key(KeyEsc, 0)), MakeEvent(Key(0, 91)), MakeEvent(Key(0, 99));
    var inputs := [Incoming(Key(KeyEsc, 0)), Incoming(Key(0, 91)), Incoming(Key(0, 99)), Timeout];
    assert !Matches(ShiftTab, [esc]);
    assert !Matches(ShiftTab, [esc, lb]);
    assert [esc] + [lb] == [esc, lb];
    assert [esc, lb] + [q] == [esc, lb, q];
    assert ShiftTab.chars[1] != [esc, lb, q][2].raw.ch;
    assert !Matches(ShiftTab, [esc, lb, q]);
    assert [ShiftTab][1..] == [];
    assert Detect([ShiftTab], [esc]) == Err(NoSequenceFound);
    assert Detect([ShiftTab], [esc, lb]) == Err(NoSequenceFound);
    var c1 := Config(true, [esc]);
    var c2 := Config(true, [esc, lb]);
    var c3 := Config(true, [esc, lb, q]);
    assert Step([ShiftTab], Initial, inputs[0]) == Outcome(c1, []);
    assert Step([ShiftTab], c1, inputs[1]) == Outcome(c2, []);
    assert Detect([ShiftTab], [esc, lb, q]) == Err(NoSequenceFound);
    assert Step([ShiftTab], c2, inputs[2]) == Outcome(c3, []);
    assert inputs[1..][1..][1..][1..] == [];
    assert Run([ShiftTab], c3, inputs[1..][1..][1..]).out == [esc, lb, q];
    assert Run([ShiftTab], c2, inputs[1..][1..]).out == [esc, lb, q];
    assert Run([ShiftTab], c1, inputs[1..]).out == [esc, lb, q];
  }

  /** Every registered mask expects some character other than 'x' (120), as
      the Shift+Tab mask does. */
  predicate ExpectsOtherThanX(masks: seq<SequenceMask>) {
    forall k :: 0 <= k < |masks| ==>
      exists i :: 0 <= i < |masks[k].chars| && masks[k].chars[i] != 120
  }

  /** A run whose followers are all 'x' keys matches no such mask. */
  lemma NoMaskMatchesXs(masks: seq<SequenceMask>, run: seq<Event>)
    requires ExpectsOtherThanX(masks)
    requires forall t :: 1 <= t < |run| ==> run[t].raw.ch == 120
    ensures Detect(masks, run).Err?
  {
    DetectIsFirstMatch(masks, run);
    forall k | 0 <= k < |masks| ensures !Matches(masks[k], run) {
      var i :| 0 <= i < |masks[k].chars| && masks[k].chars[i] != 120;
      if |masks[k].chars| + 1 == |run| {
        assert run[i + 1].raw.ch != masks[k].chars[i];
      }
    }
  }

  /** Registered masks do not bound the buffer, only the deadline does: for
      any registry whose masks each expect a character other than 'x' (the
      Shift+Tab mask among them), an Esc and nine 'x' keys fill all ten slots,
      so an eleventh key before the deadline is outside what the buffer can
      take. */
  lemma TenEventsFillTheBuffer(masks: seq<SequenceMask>)
    requires ExpectsOtherThanX(masks)
    ensures var inputs := [Incoming(Key(KeyEsc, 0))] + seq(9, _ => Incoming(Key(0, 120)));
            var r := Run(masks, Initial, inputs);
            FitsRun(masks, Initial, inputs) && r.next.collecting && |r.next.buffered| == Capacity &&
            !Fits(r.next, Incoming(Key(0, 120)))
  {
    var x := Incoming(Key(0, 120));
    var first := [Incoming(Key(KeyEsc, 0))];
    var c := Config(true, [MakeEvent(Key(KeyEsc, 0))]);
    NoMaskMatchesXs(masks, c.buffered);
    assert first[0] == Incoming(Key(KeyEsc, 0)) && first[1..] == [];
    assert Step(masks, Initial, first[0]) == Outcome(c, []);
    assert Run(masks, c, first[1..]) == Outcome(c, []);
    assert Run(masks, Initial, first).next == c;
    FillCollecting(masks, c, 9);
    RunAppend(masks, Initial, first, seq(9, _ => x));
    FitsRunPrefix(masks, Initial, first, seq(9, _ => x));
  }

  /** The Shift+Tab registry is one such registry. */
  lemma ShiftTabDoesNotBoundTheBuffer()
    ensures ExpectsOtherThanX([ShiftTab])
  {
    var masks := [ShiftTab];
    assert masks[0].chars[0] != 120;
  }

  /** While collecting a buffer of Esc and 'x' keys, each further 'x' key
      grows the buffer by one, for any registry whose masks each expect a
      character other than 'x'. */
  lemma {:induction false} FillCollecting(masks: seq<SequenceMask>, c: Config, n: nat)
    requires ExpectsOtherThanX(masks)
    requires c.collecting && |c.buffered| + n <= Capacity
    requires forall t :: 1 <= t < |c.buffered| ==> c.buffered[t].raw.ch == 120
    ensures var r := Run(masks, c, seq(n, _ => Incoming(Key(0, 120))));
            FitsRun(masks, c, seq(n, _ => Incoming(Key(0, 120)))) &&
            r.next.collecting && |r.next.buffered| == |c.buffered| + n
    decreases n
  {
    if n > 0 {
      var inputs := seq(n, _ => Incoming(Key(0, 120)));
      assert inputs[0] == Incoming(Key(0, 120));
      assert inputs[1..] == seq(n - 1, _ => Incoming(Key(0, 120)));
      var run := c.buffered + [MakeEvent(Key(0, 120))];
      assert forall t :: 1 <= t < |run| ==> run[t].raw.ch == 120;
      NoMaskMatchesXs(masks, run);
      var next := Step(masks, c, inputs[0]).next;
      assert next == Config(true, run);
      FillCollecting(masks, next, n - 1);
    }
  }

  lemma {:induction false} FitsRunPrefix(masks: seq<SequenceMask>, c: Config, xs: seq<Input>, ys: seq<Input>)
    requires FitsRun(masks, c, xs) && FitsRun(masks, Run(masks, c, xs).next, ys)
    ensures FitsRun(masks, c, xs + ys)
    decreases |xs|
  {
    if xs == [] {
      assert xs + ys == ys;
    } else {
      assert (xs + ys)[0] == xs[0];
      assert (xs + ys)[1..] == xs[1..] + ys;
      FitsRunPrefix(masks, Step(masks, c, xs[0]).next, xs[1..], ys);
    }
  }
}
