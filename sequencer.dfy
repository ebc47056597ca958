/** The sequencer as the source keeps it: a registry of masks, the
    `inEscapeSequence` flag, a fixed array of ten events and a length
    counter, all updated in place. */
module Machine {
  import opened Events
  import opened Matching
  import opened Steps

  class Sequencer {
    /** The registry `sequenceMasks`, in registration order. */
    var masks: seq<SequenceMask>
    var inEscapeSequence: bool
    const buffer: array<Event>
    var bufferLen: nat

    ghost predicate Valid()
      reads this
    {
      buffer.Length == Capacity && bufferLen <= Capacity
    }

    /** The abstract state: the flag and the buffered prefix of the array. */
    ghost function State(): Config
      reads this, buffer
      requires Valid()
    {
      Config(inEscapeSequence, buffer[..bufferLen])
    }

    /** Init followed by the start of the sequencer: an empty registry, not
        collecting, an empty buffer. */
    constructor ()
      ensures Valid() && fresh(buffer)
      ensures masks == [] && State() == Initial
    {
      masks := [];
      inEscapeSequence := false;
      buffer := new Event[Capacity](_ => Event(ZeroRaw, SeqNone));
      bufferLen := 0;
    }

    /** Register: append one mask at the end of the registry; the masks
        already there, and the sequencer's state, are unchanged. */
    method Register(sequence: int, chars: seq<int>)
      modifies this`masks
      ensures masks == old(masks) + [SequenceMask(chars, sequence)]
    {
      masks := masks + [SequenceMask(chars, sequence)];
    }

    /** Emit `buffer[0:bufferLen]` oldest-first. */
    method Flush() returns (out: seq<Event>)
      requires Valid()
      ensures out == buffer[..bufferLen]
    {
      out := [];
      for i := 0 to bufferLen
        invariant out == buffer[..i]
      {
        out := out + [buffer[i]];
      }
    }

    /** One event arriving from the backend. The source writes
        `buffer[bufferLen]`, so an event that would be the eleventh of a
        sequence being collected is outside what it can take. */
    method OnEvent(e: RawEvent) returns (out: seq<Event>)
      requires Valid()
      requires inEscapeSequence && !IsEsc(MakeEvent(e)) ==> bufferLen < Capacity
      modifies this`inEscapeSequence, this`bufferLen, buffer
      ensures Valid()
      ensures Outcome(State(), out) == OnEventStep(masks, old(State()), e)
    {
      var ev := MakeEvent(e);
      ghost var c0 := State();
      out := [];
      if IsEsc(ev) {
        if inEscapeSequence {
          out := Flush();
        }
        inEscapeSequence := true;
        bufferLen := 0;
      }
      if inEscapeSequence {
        ghost var held, before := buffer[..bufferLen], out;
        assert held == if IsEsc(ev) then [] else c0.buffered;
        assert before == if IsEsc(ev) && c0.collecting then c0.buffered else [];
        buffer[bufferLen] := ev;
        bufferLen := bufferLen + 1;
        assert buffer[..bufferLen] == held + [ev];
        var found := DetectSequence(masks, buffer[..bufferLen]);
        if found.Ok? {
          out := out + [found.value];
          bufferLen := 0;
          inEscapeSequence := false;
        }
        assert Outcome(State(), out) == Collect(masks, held + [ev], before);
        assert IsEsc(ev) ==> held + [ev] == [ev];
        assert OnEventStep(masks, c0, e) == Collect(masks, held + [ev], before);
        return;
      }
      out := [ev];
    }

    /** The deadline timer firing: stop collecting and emit the buffer as it
        is. The counter is left as it was, as in the source. */
    method OnTimeout() returns (out: seq<Event>)
      requires Valid()
      modifies this`inEscapeSequence
      ensures Valid()
      ensures Outcome(State(), out) == OnTimeoutStep(old(State()))
    {
      inEscapeSequence := false;
      out := Flush();
    }

    /** The sequencer's loop over a finite run of inputs: everything it emits,
        in order, and the state it ends in. */
    method Process(inputs: seq<Input>) returns (out: seq<Event>)
      requires Valid()
      requires FitsRun(masks, State(), inputs)
      modifies this`inEscapeSequence, this`bufferLen, buffer
      ensures Valid()
      ensures Outcome(State(), out) == Run(masks, old(State()), inputs)
    {
      out := [];
      for j := 0 to |inputs|
        invariant Valid()
        invariant FitsRun(masks, State(), inputs[j..])
        invariant Run(masks, old(State()), inputs).next == Run(masks, State(), inputs[j..]).next
        invariant Run(masks, old(State()), inputs).out == out + Run(masks, State(), inputs[j..]).out
      {
        assert inputs[j..][0] == inputs[j] && inputs[j..][1..] == inputs[j + 1..];
        ghost var expected := Step(masks, State(), inputs[j]);
        ghost var rest := Run(masks, expected.next, inputs[j + 1..]);
        assert Run(masks, State(), inputs[j..]) == Outcome(rest.next, expected.out + rest.out);
        var step: seq<Event>;
        if inputs[j].Timeout? {
          step := OnTimeout();
        } else {
          step := OnEvent(inputs[j].e);
        }
        assert Outcome(State(), step) == expected;
        out := out + step;
      }
      assert inputs[|inputs|..] == [];
    }
  }
}
