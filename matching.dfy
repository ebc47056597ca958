/** The sequence registry's entries and the matcher that decides whether a
    buffered run of events (Esc first) is one of the registered sequences. */
module Matching {
  import opened Events

  /** A registered pattern: the follow-up character codes expected after the
      Esc key, and the identifier reported when they arrive. */
  datatype SequenceMask = SequenceMask(chars: seq<int>, sequence: int)

  /** The matcher's outcome: the synthetic event, or the not-found error. */
  datatype Result<T> = Ok(value: T) | Err(msg: string)

  const NoSequenceFound: string := "No sequence found."

  /** A mask matches a run when the run is the Esc plus exactly one event per
      follow-up character, and each follower carries the expected character.
      Position 0 (the Esc itself) is not inspected. */
  predicate Matches(mask: SequenceMask, events: seq<Event>) {
    |mask.chars| + 1 == |events| &&
    forall i :: 0 <= i < |mask.chars| ==> mask.chars[i] == events[i + 1].raw.ch
  }

  /** Mask `k` is the first mask, in registration order, that matches. */
  predicate IsFirstMatch(masks: seq<SequenceMask>, events: seq<Event>, k: int) {
    0 <= k < |masks| && Matches(masks[k], events) &&
    forall j :: 0 <= j < k ==> !Matches(masks[j], events)
  }

  /** Reference definition of detectSequence: scan the masks in registration
      order and report the first one that matches. */
  function Detect(masks: seq<SequenceMask>, events: seq<Event>): (r: Result<Event>)
    ensures r.Err? ==> r.msg == NoSequenceFound
    ensures r.Ok? ==> r.value.raw == ZeroRaw
  {
    if masks == [] then Err(NoSequenceFound)
    else if Matches(masks[0], events) then Ok(Synthetic(masks[0].sequence))
    else Detect(masks[1..], events)
  }

  /** Detect succeeds exactly when some mask matches, and then it reports the
      identifier of the first matching mask. */
  lemma {:induction false} DetectIsFirstMatch(masks: seq<SequenceMask>, events: seq<Event>)
    ensures Detect(masks, events).Err? <==>
              forall k :: 0 <= k < |masks| ==> !Matches(masks[k], events)
    ensures forall k :: IsFirstMatch(masks, events, k) ==>
              Detect(masks, events) == Ok(Synthetic(masks[k].sequence))
  {
    if masks != [] {
      DetectIsFirstMatch(masks[1..], events);
      assert forall k :: 1 <= k < |masks| ==> masks[k] == masks[1..][k - 1];
      if !Matches(masks[0], events) {
        forall k | IsFirstMatch(masks, events, k)
          ensures Detect(masks, events) == Ok(Synthetic(masks[k].sequence))
        {
          assert k != 0;
          assert IsFirstMatch(masks[1..], events, k - 1);
        }
      }
    }
  }

  /** When Detect succeeds, its identifier is that of a mask which matches and
      before which no mask matches. */
  lemma {:induction false} DetectSound(masks: seq<SequenceMask>, events: seq<Event>)
    requires Detect(masks, events).Ok?
    ensures exists k :: IsFirstMatch(masks, events, k) &&
                        Detect(masks, events).value == Synthetic(masks[k].sequence)
  {
    if Matches(masks[0], events) {
      assert IsFirstMatch(masks, events, 0);
    } else {
      DetectSound(masks[1..], events);
      var k :| IsFirstMatch(masks[1..], events, k) &&
               Detect(masks[1..], events).value == Synthetic(masks[1..][k].sequence);
      assert forall j :: 1 <= j <= k ==> masks[j] == masks[1..][j - 1];
      assert IsFirstMatch(masks, events, k + 1);
    }
  }

  /** A match requires the run's length to be that of the mask plus the Esc. */
  lemma DetectNeedsExactLength(masks: seq<SequenceMask>, events: seq<Event>)
    requires forall k :: 0 <= k < |masks| ==> |masks[k].chars| + 1 != |events|
    ensures Detect(masks, events) == Err(NoSequenceFound)
  {
    DetectIsFirstMatch(masks, events);
  }

  /** The Esc at position 0 is never inspected: replacing it changes nothing. */
  lemma MatchesIgnoresFirst(mask: SequenceMask, a: Event, b: Event, rest: seq<Event>)
    ensures Matches(mask, [a] + rest) == Matches(mask, [b] + rest)
  {
    var ra, rb := [a] + rest, [b] + rest;
    assert forall i :: 0 <= i < |rest| ==> ra[i + 1] == rest[i];
    assert forall i :: 0 <= i < |rest| ==> rb[i + 1] == rest[i];
  }

  lemma {:induction false} DetectIgnoresFirst(masks: seq<SequenceMask>, a: Event, b: Event, rest: seq<Event>)
    ensures Detect(masks, [a] + rest) == Detect(masks, [b] + rest)
  {
    if masks != [] {
      MatchesIgnoresFirst(masks[0], a, b, rest);
      DetectIgnoresFirst(masks[1..], a, b, rest);
    }
  }

  /** Registering a mask never changes a detection that already succeeds
      (the earlier mask still wins); otherwise the new mask is tried last. */
  lemma {:induction false} DetectAfterRegister(masks: seq<SequenceMask>, m: SequenceMask, events: seq<Event>)
    ensures Detect(masks + [m], events) ==
            if Detect(masks, events).Ok? then Detect(masks, events)
            else if Matches(m, events) then Ok(Synthetic(m.sequence))
            else Err(NoSequenceFound)
  {
    if masks == [] {
      assert masks + [m] == [m];
    } else {
      assert (masks + [m])[0] == masks[0];
      assert (masks + [m])[1..] == masks[1..] + [m];
      DetectAfterRegister(masks[1..], m, events);
    }
  }

  /** detectSequence: the labelled nested scan over the registered masks. */
  method DetectSequence(masks: seq<SequenceMask>, events: seq<Event>) returns (r: Result<Event>)
    ensures r == Detect(masks, events)
    ensures r.Err? <==> forall k :: 0 <= k < |masks| ==> !Matches(masks[k], events)
    ensures r.Ok? ==> exists k :: IsFirstMatch(masks, events, k) && r.value == Synthetic(masks[k].sequence)
  {
    DetectIsFirstMatch(masks, events);
    label maskLoop:
    for m := 0 to |masks|
      invariant forall j :: 0 <= j < m ==> !Matches(masks[j], events)
    {
      var mask := masks[m];
      if |mask.chars| + 1 != |events| {
        continue;
      }
      for i := 0 to |mask.chars|
        invariant forall t :: 0 <= t < i ==> mask.chars[t] == events[t + 1].raw.ch
      {
        if mask.chars[i] != events[i + 1].raw.ch {
          continue maskLoop;
        }
      }
      assert IsFirstMatch(masks, events, m);
      return Ok(Synthetic(mask.sequence));
    }
    return Err(NoSequenceFound);
  }
}
