/** The event records of escapebox: the backend's raw event, the extended
    event that carries a sequence identifier, and the translation between
    them. */
module Events {

  /** `SeqNone`: the sequence identifier of an ordinary (non-synthetic) event. */
  const SeqNone: int := 0

  /** Event kind and key code of the backend (termbox) that escapebox tests
      for; `EventKey` is the kind's zero value. */
  const EventKey: int := 0
  const KeyEsc: int := 0x1B

  /** The backend's error value: nil, or some opaque error. */
  datatype ErrValue = NoErr | SomeErr(text: string)

  /** A backend event, treated as an opaque record of its ten fields. */
  datatype RawEvent = RawEvent(
    typ: int, mod: int, key: int, ch: int,
    width: int, height: int, err: ErrValue,
    mouseX: int, mouseY: int, n: int)

  /** The zero value of a backend event (every field zero, no error). */
  const ZeroRaw: RawEvent := RawEvent(0, 0, 0, 0, 0, 0, NoErr, 0, 0, 0)

  /** An escapebox event: the embedded backend event plus `Seq`. */
  datatype Event = Event(raw: RawEvent, sequence: int)

  /** The synthetic event reported for a recognised sequence: only `Seq` is set. */
  function Synthetic(sequence: int): Event {
    Event(ZeroRaw, sequence)
  }

  /** An input starts a possible escape sequence when it is the Esc key. */
  predicate IsEsc(ev: Event) {
    ev.raw.typ == EventKey && ev.raw.key == KeyEsc
  }

  /** makeEvent: copy the backend event field by field and mark it ordinary. */
  function MakeEvent(e: RawEvent): (r: Event)
    ensures r.raw == e
    ensures r.sequence == SeqNone
    ensures IsEsc(r) <==> e.typ == EventKey && e.key == KeyEsc
  {
    Event(RawEvent(e.typ, e.mod, e.key, e.ch, e.width, e.height, e.err,
                   e.mouseX, e.mouseY, e.n),
          SeqNone)
  }

  /** The events produced from a run of backend events, in order. */
  function MakeEvents(es: seq<RawEvent>): (r: seq<Event>)
    ensures |r| == |es|
    ensures forall i :: 0 <= i < |es| ==> r[i] == MakeEvent(es[i])
  {
    if es == [] then [] else [MakeEvent(es[0])] + MakeEvents(es[1..])
  }

  /** Translation loses nothing: two backend events that translate to the same
      event are the same, and an ordinary event is the translation of its
      embedded backend event. */
  lemma MakeEventInjective(a: RawEvent, b: RawEvent)
    ensures MakeEvent(a) == MakeEvent(b) <==> a == b
  {
  }

  lemma MakeEventOfOrdinary(ev: Event)
    ensures MakeEvent(ev.raw) == ev <==> ev.sequence == SeqNone
  {
  }

  /** A synthetic event for a non-zero identifier is never an ordinary event,
      and is not the Esc key. */
  lemma SyntheticIsDistinct(sequence: int, e: RawEvent)
    requires sequence != SeqNone
    ensures Synthetic(sequence) != MakeEvent(e)
    ensures !IsEsc(Synthetic(sequence))
  {
  }
}
