# escapebox: the escape-sequence sequencer, in Dafny

escapebox sits between a terminal backend (termbox) and an application. Some
key combinations, such as Shift+Tab, reach the backend as an Esc key followed
quickly by a few more key events. escapebox buffers those events. An
application registers *sequence masks*: the follow-up characters and an integer
id. When a buffered run matches a mask, escapebox emits one synthetic event
carrying only that id. Otherwise it passes every event through unchanged and
in order once a short deadline expires.

This project models the part of `escapebox.go` that decides what is emitted:

- `Events` (`events.dfy`): the backend event as an opaque record of its ten
  fields, the extended event with its `Seq` field (`sequence` here, since `seq`
  is a Dafny keyword), `makeEvent`, the Esc test and the synthetic event.
- `Matching` (`matching.dfy`): the mask record, a reference definition
  `Detect` of `detectSequence`, and `DetectSequence`, the labelled nested loop
  of the source, proved equal to `Detect`.
- `Steps` (`steps.dfy`): the sequencer's `for`/`select` body as pure
  transitions over an abstract state (`collecting` flag, buffered events). The
  deadline timer becomes an abstract `Timeout` input. Lemmas cover single
  transitions and whole runs: no loss, no reordering, exactly one synthetic
  event per recognised sequence.
- `Machine` (`sequencer.dfy`): class `Sequencer`. It keeps the source's state
  in place: the registry, `inEscapeSequence`, a ten-slot `array<Event>` and
  `bufferLen`. `OnEvent`, `OnTimeout` and `Process` are each proved to move
  that state exactly as the matching transition in `Steps` does.
- `Scenarios` (`scenarios.dfy`): the Shift+Tab runs (Esc, 91, 90 and Esc, 91,
  99, timeout), and a run that fills the buffer.

Modelling choices:

- **Timeout and the stale counter.** The timeout branch sets the flag to
  false and flushes `buffer[0:bufferLen]`, but it does not reset
  `bufferLen`. Only the next Esc resets it. The model keeps this as written:
  after a timeout the idle state still holds the stale buffer
  (`Steps.TimeoutKeepsStaleBuffer`). The run-level lemmas assume that the
  timer fires only while collecting (`Steps.Unmatched`); the two timer races
  listed under "Left out" break this.
- **Capacity.** The source writes `buffer[bufferLen]` into a ten-slot array.
  An eleventh event of one sequence would index out of range, which is a Go
  panic. `Sequencer.OnEvent` and `Sequencer.Process` require exactly the
  condition under which that write is in range (`Steps.Fits`, `Steps.FitsRun`).
  `Scenarios.TenEventsFillTheBuffer` shows that a registry does not prevent
  this. With any registry in which every mask expects some character other
  than 'x' (the Shift+Tab mask is one), an Esc and nine 'x' keys before the
  deadline fill the buffer. The pure transition `Steps.OnEventStep` has no
  capacity: on the inputs that `Steps.FitsRun` admits its buffer stays within
  ten events (`Steps.FitsRunBounded`) and is the array's prefix; elsewhere it
  goes on appending where the source panics.
- **Modelled as the code behaves:** (1) `Register` accepts the id 0
  (`SeqNone`), so the model places no condition on the id. (2) The timeout
  does not reset `bufferLen` (see above). (3) The matcher also runs on the
  lone Esc, so a mask with no follow-up characters matches it at once
  (`Steps.IdleEsc`, `Steps.CollectingEsc`).
- The backend's `EventKey` (0) and `KeyEsc` (0x1B) are termbox-go's values.
  termbox-go is not part of this model. Event fields are unbounded integers,
  since nothing computes on them. The backend's error value is `NoErr` (nil)
  or an opaque error.

## Model

| member | source | states |
|---|---|---|
| Events.MakeEvent | escapebox.go:41-57 | the result's embedded backend event equals the input, so every copied field is preserved; `Seq` is `SeqNone`; it is Esc exactly when the input is a key event carrying KeyEsc |
| Events.MakeEvents | escapebox.go:176 | translating a run gives one event per backend event, position by position |
| Events.MakeEventInjective | escapebox.go:41-57 | two backend events translate to the same event exactly when they are equal |
| Events.MakeEventOfOrdinary | escapebox.go:12 | an event is the translation of its embedded backend event exactly when its `Seq` is `SeqNone` |
| Events.IsEsc | escapebox.go:178-179 | definition of the Esc test: an event opens a possible sequence exactly when its type is `EventKey` and its key is `KeyEsc` |
| Events.SyntheticIsDistinct | escapebox.go:12-19 | for a non-zero id the synthetic event is not any translated event, and is not an Esc |
| Matching.Matches | escapebox.go:64-72 | definition of a mask matching a run: the run's length is `len(Chars)+1` and `Chars[i]` equals the character of event `i+1` for every `i`; event 0 is not read |
| Matching.IsFirstMatch | escapebox.go:63-72 | definition of "mask k wins": mask k matches and no mask registered before it does |
| Matching.Detect | escapebox.go:62-78 | a failure is always the "No sequence found." error; a success carries only a `Seq` (all other fields zero) |
| Matching.DetectIsFirstMatch | escapebox.go:63-77 | detection fails if and only if no registered mask matches; when mask k is the first that matches, it reports mask k's id |
| Matching.DetectSound | escapebox.go:63-74 | a success reports the id of a mask that matches, and no earlier mask matches |
| Matching.DetectNeedsExactLength | escapebox.go:64-66 | when no mask has length len(Chars)+1 equal to the run's length (for example an empty registry or a run shorter than every mask), detection fails |
| Matching.MatchesIgnoresFirst | escapebox.go:68-72 | a mask's match does not depend on the event at position 0 |
| Matching.DetectIgnoresFirst | escapebox.go:63-77 | replacing the event at position 0 never changes the detection result |
| Matching.DetectAfterRegister | escapebox.go:32-37 | appending a mask leaves a successful detection unchanged, because the earlier mask still wins; otherwise the new mask is tried last |
| Matching.DetectSequence | escapebox.go:62-78 | the labelled nested scan returns exactly `Detect`'s result: an error exactly when no mask matches, and otherwise the id of the first matching mask |
| Steps.Collect | escapebox.go:195-210 | definition of storing a run and matching it; its contract: while still collecting, the buffer is the run and only the earlier output is emitted; otherwise the state is idle and empty and the output is the earlier output followed by the synthetic event of the first matching mask |
| Steps.OnEventStep | escapebox.go:171-215 | definition of the transition for an incoming event; its contract: it emits at most the held-back events plus one, and while it leaves the sequencer collecting, the output followed by the new buffer equals the held-back events followed by the new event |
| Steps.OnTimeoutStep | escapebox.go:217-225 | definition of the transition for the timer firing: the flag becomes false, the buffer is emitted, and the counter stays as it was |
| Steps.Step | escapebox.go:170-226 | definition of one turn of the `select`: an incoming event or the timer firing |
| Steps.Run | escapebox.go:169-226 | definition of the sequencer loop over a finite run of inputs: the final state and the concatenated outputs of the steps, in order |
| Steps.IdlePassThrough | escapebox.go:213-215 | while idle, a non-Esc event is emitted unchanged as the only output and the state stays idle |
| Steps.IdleEsc | escapebox.go:183-210 | while idle, an Esc emits nothing and opens a buffer holding only itself, unless a mask with no characters matches it, in which case only the synthetic event is emitted |
| Steps.CollectingEsc | escapebox.go:183-197 | while collecting, an Esc first emits the whole buffer oldest-first; with no match the buffer then holds only the new Esc |
| Steps.CollectingAppend | escapebox.go:195-210 | while collecting, a non-Esc event is appended; if the first matching mask is k, the only output is mask k's synthetic event and the state is idle and empty; with no match nothing is emitted and the buffer grows by one |
| Steps.TimeoutFlushes | escapebox.go:217-225 | a timeout emits the buffer as it is and leaves the state idle |
| Steps.TimeoutKeepsStaleBuffer | escapebox.go:217-225 | the timeout does not reset the counter, so a second timeout before an Esc would emit the same events again |
| Steps.StepConserves | escapebox.go:169-226 | a step that recognises nothing loses and reorders nothing: the output plus what is still held back equals what was held back before plus the arrived event |
| Steps.StepWellFormed | escapebox.go:178-197 | every transition keeps the state well formed: a collecting buffer starts with its Esc, holds no other Esc, and holds only ordinary events |
| Steps.StepEmitsOrdinaryOrSynthetic | escapebox.go:186-224 | every emitted event is either an ordinary event or the synthetic event of a registered mask |
| Steps.FitsRunBounded | escapebox.go:166-196 | on every run whose writes `buffer[bufferLen]` stay in range, the buffer never holds more than the array's ten events |
| Steps.RunAppend | escapebox.go:169-170 | running two input sequences one after the other is the same as running their concatenation |
| Steps.RunWellFormed | escapebox.go:164-226 | every state reached from a well-formed state is well formed |
| Steps.RunConserves | escapebox.go:169-226 | over a run that recognises nothing, the outputs so far plus what is held back equal what was held back at the start plus all arrived events, in arrival order |
| Steps.RunEndingInTimeoutIsIdle | escapebox.go:217-220 | a run whose last input is a timeout ends idle |
| Steps.UnmatchedRunIsPassThrough | escapebox.go:164-226 | from the initial state, a run that recognises nothing and ends in a timeout outputs exactly the arrived events, unchanged and in order |
| Steps.NoEscIsPassThrough | escapebox.go:213-215 | from the initial state, a run with no Esc passes every event through unchanged and stays in the initial state, whatever masks are registered |
| Steps.SequenceCollapses | escapebox.go:178-210 | an Esc followed by events carrying a mask's characters, with no shorter prefix recognised, outputs whatever was held back followed by exactly one synthetic event carrying the first matching mask's id, and ends idle and empty |
| Steps.CollectingCollapses | escapebox.go:195-210 | while collecting a prefix of a run, the events carrying the rest of it give exactly the first matching mask's synthetic event, provided no longer prefix is recognised first |
| Machine.Sequencer.constructor | escapebox.go:164-167 | the registry is empty (as `Init` leaves it at escapebox.go:87), the buffer is a fresh ten-slot array, and the state is idle with nothing buffered |
| Machine.Sequencer.Register | escapebox.go:32-37 | the registry becomes the old registry with exactly one mask `{Chars, Seq}` appended; earlier masks and the sequencer state are unchanged |
| Machine.Sequencer.Flush | escapebox.go:184-187 | the output is `buffer[0:bufferLen]` oldest-first |
| Machine.Sequencer.OnEvent | escapebox.go:171-215 | when the buffer write is in range, the new flag, buffer contents, counter and output are exactly those of the incoming-event transition |
| Machine.Sequencer.OnTimeout | escapebox.go:217-225 | the flag becomes false, the output is the buffer's prefix, and the counter and buffer are unchanged |
| Machine.Sequencer.Process | escapebox.go:169-226 | for a run of inputs the buffer can take, all emitted events and the final state are those of the whole-run transition |
| Scenarios.ShiftTabIsRecognised | examples/shifttab.go:43-44 | with the Shift+Tab mask `{1, [91, 90]}`, the inputs Esc, 91, 90 give exactly one event with `Seq` 1 and leave the state idle |
| Scenarios.MismatchIsFlushedOnTimeout | escapebox.go:217-225 | with the same mask, Esc, 91, 99 followed by the timeout give back the three events in order |
| Scenarios.TenEventsFillTheBuffer | escapebox.go:166-197 | for any registry whose masks each expect a character other than 'x', an Esc and nine 'x' keys fill all ten slots, so an eleventh key before the deadline would write past the array |
| Scenarios.ShiftTabDoesNotBoundTheBuffer | examples/shifttab.go:44 | the Shift+Tab registry is such a registry |
| Scenarios.NoMaskMatchesXs | escapebox.go:63-77 | a run whose followers are all 'x' keys matches no mask of such a registry |
| Scenarios.FillCollecting | escapebox.go:195-197 | for such a registry, each 'x' key while collecting Esc and 'x' keys grows the buffer by one |

## Left out

- The channelizer goroutine, its `channelizerPolling`/`channelizerTerminate` flags, `Close`'s interrupt-or-drain shutdown, and the `defer close(...)` calls. They are concurrency and cancellation; the model has no threads.
- The channel and goroutine creation in `Init`, and `PollEvent`'s channel receive. They are plumbing: emitting an event to the `Events` channel is modelled as appending it to the step's output sequence.
- Real time: `time.NewTimer`, `Reset`, `Stop`, the initial wait on the timer, and the race between `Stop` and a timer that has already fired. The timer becomes an abstract `Timeout` input; `Steps.Unmatched` assumes it arrives only while collecting.
- Reset after the timer has fired: under the timer semantics this code was written for (before Go 1.23), `Reset` does not drain a tick already in the channel. If an Esc is chosen over a pending tick, the stale tick flushes the new buffer and the re-armed tick then flushes it again, with the counter not reset (escapebox.go:190, 217-225). The model allows those inputs (`Steps.TimeoutKeepsStaleBuffer` shows the repeat), but the run-level lemmas assume the timer fires at most once per Esc, so they exclude that trace.
- termbox itself (`termbox.PollEvent`, `Interrupt`, and what event fields mean). Backend events are opaque records that arrive as inputs.
- The closed-channel exit of the sequencer loop (escapebox.go:172-174). Ending the input sequence plays that role.
- Steps.OnEventStep: the pure transition has an unbounded buffer and does not model the Go panic of escapebox.go:196 on a full ten-slot array. It agrees with the source only while `Steps.Fits` holds. So `Steps.CollectingAppend`, `Steps.RunConserves`, `Steps.UnmatchedRunIsPassThrough` and the other `Steps` run lemmas describe the program only on runs satisfying `Steps.FitsRun`, which `Machine.Sequencer.Process` requires; on other runs the source panics where the model goes on appending.
- Machine.Sequencer.OnEvent: does not model the Go panic on an out-of-range buffer write; it requires that the write stays in range.
- Machine.Sequencer.Process: does not model that panic either; it requires that every write of the run stays in range.
- The demo programs examples/shifttab.go and main.go, which render to a terminal or write to a file. Only the mask that they register is used, in `Scenarios`.
