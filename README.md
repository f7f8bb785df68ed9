# Grade 7 Science Tutor: the run-polling loop, verified

The tutor is a single chat page. For each question it appends the user's turn
to a local history, starts a "run" of a hosted assistant on the session's
conversation thread, and polls that run until it ends. After each poll it looks
at the run's status:

- `queued` / `in_progress`: it reads the thread's newest message and, when that
  message is the assistant's and its first content part has a text field, makes
  that text the collected text and shows it in the one display slot;
- `requires_action`: it shows a fixed notice and keeps polling;
- `completed` / `failed` / `cancelled` / `expired`: it reads the newest message
  the same way, clears the slot (completed) or shows an error naming the status
  (the other three), and returns the collected text;
- any other status: it shows a warning naming the status and keeps polling.

The page then appends the assistant's turn, holding the returned text.

This project models that loop and that history update in Dafny.

- `run_polling.dfy` (module `RunPolling`) holds the loop. The remote service is
  replaced by a finite trace of observations. Each reported observation pairs
  the run's status string with the newest message of the thread, if there is
  one. `Classify` turns each status string into one of the seven known values
  or `Unknown(raw)` with `ParseStatus`, which keeps the string. The loop works
  on classified traces, so `Unknown` never carries one of the seven known
  strings.
  `RunAndStream` is the loop, written as a method with a `while` loop.
  `HandleStatus` is one pass of its body. Both are proved against reference
  definitions:
  - `FirstTerminal`: the first poll whose status ends the loop;
  - `Snapshots` / `LastText`: the text of the last qualifying snapshot;
  - `Writes` / `Shown`: every write to the display slot;
  - `PollOutcome`: what the loop returns.

  Lemmas state the loop's properties in terms of these definitions.
- `chat_session.dfy` (module `ChatSession`) holds the session's chat history as
  a class field, the `if user_input:` block as a method that appends to it, and
  the alternation of user and assistant turns as a lemma.

If the trace runs out before any terminal status, the result is
`NotTerminated`. The real loop would go on polling here. The source has no
timeout or cancellation, so the model adds none.

Two details of the source decide what counts as a snapshot:

- An empty text value still qualifies. app.py:60 tests the `text` object of the
  first part, not its value, so a first part whose text value is "" still
  replaces the collected text.
- On every terminal status (completed, failed, cancelled and expired), a
  qualifying newest message replaces the collected text (app.py:74-78). If the
  newest message does not qualify, the loop returns the last snapshot collected
  on an earlier poll (`ReturnsFinalSnapshot`, `LastQualifyingWins`).

## Model

| member | source | states |
|---|---|---|
| RunPolling.ParseStatus | app.py:53-86 | The status string is kept intact (`StatusName(ParseStatus(raw)) == raw`). Only the seven strings the loop compares against are classified; every other string becomes `Unknown`. |
| RunPolling.Classify | app.py:52-53 | Each reported status string is classified by `ParseStatus` and its name is kept. The newest message is unchanged. Every resulting status is well formed. |
| RunPolling.ParseStatusName | app.py:55-86 | Every well-formed status is what `ParseStatus` gives for its own name, so classification and naming are inverse. |
| RunPolling.StatusDispatch | app.py:55-86 | The branches on the classified status are exactly the source's string tests: "queued"/"in_progress", "requires_action", the four terminal strings, "completed" alone for clearing, and any other string for the warning. |
| RunPolling.FirstTerminal | app.py:51-83 | Gives the index of the first poll with status completed, failed, cancelled or expired. Every earlier poll is non-terminal. When it gives no index, no poll in the trace is terminal. |
| RunPolling.PollOutcome | app.py:51-87 | The loop returns exactly when some poll in the trace has a terminal status. queued, in_progress, requires_action and unknown statuses never end it. |
| RunPolling.HandleStatus | app.py:53-87 | One loop pass. It finishes exactly on a terminal status. It overwrites the collected text exactly when the poll qualifies, and then with the snapshot's text. It writes exactly `Writes(run)` to the slot, and the slot ends with the last of those writes. |
| RunPolling.RunAndStream | app.py:39-87 | The whole loop, on a classified trace. The result is `PollOutcome(trace)`. If the first terminal poll is poll N, exactly N retrievals are made; with no terminal poll, the whole trace is consumed. The display writes are `Shown` of the polls made, and the slot holds the last of them, or is empty if there were none. |
| RunPolling.CollectedTextOverwrite | app.py:57-78 | A poll overwrites `collected_text` exactly when it qualifies: queued, in_progress or terminal status, a newest message from role "assistant", and a first part with a text field. It then holds that text; otherwise it keeps its value. |
| RunPolling.PartialStep | app.py:55-64 | queued and in_progress write exactly one markdown element with the snapshot's text when the poll qualifies, and nothing otherwise, so partial snapshots are shown in order. |
| RunPolling.RequiresActionStep | app.py:66-70 | requires_action leaves the collected text unchanged and writes exactly the fixed notice to the slot. |
| RunPolling.UnknownStatusStep | app.py:85-87 | An unrecognised status (its string is none of the seven known strings) leaves the collected text unchanged and writes exactly "Unknown status: " followed by the status string. |
| RunPolling.TerminalStep | app.py:79-82 | After a terminal poll the slot is cleared on completed. On failed, cancelled or expired it holds an error "Run ended with status: " followed by the status name. |
| RunPolling.FinalDisplay | app.py:72-83 | When the loop returns at poll N, the slot holds `TerminalDisplay` of poll N's status. |
| RunPolling.NoSnapshotMeansEmpty | app.py:49 | If no poll qualifies, the collected text is still the initial "". |
| RunPolling.LastQualifyingWins | app.py:55-78 | The collected text is the snapshot of the last qualifying poll, whatever came after it. |
| RunPolling.ReturnsFinalSnapshot | app.py:72-83 | If the newest message on the terminal poll qualifies, the loop returns exactly its text. |
| RunPolling.FirstTerminalAt | app.py:72-83 | The first terminal poll ends the loop with the collected text of the polls up to and including it. |
| RunPolling.NoTerminal | app.py:51-87 | A trace without a terminal status gives `NotTerminated`. |
| ChatSession.Exchange | app.py:89-111 | A handled input adds the user entry `{"user", input}` first. Once the loop returns, it also adds exactly one assistant entry holding the returned text, and nothing else. |
| ChatSession.ExchangeKeepsAlternation | app.py:91-111 | A completed exchange keeps the history alternating user/assistant and leaves every earlier entry unchanged. |
| ChatSession.Session.HandleInput | app.py:89-111 | With no input or empty input, the history is unchanged. Otherwise the new history is the old one followed by `Exchange(input, PollOutcome(Classify(reported)))`, where `reported` is the trace of status strings and newest messages the service reports. |
| ChatSession.Session.constructor | app.py:28-29 | A new session starts with an empty history. |

## Left out

- The assistant service's calls (creating the thread, posting the user message, creating and retrieving the run, listing messages) are foreign calls. Their results appear only as the observation trace.
- The page's rendering is not modelled: page setup, chat bubbles for history and input, the sidebar, and the final `st.markdown(final_text)`. Only the display slot's contents are modelled.
- The 0.6-second pause between polls is timing only and is left out.
- Loading the API key and assistant id from the environment, and the halt when the key is missing, are configuration I/O and are left out.
- The lazy creation of the session's thread is a remote call and is left out.
- RunAndStream: a run that never reaches a terminal status makes the source poll forever. On a finite trace the model reports `NotTerminated` instead. HandleInput then keeps only the user entry, because the source never reaches the second append.
- A second exchange never taking the first exchange's message as its own depends on which message the remote service lists as newest. That is the service's behaviour, not the client's. The model takes the newest message as given in each observation.
- A failing service call is not modelled. The source has no try/except, so a failing `retrieve` or `messages.list` (app.py:52, 57, 74) raises out of `run_assistant_and_stream` and the `if user_input:` block. The user entry from app.py:91 stays, no assistant entry is added, and the slot keeps its last write. In the model, a trace cut at the failing poll gives `NotTerminated`, which leaves the same history and the same slot.
