/**
  The run-polling state machine of the science tutor's chat page.

  A run is submitted to the remote assistant service and then polled until it
  reaches a terminal status. Each poll yields one observation: the run's status
  and, for the statuses after which the client lists the thread's messages, the
  newest message of the thread. The service is not modelled; it is replaced by a
  finite sequence of such observations, and a trace that runs out before any
  terminal status is reported as NotTerminated.
 */
module RunPolling {

  datatype Option<+T> = None | Some(value: T)

  /** The run status, classified: the seven values the client knows, and any other string. */
  datatype Status =
    | Queued
    | InProgress
    | RequiresAction
    | Completed
    | Failed
    | Cancelled
    | Expired
    | Unknown(raw: string)

  /** One content part of a message: a part with a text field, or a part without one. */
  datatype ContentPart = TextPart(value: string) | OtherPart(kind: string)

  datatype Message = Message(role: string, content: seq<ContentPart>)

  /** What one poll receives from the service: the run's status string and the thread's newest message, if any. */
  datatype RawObservation = RawObservation(status: string, newest: Option<Message>)

  /**
    What one poll sees once the status string is classified by ParseStatus: the
    run's status and the newest message of the thread, if any.
   */
  datatype Observation = Observation(status: Status, newest: Option<Message>)

  /** The contents of the single display slot. */
  datatype Display =
    | Empty
    | Markdown(text: string)
    | Info(text: string)
    | Warning(text: string)
    | Error(text: string)

  /** Returned(text) when the run reached a terminal status; NotTerminated when the trace ran out first. */
  datatype PollResult = Returned(text: string) | NotTerminated

  const ActionNotice := "Assistant requested an action (tool call). No custom tools configured yet."

  /** The status string as the service reports it. */
  function StatusName(s: Status): string
  {
    match s
    case Queued => "queued"
    case InProgress => "in_progress"
    case RequiresAction => "requires_action"
    case Completed => "completed"
    case Failed => "failed"
    case Cancelled => "cancelled"
    case Expired => "expired"
    case Unknown(raw) => raw
  }

  predicate IsKnownName(raw: string)
  {
    raw == "queued" || raw == "in_progress" || raw == "requires_action" || raw == "completed"
    || raw == "failed" || raw == "cancelled" || raw == "expired"
  }

  /** Classifies a status string; nothing is lost, and only the seven known strings leave Unknown. */
  function ParseStatus(raw: string): (s: Status)
    ensures StatusName(s) == raw
    ensures s.Unknown? <==> !IsKnownName(raw)
  {
    if raw == "queued" then Queued
    else if raw == "in_progress" then InProgress
    else if raw == "requires_action" then RequiresAction
    else if raw == "completed" then Completed
    else if raw == "failed" then Failed
    else if raw == "cancelled" then Cancelled
    else if raw == "expired" then Expired
    else Unknown(raw)
  }

  /** A status that ParseStatus can produce: Unknown never carries one of the seven known strings. */
  predicate WellFormed(s: Status)
  {
    !s.Unknown? || !IsKnownName(s.raw)
  }

  /** Every well-formed status is what ParseStatus gives for its own name. */
  lemma ParseStatusName(s: Status)
    requires WellFormed(s)
    ensures ParseStatus(StatusName(s)) == s
  {
  }

  /** Observations as the loop sees them: every status came out of ParseStatus. */
  predicate Classified(trace: seq<Observation>)
  {
    forall i :: 0 <= i < |trace| ==> WellFormed(trace[i].status)
  }

  /** Classifies every status string of a trace received from the service. */
  function Classify(raw: seq<RawObservation>): (trace: seq<Observation>)
    ensures |trace| == |raw| && Classified(trace)
    ensures forall i :: 0 <= i < |raw| ==>
      StatusName(trace[i].status) == raw[i].status && trace[i].newest == raw[i].newest
  {
    seq(|raw|, i requires 0 <= i < |raw| => Observation(ParseStatus(raw[i].status), raw[i].newest))
  }

  /** The loop's dispatch on the status string (app.py:55, 66, 72 and the final else), read through ParseStatus. */
  lemma StatusDispatch(raw: string)
    ensures ParseStatus(raw).Queued? || ParseStatus(raw).InProgress? <==> raw == "queued" || raw == "in_progress"
    ensures ParseStatus(raw).RequiresAction? <==> raw == "requires_action"
    ensures IsTerminal(ParseStatus(raw)) <==>
      raw == "completed" || raw == "failed" || raw == "cancelled" || raw == "expired"
    ensures ParseStatus(raw).Completed? <==> raw == "completed"
    ensures ParseStatus(raw).Unknown? <==> !IsKnownName(raw)
  {
  }

  /** The statuses on which the poll loop returns. */
  predicate IsTerminal(s: Status)
  {
    s.Completed? || s.Failed? || s.Cancelled? || s.Expired?
  }

  /** The statuses after which the loop lists the thread's newest message. */
  predicate ReadsNewest(s: Status)
  {
    s.Queued? || s.InProgress? || IsTerminal(s)
  }

  predicate Terminal(o: Observation)
  {
    IsTerminal(o.status)
  }

  /**
    The poll that observes o overwrites the collected text: its status makes the
    loop read the newest message, that message exists, is the assistant's, and
    its first content part carries a text field.
   */
  predicate Qualifies(o: Observation)
  {
    && ReadsNewest(o.status)
    && o.newest.Some?
    && o.newest.value.role == "assistant"
    && |o.newest.value.content| > 0
    && o.newest.value.content[0].TextPart?
  }

  function SnapshotText(o: Observation): string
    requires Qualifies(o)
  {
    o.newest.value.content[0].value
  }

  /** The text snapshots taken along a trace, in order. */
  function Snapshots(trace: seq<Observation>): seq<string>
  {
    if trace == [] then []
    else
      var last := trace[|trace| - 1];
      Snapshots(trace[..|trace| - 1]) + (if Qualifies(last) then [SnapshotText(last)] else [])
  }

  /** The text of the last qualifying snapshot of a trace, or "" when none qualified. */
  function LastText(trace: seq<Observation>): string
  {
    var s := Snapshots(trace);
    if s == [] then "" else s[|s| - 1]
  }

  /** The slot's contents after a terminal status: cleared on completed, an error naming the status otherwise. */
  function TerminalDisplay(s: Status): Display
  {
    if s.Completed? then Empty else Error("Run ended with status: " + StatusName(s))
  }

  /** What the display slot is set to while handling one observation, in order. */
  function Writes(o: Observation): seq<Display>
  {
    match o.status
    case Queued => if Qualifies(o) then [Markdown(SnapshotText(o))] else []
    case InProgress => if Qualifies(o) then [Markdown(SnapshotText(o))] else []
    case RequiresAction => [Info(ActionNotice)]
    case Unknown(raw) => [Warning("Unknown status: " + raw)]
    case _ => [TerminalDisplay(o.status)]
  }

  /** Every write to the display slot along a trace, in order. */
  function Shown(trace: seq<Observation>): seq<Display>
  {
    if trace == [] then [] else Shown(trace[..|trace| - 1]) + Writes(trace[|trace| - 1])
  }

  /** The slot starts empty and then holds whatever was written last. */
  function SlotAfter(shown: seq<Display>): Display
  {
    if shown == [] then Empty else shown[|shown| - 1]
  }

  /** The index of the first observation with a terminal status. */
  function FirstTerminal(trace: seq<Observation>): (r: Option<nat>)
    ensures r.Some? ==> r.value < |trace| && Terminal(trace[r.value])
    ensures r.Some? ==> forall j :: 0 <= j < r.value ==> !Terminal(trace[j])
    ensures r.None? ==> forall j :: 0 <= j < |trace| ==> !Terminal(trace[j])
  {
    if trace == [] then None
    else if Terminal(trace[0]) then Some(0)
    else match FirstTerminal(trace[1..])
      case None => None
      case Some(n) => Some(n + 1)
  }

  /**
    What the poll loop returns on a trace, stated without reference to the loop:
    the collected text as of the first terminal poll, if there is one.
   */
  function PollOutcome(trace: seq<Observation>): (r: PollResult)
    ensures r.Returned? <==> exists i :: 0 <= i < |trace| && Terminal(trace[i])
  {
    match FirstTerminal(trace)
    case None => NotTerminated
    case Some(n) => Returned(LastText(trace[..n + 1]))
  }

  /**
    collected_text is overwritten by a poll exactly when that poll qualifies,
    and then with the snapshot's text; otherwise it keeps its previous value.
   */
  lemma CollectedTextOverwrite(p: seq<Observation>, o: Observation)
    ensures Qualifies(o) ==> LastText(p + [o]) == SnapshotText(o)
    ensures !Qualifies(o) ==> LastText(p + [o]) == LastText(p)
  {
  }

  /** requires_action shows the fixed notice and leaves the collected text alone. */
  lemma RequiresActionStep(p: seq<Observation>, o: Observation)
    requires o.status.RequiresAction?
    ensures LastText(p + [o]) == LastText(p)
    ensures Shown(p + [o]) == Shown(p) + [Info(ActionNotice)]
  {
  }

  /** queued and in_progress show a qualifying snapshot's text, and show nothing new otherwise. */
  lemma PartialStep(p: seq<Observation>, o: Observation)
    requires o.status.Queued? || o.status.InProgress?
    ensures Qualifies(o) ==> Shown(p + [o]) == Shown(p) + [Markdown(SnapshotText(o))]
    ensures !Qualifies(o) ==> Shown(p + [o]) == Shown(p)
  {
  }

  /** An unrecognised status string shows a warning naming it and leaves the collected text alone. */
  lemma UnknownStatusStep(p: seq<Observation>, o: Observation)
    requires o.status.Unknown? && WellFormed(o.status)
    ensures !IsKnownName(o.status.raw)
    ensures LastText(p + [o]) == LastText(p)
    ensures Shown(p + [o]) == Shown(p) + [Warning("Unknown status: " + o.status.raw)]
  {
  }

  /** A terminal status clears the slot on completed and otherwise leaves an error ending in the status name. */
  lemma TerminalStep(p: seq<Observation>, o: Observation)
    requires Terminal(o)
    ensures var d := SlotAfter(Shown(p + [o]));
      && (o.status.Completed? ==> d == Empty)
      && (!o.status.Completed? ==> d.Error? && d.text == "Run ended with status: " + StatusName(o.status))
  {
  }

  /** When no poll qualified, the collected text is still the initial "". */
  lemma {:induction false} NoSnapshotMeansEmpty(trace: seq<Observation>)
    requires forall i :: 0 <= i < |trace| ==> !Qualifies(trace[i])
    ensures LastText(trace) == ""
  {
    if trace != [] {
      var p := trace[..|trace| - 1];
      NoSnapshotMeansEmpty(p);
    }
  }

  /** The collected text is the snapshot of the last qualifying poll. */
  lemma {:induction false} LastQualifyingWins(trace: seq<Observation>, k: nat)
    requires k < |trace| && Qualifies(trace[k])
    requires forall j :: k < j < |trace| ==> !Qualifies(trace[j])
    ensures LastText(trace) == SnapshotText(trace[k])
    decreases |trace|
  {
    var p := trace[..|trace| - 1];
    assert trace == p + [trace[|trace| - 1]];
    CollectedTextOverwrite(p, trace[|trace| - 1]);
    if k < |trace| - 1 {
      LastQualifyingWins(p, k);
    }
  }

  /** The first terminal poll ends the loop with the collected text of the polls up to it. */
  lemma FirstTerminalAt(trace: seq<Observation>, k: nat)
    requires k < |trace| && Terminal(trace[k])
    requires forall j :: 0 <= j < k ==> !Terminal(trace[j])
    ensures FirstTerminal(trace) == Some(k)
    ensures PollOutcome(trace) == Returned(LastText(trace[..k + 1]))
  {
  }

  /** A trace without a terminal status never ends the loop. */
  lemma NoTerminal(trace: seq<Observation>)
    requires forall j :: 0 <= j < |trace| ==> !Terminal(trace[j])
    ensures FirstTerminal(trace) == None
    ensures PollOutcome(trace) == NotTerminated
  {
  }

  /** On the terminal poll, a qualifying newest message is what the loop returns. */
  lemma ReturnsFinalSnapshot(trace: seq<Observation>, n: nat)
    requires FirstTerminal(trace) == Some(n)
    requires Qualifies(trace[n])
    ensures PollOutcome(trace) == Returned(SnapshotText(trace[n]))
  {
  }

  /** After the loop returns, the slot holds what TerminalDisplay gives for the terminal status. */
  lemma FinalDisplay(trace: seq<Observation>, n: nat)
    requires FirstTerminal(trace) == Some(n)
    ensures SlotAfter(Shown(trace[..n + 1])) == TerminalDisplay(trace[n].status)
  {
    assert trace[..n + 1] == trace[..n] + [trace[n]];
    TerminalStep(trace[..n], trace[n]);
  }

  /** One pass of the loop keeps the collected text and the display writes those of the polls so far. */
  lemma StepPreservesTrace(before: seq<Observation>, run: Observation, text: string,
                           newText: string, written: seq<Display>)
    requires text == LastText(before)
    requires Qualifies(run) ==> newText == SnapshotText(run)
    requires !Qualifies(run) ==> newText == text
    requires written == Writes(run)
    ensures newText == LastText(before + [run])
    ensures Shown(before) + written == Shown(before + [run])
  {
  }

  /**
    One pass of the body of the poll loop, after the status has been retrieved:
    it dispatches on the status, updates the collected text and the display
    slot, and says whether the loop returns.
   */
  method HandleStatus(run: Observation, text: string, display: Display)
    returns (newText: string, newDisplay: Display, written: seq<Display>, finished: bool)
    ensures finished == Terminal(run)
    ensures Qualifies(run) ==> newText == SnapshotText(run)
    ensures !Qualifies(run) ==> newText == text
    ensures written == Writes(run)
    ensures newDisplay == if written == [] then display else written[|written| - 1]
  {
    newText, newDisplay, written, finished := text, display, [], false;
    var status := run.status;
    if status.Queued? || status.InProgress? {
      if run.newest.Some? && run.newest.value.role == "assistant" {
        var parts := run.newest.value.content;
        if |parts| > 0 && parts[0].TextPart? {
          newText := parts[0].value;
          newDisplay := Markdown(newText);
          written := [newDisplay];
        }
      }
    } else if status.RequiresAction? {
      newDisplay := Info(ActionNotice);
      written := [newDisplay];
    } else if IsTerminal(status) {
      if run.newest.Some? && run.newest.value.role == "assistant" {
        var parts := run.newest.value.content;
        if |parts| > 0 && parts[0].TextPart? {
          newText := parts[0].value;
        }
      }
      if !status.Completed? {
        newDisplay := Error("Run ended with status: " + StatusName(status));
      } else {
        newDisplay := Empty;
      }
      written := [newDisplay];
      finished := true;
    } else {
      newDisplay := Warning("Unknown status: " + status.raw);
      written := [newDisplay];
    }
  }

  /**
    run_assistant_and_stream over a finite trace of observations: the result, the
    number of status retrievals performed, every write to the display slot and
    the slot's final contents.
   */
  method RunAndStream(trace: seq<Observation>)
    returns (result: PollResult, retrievals: nat, shown: seq<Display>, display: Display)
    requires Classified(trace)
    ensures retrievals <= |trace|
    ensures result == PollOutcome(trace)
    ensures FirstTerminal(trace).Some? ==> retrievals == FirstTerminal(trace).value + 1
    ensures FirstTerminal(trace).None? ==> retrievals == |trace|
    ensures shown == Shown(trace[..retrievals])
    ensures display == SlotAfter(shown)
  {
    var text := "";
    display := Empty;
    shown := [];
    retrievals := 0;
    while retrievals < |trace|
      invariant retrievals <= |trace|
      invariant forall j :: 0 <= j < retrievals ==> !Terminal(trace[j])
      invariant text == LastText(trace[..retrievals])
      invariant shown == Shown(trace[..retrievals])
      invariant display == SlotAfter(shown)
    {
      var run := trace[retrievals];
      ghost var before := trace[..retrievals];
      retrievals := retrievals + 1;
      assert trace[..retrievals] == before + [run];
      var newText, written, finished;
      newText, display, written, finished := HandleStatus(run, text, display);
      StepPreservesTrace(before, run, text, newText, written);
      text := newText;
      shown := shown + written;
      if finished {
        FirstTerminalAt(trace, retrievals - 1);
        result := Returned(text);
        return;
      }
    }
    assert trace[..retrievals] == trace;
    NoTerminal(trace);
    result := NotTerminated;
  }
}
