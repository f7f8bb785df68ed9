/**
  The per-submission update of the page's local chat history.

  When the user submits a non-empty question, the page appends the user's entry
  to the history, runs the poll loop, and appends the assistant's entry holding
  what the loop returned. The history lives in the browser session's state and
  is only ever appended to.
 */
module ChatSession {
  import opened RunPolling

  /** One entry of the local chat history: a role and the text shown for it. */
  datatype Entry = Entry(role: string, content: string)

  /** The entries one handled input adds, given what the poll loop returned. */
  function Exchange(userInput: string, outcome: PollResult): (added: seq<Entry>)
    ensures |added| >= 1 && added[0] == Entry("user", userInput)
    ensures outcome.Returned? <==> |added| == 2
    ensures outcome.Returned? ==> added[1] == Entry("assistant", outcome.text)
  {
    [Entry("user", userInput)] + (if outcome.Returned? then [Entry("assistant", outcome.text)] else [])
  }

  /** A history made only of completed exchanges: user and assistant entries alternate, starting with the user. */
  ghost predicate Alternates(history: seq<Entry>)
  {
    && |history| % 2 == 0
    && forall i :: 0 <= i < |history| ==> history[i].role == (if i % 2 == 0 then "user" else "assistant")
  }

  /** A completed exchange keeps a history alternating and leaves every earlier entry where it was. */
  lemma ExchangeKeepsAlternation(history: seq<Entry>, userInput: string, outcome: PollResult)
    requires Alternates(history)
    requires outcome.Returned?
    ensures Alternates(history + Exchange(userInput, outcome))
    ensures (history + Exchange(userInput, outcome))[..|history|] == history
  {
  }

  /** The session state the page keeps across reruns: the local chat history. */
  class Session {
    var messages: seq<Entry>

    constructor ()
      ensures messages == []
    {
      messages := [];
    }

    /**
      The `if user_input:` block: nothing happens without input; otherwise the
      user's entry is appended, the run is polled over the trace the service
      reports, and the assistant's entry with the loop's result is appended once
      the loop returns.
     */
    method HandleInput(userInput: Option<string>, reported: seq<RawObservation>)
      modifies this
      ensures userInput.None? || userInput.value == "" ==> messages == old(messages)
      ensures userInput.Some? && userInput.value != "" ==>
        messages == old(messages) + Exchange(userInput.value, PollOutcome(Classify(reported)))
    {
      if userInput.Some? && userInput.value != "" {
        messages := messages + [Entry("user", userInput.value)];
        var result, retrievals, shown, display := RunAndStream(Classify(reported));
        if result.Returned? {
          messages := messages + [Entry("assistant", result.text)];
        }
      }
    }
  }
}
