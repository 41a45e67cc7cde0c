/** Sequences of events on the `App` controller: what a caller can conclude
    from the contracts of the controller's operations alone. Each holds for
    every state satisfying `Valid()` and every input meeting its stated
    precondition; most of them need a sentence that is not all spaces, so
    that `choose` sends a request. */
module Scenarios {
  import opened Wrappers
  import opened Text
  import opened DeepLink
  import opened Controller

  /** Two requests sent one after the other, whichever completes first:
      only the second one's data ends up in the state. */
  method LaterRequestWins(app: App, first: Option<string>, second: Option<string>,
                          d1: Prediction, d2: Prediction, firstArrivesFirst: bool)
    requires app.Valid() && TrimRight(app.output) != []
    modifies app
    ensures app.Valid()
    ensures app.words == Some(d2.words) && app.logits == Some(d2.logits)
    ensures app.probabilities == Some(d2.probabilities) && !app.loading
    ensures app.output == if second.None? then old(app.output) else d2.output
  {
    var r1 := app.Choose(first, false);
    var r2 := app.Choose(second, false);
    if firstArrivesFirst {
      app.CompleteOk(r1.value, d1);
      app.CompleteOk(r2.value, d2);
    } else {
      app.CompleteOk(r2.value, d2);
      app.CompleteOk(r1.value, d1);
    }
  }

  /** Typing bursts collapse: four edits before the debounce timer fires
      send at most one request, for the last text: one when it is not all
      spaces, none otherwise. */
  method TypingBurst(app: App, t1: string, t2: string, t3: string, t4: string)
    returns (req: Option<Request>)
    requires app.Valid()
    modifies app
    ensures app.Valid()
    ensures req.Some? <==> TrimRight(t4) != []
    ensures req.Some? ==> req.value.payload == Payload(TrimRight(t4), None, NumSteps)
    ensures app.sent == old(app.sent) + (if req.Some? then [req.value] else [])
  {
    app.SetOutput(t1);
    app.SetOutput(t2);
    app.SetOutput(t3);
    app.SetOutput(t4);
    req := app.FireDebounce();
  }

  /** Editing the text does not supersede a request already in flight: its
      response, for the text before the edit, is still applied, and when no
      token was chosen its suggestions are shown beside the edited text. */
  method EditDoesNotSupersede(app: App, edited: string, d: Prediction)
    requires app.Valid() && TrimRight(app.output) != []
    modifies app
    ensures app.output == edited && app.words == Some(d.words) && !app.loading
  {
    var r := app.Choose(None, false);
    app.SetOutput(edited);
    app.CompleteOk(r.value, d);
  }

  /** Clearing the text and letting the debounce fire sends nothing, so the
      request in flight stays current and its response is still applied. */
  method BlankTextKeepsRequestCurrent(app: App, choice: Option<string>, blank: string, d: Prediction)
    requires app.Valid() && TrimRight(app.output) != [] && AllSpaces(blank)
    modifies app
    ensures app.words == Some(d.words) && !app.loading && !app.error
    ensures app.output == if choice.None? then blank else d.output
  {
    var r := app.Choose(choice, false);
    app.SetOutput(blank);
    TrimRightEmpty(blank);
    var none := app.FireDebounce();
    app.CompleteOk(r.value, d);
  }

  /** A superseded request that fails after the newer one succeeded still
      raises the error flag, next to the newer suggestions. */
  method StaleFailureShowsError(app: App, d: Prediction)
    requires app.Valid() && TrimRight(app.output) != []
    modifies app
    ensures app.error && !app.loading && app.words == Some(d.words)
  {
    var r1 := app.Choose(None, false);
    var r2 := app.Choose(None, false);
    app.CompleteOk(r2.value, d);
    app.CompleteErr(r1.value);
  }

  /** Going back to a URL the page pushed restores that sentence and pushes
      nothing: the history cannot feed back into itself. */
  method BackToPushedUrl(app: App, output: string, choice: Option<string>)
    returns (req: Option<Request>)
    requires app.Valid() && app.hasHistory && output != []
    modifies app
    ensures app.Valid()
    ensures app.output == output + ChoiceText(choice)
    ensures app.words == None && app.pushed == old(app.pushed)
  {
    LoadSearchFor(output, choice);
    req := app.PopState(SearchFor(output, choice));
  }

  /** Going back to the page's first URL, whose query is empty, falls back
      to `DEFAULT` and, since the URL held no sentence, pushes the URL of
      `DEFAULT` as a new entry. */
  method BackToStartPage(app: App) returns (req: Option<Request>)
    requires app.Valid() && app.hasHistory
    modifies app
    ensures app.Valid()
    ensures app.output == Default && app.words == None
    ensures req.Some? && app.pushed == old(app.pushed) + [SearchFor(Default, None)]
  {
    assert Split("", '&') == [""];
    assert LoadFromUrl("") == Success(None);
    req := app.PopState("");
  }
}
