/** The `App` component of static/app.js as a state machine. Its state is
    the sentence `output`, the suggestions `words`, `logits` and
    `probabilities` (null until a response arrives), the `loading` and
    `error` flags and the request counter `currentRequestId`. React's
    `setState` is a synchronous merge into these fields. The browser is
    abstracted: `fetch` becomes a returned Request whose completion the
    caller reports later with CompleteOk or CompleteErr; the lodash debounce
    of `choose` becomes a pending flag that FireDebounce consumes; the pushed
    history entries are a ghost log of query strings. */
module Controller {
  import opened Wrappers
  import opened Text
  import opened DeepLink

  /** The `numsteps` every prediction request asks for. */
  const NumSteps: int := 5

  /** The JSON body POSTed to /predict: `{previous, next, numsteps}`, with
      `next` left out when no token was chosen. */
  datatype Payload = Payload(previous: string, next: Option<string>, numsteps: int)

  /** A request in flight: the id `createRequestId` gave it, the token it
      was issued for, and its body. */
  datatype Request = Request(id: nat, choice: Option<string>, payload: Payload)

  /** The JSON body /predict answers with. */
  datatype Prediction = Prediction(output: string, words: seq<string>, logits: seq<real>, probabilities: seq<real>)

  /** The requests are numbered 1, 2, 3, ... in the order they were sent. */
  ghost predicate Numbered(sent: seq<Request>) {
    forall i | 0 <= i < |sent| :: sent[i].id == i + 1
  }

  /** A request as `choose` builds it: a non-empty prefix without trailing
      spaces, the chosen token as `next`, and five steps. */
  ghost predicate WellFormed(r: Request) {
    && r.payload.previous != []
    && TrimRight(r.payload.previous) == r.payload.previous
    && r.payload.next == r.choice
    && r.payload.numsteps == NumSteps
  }

  ghost predicate AllWellFormed(sent: seq<Request>) {
    forall i | 0 <= i < |sent| :: WellFormed(sent[i])
  }

  /** Sending the next request keeps the numbering and the request shape. */
  lemma Send(sent: seq<Request>, r: Request)
    requires Numbered(sent) && AllWellFormed(sent)
    requires r.id == |sent| + 1 && WellFormed(r)
    ensures Numbered(sent + [r]) && AllWellFormed(sent + [r])
  {
  }

  /** Ids grow strictly in the order requests are sent, so no two are equal. */
  lemma IdsIncrease(sent: seq<Request>)
    requires Numbered(sent)
    ensures forall i, j | 0 <= i < j < |sent| :: sent[i].id < sent[j].id
  {
  }

  /** A sent request carries the counter's value exactly when it is the
      last one sent: the check in `choose`'s success handler accepts only
      the newest request. */
  lemma CurrentIsLast(sent: seq<Request>, r: Request)
    requires Numbered(sent) && r in sent
    ensures r.id == |sent| <==> r == sent[|sent| - 1]
  {
  }

  class App {
    /** `'history' in window`: whether URLs are pushed and `popstate` is listened to. */
    const hasHistory: bool

    var output: string
    var words: Option<seq<string>>
    var logits: Option<seq<real>>
    var probabilities: Option<seq<real>>
    var loading: bool
    var error: bool
    var currentRequestId: nat

    /** A trailing call of the debounced `choose` is scheduled. */
    var debouncePending: bool

    /** The query strings pushed onto the browser history, oldest first. */
    ghost var pushed: seq<string>
    /** The requests sent to /predict, oldest first. */
    ghost var sent: seq<Request>

    /** The counter has numbered the sent requests 1, 2, 3, ... in order,
        and each carries a non-empty prefix without trailing spaces. */
    ghost predicate Valid()
      reads this
    {
      currentRequestId == |sent| && Numbered(sent) && AllWellFormed(sent)
    }

    /** The effect of `choose(choice, doNotChangeUrl)` on the flags, the
        counter, the sent requests and the history, given the sentence it
        read. An all-space sentence issues nothing and ends with both flags
        down; any other issues one request under the next id, with the
        trimmed sentence as `previous`, and pushes the sentence's URL unless
        suppressed. */
    twostate predicate Issued(choice: Option<string>, doNotChangeUrl: bool, new req: Option<Request>)
      reads this
    {
      && !error
      && loading == req.Some?
      && (req.None? <==> TrimRight(output) == [])
      && (req.None? ==>
            currentRequestId == old(currentRequestId) && sent == old(sent) && pushed == old(pushed))
      && (req.Some? ==>
            && req.value == Request(old(currentRequestId) + 1, choice, Payload(TrimRight(output), choice, NumSteps))
            && currentRequestId == req.value.id
            && sent == old(sent) + [req.value]
            && (hasHistory && !doNotChangeUrl ==> pushed == old(pushed) + [SearchFor(output, choice)])
            && (!hasHistory || doNotChangeUrl ==> pushed == old(pushed)))
    }

    /** The constructor: the sentence comes from the URL, or is `DEFAULT`.
        A malformed escape in the URL's `text` makes `loadFromUrl` throw and
        the page fail to start; the constructor is defined for the others. */
    constructor (hasHistory: bool, search: string)
      requires LoadFromUrl(search).Success?
      ensures Valid()
      ensures this.hasHistory == hasHistory
      ensures output == InitialOutput(LoadFromUrl(search).value)
      ensures words == None && logits == None && probabilities == None
      ensures !loading && !error && currentRequestId == 0 && !debouncePending
      ensures pushed == [] && sent == []
    {
      this.hasHistory := hasHistory;
      output := InitialOutput(LoadFromUrl(search).value);
      words, logits, probabilities := None, None, None;
      loading, error := false, false;
      currentRequestId := 0;
      debouncePending := false;
      pushed, sent := [], [];
    }

    /** `setOutput`: the user typed. The suggestions are cleared, `loading`
        tells whether the text is more than spaces, and a call of `choose`
        is scheduled; nothing is sent yet. */
    method SetOutput(value: string)
      requires Valid()
      modifies this
      ensures Valid()
      ensures output == value && words == None && logits == None && probabilities == None
      ensures loading == (TrimRight(value) != [])
      ensures error == old(error) && currentRequestId == old(currentRequestId)
      ensures debouncePending
      ensures sent == old(sent) && pushed == old(pushed)
    {
      var trimmed := TrimRight(value);
      output := value;
      words, logits, probabilities := None, None, None;
      loading := |trimmed| > 0;
      debouncePending := true;
    }

    /** `createRequestId`: the next id, one more than the last. */
    method CreateRequestId() returns (id: nat)
      modifies this`currentRequestId
      ensures id == old(currentRequestId) + 1 && currentRequestId == id
    {
      var nextReqId := currentRequestId + 1;
      currentRequestId := nextReqId;
      id := nextReqId;
    }

    /** `choose(choice, doNotChangeUrl)` up to the `fetch`: the request it
        sends, if any. The sentence and the suggestions stay as they are. */
    method Choose(choice: Option<string>, doNotChangeUrl: bool) returns (req: Option<Request>)
      requires Valid()
      modifies this`loading, this`error, this`currentRequestId, this`sent, this`pushed
      ensures Valid()
      ensures Issued(choice, doNotChangeUrl, req)
      ensures output == old(output) && words == old(words) && logits == old(logits)
      ensures probabilities == old(probabilities) && debouncePending == old(debouncePending)
    {
      loading, error := true, false;
      var trimmedOutput := TrimRight(output);
      if |trimmedOutput| == 0 {
        loading := false;
        return None;
      }
      var payload := Payload(trimmedOutput, choice, NumSteps);
      var currentReqId := CreateRequestId();
      req := Some(Request(currentReqId, choice, payload));
      TrimRightIdempotent(output);
      Send(sent, req.value);
      sent := sent + [req.value];
      if hasHistory && !doNotChangeUrl {
        pushed := pushed + [SearchFor(output, choice)];
      }
    }

    /** The debounce timer fires: the scheduled `choose()` runs on the
        sentence as it is now. */
    method FireDebounce() returns (req: Option<Request>)
      requires Valid() && debouncePending
      modifies this
      ensures Valid()
      ensures Issued(None, false, req)
      ensures !debouncePending
      ensures output == old(output) && words == old(words) && logits == old(logits)
      ensures probabilities == old(probabilities)
    {
      debouncePending := false;
      req := Choose(None, false);
    }

    /** `componentDidMount`: the first `choose()`, with the push not
        suppressed; it pushes the starting sentence's URL only when history
        exists and the sentence is not all spaces. */
    method Mount() returns (req: Option<Request>)
      requires Valid()
      modifies this
      ensures Valid()
      ensures Issued(None, false, req)
      ensures output == old(output) && words == old(words) && logits == old(logits)
      ensures probabilities == old(probabilities) && debouncePending == old(debouncePending)
    {
      req := Choose(None, false);
    }

    /** The response to req arrived. It is applied only if req is the
        latest request sent; then the sentence becomes the server's `output`
        if a token was chosen and stays as typed otherwise. A superseded
        response changes nothing. */
    method CompleteOk(req: Request, data: Prediction)
      requires Valid() && req in sent
      modifies this
      ensures Valid()
      ensures currentRequestId == old(currentRequestId) && error == old(error)
      ensures sent == old(sent) && pushed == old(pushed) && debouncePending == old(debouncePending)
      ensures req.id == currentRequestId ==>
        && output == (if req.choice.None? then old(output) else data.output)
        && words == Some(data.words) && logits == Some(data.logits)
        && probabilities == Some(data.probabilities)
        && !loading
      ensures req.id != currentRequestId ==>
        && output == old(output) && words == old(words) && logits == old(logits)
        && probabilities == old(probabilities) && loading == old(loading)
    {
      if currentRequestId == req.id {
        var newOutput := if req.choice.None? then output else data.output;
        words, logits, probabilities := Some(data.words), Some(data.logits), Some(data.probabilities);
        output := newOutput;
        loading := false;
      }
    }

    /** The request req failed (network error or a body that is not JSON).
        The error shows and loading stops whatever req's id: a superseded
        request's failure still does this. */
    method CompleteErr(req: Request)
      requires Valid() && req in sent
      modifies this
      ensures Valid()
      ensures error && !loading
      ensures output == old(output) && words == old(words) && logits == old(logits)
      ensures probabilities == old(probabilities) && currentRequestId == old(currentRequestId)
      ensures sent == old(sent) && pushed == old(pushed) && debouncePending == old(debouncePending)
    {
      error, loading := true, false;
    }

    /** The `popstate` listener: back or forward was pressed and the URL's
        query is now search. The sentence is taken from the URL (or
        `DEFAULT`), the suggestions are cleared, and `choose` runs; it pushes
        no URL when the URL held a sentence of its own. If `loadFromUrl`
        throws, the listener stops before changing anything. */
    method PopState(search: string) returns (req: Option<Request>)
      requires Valid() && hasHistory
      modifies this
      ensures Valid()
      ensures LoadFromUrl(search).Failure? ==>
        req.None? && output == old(output) && words == old(words) && logits == old(logits) &&
        probabilities == old(probabilities) && loading == old(loading) && error == old(error) &&
        currentRequestId == old(currentRequestId) && sent == old(sent) && pushed == old(pushed)
      ensures LoadFromUrl(search).Success? ==>
        && output == InitialOutput(LoadFromUrl(search).value)
        && words == None && logits == None && probabilities == None
        && Issued(None, IsDeepLink(search), req)
      ensures debouncePending == old(debouncePending)
    {
      var loaded := LoadFromUrl(search);
      if loaded.Failure? {
        return None;
      }
      var fullText := loaded.value;
      var doNotChangeUrl := fullText.Some? && fullText.value != [];
      assert doNotChangeUrl == IsDeepLink(search);
      output := InitialOutput(fullText);
      loading := true;
      words, logits, probabilities := None, None, None;
      req := Choose(None, doNotChangeUrl);
    }
  }
}
