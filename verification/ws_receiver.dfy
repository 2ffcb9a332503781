/** `WebSocketReceiver` and `withWS` of the test client, deflate-client/lib/util.mjs: a queue
    of socket events with a single consumer and at most one pending promise to wake it. An
    `await` that would suspend is modelled by the outcome `Blocked`; the consumer resumes by
    calling `NextEvent` again, which is what the `while` loop around the `await` does. */
module WebSocketReceiver {
  import opened Wrappers

  /** The four events the socket reports. */
  datatype Event =
    | Open
    | Message(data: seq<int>, isBinary: bool)
    | Close(code: int, reason: string)
    | Error(error: string)

  function TypeOf(e: Event): (t: string)
    ensures t != ""
  {
    match e
    case Open => "open"
    case Message(_, _) => "message"
    case Close(_, _) => "close"
    case Error(_) => "error"
  }

  /** The queue and whether a pending promise exists. */
  datatype Receiver = Receiver(messages: seq<Event>, pending: bool)

  const Empty: Receiver := Receiver([], false)

  /** A consumer is only ever waiting on an empty queue. */
  predicate Valid(r: Receiver) {
    r.pending ==> |r.messages| == 0
  }

  /** `#push`: the event goes to the tail; when it is the only one queued, a pending promise
      is resolved (the second component) and dropped. */
  function Push(r: Receiver, e: Event): (out: (Receiver, bool))
    requires Valid(r)
    ensures Valid(out.0)
    ensures out.0.messages == r.messages + [e]
    ensures out.1 <==> r.pending
    ensures !out.0.pending
  {
    var messages := r.messages + [e];
    if |messages| == 1 && r.pending then (Receiver(messages, false), true)
    else (Receiver(messages, r.pending), false)
  }

  /** The `type` argument: `Default` when it is left out (it then means "message"); `Given("")`
      stands for every falsy value, which accepts any event. */
  datatype TypeArg = Default | Given(name: string)

  function Expected(t: TypeArg): string {
    match t
    case Default => "message"
    case Given(name) => name
  }

  /** What one call of `nextEvent` comes to. */
  datatype Outcome = Blocked | Returned(event: Event) | Threw(error: string)

  function Mismatch(expected: string, got: string): string {
    "Unexpected WebSocket event (expected '" + expected + "', got '" + got + "')"
  }

  /** `nextEvent`: on an empty queue, wait (creating the pending promise unless there is one);
      otherwise take the head, and return it if its type is the one asked for. */
  function NextEvent(r: Receiver, t: TypeArg): (out: (Receiver, Outcome))
    requires Valid(r)
    ensures Valid(out.0)
    ensures out.1.Blocked? <==> |r.messages| == 0
    ensures out.1.Blocked? ==> out.0 == Receiver([], true)
    ensures !out.1.Blocked? ==> out.0 == Receiver(r.messages[1..], false)
    ensures out.1.Returned? ==> out.1.event == r.messages[0]
    ensures out.1.Returned? ==> Expected(t) == "" || TypeOf(r.messages[0]) == Expected(t)
    ensures out.1.Threw? ==> Expected(t) != "" && TypeOf(r.messages[0]) != Expected(t)
    ensures out.1.Threw? && r.messages[0].Error? ==> out.1.error == r.messages[0].error
    ensures out.1.Threw? && !r.messages[0].Error?
            ==> out.1.error == Mismatch(Expected(t), TypeOf(r.messages[0]))
  {
    if |r.messages| == 0 then (Receiver([], true), Blocked)
    else
      var msg := r.messages[0];
      var rest := Receiver(r.messages[1..], r.pending);
      var expected := Expected(t);
      if expected != "" && TypeOf(msg) != expected then
        match msg
        case Error(error) => (rest, Threw(error))
        case _ => (rest, Threw(Mismatch(expected, TypeOf(msg))))
      else (rest, Returned(msg))
  }

  /** Waiting twice on an empty queue reuses the one promise. */
  lemma {:induction false} WaitReusesPromise(r: Receiver, t: TypeArg, t2: TypeArg)
    requires Valid(r) && |r.messages| == 0
    ensures NextEvent(NextEvent(r, t).0, t2) == NextEvent(r, t)
  {
  }

  /** A push onto an empty queue that a consumer waits on wakes it, and its next call then
      receives that event. */
  lemma {:induction false} PushWakes(r: Receiver, e: Event)
    requires Valid(r) && |r.messages| == 0
    ensures var (waiting, _) := NextEvent(r, Given(""));
            var (after, woken) := Push(waiting, e);
            woken && NextEvent(after, Given("")) == (Empty, Returned(e))
  {
    var (waiting, _) := NextEvent(r, Given(""));
    var (after, woken) := Push(waiting, e);
    assert after.messages == [e] && after.messages[1..] == [];
  }

  function PushAll(r: Receiver, es: seq<Event>): (out: Receiver)
    requires Valid(r)
    ensures Valid(out) && out.messages == r.messages + es
    decreases |es|
  {
    if |es| == 0 then r
    else
      var next := Push(r, es[0]).0;
      assert r.messages + es == next.messages + es[1..];
      PushAll(next, es[1..])
  }

  /** `n` calls of `nextEvent` that accept any event. */
  function TakeAll(r: Receiver, n: nat): (out: seq<Outcome>)
    requires Valid(r)
    ensures |out| == n
    decreases n
  {
    if n == 0 then [] else [NextEvent(r, Given("")).1] + TakeAll(NextEvent(r, Given("")).0, n - 1)
  }

  /** Events come out in the order they were pushed, each exactly once, and a further call
      waits. */
  lemma {:induction false} FifoOrder(r: Receiver, es: seq<Event>)
    requires Valid(r)
    ensures var out := TakeAll(PushAll(r, es), |r.messages| + |es| + 1);
            (forall i | 0 <= i < |r.messages| + |es| ::
               out[i] == Returned((r.messages + es)[i]))
            && out[|r.messages| + |es|] == Blocked
  {
    TakeAllQueue(PushAll(r, es), |r.messages| + |es|);
  }

  lemma {:induction false} TakeAllQueue(r: Receiver, n: nat)
    requires Valid(r) && |r.messages| == n
    ensures var out := TakeAll(r, n + 1);
            (forall i | 0 <= i < n :: out[i] == Returned(r.messages[i])) && out[n] == Blocked
    decreases n
  {
    if n > 0 {
      var (next, first) := NextEvent(r, Given(""));
      TakeAllQueue(next, n - 1);
      assert TakeAll(r, n + 1) == [first] + TakeAll(next, n);
    }
  }

  // ---------------------------------------------------------------------------
  // withWS
  // ---------------------------------------------------------------------------

  /** How the callback given to `withWS` ends. */
  datatype Completion = Value(value: int) | Raised(error: string)

  /** `withWS`: wait for "open", then run the callback. `first` is what `nextEvent("open")`
      comes to. While it waits, `withWS` has not settled and nothing is closed (`None`);
      otherwise the result is what `withWS` settles to, paired with whether `close` was
      called on the socket, which happens on every path out: a wrong opening event, an error
      event, or a callback that fails. */
  function WithWS(first: Outcome, callback: Completion): (out: Option<(Completion, bool)>)
    ensures out.None? <==> first.Blocked?
    ensures out.Some? ==> out.value.1
    ensures first.Threw? ==> out == Some((Raised(first.error), true))
    ensures first.Returned? ==> out == Some((callback, true))
  {
    match first
    case Blocked => None
    case Threw(error) => Some((Raised(error), true))
    case Returned(_) => Some((callback, true))
  }

  /** Only an "open" event lets the callback run: anything else at the head of the queue
      ends `withWS` with an error, and the socket is closed either way. */
  lemma {:induction false} WithWSNeedsOpen(r: Receiver, callback: Completion)
    requires Valid(r) && |r.messages| > 0
    ensures var out := WithWS(NextEvent(r, Given("open")).1, callback);
            out.Some? && out.value.1
            && (r.messages[0] == Open ==> out.value.0 == callback)
            && (r.messages[0] != Open ==> out.value.0.Raised?)
  {
  }
}
