/** SendXLM and Submit (account.go) with the error mapping they depend on (errors.go),
    as a protocol: a client that signs and submits, a network that may deliver an
    envelope late, several times or never, and a ledger that consumes sequence
    numbers. The client's steps are the control flow of the Go code. */
module SendProtocol {
  import opened Wrappers
  import opened Amounts

  const SUBMIT_ATTEMPTS: nat := 3
  const MAX_MEMO: nat := 28

  // ---------------------------------------------------------------- errors

  /** The result codes horizon attaches to a refused transaction. */
  datatype Codes = Codes(transaction: string, operations: seq<string>)

  /** The client asks for the account's sequence number, and submits. */
  datatype Request = LookUp | Submission

  /** How a request fails: OtherError is an answer that cannot be decoded. */
  datatype NetError =
    | Timeout
    | OtherUrlError
    | Horizon(status: int, codes: Option<Codes>)
    | OtherError

  /** What the caller of the package sees. Errors of the transport and of horizon name
      the request that met them, by its URL; a status 404 and an answer that cannot be
      decoded do not. NotSent is any error of building or signing the transaction, which
      the caller gets as it is: a bad seed or address, a blank network passphrase, a
      sequence number that is no number. */
  datatype AppError =
    | DestinationAccountNotFound
    | ResourceNotFound
    | StellarNetworkError(request: Request, status: int, codes: Option<Codes>)
    | StellarNetworkTimeout(request: Request)
    | UrlError(request: Request)
    | Undecodable
    | NotSent
    | MemoTooLong
    | BadAmount(amountError: AmountError)

  /** A failed transaction of one operation, which did not find its destination. */
  predicate IsOpNoDestination(codes: Option<Codes>) {
    codes.Some? && codes.value.transaction == "tx_failed" && codes.value.operations == ["op_no_destination"]
  }

  function ErrMap(e: NetError, request: Request): AppError {
    match e
    case Timeout => StellarNetworkTimeout(request)
    case OtherUrlError => UrlError(request)
    case OtherError => Undecodable
    case Horizon(status, codes) =>
      if IsOpNoDestination(codes) then DestinationAccountNotFound
      else if status == 404 then ResourceNotFound
      else StellarNetworkError(request, status, codes)
  }

  /** The errors after which Submit tries again. */
  predicate Retried(e: NetError) {
    e.Timeout? || (e.Horizon? && e.codes.Some? && e.codes.value.transaction == "tx_bad_seq")
  }

  // ----------------------------------------------------------- the parties

  /** The two transactions of one call: a payment, and an account creation. */
  datatype Kind = Pay | Create

  datatype Envelope = Envelope(kind: Kind, seqNum: int)

  datatype Result = Credited | FailedWith(operations: seq<string>)

  datatype Entry = Entry(envelope: Envelope, result: Result)

  datatype Answer = Accepted | Refused(error: NetError)

  /** Where the client is: asking for a sequence number, at the head of Submit's loop
      with the last error, waiting for the answer of an attempt, or done. */
  datatype Client =
    | Asking(kind: Kind)
    | Looping(envelope: Envelope, attempt: nat, last: Option<NetError>)
    | Waiting(envelope: Envelope, attempt: nat)
    | Done(error: Option<AppError>)

  /** The ledger's view of the source account and what it applied of ours; what was
      ever handed to the network; what the client signed and how often it posted. */
  datatype State = State(
    seqNum: int,
    destExists: bool,
    log: seq<Entry>,
    sent: set<Envelope>,
    client: Client,
    pay: Option<Envelope>,
    create: Option<Envelope>,
    posts: seq<Envelope>)

  function Start(seqNum: int, destExists: bool): State {
    State(seqNum, destExists, [], {}, Asking(Pay), None, None, [])
  }

  /** The network's steps, everybody else's, and the client's: the answer to its
      question for a sequence number, one pass of Submit's loop head, and the answer
      to an attempt. */
  datatype Event =
    | Deliver(envelope: Envelope, result: Result)
    | Others(seqNum: int, destExists: bool)
    | SequenceIs(n: int)
    | SequenceFails(error: NetError)
    | SigningFails
    | Iterate
    | Reply(answer: Answer)

  /** A payment needs its destination, a creation needs it missing; either may fail. */
  predicate CanResult(s: State, envelope: Envelope, result: Result) {
    result.Credited? ==> (s.destExists <==> envelope.kind.Pay?)
  }

  /** Horizon does not lie: success means the ledger credited this envelope, and a
      failed transaction was applied as failed, so its sequence number is used up. */
  predicate Truthful(s: State, envelope: Envelope, answer: Answer) {
    match answer
    case Accepted => Entry(envelope, Credited) in s.log
    case Refused(Horizon(_, Some(codes))) =>
      codes.transaction == "tx_failed" ==> Entry(envelope, FailedWith(codes.operations)) in s.log
    case Refused(_) => true
  }

  /** The end of a payment or creation: a payment that found no destination is followed
      by a creation; every other error is the answer. */
  function Conclude(kind: Kind, e: NetError, request: Request): Client {
    if kind.Pay? && ErrMap(e, request) == DestinationAccountNotFound then Asking(Create)
    else Done(Some(ErrMap(e, request)))
  }

  function Sign(s: State, kind: Kind, n: int): State {
    var envelope := Envelope(kind, Wrap64(n + 1));
    var signed := if kind.Pay? then s.(pay := Some(envelope)) else s.(create := Some(envelope));
    signed.(client := Looping(envelope, 0, None))
  }

  /** One step, or nothing when it is not possible. The first two belong to the
      network and to everybody else; the rest are the client's. */
  function Apply(s: State, event: Event): Option<State> {
    match event
    case Deliver(envelope, result) =>
      if envelope !in s.sent then None
      else if envelope.seqNum != s.seqNum + 1 then Some(s)
      else if !CanResult(s, envelope, result) then None
      else Some(s.(seqNum := envelope.seqNum,
                   destExists := s.destExists || result.Credited?,
                   log := s.log + [Entry(envelope, result)]))
    case Others(seqNum, destExists) =>
      if seqNum < s.seqNum then None else Some(s.(seqNum := seqNum, destExists := destExists))
    case SequenceIs(n) =>
      if s.client.Asking? then Some(Sign(s, s.client.kind, n)) else None
    case SequenceFails(e) =>
      if s.client.Asking? then Some(s.(client := Conclude(s.client.kind, e, LookUp))) else None
    case SigningFails =>
      if s.client.Asking? then Some(s.(client := Done(Some(NotSent)))) else None
    case Iterate =>
      if !s.client.Looping? then None
      else if s.client.attempt < SUBMIT_ATTEMPTS then
        Some(s.(client := Waiting(s.client.envelope, s.client.attempt),
                sent := s.sent + {s.client.envelope},
                posts := s.posts + [s.client.envelope]))
      else if s.client.last.Some? then Some(s.(client := Conclude(s.client.envelope.kind, s.client.last.value, Submission)))
      else None
    case Reply(answer) =>
      if !s.client.Waiting? || !Truthful(s, s.client.envelope, answer) then None
      else
        match answer
        case Accepted => Some(s.(client := Done(None)))
        case Refused(e) =>
          Some(s.(client := if Retried(e) then Looping(s.client.envelope, s.client.attempt + 1, Some(e))
                            else Conclude(s.client.envelope.kind, e, Submission)))
  }

  /** A whole run, or nothing when some event is not possible where it stands. */
  function Run(s: State, events: seq<Event>): Option<State> {
    if events == [] then Some(s)
    else
      match Run(s, events[..|events| - 1])
      case None => None
      case Some(t) => Apply(t, events[|events| - 1])
  }

  // ------------------------------------------------------------- invariant

  predicate Applied(s: State, envelope: Envelope) {
    exists i :: 0 <= i < |s.log| && s.log[i].envelope == envelope
  }

  predicate Failed(s: State, envelope: Envelope) {
    exists i :: 0 <= i < |s.log| && s.log[i].envelope == envelope && s.log[i].result.FailedWith?
  }

  predicate CreditedIn(s: State, envelope: Envelope) {
    exists i :: 0 <= i < |s.log| && s.log[i] == Entry(envelope, Credited)
  }

  /** Sequence numbers in the log rise, and never beyond the account's own. */
  predicate LogInv(s: State) {
    && (forall i, j :: 0 <= i < j < |s.log| ==> s.log[i].envelope.seqNum < s.log[j].envelope.seqNum)
    && (forall i :: 0 <= i < |s.log| ==> s.log[i].envelope.seqNum <= s.seqNum && s.log[i].envelope in s.sent)
  }

  /** Only the signed envelopes are ever out, one of each kind. */
  predicate SentInv(s: State) {
    && (s.pay.Some? ==> s.pay.value.kind.Pay?)
    && (s.create.Some? ==> s.create.value.kind.Create?)
    && (forall e :: e in s.sent ==> Some(e) == (if e.kind.Pay? then s.pay else s.create))
  }

  /** The creation exists only once the payment, if there is one, has failed for good. */
  predicate PayIsOver(s: State) {
    s.pay.Some? ==> Failed(s, s.pay.value)
  }

  function Count(posts: seq<Envelope>, kind: Kind): nat {
    if posts == [] then 0
    else Count(posts[..|posts| - 1], kind) + (if posts[|posts| - 1].kind == kind then 1 else 0)
  }

  function Signed(s: State, kind: Kind): Option<Envelope> {
    if kind.Pay? then s.pay else s.create
  }

  /** Errors after which the destination was certainly not credited: nothing of the
      transaction at hand was sent, or horizon gave its verdict that it failed. */
  predicate RulesOutCredit(e: AppError) {
    match e
    case NotSent => true
    case DestinationAccountNotFound => true
    case StellarNetworkTimeout(request) => request.LookUp?
    case UrlError(request) => request.LookUp?
    case StellarNetworkError(request, _, codes) => request.LookUp? || (codes.Some? && codes.value.transaction == "tx_failed")
    case _ => false
  }

  predicate ClientInv(s: State) {
    match s.client
    case Asking(Pay) => s.pay.None? && s.create.None? && s.posts == []
    case Asking(Create) => s.create.None? && PayIsOver(s) && Count(s.posts, Create) == 0
    case Looping(e, i, last) =>
      && Signed(s, e.kind) == Some(e) && Count(s.posts, e.kind) == i <= SUBMIT_ATTEMPTS
      && (i > 0 <==> last.Some?) && (last.Some? ==> Retried(last.value))
      && (e.kind.Pay? ==> s.create.None? && Count(s.posts, Create) == 0)
    case Waiting(e, i) =>
      && Signed(s, e.kind) == Some(e) && Count(s.posts, e.kind) == i + 1 <= SUBMIT_ATTEMPTS
      && (e.kind.Pay? ==> s.create.None? && Count(s.posts, Create) == 0)
    case Done(None) => exists e :: e in s.sent && CreditedIn(s, e)
    case Done(Some(e)) => RulesOutCredit(e) ==> forall x :: x in s.sent ==> Failed(s, x)
  }

  predicate Inv(s: State) {
    && LogInv(s) && SentInv(s) && ClientInv(s)
    && (s.create.Some? ==> PayIsOver(s))
    && Count(s.posts, Pay) <= SUBMIT_ATTEMPTS && Count(s.posts, Create) <= SUBMIT_ATTEMPTS
  }

  lemma StartInv(seqNum: int, destExists: bool)
    ensures Inv(Start(seqNum, destExists))
  {
  }

  /** What was applied stays applied. */
  lemma LogGrows(s: State, t: State)
    requires s.log <= t.log
    ensures forall e :: Failed(s, e) ==> Failed(t, e)
    ensures forall e :: CreditedIn(s, e) ==> CreditedIn(t, e)
  {
  }

  /** Delivering late or again: at most one more entry, with a fresh number. */
  lemma DeliverKeepsInv(s: State, envelope: Envelope, result: Result)
    requires Inv(s) && Apply(s, Deliver(envelope, result)).Some?
    ensures Inv(Apply(s, Deliver(envelope, result)).value)
  {
    LogGrows(s, Apply(s, Deliver(envelope, result)).value);
  }

  lemma OthersKeepInv(s: State, seqNum: int, destExists: bool)
    requires Inv(s) && Apply(s, Others(seqNum, destExists)).Some?
    ensures Inv(Apply(s, Others(seqNum, destExists)).value)
  {
  }

  /** An answer that sends the client on to the creation proves the payment failed. */
  lemma ConcludeKeepsInv(s: State, kind: Kind, e: NetError, request: Request)
    requires LogInv(s) && SentInv(s) && (s.create.Some? ==> PayIsOver(s))
    requires Count(s.posts, Pay) <= SUBMIT_ATTEMPTS && Count(s.posts, Create) <= SUBMIT_ATTEMPTS
    requires kind.Pay? ==> s.create.None? && Count(s.posts, Create) == 0
    requires kind.Create? ==> PayIsOver(s)
    requires RulesOutCredit(ErrMap(e, request)) ==> Signed(s, kind).Some? ==> Failed(s, Signed(s, kind).value)
    ensures Inv(s.(client := Conclude(kind, e, request)))
  {
  }

  lemma CountAppend(posts: seq<Envelope>, e: Envelope, kind: Kind)
    ensures Count(posts + [e], kind) == Count(posts, kind) + (if e.kind == kind then 1 else 0)
  {
  }

  lemma SequenceKeepsInv(s: State, event: Event)
    requires Inv(s) && Apply(s, event).Some?
    requires event.SequenceIs? || event.SequenceFails? || event.SigningFails?
    ensures Inv(Apply(s, event).value)
  {
    if event.SequenceFails? {
      ConcludeKeepsInv(s, s.client.kind, event.error, LookUp);
    }
  }

  lemma PostingKeepsInv(s: State)
    requires Inv(s) && s.client.Looping? && s.client.attempt < SUBMIT_ATTEMPTS
    ensures Inv(s.(client := Waiting(s.client.envelope, s.client.attempt),
                   sent := s.sent + {s.client.envelope},
                   posts := s.posts + [s.client.envelope]))
  {
    var e := s.client.envelope;
    CountAppend(s.posts, e, Pay);
    CountAppend(s.posts, e, Create);
    LogGrows(s, s.(client := Waiting(e, s.client.attempt), sent := s.sent + {e}, posts := s.posts + [e]));
  }

  lemma IterateKeepsInv(s: State)
    requires Inv(s) && Apply(s, Iterate).Some?
    ensures Inv(Apply(s, Iterate).value)
  {
    if s.client.attempt == SUBMIT_ATTEMPTS {
      ConcludeKeepsInv(s, s.client.envelope.kind, s.client.last.value, Submission);
    } else {
      PostingKeepsInv(s);
    }
  }

  lemma VerdictMeansFailed(s: State, e: Envelope, error: NetError)
    requires Truthful(s, e, Refused(error)) && RulesOutCredit(ErrMap(error, Submission))
    ensures Failed(s, e)
  {
  }

  lemma ReplyKeepsInv(s: State, answer: Answer)
    requires Inv(s) && Apply(s, Reply(answer)).Some?
    ensures Inv(Apply(s, Reply(answer)).value)
  {
    var e := s.client.envelope;
    match answer
    case Accepted =>
      var i :| 0 <= i < |s.log| && s.log[i] == Entry(e, Credited);
      assert e in s.sent && CreditedIn(s, e);
    case Refused(error) =>
      if !Retried(error) {
        if RulesOutCredit(ErrMap(error, Submission)) {
          VerdictMeansFailed(s, e, error);
        }
        ConcludeKeepsInv(s, e.kind, error, Submission);
      }
  }

  lemma StepKeepsInv(s: State, event: Event)
    requires Inv(s) && Apply(s, event).Some?
    ensures Inv(Apply(s, event).value)
  {
    match event
    case Deliver(envelope, result) => DeliverKeepsInv(s, envelope, result);
    case Others(seqNum, destExists) => OthersKeepInv(s, seqNum, destExists);
    case Reply(answer) => ReplyKeepsInv(s, answer);
    case Iterate => IterateKeepsInv(s);
    case _ => SequenceKeepsInv(s, event);
  }

  lemma StepOnlyAppends(s: State, event: Event)
    requires Apply(s, event).Some?
    ensures s.log <= Apply(s, event).value.log
  {
  }

  /** The invariant holds in every state of every run. */
  lemma {:induction false} RunKeepsInv(s: State, events: seq<Event>)
    requires Inv(s) && Run(s, events).Some?
    ensures Inv(Run(s, events).value)
  {
    if events != [] {
      RunKeepsInv(s, events[..|events| - 1]);
      StepKeepsInv(Run(s, events[..|events| - 1]).value, events[|events| - 1]);
    }
  }

  lemma {:induction false} RunOnlyAppends(s: State, events: seq<Event>)
    requires Run(s, events).Some?
    ensures s.log <= Run(s, events).value.log
  {
    if events != [] {
      RunOnlyAppends(s, events[..|events| - 1]);
      StepOnlyAppends(Run(s, events[..|events| - 1]).value, events[|events| - 1]);
    }
  }

  lemma {:induction false} RunConcat(s: State, a: seq<Event>, b: seq<Event>)
    ensures Run(s, a + b) == match Run(s, a) case None => None case Some(t) => Run(t, b)
  {
    if b == [] {
      assert a + b == a;
    } else {
      RunConcat(s, a, b[..|b| - 1]);
      assert (a + b)[..|a + b| - 1] == a + b[..|b| - 1];
    }
  }

  // --------------------------------------------------------------- safety

  /** How often the destination was credited by this call. */
  function Credits(log: seq<Entry>): nat {
    if log == [] then 0 else Credits(log[..|log| - 1]) + (if log[|log| - 1].result.Credited? then 1 else 0)
  }

  /** An envelope applied as failed was not applied as anything else. */
  lemma FailedAt(s: State, i: nat)
    requires LogInv(s) && i < |s.log| && Failed(s, s.log[i].envelope)
    ensures s.log[i].result.FailedWith?
  {
  }

  /** Two different applications of this call cannot both have been credited. */
  lemma OneCredit(s: State, i: nat, j: nat)
    requires Inv(s) && i < |s.log| && j < |s.log|
    requires s.log[i].result.Credited? && s.log[j].result.Credited?
    ensures i == j
  {
  }

  lemma {:induction false} CreditsBounded(log: seq<Entry>)
    requires forall i, j :: 0 <= i < |log| && 0 <= j < |log| && log[i].result.Credited? && log[j].result.Credited? ==> i == j
    ensures Credits(log) <= 1
    ensures Credits(log) == 1 <==> exists i :: 0 <= i < |log| && log[i].result.Credited?
  {
    if log != [] {
      var front, last := log[..|log| - 1], log[|log| - 1];
      assert forall i :: 0 <= i < |front| ==> front[i] == log[i];
      CreditsBounded(front);
      if last.result.Credited? {
        assert !exists i :: 0 <= i < |front| && front[i].result.Credited?;
      } else if exists i :: 0 <= i < |log| && log[i].result.Credited? {
        var i :| 0 <= i < |log| && log[i].result.Credited?;
        assert front[i].result.Credited?;
      }
    }
  }

  lemma InvBoundsCredits(s: State)
    requires Inv(s)
    ensures Credits(s.log) <= 1
    ensures Credits(s.log) == 1 <==> exists i :: 0 <= i < |s.log| && s.log[i].result.Credited?
  {
    forall i, j | 0 <= i < |s.log| && 0 <= j < |s.log| && s.log[i].result.Credited? && s.log[j].result.Credited?
      ensures i == j
    {
      OneCredit(s, i, j);
    }
    CreditsBounded(s.log);
  }

  /** In every state of every run the destination has been credited at most once, and
      each of the two envelopes has been posted at most three times. */
  lemma CreditedAtMostOnce(seqNum: int, destExists: bool, events: seq<Event>)
    requires Run(Start(seqNum, destExists), events).Some?
    ensures var s := Run(Start(seqNum, destExists), events).value;
      Credits(s.log) <= 1 && Count(s.posts, Pay) <= 3 && Count(s.posts, Create) <= 3
  {
    StartInv(seqNum, destExists);
    RunKeepsInv(Start(seqNum, destExists), events);
    InvBoundsCredits(Run(Start(seqNum, destExists), events).value);
  }

  lemma {:induction false} CreationStays(s: State, events: seq<Event>)
    requires s.create.Some? && Run(s, events).Some?
    ensures Run(s, events).value.create.Some?
  {
    if events != [] {
      CreationStays(s, events[..|events| - 1]);
    }
  }

  lemma NoPayCredit(s: State)
    requires Inv(s) && s.create.Some?
    ensures forall e: Envelope :: e.kind.Pay? ==> !CreditedIn(s, e)
  {
  }

  /** Once a creation is signed, the payment has not been credited and never will be,
      however the run goes on. */
  lemma CreationMeansPaymentIsOver(seqNum: int, destExists: bool, events: seq<Event>, later: seq<Event>)
    requires Run(Start(seqNum, destExists), events).Some?
    requires Run(Start(seqNum, destExists), events).value.create.Some?
    requires Run(Start(seqNum, destExists), events + later).Some?
    ensures var s := Run(Start(seqNum, destExists), events + later).value;
      forall e: Envelope :: e.kind.Pay? ==> !CreditedIn(s, e)
  {
    StartInv(seqNum, destExists);
    RunConcat(Start(seqNum, destExists), events, later);
    var s := Run(Start(seqNum, destExists), events).value;
    RunKeepsInv(Start(seqNum, destExists), events);
    RunKeepsInv(s, later);
    CreationStays(s, later);
    NoPayCredit(Run(s, later).value);
  }

  /** A nil error means exactly one credit, now and for ever after. */
  lemma SuccessMeansOneCredit(seqNum: int, destExists: bool, events: seq<Event>, later: seq<Event>)
    requires Run(Start(seqNum, destExists), events).Some?
    requires Run(Start(seqNum, destExists), events).value.client == Done(None)
    requires Run(Start(seqNum, destExists), events + later).Some?
    ensures Credits(Run(Start(seqNum, destExists), events + later).value.log) == 1
  {
    StartInv(seqNum, destExists);
    RunConcat(Start(seqNum, destExists), events, later);
    var s := Run(Start(seqNum, destExists), events).value;
    RunKeepsInv(Start(seqNum, destExists), events);
    RunKeepsInv(s, later);
    var t := Run(s, later).value;
    var e :| e in s.sent && CreditedIn(s, e);
    RunOnlyAppends(s, later);
    LogGrows(s, t);
    var i :| 0 <= i < |t.log| && t.log[i] == Entry(e, Credited);
    assert t.log[i].result.Credited?;
    InvBoundsCredits(t);
  }

  lemma {:induction false} DoneStays(s: State, events: seq<Event>)
    requires s.client.Done? && Run(s, events).Some?
    ensures Run(s, events).value.client == s.client && Run(s, events).value.sent == s.sent
  {
    if events != [] {
      DoneStays(s, events[..|events| - 1]);
    }
  }

  lemma AllFailedMeansNoCredit(s: State)
    requires Inv(s) && forall e :: e in s.sent ==> Failed(s, e)
    ensures Credits(s.log) == 0
  {
    forall i | 0 <= i < |s.log| ensures !s.log[i].result.Credited? {
      FailedAt(s, i);
    }
    InvBoundsCredits(s);
  }

  /** An error that rules a credit out means that the destination is never credited by
      this call. */
  lemma RuledOutMeansNoCredit(seqNum: int, destExists: bool, events: seq<Event>, later: seq<Event>, error: AppError)
    requires Run(Start(seqNum, destExists), events).Some?
    requires Run(Start(seqNum, destExists), events).value.client == Done(Some(error)) && RulesOutCredit(error)
    requires Run(Start(seqNum, destExists), events + later).Some?
    ensures Credits(Run(Start(seqNum, destExists), events + later).value.log) == 0
  {
    StartInv(seqNum, destExists);
    RunConcat(Start(seqNum, destExists), events, later);
    var s := Run(Start(seqNum, destExists), events).value;
    RunKeepsInv(Start(seqNum, destExists), events);
    RunKeepsInv(s, later);
    DoneStays(s, later);
    var t := Run(s, later).value;
    RunOnlyAppends(s, later);
    LogGrows(s, t);
    AllFailedMeansNoCredit(t);
  }

  lemma RunOneMore(s: State, events: seq<Event>, event: Event)
    requires Run(s, events).Some?
    ensures Run(s, events + [event]) == Apply(Run(s, events).value, event)
  {
  }

  /** The result codes say that the transaction failed. */
  predicate IsVerdict(e: NetError) {
    e.Horizon? && e.codes.Some? && e.codes.value.transaction == "tx_failed"
  }

  lemma AnswerMoves(t: State, e: NetError)
    requires t.client.Waiting? && !IsVerdict(e)
    ensures Apply(t, Reply(Refused(e))) ==
      Some(t.(client := if Retried(e) then Looping(t.client.envelope, t.client.attempt + 1, Some(e)) else Done(Some(ErrMap(e, Submission)))))
  {
  }

  lemma RetryMoves(t: State)
    requires t.client.Looping? && t.client.last.Some? && Retried(t.client.last.value)
    ensures Apply(t, Iterate).Some? && Apply(t, Iterate).value.log == t.log
    ensures Apply(t, Iterate).value.posts == if t.client.attempt < SUBMIT_ATTEMPTS then t.posts + [t.client.envelope] else t.posts
    ensures Apply(t, Iterate).value.client ==
      if t.client.attempt < SUBMIT_ATTEMPTS then Waiting(t.client.envelope, t.client.attempt)
      else Done(Some(ErrMap(t.client.last.value, Submission)))
  {
  }

  /** A client that gets the same answer from here on ends with it, whatever the
      ledger has done meanwhile: at once, or after its last attempt. */
  lemma {:induction false} EndsWithSameAnswer(s: State, events: seq<Event>, e: NetError) returns (all: seq<Event>)
    requires !IsVerdict(e)
    requires Run(s, events).Some? && Run(s, events).value.client.Waiting?
    requires Run(s, events).value.client.attempt < SUBMIT_ATTEMPTS
    ensures Run(s, all).Some? && Run(s, all).value.client == Done(Some(ErrMap(e, Submission)))
    ensures Run(s, all).value.log == Run(s, events).value.log
    ensures |Run(s, all).value.posts| - |Run(s, events).value.posts| ==
      if Retried(e) then 2 - Run(s, events).value.client.attempt else 0
    decreases SUBMIT_ATTEMPTS - Run(s, events).value.client.attempt
  {
    var t := Run(s, events).value;
    RunOneMore(s, events, Reply(Refused(e)));
    AnswerMoves(t, e);
    all := events + [Reply(Refused(e))];
    if Retried(e) {
      RunOneMore(s, all, Iterate);
      RetryMoves(Run(s, all).value);
      all := all + [Iterate];
      if t.client.attempt + 1 < SUBMIT_ATTEMPTS {
        all := EndsWithSameAnswer(s, all, e);
      }
    }
  }

  predicate EndsWith(seqNum: int, destExists: bool, events: seq<Event>, error: AppError, credits: nat) {
    && Run(Start(seqNum, destExists), events).Some?
    && Run(Start(seqNum, destExists), events).value.client == Done(Some(error))
    && Credits(Run(Start(seqNum, destExists), events).value.log) == credits
  }

  /** Some run of a call that starts at this sequence number ends with this error
      after this many credits. */
  ghost predicate CanEnd(seqNum: int, error: AppError, credits: nat) {
    exists destExists, events :: EndsWith(seqNum, destExists, events, error, credits)
  }

  /** The payment is posted, and delivered or not. */
  lemma Delivered(seqNum: int, credited: bool) returns (events: seq<Event>)
    requires IsInt64(seqNum + 1)
    ensures Run(Start(seqNum, true), events).Some?
    ensures Run(Start(seqNum, true), events).value.client == Waiting(Envelope(Pay, seqNum + 1), 0)
    ensures Credits(Run(Start(seqNum, true), events).value.log) == if credited then 1 else 0
  {
    var start, payment := Start(seqNum, true), Envelope(Pay, seqNum + 1);
    RunOneMore(start, [], SequenceIs(seqNum));
    events := [] + [SequenceIs(seqNum)];
    RunOneMore(start, events, Iterate);
    events := events + [Iterate];
    if credited {
      RunOneMore(start, events, Deliver(payment, Credited));
      events := events + [Deliver(payment, Credited)];
      assert [Entry(payment, Credited)][..0] == [];
    }
  }

  /** Any answer but a verdict can end a call that credited the destination, and one
      that did not. */
  lemma NoVerdictDecidesNothing(seqNum: int, e: NetError, credited: bool)
    requires IsInt64(seqNum + 1) && !IsVerdict(e)
    ensures CanEnd(seqNum, ErrMap(e, Submission), if credited then 1 else 0)
  {
    var start := Start(seqNum, true);
    var posted := Delivered(seqNum, credited);
    var all := EndsWithSameAnswer(start, posted, e);
    assert EndsWith(seqNum, true, all, ErrMap(e, Submission), if credited then 1 else 0);
  }

  lemma RuledOutEndsUncredited(seqNum: int, error: AppError, credits: nat)
    requires RulesOutCredit(error) && CanEnd(seqNum, error, credits)
    ensures credits == 0
  {
    var destExists, events :| EndsWith(seqNum, destExists, events, error, credits);
    assert events + [] == events;
    RuledOutMeansNoCredit(seqNum, destExists, events, [], error);
  }

  /** Among the errors of the network exactly those settle what happened that rule a
      credit out. Any other, be it a timeout of a submission, a connection that broke
      under one, a worn-out sequence number, a status 404 or an answer that cannot be
      decoded, leaves open whether the destination was credited, so a caller who sends
      again may pay twice. */
  lemma NetworkErrorsSettleExactly(seqNum: int, e: NetError, request: Request)
    requires IsInt64(seqNum + 1)
    ensures RulesOutCredit(ErrMap(e, request)) <==> !CanEnd(seqNum, ErrMap(e, request), 1)
    ensures !RulesOutCredit(ErrMap(e, request)) ==> CanEnd(seqNum, ErrMap(e, request), 0)
  {
    if RulesOutCredit(ErrMap(e, request)) {
      if CanEnd(seqNum, ErrMap(e, request), 1) {
        RuledOutEndsUncredited(seqNum, ErrMap(e, request), 1);
      }
    } else {
      // A verdict that is reported with status 404 reads like a missing page.
      var other := if e.Horizon? then (if e.status == 404 then Horizon(404, None) else e) else e;
      assert ErrMap(other, Submission) == ErrMap(e, request);
      NoVerdictDecidesNothing(seqNum, other, true);
      NoVerdictDecidesNothing(seqNum, other, false);
    }
  }

  /** A client that ended with an error ended with one of its own making or with a
      mapped one. */
  ghost predicate EndsMapped(client: Client) {
    client.Done? && client.error.Some? && client.error != Some(NotSent) ==>
      exists e: NetError, request: Request :: ErrMap(e, request) == client.error.value
  }

  lemma ConcludesMapped(kind: Kind, e: NetError, request: Request)
    ensures EndsMapped(Conclude(kind, e, request))
  {
    assert ErrMap(e, request) == ErrMap(e, request);
  }

  lemma StepEndsMapped(s: State, event: Event)
    requires EndsMapped(s.client) && Apply(s, event).Some?
    ensures EndsMapped(Apply(s, event).value.client)
  {
    match event
    case SequenceFails(e) => ConcludesMapped(s.client.kind, e, LookUp);
    case Iterate =>
      if s.client.attempt == SUBMIT_ATTEMPTS {
        ConcludesMapped(s.client.envelope.kind, s.client.last.value, Submission);
      }
    case Reply(answer) =>
      if answer.Refused? {
        ConcludesMapped(s.client.envelope.kind, answer.error, Submission);
      }
    case _ =>
  }

  /** Every error that a run ends with is one of building or signing, or what some
      network error is mapped to. */
  lemma {:induction false} RunEndsMapped(seqNum: int, destExists: bool, events: seq<Event>)
    requires Run(Start(seqNum, destExists), events).Some?
    ensures EndsMapped(Run(Start(seqNum, destExists), events).value.client)
  {
    if events != [] {
      RunEndsMapped(seqNum, destExists, events[..|events| - 1]);
      StepEndsMapped(Run(Start(seqNum, destExists), events[..|events| - 1]).value, events[|events| - 1]);
    }
  }

  lemma FailingToSign(s: State)
    requires s.client.Asking?
    ensures Run(s, [SigningFails]) == Some(s.(client := Done(Some(NotSent))))
  {
  }

  /** An error of building or signing can end a call: here one that sent nothing. */
  lemma BuildingCanFail(seqNum: int)
    ensures CanEnd(seqNum, NotSent, 0)
  {
    FailingToSign(Start(seqNum, true));
    assert EndsWith(seqNum, true, [SigningFails], NotSent, 0);
  }
}
