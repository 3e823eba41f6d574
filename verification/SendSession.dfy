/** SendXLM, paymentXLM, createAccountXLM and Submit of account.go as they are written,
    each statement being a step of the protocol. What the network answers and what
    happens elsewhere is arbitrary. */
module SendSession {
  import opened Wrappers
  import opened Amounts
  import opened SendProtocol

  /** What asking horizon for the sequence number, and signing, comes to. */
  datatype Signing = Sequence(n: int) | NoSequence(error: NetError) | NotSigned

  function SigningEvent(outcome: Signing): Event {
    match outcome
    case Sequence(n) => SequenceIs(n)
    case NoSequence(e) => SequenceFails(e)
    case NotSigned => SigningFails
  }

  /** Where an answer leaves the client. */
  function Answered(envelope: Envelope, attempt: nat, answer: Answer): Client {
    match answer
    case Accepted => Done(None)
    case Refused(e) =>
      if Retried(e) then Looping(envelope, attempt + 1, Some(e)) else Conclude(envelope.kind, e, Submission)
  }

  lemma ReplyMoves(s: State, answer: Answer)
    requires s.client.Waiting? && Truthful(s, s.client.envelope, answer)
    ensures Apply(s, Reply(answer)) == Some(s.(client := Answered(s.client.envelope, s.client.attempt, answer)))
  {
  }

  /** What an error of Submit means to SendXLM. */
  function Ended(kind: Kind, error: Option<AppError>): Client {
    if kind.Pay? && error == Some(DestinationAccountNotFound) then Asking(Create) else Done(error)
  }

  /** The refusals of the two checks at the head of SendXLM. */
  predicate IsRefusal(e: AppError) {
    e.MemoTooLong? || e.BadAmount?
  }

  function Copies(envelope: Envelope, n: nat): (r: seq<Envelope>)
    ensures |r| == n && forall i :: 0 <= i < n ==> r[i] == envelope
  {
    seq(n, _ => envelope)
  }

  lemma {:induction false} CountCopies(posts: seq<Envelope>, envelope: Envelope, n: nat, kind: Kind)
    ensures Count(posts + Copies(envelope, n), kind) == Count(posts, kind) + (if envelope.kind == kind then n else 0)
  {
    if n == 0 {
      assert posts + Copies(envelope, 0) == posts;
    } else {
      CountCopies(posts, envelope, n - 1, kind);
      CountAppend(posts + Copies(envelope, n - 1), envelope, kind);
      assert posts + Copies(envelope, n) == posts + Copies(envelope, n - 1) + [envelope];
    }
  }

  /** The posts of each kind after a payment or a creation went through, or failed. */
  predicate Posted(before: seq<Envelope>, after: seq<Envelope>, kind: Kind, attempt: nat, error: Option<AppError>) {
    && (forall other: Kind :: other != kind ==> Count(after, other) == Count(before, other))
    && (error.None? ==> Count(after, kind) == Count(before, kind) + attempt + 1)
    && (attempt > 0 ==> Count(after, kind) > Count(before, kind))
  }

  lemma CopiesPosted(before: seq<Envelope>, envelope: Envelope, attempt: nat, error: Option<AppError>)
    requires error.None? ==> attempt < 3
    ensures Posted(before, before + Copies(envelope, if attempt < 3 then attempt + 1 else 3), envelope.kind, attempt, error)
  {
    CountCopies(before, envelope, if attempt < 3 then attempt + 1 else 3, Pay);
    CountCopies(before, envelope, if attempt < 3 then attempt + 1 else 3, Create);
  }

  /** The books at the end of a call. */
  predicate Accounted(s: State, error: Option<AppError>) {
    && Credits(s.log) <= 1 && (error.None? ==> Credits(s.log) == 1)
    && (error.Some? && RulesOutCredit(error.value) ==> Credits(s.log) == 0)
    && Count(s.posts, Pay) <= 3 && Count(s.posts, Create) <= 3
  }

  lemma EndIsAccounted(start: State, events: seq<Event>, error: Option<AppError>)
    requires start == Start(start.seqNum, start.destExists) && Run(start, events).Some?
    requires Run(start, events).value.client == Done(error)
    ensures Accounted(Run(start, events).value, error)
  {
    assert events + [] == events;
    CreditedAtMostOnce(start.seqNum, start.destExists, events);
    if error.None? {
      SuccessMeansOneCredit(start.seqNum, start.destExists, events, []);
    } else if RulesOutCredit(error.value) {
      RuledOutMeansNoCredit(start.seqNum, start.destExists, events, [], error.value);
    }
  }

  /** Some call of SendXLM with these arguments, starting at this sequence number,
      returns this error after this many credits. */
  ghost predicate CanReturn(seqNum: int, memoText: string, amount: string, error: AppError, credits: nat) {
    if |memoText| > 28 then error == MemoTooLong && credits == 0
    else
      match ParseStellarAmount(amount)
      case Failure(e) => error == BadAmount(e) && credits == 0
      case Success(_) => CanEnd(seqNum, error, credits)
  }

  class Session {
    var st: State
    ghost var start: State
    ghost var events: seq<Event>

    /** The state is the one this run of the protocol leads to. */
    ghost predicate Valid()
      reads this
    {
      Run(start, events) == Some(st)
    }

    constructor (seqNum: int, destExists: bool)
      ensures Valid() && st == start == Start(seqNum, destExists) && events == []
    {
      st := Start(seqNum, destExists);
      start := Start(seqNum, destExists);
      events := [];
    }

    method Step(event: Event)
      requires Valid() && Apply(st, event).Some?
      modifies this
      ensures Valid() && start == old(start) && events == old(events) + [event]
      ensures Some(st) == Apply(old(st), event)
    {
      st := Apply(st, event).value;
      RunOneMore(start, events, event);
      events := events + [event];
    }

    /** Any number of deliveries, and of other people's transactions. */
    method Elsewhere()
      requires Valid()
      modifies this
      ensures Valid() && start == old(start) && old(events) <= events
      ensures st.client == old(st.client) && st.posts == old(st.posts)
    {
      var script: seq<Event> := *;
      for i := 0 to |script|
        invariant Valid() && start == old(start) && old(events) <= events
        invariant st.client == old(st.client) && st.posts == old(st.posts)
      {
        if (script[i].Deliver? || script[i].Others?) && Apply(st, script[i]).Some? {
          Step(script[i]);
        }
      }
    }

    /** One post of the envelope, and horizon's answer. */
    method SubmitTransactionXDR(envelope: Envelope) returns (answer: Answer)
      requires Valid() && st.client.Looping? && st.client.envelope == envelope && st.client.attempt < SUBMIT_ATTEMPTS
      modifies this
      ensures Valid() && start == old(start) && old(events) <= events
      ensures st.posts == old(st.posts) + [envelope]
      ensures st.client == Answered(envelope, old(st.client.attempt), answer)
    {
      Step(Iterate);
      Elsewhere();
      answer := *;
      if !Truthful(st, envelope, answer) {
        answer := Refused(OtherError);
      }
      ReplyMoves(st, answer);
      Step(Reply(answer));
    }

    method Submit(envelope: Envelope) returns (attempt: nat, error: Option<AppError>)
      requires Valid() && st.client == Looping(envelope, 0, None)
      modifies this
      ensures Valid() && start == old(start) && old(events) <= events
      ensures st.client == Ended(envelope.kind, error) && (error.Some? ==> !IsRefusal(error.value))
      ensures attempt <= 3 && (error.None? ==> attempt < 3)
      ensures st.posts == old(st.posts) + Copies(envelope, if attempt < 3 then attempt + 1 else 3)
    {
      ghost var before := st.posts;
      var last := None;
      for i := 0 to SUBMIT_ATTEMPTS
        invariant Valid() && start == old(start) && old(events) <= events
        invariant st.client == Looping(envelope, i, last) && (i > 0 ==> last.Some?)
        invariant st.posts == before + Copies(envelope, i)
      {
        var answer := SubmitTransactionXDR(envelope);
        assert st.posts == before + Copies(envelope, i + 1);
        if answer.Refused? {
          last := Some(answer.error);
          if Retried(answer.error) {
            continue;
          }
          return i, Some(ErrMap(answer.error, Submission));
        }
        return i, None;
      }
      Step(Iterate);
      return SUBMIT_ATTEMPTS, Some(ErrMap(last.value, Submission));
    }

    /** paymentXLM and createAccountXLM, which differ in the operation they sign. */
    method SignAndSubmit(kind: Kind) returns (attempt: nat, error: Option<AppError>)
      requires Valid() && st.client == Asking(kind)
      modifies this
      ensures Posted(old(st.posts), st.posts, kind, attempt, error)
      ensures Valid() && start == old(start) && old(events) <= events
      ensures st.client == Ended(kind, error) && (error.Some? ==> !IsRefusal(error.value))
      ensures attempt <= 3 && (error.None? ==> attempt < 3)
    {
      Elsewhere();
      var outcome: Signing := *;
      Step(SigningEvent(outcome));
      match outcome
      case Sequence(n) =>
        var envelope := st.client.envelope;
        attempt, error := Submit(envelope);
        CopiesPosted(old(st.posts), envelope, attempt, error);
      case NoSequence(e) => return 0, Some(ErrMap(e, LookUp));
      case NotSigned => return 0, Some(NotSent);
    }

    /** The memo and the amount are looked at before anything is sent. */
    method SendXLM(amount: string, memoText: string) returns (attempt: nat, error: Option<AppError>)
      requires Valid() && events == [] && start == Start(start.seqNum, start.destExists)
      modifies this
      ensures Valid() && start == old(start)
      ensures error == Some(MemoTooLong) <==> |memoText| > 28
      ensures |memoText| <= 28 ==>
        ((error.Some? && error.value.BadAmount?) <==> ParseStellarAmount(amount).Failure?)
      ensures |memoText| > 28 || ParseStellarAmount(amount).Failure? ==> events == []
      ensures |memoText| <= 28 && ParseStellarAmount(amount).Success? ==>
        st.client == Done(error) && Accounted(st, error)
      ensures attempt <= 3 && (error.None? ==> attempt < 3)
      ensures error.None? ==>
        attempt + 1 == if Count(st.posts, Create) > 0 then Count(st.posts, Create) else Count(st.posts, Pay)
      ensures error.Some? && Count(st.posts, Create) == 0 ==> attempt == 0
      ensures error.Some? ==> CanReturn(start.seqNum, memoText, amount, error.value, Credits(st.log))
    {
      if |memoText| > MAX_MEMO {
        return 0, Some(MemoTooLong);
      }
      var parsed := ParseStellarAmount(amount);
      if parsed.Failure? {
        return 0, Some(BadAmount(parsed.error));
      }
      attempt, error := SignAndSubmit(Pay);
      if error.Some? {
        if error.value != DestinationAccountNotFound {
          attempt := 0;
        } else {
          attempt, error := SignAndSubmit(Create);
        }
      }
      EndIsAccounted(start, events, error);
      assert error.Some? ==> EndsWith(start.seqNum, start.destExists, events, error.value, Credits(st.log));
    }
  }

  /** The two refusals, and what rules a credit out. */
  predicate Settles(e: AppError) {
    IsRefusal(e) || RulesOutCredit(e)
  }

  lemma EndedIsMapped(seqNum: int, error: AppError, credits: nat)
    requires CanEnd(seqNum, error, credits)
    ensures error == NotSent || exists e: NetError, request: Request :: ErrMap(e, request) == error
  {
    var destExists, events :| EndsWith(seqNum, destExists, events, error, credits);
    RunEndsMapped(seqNum, destExists, events);
  }

  lemma EndsSettleExactly(seqNum: int, error: AppError, credits: nat)
    requires IsInt64(seqNum + 1) && CanEnd(seqNum, error, credits)
    ensures Settles(error) == RulesOutCredit(error)
    ensures RulesOutCredit(error) ==> forall c: nat :: CanEnd(seqNum, error, c) ==> c == 0
    ensures !RulesOutCredit(error) ==> CanEnd(seqNum, error, 0) && CanEnd(seqNum, error, 1)
  {
    EndedIsMapped(seqNum, error, credits);
    if error != NotSent {
      var e: NetError, request: Request :| ErrMap(e, request) == error;
      NetworkErrorsSettleExactly(seqNum, e, request);
    }
    if RulesOutCredit(error) {
      forall c: nat | CanEnd(seqNum, error, c) ensures c == 0 {
        RuledOutEndsUncredited(seqNum, error, c);
      }
    }
  }

  /** Of all the errors SendXLM can return, exactly these settle the outcome, namely
      that the destination was not credited: its own refusals, errors of building or
      signing, errors that name the request for a sequence number, and horizon's
      verdict. Each of the others can come with one credit and with none. */
  lemma ErrorsSettleExactly(seqNum: int, memoText: string, amount: string, error: AppError, credits: nat)
    requires IsInt64(seqNum + 1) && CanReturn(seqNum, memoText, amount, error, credits)
    ensures Settles(error) <==> forall c: nat :: CanReturn(seqNum, memoText, amount, error, c) ==> c == 0
    ensures !Settles(error) ==>
      CanReturn(seqNum, memoText, amount, error, 0) && CanReturn(seqNum, memoText, amount, error, 1)
  {
    if |memoText| <= 28 && ParseStellarAmount(amount).Success? {
      EndsSettleExactly(seqNum, error, credits);
      if !RulesOutCredit(error) {
        assert CanReturn(seqNum, memoText, amount, error, 1);
      }
    }
  }
}
