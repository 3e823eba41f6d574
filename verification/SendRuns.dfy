/** When SendXLM creates the destination's account, when Submit tries again, and what
    each error is reported as: account.go and errors.go step by step. */
module SendRuns {
  import opened Wrappers
  import opened Amounts
  import opened SendProtocol

  /** A payment is followed by a creation exactly when horizon says of it, or of the
      request for its sequence number, that one operation failed for want of a
      destination. No other step of any party starts a creation. */
  lemma FallsBackExactly(s: State, event: Event)
    requires Inv(s) && s.client != Asking(Create) && Apply(s, event).Some?
    ensures Apply(s, event).value.client == Asking(Create) <==>
      || (s.client.Waiting? && s.client.envelope.kind.Pay? && event.Reply? && event.answer.Refused?
          && event.answer.error.Horizon?
          && event.answer.error.codes == Some(Codes("tx_failed", ["op_no_destination"])))
      || (s.client == Asking(Pay) && event.SequenceFails? && event.error.Horizon?
          && event.error.codes == Some(Codes("tx_failed", ["op_no_destination"])))
  {
    assert "tx_bad_seq" != "tx_failed";
  }

  /** Submit tries again exactly after a timeout and after "tx_bad_seq". */
  lemma RetriesExactly(s: State, answer: Answer)
    requires s.client.Waiting? && Apply(s, Reply(answer)).Some?
    ensures Apply(s, Reply(answer)).value.client.Looping? <==>
      answer.Refused? &&
        (answer.error == Timeout
         || (answer.error.Horizon? && answer.error.codes.Some? && answer.error.codes.value.transaction == "tx_bad_seq"))
    ensures Apply(s, Reply(answer)).value.client.Looping? ==>
      Apply(s, Reply(answer)).value.client == Looping(s.client.envelope, s.client.attempt + 1, Some(answer.error))
    ensures Apply(s, Reply(answer)).value.client == Done(None) <==> answer == Accepted
  {
  }

  /** The head of the loop posts the envelope while there have been fewer than three
      attempts, and then gives up. */
  lemma ThreeAttempts(s: State)
    requires Inv(s) && s.client.Looping?
    ensures Apply(s, Iterate).Some?
    ensures s.client.attempt < 3 ==>
      && Apply(s, Iterate).value.client == Waiting(s.client.envelope, s.client.attempt)
      && Apply(s, Iterate).value.posts == s.posts + [s.client.envelope]
    ensures s.client.attempt >= 3 ==>
      && Apply(s, Iterate).value.client.Done? && Apply(s, Iterate).value.posts == s.posts
  {
    assert "tx_bad_seq" != "tx_failed";
  }

  /** A payment and a creation alike are signed with the number after the one that
      horizon reports. */
  lemma SignsNextNumber(s: State, n: int)
    requires s.client.Asking? && IsInt64(n + 1)
    ensures Apply(s, SequenceIs(n)).Some?
    ensures Apply(s, SequenceIs(n)).value.client == Looping(Envelope(s.client.kind, n + 1), 0, None)
    ensures Signed(Apply(s, SequenceIs(n)).value, s.client.kind) == Some(Envelope(s.client.kind, n + 1))
  {
  }

  /** Each kind of error is reported as itself. */
  lemma ErrorsKeepTheirKind(e: NetError, request: Request)
    ensures ErrMap(e, request) == StellarNetworkTimeout(request) <==> e == Timeout
    ensures ErrMap(e, request) == UrlError(request) <==> e == OtherUrlError
    ensures ErrMap(e, request) == Undecodable <==> e == OtherError
    ensures ErrMap(e, request) == DestinationAccountNotFound <==>
      e.Horizon? && e.codes == Some(Codes("tx_failed", ["op_no_destination"]))
    ensures ErrMap(e, request) == ResourceNotFound <==>
      e.Horizon? && e.status == 404 && e.codes != Some(Codes("tx_failed", ["op_no_destination"]))
    ensures forall status, codes :: ErrMap(e, request) == StellarNetworkError(request, status, codes) <==>
      e == Horizon(status, codes) && status != 404 && codes != Some(Codes("tx_failed", ["op_no_destination"]))
  {
  }

  /** A call that ends with an error reports the one that ended it. */
  lemma EndReportsLastError(s: State, event: Event)
    requires Inv(s) && !s.client.Done? && Apply(s, event).Some?
    requires Apply(s, event).value.client.Done? && Apply(s, event).value.client.error.Some?
    ensures Apply(s, event).value.client.error.value ==
      match event
      case SequenceFails(e) => ErrMap(e, LookUp)
      case Reply(Refused(e)) => ErrMap(e, Submission)
      case Iterate => ErrMap(s.client.last.value, Submission)
      case _ => NotSent
  {
  }

  // ------------------------------------------------------- a missing account

  /** The ledger and the client after a payment to an account that does not exist. */
  function PaymentFailed(seqNum: int): State {
    var pay := Envelope(Pay, seqNum + 1);
    State(seqNum + 1, false, [Entry(pay, FailedWith(["op_no_destination"]))], {pay}, Asking(Create), Some(pay), None, [pay])
  }

  /** The same after the creation that follows it. */
  function AccountCreated(seqNum: int): State {
    var pay, create := Envelope(Pay, seqNum + 1), Envelope(Create, seqNum + 2);
    State(seqNum + 2, true, [Entry(pay, FailedWith(["op_no_destination"])), Entry(create, Credited)], {pay, create},
      Done(None), Some(pay), Some(create), [pay, create])
  }

  /** The state after the client has posted its envelope and the ledger applied it. */
  function AfterPost(s: State, result: SendProtocol.Result): State
    requires s.client.Looping?
  {
    s.(client := Waiting(s.client.envelope, 0), sent := s.sent + {s.client.envelope}, posts := s.posts + [s.client.envelope],
       seqNum := s.seqNum + 1, destExists := s.destExists || result.Credited?, log := s.log + [Entry(s.client.envelope, result)])
  }

  lemma PostedAndApplied(s: State, events: seq<Event>, result: SendProtocol.Result, t: State) returns (all: seq<Event>)
    requires Run(t, events) == Some(s) && s.client.Looping? && s.client.attempt == 0
    requires s.client.envelope.seqNum == s.seqNum + 1 && CanResult(s, s.client.envelope, result)
    ensures Run(t, all) == Some(AfterPost(s, result))
  {
    RunOneMore(t, events, Iterate);
    RunOneMore(t, events + [Iterate], Deliver(s.client.envelope, result));
    all := events + [Iterate] + [Deliver(s.client.envelope, result)];
  }

  lemma PaymentPosted(seqNum: int, signed: State)
    requires IsInt64(seqNum + 1) && signed == Sign(Start(seqNum, false), Pay, seqNum)
    ensures signed.client == Looping(Envelope(Pay, seqNum + 1), 0, None) && signed.seqNum == seqNum
    ensures AfterPost(signed, FailedWith(["op_no_destination"])) ==
      PaymentFailed(seqNum).(client := Waiting(Envelope(Pay, seqNum + 1), 0))
  {
    var pay := Envelope(Pay, seqNum + 1);
    assert signed.client == Looping(pay, 0, None);
    assert {} + {pay} == {pay} && [] + [pay] == [pay];
  }

  lemma CreationPosted(seqNum: int, signed: State)
    requires IsInt64(seqNum + 2) && signed == Sign(PaymentFailed(seqNum), Create, seqNum + 1)
    ensures signed.client == Looping(Envelope(Create, seqNum + 2), 0, None)
    ensures signed.seqNum == seqNum + 1 && !signed.destExists
    ensures AfterPost(signed, Credited) == AccountCreated(seqNum).(client := Waiting(Envelope(Create, seqNum + 2), 0))
  {
    var pay, create := Envelope(Pay, seqNum + 1), Envelope(Create, seqNum + 2);
    assert signed.client == Looping(create, 0, None);
    assert {pay} + {create} == {pay, create} && [pay] + [create] == [pay, create];
  }

  lemma PaymentRefused(seqNum: int)
    ensures var pay := Envelope(Pay, seqNum + 1);
      Apply(PaymentFailed(seqNum).(client := Waiting(pay, 0)),
            Reply(Refused(Horizon(400, Some(Codes("tx_failed", ["op_no_destination"])))))) == Some(PaymentFailed(seqNum))
  {
    assert PaymentFailed(seqNum).log[0] == Entry(Envelope(Pay, seqNum + 1), FailedWith(["op_no_destination"]));
  }

  lemma CreationAccepted(seqNum: int)
    ensures var create := Envelope(Create, seqNum + 2);
      Apply(AccountCreated(seqNum).(client := Waiting(create, 0)), Reply(Accepted)) == Some(AccountCreated(seqNum))
  {
    assert AccountCreated(seqNum).log[1] == Entry(Envelope(Create, seqNum + 2), Credited);
  }

  lemma PaymentFindsNobody(seqNum: int) returns (events: seq<Event>)
    requires IsInt64(seqNum + 1)
    ensures Run(Start(seqNum, false), events) == Some(PaymentFailed(seqNum))
  {
    var start, answer := Start(seqNum, false), Refused(Horizon(400, Some(Codes("tx_failed", ["op_no_destination"]))));
    RunOneMore(start, [], SequenceIs(seqNum));
    var signed := Sign(start, Pay, seqNum);
    PaymentPosted(seqNum, signed);
    events := PostedAndApplied(signed, [] + [SequenceIs(seqNum)], FailedWith(["op_no_destination"]), start);
    PaymentRefused(seqNum);
    RunOneMore(start, events, Reply(answer));
    events := events + [Reply(answer)];
  }

  lemma CreationSucceeds(seqNum: int, start: State, before: seq<Event>) returns (events: seq<Event>)
    requires IsInt64(seqNum + 2) && Run(start, before) == Some(PaymentFailed(seqNum))
    ensures Run(start, events) == Some(AccountCreated(seqNum))
  {
    RunOneMore(start, before, SequenceIs(seqNum + 1));
    var signed := Sign(PaymentFailed(seqNum), Create, seqNum + 1);
    CreationPosted(seqNum, signed);
    events := PostedAndApplied(signed, before + [SequenceIs(seqNum + 1)], Credited, start);
    CreationAccepted(seqNum);
    RunOneMore(start, events, Reply(Accepted));
    events := events + [Reply(Accepted)];
  }

  lemma EndsCredited(seqNum: int, events: seq<Event>)
    requires Run(Start(seqNum, false), events) == Some(AccountCreated(seqNum))
    ensures Credits(AccountCreated(seqNum).log) == 1
  {
    assert events + [] == events;
    SuccessMeansOneCredit(seqNum, false, events, []);
  }

  /** Sending to an account that does not exist can end well: the payment fails, an
      account is created under the next sequence number, and the destination is
      credited once. */
  lemma MissingDestinationIsCreated(seqNum: int) returns (events: seq<Event>)
    requires IsInt64(seqNum + 1) && IsInt64(seqNum + 2)
    ensures Run(Start(seqNum, false), events).Some?
    ensures var s := Run(Start(seqNum, false), events).value;
      && s.client == Done(None) && Credits(s.log) == 1 && s.destExists
      && s.pay == Some(Envelope(Pay, seqNum + 1)) && s.create == Some(Envelope(Create, seqNum + 2))
      && s.posts == [Envelope(Pay, seqNum + 1), Envelope(Create, seqNum + 2)]
  {
    var paid := PaymentFindsNobody(seqNum);
    events := CreationSucceeds(seqNum, Start(seqNum, false), paid);
    EndsCredited(seqNum, events);
  }
}
