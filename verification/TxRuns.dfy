/** Whole runs of the transaction builder: what a sequence of Add* calls amounts to,
    said without following the calls one by one. */
module TxRuns {
  import opened Wrappers
  import opened Addresses
  import opened TxBuilder

  /** The builder after a sequence of calls. */
  function Run(body: MergeBody, calls: seq<Call>): Building {
    if calls == [] then EMPTY
    else Step(body, Run(body, calls[..|calls| - 1]), calls[|calls| - 1])
  }

  // The calls of each kind, in order. Calls with a nil id or nil bounds ask for nothing.

  function OpsOf(calls: seq<Call>): seq<OpCall> {
    if calls == [] then []
    else
      var front, last := OpsOf(calls[..|calls| - 1]), calls[|calls| - 1];
      if last.OnOps? then front + [last.op] else front
  }

  function MemosOf(calls: seq<Call>): (memos: seq<MemoCall>)
    ensures forall i :: 0 <= i < |memos| ==> memos[i] != AddMemoID(None)
  {
    if calls == [] then []
    else
      var front, last := MemosOf(calls[..|calls| - 1]), calls[|calls| - 1];
      if last.OnMemo? && last.memo != AddMemoID(None) then front + [last.memo] else front
  }

  function TimesOf(calls: seq<Call>): (times: seq<TimeCall>)
    ensures forall i :: 0 <= i < |times| ==> times[i] != AddBuiltTimeBounds(None)
  {
    if calls == [] then []
    else
      var front, last := TimesOf(calls[..|calls| - 1]), calls[|calls| - 1];
      if last.OnTime? && last.time != AddBuiltTimeBounds(None) then front + [last.time] else front
  }

  /** At most a hundred operations, each with usable arguments. */
  predicate OpsFit(body: MergeBody, ops: seq<OpCall>) {
    && |ops| <= 100
    && forall i :: 0 <= i < |ops| ==> Encode(body, ops[i]).Success?
  }

  function MemoSetBy(call: MemoCall): Memo {
    match call
    case AddMemo(None) => MemoNone
    case AddMemo(Some(m)) => m
    case AddMemoText(text) => MemoText(text)
    case AddMemoID(None) => MemoNone
    case AddMemoID(Some(id)) => MemoID(id)
  }

  /** Only the last memo call may set a memo, and none may be of unknown type. */
  predicate MemosFit(memos: seq<MemoCall>) {
    && (forall i :: 0 <= i < |memos| - 1 ==> MemoSetBy(memos[i]) == MemoNone)
    && (forall i :: 0 <= i < |memos| ==> memos[i] != AddMemo(Some(MemoOfUnknownType)))
  }

  function FinalMemo(memos: seq<MemoCall>): Memo {
    if memos == [] then MemoNone else MemoSetBy(memos[|memos| - 1])
  }

  predicate TimesFit(times: seq<TimeCall>) {
    |times| <= 1
  }

  function FinalTimes(times: seq<TimeCall>): Option<TimeBounds> {
    if times == [] then None
    else
      match times[0]
      case AddTimeBounds(min, max) => Some(TimeBounds(min, max))
      case AddBuiltTimeBounds(bounds) => bounds
  }

  predicate Fits(body: MergeBody, calls: seq<Call>) {
    OpsFit(body, OpsOf(calls)) && MemosFit(MemosOf(calls)) && TimesFit(TimesOf(calls))
  }

  /** `operations` are the ones asked for, one per call and in order. */
  predicate AreRequested(body: MergeBody, operations: seq<Operation>, ops: seq<OpCall>) {
    && |operations| == |ops|
    && forall i :: 0 <= i < |ops| ==> Encode(body, ops[i]) == Success(operations[i])
  }

  lemma RunAppended(body: MergeBody, calls: seq<Call>, c: Call)
    ensures Run(body, calls + [c]) == Step(body, Run(body, calls), c)
  {
    assert (calls + [c])[..|calls|] == calls;
  }

  lemma CallsAppended(calls: seq<Call>, c: Call)
    ensures OpsOf(calls + [c]) == if c.OnOps? then OpsOf(calls) + [c.op] else OpsOf(calls)
    ensures MemosOf(calls + [c]) == if c.OnMemo? && c.memo != AddMemoID(None) then MemosOf(calls) + [c.memo] else MemosOf(calls)
    ensures TimesOf(calls + [c]) == if c.OnTime? && c.time != AddBuiltTimeBounds(None) then TimesOf(calls) + [c.time] else TimesOf(calls)
  {
    assert (calls + [c])[..|calls|] == calls;
  }

  /** What a builder holds after these requests. */
  predicate Holds(body: MergeBody, b: Building, ops: seq<OpCall>, memos: seq<MemoCall>, times: seq<TimeCall>) {
    && (b.err.None? <==> OpsFit(body, ops) && MemosFit(memos) && TimesFit(times))
    && (b.err.None? ==>
          AreRequested(body, b.operations, ops) && b.memo == FinalMemo(memos) && b.timeBounds == FinalTimes(times))
  }

  lemma OpsExtended(body: MergeBody, ops: seq<OpCall>, c: OpCall)
    ensures OpsFit(body, ops + [c]) <==>
      OpsFit(body, ops) && |ops| < MAX_OPERATIONS && Encode(body, c).Success?
  {
    var more := ops + [c];
    assert more[|ops|] == c;
    assert forall i :: 0 <= i < |ops| ==> more[i] == ops[i];
  }

  lemma RequestedExtended(body: MergeBody, operations: seq<Operation>, ops: seq<OpCall>, c: OpCall)
    requires AreRequested(body, operations, ops) && Encode(body, c).Success?
    ensures AreRequested(body, operations + [Encode(body, c).value], ops + [c])
  {
  }

  lemma OpHolds(body: MergeBody, b: Building, ops: seq<OpCall>, memos: seq<MemoCall>, times: seq<TimeCall>, c: OpCall)
    requires Holds(body, b, ops, memos, times)
    ensures Holds(body, StepOp(body, b, c), ops + [c], memos, times)
  {
    OpsExtended(body, ops, c);
    if b.err.None? && Encode(body, c).Success? {
      RequestedExtended(body, b.operations, ops, c);
    }
  }

  /** A memo call that says something is refused when there is a memo already or when
      its own is of unknown type; else it decides. */
  lemma SetMemo(b: Building, c: MemoCall)
    requires c != AddMemoID(None)
    ensures StepMemo(b, c).operations == b.operations && StepMemo(b, c).timeBounds == b.timeBounds
    ensures StepMemo(b, c).err.None? <==> b.err.None? && b.memo == MemoNone && c != AddMemo(Some(MemoOfUnknownType))
    ensures StepMemo(b, c).err.None? ==> StepMemo(b, c).memo == MemoSetBy(c)
  {
  }

  lemma MemosExtended(memos: seq<MemoCall>, c: MemoCall)
    ensures MemosFit(memos + [c]) <==>
      MemosFit(memos) && FinalMemo(memos) == MemoNone && c != AddMemo(Some(MemoOfUnknownType))
    ensures FinalMemo(memos + [c]) == MemoSetBy(c)
  {
    var more := memos + [c];
    assert more[|memos|] == c;
    assert forall i :: 0 <= i < |memos| ==> more[i] == memos[i];
    if memos != [] {
      assert MemosFit(more) ==> MemoSetBy(more[|memos| - 1]) == MemoNone;
    }
  }

  lemma MemoHolds(body: MergeBody, b: Building, ops: seq<OpCall>, memos: seq<MemoCall>, times: seq<TimeCall>, c: MemoCall)
    requires Holds(body, b, ops, memos, times)
    ensures Holds(body, StepMemo(b, c), ops, if c == AddMemoID(None) then memos else memos + [c], times)
  {
    if c != AddMemoID(None) {
      SetMemo(b, c);
      MemosExtended(memos, c);
    }
  }

  lemma TimeHolds(body: MergeBody, b: Building, ops: seq<OpCall>, memos: seq<MemoCall>, times: seq<TimeCall>, c: TimeCall)
    requires Holds(body, b, ops, memos, times)
    requires forall i :: 0 <= i < |times| ==> times[i] != AddBuiltTimeBounds(None)
    ensures Holds(body, StepTime(b, c), ops, memos, if c == AddBuiltTimeBounds(None) then times else times + [c])
  {
    if times != [] && c != AddBuiltTimeBounds(None) {
      assert |times + [c]| > 1;
    }
  }

  lemma OneMoreHolds(body: MergeBody, front: seq<Call>, last: Call)
    requires Holds(body, Run(body, front), OpsOf(front), MemosOf(front), TimesOf(front))
    ensures var calls := front + [last]; Holds(body, Run(body, calls), OpsOf(calls), MemosOf(calls), TimesOf(calls))
  {
    RunAppended(body, front, last);
    CallsAppended(front, last);
    var b, ops, memos, times := Run(body, front), OpsOf(front), MemosOf(front), TimesOf(front);
    match last
    case OnOps(c) => OpHolds(body, b, ops, memos, times, c);
    case OnMemo(c) => MemoHolds(body, b, ops, memos, times, c);
    case OnTime(c) => TimeHolds(body, b, ops, memos, times, c);
  }

  lemma {:induction false} RunHolds(body: MergeBody, calls: seq<Call>)
    ensures Holds(body, Run(body, calls), OpsOf(calls), MemosOf(calls), TimesOf(calls))
  {
    if calls != [] {
      var front, last := calls[..|calls| - 1], calls[|calls| - 1];
      RunHolds(body, front);
      OneMoreHolds(body, front, last);
      assert calls == front + [last];
    }
  }

  /** A run has no error exactly when its calls fit, and then holds what was asked. */
  lemma {:induction false} RunHoldsRequests(body: MergeBody, calls: seq<Call>)
    ensures Run(body, calls).err.None? <==> Fits(body, calls)
    ensures Fits(body, calls) ==>
      && AreRequested(body, Run(body, calls).operations, OpsOf(calls))
      && Run(body, calls).memo == FinalMemo(MemosOf(calls))
      && Run(body, calls).timeBounds == FinalTimes(TimesOf(calls))
  {
    RunHolds(body, calls);
  }

  // --------------------------------------------------------------- signing

  /** A signed transaction holds between one and a hundred operations, exactly the
      requested ones; signing can succeed only for calls that fit. */
  lemma SignedIsRequested(body: MergeBody, calls: seq<Call>, h: Header, from: SeedStr, sequence: Result<int, TxError>)
    requires SignBuilding(Run(body, calls), h, from, sequence).Success?
    ensures Fits(body, calls)
    ensures var t := SignBuilding(Run(body, calls), h, from, sequence).value.transaction;
      && 1 <= |t.operations| <= 100
      && AreRequested(body, t.operations, OpsOf(calls))
      && t.memo == FinalMemo(MemosOf(calls))
      && t.timeBounds == FinalTimes(TimesOf(calls))
  {
    RunHoldsRequests(body, calls);
  }

  /** Nothing moves after the first error. */
  lemma {:induction false} ErrorSticks(body: MergeBody, calls: seq<Call>, more: seq<Call>)
    requires Run(body, calls).err.Some?
    ensures Run(body, calls + more) == Run(body, calls)
  {
    if more == [] {
      assert calls + more == calls;
    } else {
      ErrorSticks(body, calls, more[..|more| - 1]);
      assert (calls + more)[..|calls + more| - 1] == calls + more[..|more| - 1];
    }
  }

  /** The error of the first call that no longer fits. */
  function FirstError(body: MergeBody, before: seq<Call>, call: Call): TxError {
    match call
    case OnOps(c) =>
      if |OpsOf(before)| == MAX_OPERATIONS then TxOpFull
      else if Encode(body, c).Failure? then Encode(body, c).error
      else NoOps
    case OnMemo(c) => if FinalMemo(MemosOf(before)) != MemoNone then MemoExists else UnknownMemoType
    case OnTime(_) => TimeBoundsExist
  }

  lemma OpRaises(body: MergeBody, b: Building, ops: seq<OpCall>, c: OpCall)
    requires b.err.None? && |b.operations| == |ops| && OpsFit(body, ops) && !OpsFit(body, ops + [c])
    ensures StepOp(body, b, c).err == Some(if |ops| == MAX_OPERATIONS then TxOpFull else Encode(body, c).error)
  {
    OpsExtended(body, ops, c);
  }

  lemma MemoRaises(b: Building, memos: seq<MemoCall>, c: MemoCall)
    requires b.err.None? && b.memo == FinalMemo(memos) && c != AddMemoID(None)
    requires MemosFit(memos) && !MemosFit(memos + [c])
    ensures StepMemo(b, c).err == Some(if FinalMemo(memos) != MemoNone then MemoExists else UnknownMemoType)
  {
    MemosExtended(memos, c);
  }

  lemma FirstErrorIsRaised(body: MergeBody, before: seq<Call>, call: Call)
    requires Fits(body, before) && !Fits(body, before + [call])
    ensures Run(body, before + [call]).err == Some(FirstError(body, before, call))
  {
    RunHolds(body, before);
    RunAppended(body, before, call);
    CallsAppended(before, call);
    var b, ops, memos, times := Run(body, before), OpsOf(before), MemosOf(before), TimesOf(before);
    match call
    case OnOps(c) => OpRaises(body, b, ops, c);
    case OnMemo(c) => MemoRaises(b, memos, c);
    case OnTime(c) =>
  }

  /** Signing reports the first error raised, whatever calls follow it. */
  lemma FirstErrorIsReported(body: MergeBody, before: seq<Call>, call: Call, more: seq<Call>,
                             h: Header, from: SeedStr, sequence: Result<int, TxError>)
    requires Fits(body, before) && !Fits(body, before + [call])
    ensures SignBuilding(Run(body, before + [call] + more), h, from, sequence) == Failure(FirstError(body, before, call))
  {
    FirstErrorIsRaised(body, before, call);
    ErrorSticks(body, before + [call], more);
  }

  /** Every run that fails has such a first call. */
  lemma {:induction false} SomeCallIsFirst(body: MergeBody, calls: seq<Call>) returns (k: nat)
    requires !Fits(body, calls)
    ensures k < |calls| && Fits(body, calls[..k]) && !Fits(body, calls[..k] + [calls[k]])
  {
    var front := calls[..|calls| - 1];
    if Fits(body, front) {
      k := |calls| - 1;
      assert front + [calls[k]] == calls;
    } else {
      k := SomeCallIsFirst(body, front);
      assert front[..k] == calls[..k];
    }
  }

  /** Interleavings that keep the order within each kind of call are as good as each
      other: both sign or neither does, and what they sign is the same. */
  lemma InterleavingsAgree(body: MergeBody, a: seq<Call>, b: seq<Call>, h: Header, from: SeedStr, sequence: Result<int, TxError>)
    requires OpsOf(a) == OpsOf(b) && MemosOf(a) == MemosOf(b) && TimesOf(a) == TimesOf(b)
    ensures var ra, rb := SignBuilding(Run(body, a), h, from, sequence), SignBuilding(Run(body, b), h, from, sequence);
      (ra.Success? <==> rb.Success?) && (ra.Success? ==> ra == rb)
  {
    RunHoldsRequests(body, a);
    RunHoldsRequests(body, b);
    if Fits(body, a) {
      assert Run(body, a).operations == Run(body, b).operations;
    }
  }

  // ------------------------------------------------------------------ fees

  const FEE_BOUND: nat := 42_949_672

  lemma FeeFits(f: nat, n: nat)
    requires f <= FEE_BOUND && n <= MAX_OPERATIONS
    ensures FeeOf(f, n) == f * n
  {
    assert f * n <= FEE_BOUND * MAX_OPERATIONS by {
      assert f * n <= FEE_BOUND * n;
    }
  }

  /** The written fee is base fee times operations for every size of transaction,
      exactly up to this base fee; one more and a full transaction wraps. */
  lemma FeeIsExactUpToBound(baseFee: nat)
    requires baseFee < 0x1_0000_0000_0000_0000
    ensures (forall n :: 1 <= n <= 100 ==>
        FeeOf(EffectiveBaseFee(baseFee), n) == (if baseFee < 100 then 100 else baseFee) * n)
      <==> baseFee <= 42_949_672
  {
    var f := EffectiveBaseFee(baseFee);
    if baseFee <= FEE_BOUND {
      forall n | 1 <= n <= MAX_OPERATIONS
        ensures FeeOf(f, n) == f * n
      {
        FeeFits(f, n);
      }
    } else {
      assert FeeOf(f, MAX_OPERATIONS) < 0x1_0000_0000;
    }
  }
}
