/** AccountMergeTransaction and RelocateTransaction (account.go): compiling what
    horizon says about two accounts into the calls of a transaction. Each of the
    source's four account loads is an argument. */
module AccountPlans {
  import opened Wrappers
  import opened Addresses
  import opened Assets
  import opened TxBuilder
  import opened TxRuns

  /** One entry of an account's balance list, which doubles as its trustline list. */
  datatype Balance = Balance(assetType: string, code: string, issuer: AddressStr, amount: string)
  {
    predicate IsNative() {
      assetType == "native"
    }

    predicate IsFunded() {
      !IsNative() && amount != "0.0000000"
    }
  }

  datatype LoadError = AccountNotFound | LoadFailed

  type Load = Result<seq<Balance>, LoadError>

  /** The loads in the order the source makes them: whether the target exists, the
      source's balances, the target's trustlines, the source's trustlines. */
  datatype Snapshot = Snapshot(target: Load, balances: Load, targetLines: Load, lines: Load)

  datatype PlanError =
    | BadSourceSeed
    | LoadProblem(loadError: LoadError)
    | AssetProblem(assetError: AssetError)
    | NoTrustline(code: string, issuer: AddressStr)
    | BadIssuer
    | TxProblem(txError: TxError)

  const DEFAULT_MEMO: string := "via keybase"

  // ---------------------------------------------------------------- the plan

  predicate TargetIsNew(s: Snapshot) {
    s.target == Failure(AccountNotFound)
  }

  predicate HasTrustline(isNew: bool, lines: seq<Balance>, asset: AssetMinimal) {
    !isNew && exists i :: 0 <= i < |lines| && lines[i].code == asset.code && lines[i].issuer == asset.issuer
  }

  /** The payment that hands a funded balance over. */
  function PaymentOf(to: AddressStr, isNew: bool, targetLines: seq<Balance>, b: Balance): Result<OpCall, PlanError> {
    match NewAssetMinimal(b.code, b.issuer)
    case Failure(e) => Failure(AssetProblem(e))
    case Success(asset) =>
      if !HasTrustline(isNew, targetLines, asset) then Failure(NoTrustline(b.code, b.issuer))
      else
        match AssetBaseToXDR(asset)
        case Failure(e) => Failure(AssetProblem(e))
        case Success(x) => Success(AddAssetPaymentOp(to, x, b.amount))
  }

  function Payments(to: AddressStr, isNew: bool, targetLines: seq<Balance>, balances: seq<Balance>): Result<seq<OpCall>, PlanError> {
    if balances == [] then Success([])
    else
      var front :- Payments(to, isNew, targetLines, balances[..|balances| - 1]);
      var b := balances[|balances| - 1];
      if !b.IsFunded() then Success(front)
      else
        var call :- PaymentOf(to, isNew, targetLines, b);
        Success(front + [call])
  }

  function Deletions(lines: seq<Balance>): Result<seq<OpCall>, PlanError> {
    if lines == [] then Success([])
    else
      var front :- Deletions(lines[..|lines| - 1]);
      var b := lines[|lines| - 1];
      if b.IsNative() then Success(front)
      else if NewAddressStr(b.issuer).None? then Failure(BadIssuer)
      else Success(front + [AddDeleteTrustlineOp(b.code, b.issuer)])
  }

  function Creation(to: AddressStr, isNew: bool): seq<OpCall> {
    if isNew then [AddCreateAccountOp(to, "1")] else []
  }

  function Loaded(l: Load): Result<seq<Balance>, PlanError> {
    match l
    case Success(bs) => Success(bs)
    case Failure(e) => Failure(LoadProblem(e))
  }

  /** The operations of a merge: an account for the target if it has none, one
      payment per funded balance, one deletion per trustline, and the merge. */
  function MergeOps(to: AddressStr, s: Snapshot): Result<seq<OpCall>, PlanError> {
    var isNew := TargetIsNew(s);
    var balances :- Loaded(s.balances);
    var targetLines :- if isNew then Success([]) else Loaded(s.targetLines);
    var payments :- Payments(to, isNew, targetLines, balances);
    var lines :- Loaded(s.lines);
    var deletions :- Deletions(lines);
    Success(Creation(to, isNew) + payments + deletions + [AddAccountMergeOp(to)])
  }

  function RelocateOps(to: AddressStr, toIsFunded: bool): seq<OpCall> {
    Creation(to, !toIsFunded) + [AddAccountMergeOp(to)]
  }

  function AllOps(ops: seq<OpCall>): seq<Call> {
    if ops == [] then [] else AllOps(ops[..|ops| - 1]) + [OnOps(ops[|ops| - 1])]
  }

  function MergeCalls(ops: seq<OpCall>, timeBounds: Option<TimeBounds>): seq<Call> {
    AllOps(ops) + [OnTime(AddBuiltTimeBounds(timeBounds))] + [OnMemo(MemoCall.AddMemoText(DEFAULT_MEMO))]
  }

  function RelocateCalls(ops: seq<OpCall>, memoID: Option<nat>, timeBounds: Option<TimeBounds>): seq<Call> {
    AllOps(ops) + [OnMemo(MemoCall.AddMemoID(memoID))] + [OnTime(AddBuiltTimeBounds(timeBounds))]
  }

  /** What the library and the network contribute to signing. */
  datatype Setting = Setting(body: MergeBody, baseFee: nat, passphraseIsBlank: bool, sequence: Result<int, TxError>)

  function Problem(r: Result<SignResult, TxError>): Result<SignResult, PlanError> {
    match r
    case Success(x) => Success(x)
    case Failure(x) => Failure(TxProblem(x))
  }

  function SignCalls(from: SeedStr, calls: seq<Call>, e: Setting): Result<SignResult, PlanError>
    requires from.Address().Some?
  {
    Problem(SignBuilding(Run(e.body, calls), Header(from.Address().value, EffectiveBaseFee(e.baseFee), e.passphraseIsBlank), from, e.sequence))
  }

  function MergeResult(from: SeedStr, to: AddressStr, s: Snapshot, timeBounds: Option<TimeBounds>, e: Setting): Result<SignResult, PlanError> {
    if from.Address().None? then Failure(BadSourceSeed)
    else
      var ops :- MergeOps(to, s);
      SignCalls(from, MergeCalls(ops, timeBounds), e)
  }

  function RelocateResult(from: SeedStr, to: AddressStr, toIsFunded: bool, memoID: Option<nat>, timeBounds: Option<TimeBounds>, e: Setting): Result<SignResult, PlanError> {
    if from.Address().None? then Failure(BadSourceSeed)
    else SignCalls(from, RelocateCalls(RelocateOps(to, toIsFunded), memoID, timeBounds), e)
  }

  // ------------------------------------------------------------- the methods

  lemma RunOneMoreOp(body: MergeBody, ops: seq<OpCall>, c: OpCall)
    ensures Run(body, AllOps(ops + [c])) == StepOp(body, Run(body, AllOps(ops)), c)
  {
  }

  method PushPayment(t: Tx, call: OpCall, ghost before: seq<OpCall>)
    requires call.AddAssetPaymentOp?
    requires t.State() == Run(t.body, AllOps(before))
    modifies t
    ensures t.State() == Run(t.body, AllOps(before + [call]))
  {
    t.AddAssetPaymentOp(call.to, call.asset, call.amt);
    RunOneMoreOp(t.body, before, call);
  }

  method PushDeletion(t: Tx, code: string, issuer: AddressStr, ghost before: seq<OpCall>)
    requires t.State() == Run(t.body, AllOps(before))
    modifies t
    ensures t.State() == Run(t.body, AllOps(before + [OpCall.AddDeleteTrustlineOp(code, issuer)]))
  {
    t.AddDeleteTrustlineOp(code, issuer);
    RunOneMoreOp(t.body, before, OpCall.AddDeleteTrustlineOp(code, issuer));
  }

  /** The outcome of pushing planned operations: all of them, or the plan's error. */
  ghost predicate Pushed(t: Tx, before: seq<OpCall>, planned: Result<seq<OpCall>, PlanError>, r: Result<(), PlanError>)
    reads t
  {
    match planned
    case Failure(e) => r == Failure(e)
    case Success(ops) => r.Success? && t.State() == Run(t.body, AllOps(before + ops))
  }

  lemma OneMoreDone(before: seq<OpCall>, done: seq<OpCall>, call: OpCall)
    ensures before + done + [call] == before + (done + [call])
  {
  }

  lemma PaymentStep(to: AddressStr, isNew: bool, targetLines: seq<Balance>, front: seq<Balance>, b: Balance)
    ensures var p := Payments(to, isNew, targetLines, front);
      Payments(to, isNew, targetLines, front + [b]) ==
        if p.Failure? || !b.IsFunded() then p
        else match PaymentOf(to, isNew, targetLines, b)
             case Failure(e) => Failure(e)
             case Success(call) => Success(p.value + [call])
  {
    assert (front + [b])[..|front|] == front;
  }

  lemma TakeOneMore(bs: seq<Balance>, i: nat)
    requires i < |bs|
    ensures bs[..i + 1] == bs[..i] + [bs[i]] && bs[..i + 1] <= bs
  {
  }

  /** A plan that fails early fails. */
  lemma {:induction false} PaymentError(to: AddressStr, isNew: bool, targetLines: seq<Balance>, balances: seq<Balance>, early: seq<Balance>)
    requires early <= balances && Payments(to, isNew, targetLines, early).Failure?
    ensures Payments(to, isNew, targetLines, balances) == Payments(to, isNew, targetLines, early)
    decreases |balances|
  {
    if early != balances {
      var front, last := balances[..|balances| - 1], balances[|balances| - 1];
      PaymentError(to, isNew, targetLines, front, early);
      PaymentStep(to, isNew, targetLines, front, last);
      assert front + [last] == balances;
    }
  }

  /** One turn of the loop: skip, stop with the error of the whole plan, or go on. */
  lemma NextPayment(to: AddressStr, isNew: bool, targetLines: seq<Balance>, balances: seq<Balance>, i: nat, done: seq<OpCall>)
    requires i < |balances| && Payments(to, isNew, targetLines, balances[..i]) == Success(done)
    ensures var next, call := Payments(to, isNew, targetLines, balances[..i + 1]), PaymentOf(to, isNew, targetLines, balances[i]);
      if !balances[i].IsFunded() then next == Success(done)
      else if call.Success? then next == Success(done + [call.value])
      else Payments(to, isNew, targetLines, balances) == Failure(call.error)
  {
    TakeOneMore(balances, i);
    PaymentStep(to, isNew, targetLines, balances[..i], balances[i]);
    if Payments(to, isNew, targetLines, balances[..i] + [balances[i]]).Failure? {
      PaymentError(to, isNew, targetLines, balances, balances[..i] + [balances[i]]);
    }
  }

  /** The loop over the balances pushes one payment per funded one. */
  method PushPayments(t: Tx, to: AddressStr, isNew: bool, targetLines: seq<Balance>, balances: seq<Balance>, ghost before: seq<OpCall>)
    returns (r: Result<(), PlanError>)
    requires t.State() == Run(t.body, AllOps(before))
    modifies t
    ensures Pushed(t, before, Payments(to, isNew, targetLines, balances), r)
  {
    r := Success(());
    ghost var done: seq<OpCall> := [];
    assert before + done == before && balances[..0] == [];
    for i := 0 to |balances|
      invariant r == Success(()) && Payments(to, isNew, targetLines, balances[..i]) == Success(done)
      invariant t.State() == Run(t.body, AllOps(before + done))
    {
      var balance := balances[i];
      NextPayment(to, isNew, targetLines, balances, i, done);
      if balance.assetType == "native" || balance.amount == "0.0000000" {
        continue;
      }
      var call := PaymentOf(to, isNew, targetLines, balance);
      if call.Failure? {
        return Failure(call.error);
      }
      PushPayment(t, call.value, before + done);
      OneMoreDone(before, done, call.value);
      done := done + [call.value];
    }
    assert balances[..|balances|] == balances;
  }

  lemma DeletionStep(front: seq<Balance>, b: Balance)
    ensures Deletions(front + [b]) ==
      if Deletions(front).Failure? || b.IsNative() then Deletions(front)
      else if NewAddressStr(b.issuer).None? then Failure(BadIssuer)
      else Success(Deletions(front).value + [AddDeleteTrustlineOp(b.code, b.issuer)])
  {
    assert (front + [b])[..|front|] == front;
  }

  lemma {:induction false} DeletionError(lines: seq<Balance>, early: seq<Balance>)
    requires early <= lines && Deletions(early).Failure?
    ensures Deletions(lines) == Deletions(early)
    decreases |lines|
  {
    if early != lines {
      var front, last := lines[..|lines| - 1], lines[|lines| - 1];
      DeletionError(front, early);
      DeletionStep(front, last);
      assert front + [last] == lines;
    }
  }

  /** One turn of the loop: skip, stop with the error of the whole plan, or go on. */
  lemma NextDeletion(lines: seq<Balance>, i: nat, done: seq<OpCall>)
    requires i < |lines| && Deletions(lines[..i]) == Success(done)
    ensures var next, b := Deletions(lines[..i + 1]), lines[i];
      if b.IsNative() then next == Success(done)
      else if NewAddressStr(b.issuer).Some? then next == Success(done + [AddDeleteTrustlineOp(b.code, b.issuer)])
      else Deletions(lines) == Failure(BadIssuer)
  {
    TakeOneMore(lines, i);
    DeletionStep(lines[..i], lines[i]);
    if Deletions(lines[..i] + [lines[i]]).Failure? {
      DeletionError(lines, lines[..i] + [lines[i]]);
    }
  }

  /** The loop over the trustlines pushes one deletion per credit line. */
  method PushDeletions(t: Tx, lines: seq<Balance>, ghost before: seq<OpCall>)
    returns (r: Result<(), PlanError>)
    requires t.State() == Run(t.body, AllOps(before))
    modifies t
    ensures Pushed(t, before, Deletions(lines), r)
  {
    r := Success(());
    ghost var done: seq<OpCall> := [];
    assert before + done == before && lines[..0] == [];
    for i := 0 to |lines|
      invariant r == Success(()) && Deletions(lines[..i]) == Success(done)
      invariant t.State() == Run(t.body, AllOps(before + done))
    {
      var line := lines[i];
      NextDeletion(lines, i, done);
      if line.assetType == "native" {
        continue;
      }
      var assetIssuer := NewAddressStr(line.issuer);
      if assetIssuer.None? {
        return Failure(BadIssuer);
      }
      PushDeletion(t, line.code, assetIssuer.value, before + done);
      ghost var call := OpCall.AddDeleteTrustlineOp(line.code, line.issuer);
      OneMoreDone(before, done, call);
      done := done + [call];
    }
    assert lines[..|lines|] == lines;
  }

  method PushCreation(t: Tx, to: AddressStr, isNew: bool)
    requires t.State() == EMPTY
    modifies t
    ensures t.State() == Run(t.body, AllOps(Creation(to, isNew)))
  {
    if isNew {
      t.AddCreateAccountOp(to, "1");
      RunOneMoreOp(t.body, [], OpCall.AddCreateAccountOp(to, "1"));
      assert [] + [OpCall.AddCreateAccountOp(to, "1")] == Creation(to, isNew);
    }
  }

  method PushMerge(t: Tx, to: AddressStr, ghost before: seq<OpCall>)
    requires t.State() == Run(t.body, AllOps(before))
    modifies t
    ensures t.State() == Run(t.body, AllOps(before + [OpCall.AddAccountMergeOp(to)]))
  {
    t.AddAccountMergeOp(to);
    RunOneMoreOp(t.body, before, OpCall.AddAccountMergeOp(to));
  }

  lemma MergeCallsRun(body: MergeBody, ops: seq<OpCall>, timeBounds: Option<TimeBounds>)
    ensures Run(body, MergeCalls(ops, timeBounds)) ==
      StepMemo(StepTime(Run(body, AllOps(ops)), TimeCall.AddBuiltTimeBounds(timeBounds)), MemoCall.AddMemoText(DEFAULT_MEMO))
  {
    var time, memo := OnTime(TimeCall.AddBuiltTimeBounds(timeBounds)), OnMemo(MemoCall.AddMemoText(DEFAULT_MEMO));
    RunAppended(body, AllOps(ops), time);
    RunAppended(body, AllOps(ops) + [time], memo);
  }

  /** Time bounds, then the memo, then the signature. */
  method CloseMerge(t: Tx, from: SeedStr, timeBounds: Option<TimeBounds>, sequence: Result<int, TxError>, ghost ops: seq<OpCall>)
    returns (r: Result<SignResult, TxError>)
    requires t.State() == Run(t.body, AllOps(ops))
    modifies t
    ensures r == SignBuilding(Run(t.body, MergeCalls(ops, timeBounds)), t.Head(), from, sequence)
  {
    MergeCallsRun(t.body, ops, timeBounds);
    t.AddBuiltTimeBounds(timeBounds);
    t.AddMemoText(DEFAULT_MEMO);
    r := t.Sign(from, sequence);
  }

  lemma RelocateCallsRun(body: MergeBody, ops: seq<OpCall>, memoID: Option<nat>, timeBounds: Option<TimeBounds>)
    ensures Run(body, RelocateCalls(ops, memoID, timeBounds)) ==
      StepTime(StepMemo(Run(body, AllOps(ops)), MemoCall.AddMemoID(memoID)), TimeCall.AddBuiltTimeBounds(timeBounds))
  {
    var memo, time := OnMemo(MemoCall.AddMemoID(memoID)), OnTime(TimeCall.AddBuiltTimeBounds(timeBounds));
    RunAppended(body, AllOps(ops), memo);
    RunAppended(body, AllOps(ops) + [memo], time);
  }

  /** The memo id first here, then the time bounds. */
  method CloseRelocate(t: Tx, from: SeedStr, memoID: Option<nat>, timeBounds: Option<TimeBounds>, sequence: Result<int, TxError>, ghost ops: seq<OpCall>)
    returns (r: Result<SignResult, TxError>)
    requires t.State() == Run(t.body, AllOps(ops))
    modifies t
    ensures r == SignBuilding(Run(t.body, RelocateCalls(ops, memoID, timeBounds)), t.Head(), from, sequence)
  {
    RelocateCallsRun(t.body, ops, memoID, timeBounds);
    t.AddMemoID(memoID);
    t.AddBuiltTimeBounds(timeBounds);
    r := t.Sign(from, sequence);
  }

  method AccountMergeTransaction(from: SeedStr, to: AddressStr, s: Snapshot, timeBounds: Option<TimeBounds>, e: Setting)
    returns (r: Result<SignResult, PlanError>)
    ensures r == MergeResult(from, to, s, timeBounds, e)
  {
    var fromAddress := from.Address();
    if fromAddress.None? {
      return Failure(BadSourceSeed);
    }
    var t := new Tx(fromAddress.value, e.baseFee, e.body, e.passphraseIsBlank);
    var targetAccountIsNew := s.target == Failure(AccountNotFound);
    PushCreation(t, to, targetAccountIsNew);
    ghost var ops := Creation(to, targetAccountIsNew);
    if s.balances.Failure? {
      return Failure(LoadProblem(s.balances.error));
    }
    var toTrustlines := [];
    if !targetAccountIsNew {
      if s.targetLines.Failure? {
        return Failure(LoadProblem(s.targetLines.error));
      }
      toTrustlines := s.targetLines.value;
    }
    var paid := PushPayments(t, to, targetAccountIsNew, toTrustlines, s.balances.value, ops);
    if paid.Failure? {
      return Failure(paid.error);
    }
    ops := ops + Payments(to, targetAccountIsNew, toTrustlines, s.balances.value).value;
    if s.lines.Failure? {
      return Failure(LoadProblem(s.lines.error));
    }
    var deleted := PushDeletions(t, s.lines.value, ops);
    if deleted.Failure? {
      return Failure(deleted.error);
    }
    ops := ops + Deletions(s.lines.value).value;
    PushMerge(t, to, ops);
    ops := ops + [OpCall.AddAccountMergeOp(to)];
    assert MergeOps(to, s) == Success(ops);
    var signed := CloseMerge(t, from, timeBounds, e.sequence, ops);
    return Problem(signed);
  }

  method RelocateTransaction(from: SeedStr, to: AddressStr, toIsFunded: bool, memoID: Option<nat>, timeBounds: Option<TimeBounds>, e: Setting)
    returns (r: Result<SignResult, PlanError>)
    ensures r == RelocateResult(from, to, toIsFunded, memoID, timeBounds, e)
  {
    var fromAddress := from.Address();
    if fromAddress.None? {
      return Failure(BadSourceSeed);
    }
    var t := new Tx(fromAddress.value, e.baseFee, e.body, e.passphraseIsBlank);
    PushCreation(t, to, !toIsFunded);
    PushMerge(t, to, Creation(to, !toIsFunded));
    var signed := CloseRelocate(t, from, memoID, timeBounds, e.sequence, RelocateOps(to, toIsFunded));
    return Problem(signed);
  }
}
