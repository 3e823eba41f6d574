/** What the merge and relocate compilers emit, and exactly when they sign. */
module MergePlans {
  import opened Wrappers
  import opened Texts
  import opened Decimals
  import opened Amounts
  import opened Addresses
  import opened Assets
  import opened TxBuilder
  import opened TxRuns
  import opened AccountPlans

  function FundedOf(balances: seq<Balance>): seq<Balance> {
    if balances == [] then []
    else
      var front, b := FundedOf(balances[..|balances| - 1]), balances[|balances| - 1];
      if b.IsFunded() then front + [b] else front
  }

  function CreditsOf(lines: seq<Balance>): seq<Balance> {
    if lines == [] then []
    else
      var front, b := CreditsOf(lines[..|lines| - 1]), lines[|lines| - 1];
      if b.IsNative() then front else front + [b]
  }

  /** The target trusts the asset of this balance, which has an encoding. */
  predicate Payable(isNew: bool, targetLines: seq<Balance>, b: Balance) {
    && HasTrustline(isNew, targetLines, AssetMinimal("", b.code, b.issuer))
    && ((b.code == "" && b.issuer.IsEmpty()) || (1 <= |b.code| <= 12 && b.issuer.Account?))
  }

  lemma PayableExactly(to: AddressStr, isNew: bool, targetLines: seq<Balance>, b: Balance)
    ensures PaymentOf(to, isNew, targetLines, b).Success? <==> Payable(isNew, targetLines, b)
  {
  }

  /** Why a funded balance is refused: a code that is too long, or an asset that no
      line of the target names. */
  lemma RefusedPayment(to: AddressStr, isNew: bool, targetLines: seq<Balance>, b: Balance)
    requires 1 <= |b.code|
    ensures |b.code| > 12 ==> PaymentOf(to, isNew, targetLines, b) == Failure(AssetProblem(InvalidCodeLength))
    ensures |b.code| <= 12 && (isNew || forall c :: c in targetLines ==> c.code != b.code || c.issuer != b.issuer) ==>
      PaymentOf(to, isNew, targetLines, b) == Failure(NoTrustline(b.code, b.issuer))
  {
  }

  predicate AllPayable(isNew: bool, targetLines: seq<Balance>, bs: seq<Balance>) {
    forall i :: 0 <= i < |bs| ==> Payable(isNew, targetLines, bs[i])
  }

  lemma AllPayableAppended(isNew: bool, targetLines: seq<Balance>, bs: seq<Balance>, b: Balance)
    ensures AllPayable(isNew, targetLines, bs + [b]) <==>
      AllPayable(isNew, targetLines, bs) && Payable(isNew, targetLines, b)
  {
    var all := bs + [b];
    assert all[|bs|] == b;
    assert forall i :: 0 <= i < |bs| ==> all[i] == bs[i];
    if AllPayable(isNew, targetLines, all) {
      forall i | 0 <= i < |bs| ensures Payable(isNew, targetLines, bs[i]) {
        assert all[i] == bs[i];
      }
    }
  }

  /** One payment per funded balance, in order, each of the whole balance; a funded
      asset the target does not take makes the plan fail. */
  lemma {:induction false} PaymentsArePerFunded(to: AddressStr, isNew: bool, targetLines: seq<Balance>, balances: seq<Balance>)
    ensures Payments(to, isNew, targetLines, balances).Success? <==> AllPayable(isNew, targetLines, FundedOf(balances))
    ensures Payments(to, isNew, targetLines, balances).Success? ==>
      var ps := Payments(to, isNew, targetLines, balances).value;
      && |ps| == |FundedOf(balances)|
      && forall i :: 0 <= i < |ps| ==> PaymentOf(to, isNew, targetLines, FundedOf(balances)[i]) == Success(ps[i])
  {
    if balances != [] {
      var front, b := balances[..|balances| - 1], balances[|balances| - 1];
      PaymentsArePerFunded(to, isNew, targetLines, front);
      PaymentStep(to, isNew, targetLines, front, b);
      assert front + [b] == balances;
      PayableExactly(to, isNew, targetLines, b);
      if b.IsFunded() {
        AllPayableAppended(isNew, targetLines, FundedOf(front), b);
        assert FundedOf(balances) == FundedOf(front) + [b];
      } else {
        assert FundedOf(balances) == FundedOf(front);
      }
    }
  }

  lemma {:induction false} DeletionsArePerCredit(lines: seq<Balance>)
    ensures Deletions(lines).Success? <==> forall i :: 0 <= i < |CreditsOf(lines)| ==> CreditsOf(lines)[i].issuer.Account?
    ensures Deletions(lines).Success? ==>
      var ds := Deletions(lines).value;
      && |ds| == |CreditsOf(lines)|
      && forall i :: 0 <= i < |ds| ==> ds[i] == AddDeleteTrustlineOp(CreditsOf(lines)[i].code, CreditsOf(lines)[i].issuer)
  {
    if lines != [] {
      var front, b := lines[..|lines| - 1], lines[|lines| - 1];
      DeletionsArePerCredit(front);
      if !b.IsNative() {
        var f, g := CreditsOf(front), CreditsOf(lines);
        assert g[|f|] == b;
        assert forall i :: 0 <= i < |f| ==> g[i] == f[i];
        if forall i :: 0 <= i < |g| ==> g[i].issuer.Account? {
          forall i | 0 <= i < |f| ensures f[i].issuer.Account? {
            assert g[i] == f[i];
          }
        }
      } else {
        assert CreditsOf(lines) == CreditsOf(front);
        assert Deletions(lines) == Deletions(front);
      }
    }
  }

  // -------------------------------------------------------------- signing

  lemma {:induction false} OpsOfAllOps(ops: seq<OpCall>)
    ensures OpsOf(AllOps(ops)) == ops && MemosOf(AllOps(ops)) == [] && TimesOf(AllOps(ops)) == []
  {
    if ops != [] {
      var front, c := ops[..|ops| - 1], OnOps(ops[|ops| - 1]);
      OpsOfAllOps(front);
      CallsAppended(AllOps(front), c);
      assert front + [ops[|ops| - 1]] == ops;
    }
  }

  /** One memo of known type and one set of time bounds, at most, always fit. */
  lemma OneMemoFits(body: MergeBody, calls: seq<Call>, ops: seq<OpCall>)
    requires OpsOf(calls) == ops && |MemosOf(calls)| <= 1 && |TimesOf(calls)| <= 1
    requires forall m :: m in MemosOf(calls) ==> !m.AddMemo?
    ensures Fits(body, calls) <==> OpsFit(body, ops)
  {
  }

  /** Memo and time bounds never stand in the way: only the operations decide. */
  lemma OnlyOpsDecideMerge(body: MergeBody, ops: seq<OpCall>, timeBounds: Option<TimeBounds>)
    ensures OpsOf(MergeCalls(ops, timeBounds)) == ops
    ensures Fits(body, MergeCalls(ops, timeBounds)) <==> OpsFit(body, ops)
  {
    OpsOfAllOps(ops);
    var calls := AllOps(ops) + [OnTime(AddBuiltTimeBounds(timeBounds))];
    CallsAppended(AllOps(ops), OnTime(AddBuiltTimeBounds(timeBounds)));
    CallsAppended(calls, OnMemo(MemoCall.AddMemoText(DEFAULT_MEMO)));
    OneMemoFits(body, MergeCalls(ops, timeBounds), ops);
  }

  lemma OnlyOpsDecideRelocate(body: MergeBody, ops: seq<OpCall>, memoID: Option<nat>, timeBounds: Option<TimeBounds>)
    ensures OpsOf(RelocateCalls(ops, memoID, timeBounds)) == ops
    ensures Fits(body, RelocateCalls(ops, memoID, timeBounds)) <==> OpsFit(body, ops)
  {
    OpsOfAllOps(ops);
    var calls := AllOps(ops) + [OnMemo(MemoCall.AddMemoID(memoID))];
    CallsAppended(AllOps(ops), OnMemo(MemoCall.AddMemoID(memoID)));
    CallsAppended(calls, OnTime(AddBuiltTimeBounds(timeBounds)));
    OneMemoFits(body, RelocateCalls(ops, memoID, timeBounds), ops);
  }

  /** What signing needs besides operations that fit. */
  predicate CanSign(from: SeedStr, e: Setting) {
    from.Seed? && e.sequence.Success? && !e.passphraseIsBlank
  }

  lemma SignsIffOpsFit(from: SeedStr, calls: seq<Call>, e: Setting, ops: seq<OpCall>)
    requires from.Address().Some? && OpsOf(calls) == ops && ops != []
    requires Fits(e.body, calls) <==> OpsFit(e.body, ops)
    ensures SignCalls(from, calls, e).Success? <==> OpsFit(e.body, ops) && CanSign(from, e)
    ensures SignCalls(from, calls, e).Success? ==>
      var t := SignCalls(from, calls, e).value.transaction;
      && AreRequested(e.body, t.operations, ops)
      && t.fee == FeeOf(EffectiveBaseFee(e.baseFee), |ops|)
  {
    RunHoldsRequests(e.body, calls);
  }

  lemma {:induction false} OneLumen()
    ensures ParseInt64("1") == Success(STROOPS_PER_LUMEN)
  {
    var s := "1";
    assert IsDigit(s[0]);
    assert Unsigned(s) == s;
    IndexOfUnique(s, '.', 1);
    assert WholeDigits(s) + FractionDigits(s) == s;
    ShapeSplits(s);
    assert NatValue(s) == 1 by {
      assert s[..0] == "";
    }
    assert ReadDecimal(s) == Decimal(1, 0);
  }

  predicate AllEncode(body: MergeBody, ops: seq<OpCall>) {
    forall i :: 0 <= i < |ops| ==> Encode(body, ops[i]).Success?
  }

  lemma AllEncodeConcat(body: MergeBody, a: seq<OpCall>, b: seq<OpCall>)
    ensures AllEncode(body, a + b) <==> AllEncode(body, a) && AllEncode(body, b)
  {
    var s := a + b;
    assert forall i :: 0 <= i < |a| ==> s[i] == a[i];
    assert forall i :: 0 <= i < |b| ==> s[|a| + i] == b[i];
    if AllEncode(body, s) {
      forall i | 0 <= i < |b| ensures Encode(body, b[i]).Success? {
        assert s[|a| + i] == b[i];
      }
    }
  }

  /** A sequence of operation calls fits when its parts do and the total is small. */
  lemma PartsFit(body: MergeBody, a: seq<OpCall>, b: seq<OpCall>, c: seq<OpCall>, d: seq<OpCall>)
    ensures OpsFit(body, a + b + c + d) <==>
      && |a| + |b| + |c| + |d| <= MAX_OPERATIONS
      && AllEncode(body, a) && AllEncode(body, b) && AllEncode(body, c) && AllEncode(body, d)
  {
    AllEncodeConcat(body, a, b);
    AllEncodeConcat(body, a + b, c);
    AllEncodeConcat(body, a + b + c, d);
  }

  /** A trustline the deletion can name: a code of one to four bytes. */
  predicate Deletable(b: Balance) {
    1 <= |b.code| <= 4 && b.issuer.Account?
  }

  /** The conditions under which the operations of a merge can all be encoded. */
  predicate MergeFits(body: MergeBody, to: AddressStr, s: Snapshot) {
    && body.TakesAccountId?
    && to.Account?
    && s.balances.Success? && s.lines.Success? && (TargetIsNew(s) || s.targetLines.Success?)
    && (var targetLines := if TargetIsNew(s) then [] else s.targetLines.value;
        && AllPayable(TargetIsNew(s), targetLines, FundedOf(s.balances.value))
        && forall i :: 0 <= i < |FundedOf(s.balances.value)| ==> IsAmountText(FundedOf(s.balances.value)[i].amount))
    && (forall i :: 0 <= i < |CreditsOf(s.lines.value)| ==> Deletable(CreditsOf(s.lines.value)[i]))
    && (if TargetIsNew(s) then 1 else 0) + |FundedOf(s.balances.value)| + |CreditsOf(s.lines.value)| + 1 <= 100
  }

  lemma PaymentsEncode(body: MergeBody, to: AddressStr, isNew: bool, targetLines: seq<Balance>, balances: seq<Balance>)
    requires to.Account? && Payments(to, isNew, targetLines, balances).Success?
    ensures AllEncode(body, Payments(to, isNew, targetLines, balances).value) <==>
      forall i :: 0 <= i < |FundedOf(balances)| ==> IsAmountText(FundedOf(balances)[i].amount)
  {
    PaymentsArePerFunded(to, isNew, targetLines, balances);
    var ps, fs := Payments(to, isNew, targetLines, balances).value, FundedOf(balances);
    forall i | 0 <= i < |ps|
      ensures Encode(body, ps[i]).Success? <==> IsAmountText(fs[i].amount)
    {
      assert PaymentOf(to, isNew, targetLines, fs[i]) == Success(ps[i]);
      ParsesExactly(fs[i].amount);
    }
  }

  lemma DeletionCallEncodes(body: MergeBody, b: Balance, call: OpCall)
    requires b.issuer.Account? && call == AddDeleteTrustlineOp(b.code, b.issuer)
    ensures Encode(body, call).Success? <==> Deletable(b)
  {
  }

  lemma DeletionsEncode(body: MergeBody, lines: seq<Balance>)
    ensures (Deletions(lines).Success? && AllEncode(body, Deletions(lines).value)) <==>
      forall i :: 0 <= i < |CreditsOf(lines)| ==> Deletable(CreditsOf(lines)[i])
  {
    DeletionsArePerCredit(lines);
    var cs := CreditsOf(lines);
    if Deletions(lines).Success? {
      var ds := Deletions(lines).value;
      forall i | 0 <= i < |ds|
        ensures Encode(body, ds[i]).Success? <==> Deletable(cs[i])
      {
        DeletionCallEncodes(body, cs[i], ds[i]);
      }
    }
  }

  lemma CreationEncodes(body: MergeBody, to: AddressStr, isNew: bool)
    ensures AllEncode(body, Creation(to, isNew)) <==> !isNew || to.Account?
  {
    OneLumen();
    if isNew {
      assert AllEncode(body, Creation(to, isNew)) <==> Encode(body, Creation(to, isNew)[0]).Success?;
    }
  }

  lemma MergeEncodes(body: MergeBody, to: AddressStr)
    ensures AllEncode(body, [AddAccountMergeOp(to)]) <==> to.Account? && body.TakesAccountId?
  {
    assert AllEncode(body, [AddAccountMergeOp(to)]) <==> Encode(body, [AddAccountMergeOp(to)][0]).Success?;
  }

  /** A merge plan exists and fits one transaction exactly under these conditions. */
  lemma MergeFitsExactly(body: MergeBody, to: AddressStr, s: Snapshot)
    ensures (MergeOps(to, s).Success? && OpsFit(body, MergeOps(to, s).value)) <==> MergeFits(body, to, s)
  {
    if s.balances.Success? && s.lines.Success? && (TargetIsNew(s) || s.targetLines.Success?) {
      var isNew := TargetIsNew(s);
      var targetLines := if isNew then [] else s.targetLines.value;
      var p, d := Payments(to, isNew, targetLines, s.balances.value), Deletions(s.lines.value);
      PaymentsArePerFunded(to, isNew, targetLines, s.balances.value);
      DeletionsArePerCredit(s.lines.value);
      DeletionsEncode(body, s.lines.value);
      CreationEncodes(body, to, isNew);
      MergeEncodes(body, to);
      if p.Success? && d.Success? {
        PartsFit(body, Creation(to, isNew), p.value, d.value, [AddAccountMergeOp(to)]);
        if to.Account? {
          PaymentsEncode(body, to, isNew, targetLines, s.balances.value);
        }
      }
    }
  }

  /** The merge compiler signs exactly when the plan fits; the signed operations are
      then the planned ones, one per call and in order. */
  lemma MergeSignsExactly(from: SeedStr, to: AddressStr, s: Snapshot, timeBounds: Option<TimeBounds>, e: Setting)
    ensures MergeResult(from, to, s, timeBounds, e).Success? <==> MergeFits(e.body, to, s) && CanSign(from, e)
    ensures MergeResult(from, to, s, timeBounds, e).Success? ==>
      && MergeOps(to, s).Success?
      && AreRequested(e.body, MergeResult(from, to, s, timeBounds, e).value.transaction.operations, MergeOps(to, s).value)
  {
    MergeFitsExactly(e.body, to, s);
    if MergeOps(to, s).Success? && from.Address().Some? {
      var ops := MergeOps(to, s).value;
      OnlyOpsDecideMerge(e.body, ops, timeBounds);
      SignsIffOpsFit(from, MergeCalls(ops, timeBounds), e, ops);
    }
  }

  lemma RelocateFits(body: MergeBody, to: AddressStr, toIsFunded: bool)
    ensures OpsFit(body, RelocateOps(to, toIsFunded)) <==> body.TakesAccountId? && to.Account?
  {
    CreationEncodes(body, to, !toIsFunded);
    MergeEncodes(body, to);
    PartsFit(body, Creation(to, !toIsFunded), [], [], [AddAccountMergeOp(to)]);
    assert Creation(to, !toIsFunded) + [] + [] + [AddAccountMergeOp(to)] == RelocateOps(to, toIsFunded);
  }

  /** The relocation compiler signs exactly when the target is a plain account and
      the library takes the merge body. */
  lemma RelocateSignsExactly(from: SeedStr, to: AddressStr, toIsFunded: bool, memoID: Option<nat>, timeBounds: Option<TimeBounds>, e: Setting)
    ensures RelocateResult(from, to, toIsFunded, memoID, timeBounds, e).Success? <==>
      e.body.TakesAccountId? && to.Account? && CanSign(from, e)
    ensures RelocateResult(from, to, toIsFunded, memoID, timeBounds, e).Success? ==>
      AreRequested(e.body, RelocateResult(from, to, toIsFunded, memoID, timeBounds, e).value.transaction.operations, RelocateOps(to, toIsFunded))
  {
    var ops := RelocateOps(to, toIsFunded);
    RelocateFits(e.body, to, toIsFunded);
    if from.Address().Some? {
      OnlyOpsDecideRelocate(e.body, ops, memoID, timeBounds);
      SignsIffOpsFit(from, RelocateCalls(ops, memoID, timeBounds), e, ops);
    }
  }

  /** As linked at this commit, neither function ever signs: the library refuses the
      merge body, whatever the accounts look like. */
  lemma VendoredLibraryRefusesMerges(from: SeedStr, to: AddressStr, s: Snapshot, toIsFunded: bool, memoID: Option<nat>, timeBounds: Option<TimeBounds>, e: Setting)
    requires e.body.TakesMuxedAccount?
    ensures MergeResult(from, to, s, timeBounds, e).Failure?
    ensures RelocateResult(from, to, toIsFunded, memoID, timeBounds, e).Failure?
  {
    MergeSignsExactly(from, to, s, timeBounds, e);
    RelocateSignsExactly(from, to, toIsFunded, memoID, timeBounds, e);
  }
}
