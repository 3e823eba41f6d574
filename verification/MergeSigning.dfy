/** When AccountMergeTransaction signs, said of the ledger whose accounts horizon shows;
    and the memo and time bounds that merges and relocations carry (account.go). */
module MergeSigning {
  import opened Wrappers
  import opened Amounts
  import opened Addresses
  import opened Assets
  import opened TxBuilder
  import opened TxRuns
  import opened AccountPlans
  import opened MergePlans
  import opened Ledger
  import opened MergeOnLedger
  import opened MergeTheorem

  function FundedLines(lines: Lines): set<XdrAsset> {
    set x | x in lines && lines[x].balance > 0
  }

  lemma {:induction false} DistinctCount(xs: seq<XdrAsset>)
    requires Distinct(xs)
    ensures |AsSet(xs)| == |xs|
  {
    if xs != [] {
      var front, x := xs[..|xs| - 1], xs[|xs| - 1];
      DistinctCount(front);
      assert xs == front + [x];
      assert AsSet(xs) == AsSet(front) + {x};
      assert x !in AsSet(front);
    }
  }

  lemma ListCounts(lines: Lines, funded: seq<XdrAsset>, all: seq<XdrAsset>)
    requires Lists(lines, funded, all)
    ensures |funded| == |FundedLines(lines)| && |all| == |lines|
  {
    DistinctCount(funded);
    DistinctCount(all);
    assert AsSet(funded) == FundedLines(lines);
    assert |lines.Keys| == |lines|;
  }

  lemma PlanCounts(balances: seq<Balance>, lines: seq<Balance>, a: LedgerAccount, id: AccountId)
    requires Shows(balances, a) && Shows(lines, a) && SoundAccount(id, a)
    ensures |FundedOf(balances)| == |FundedLines(a.lines)|
    ensures |CreditsOf(lines)| == |a.lines|
  {
    ShownLists(balances, lines, a, id);
    ListCounts(a.lines, XdrsOf(FundedOf(balances)), XdrsOf(CreditsOf(lines)));
  }

  lemma SameAsset(b: Balance, c: Balance)
    requires 1 <= |b.code| <= 12 && NUL !in b.code && b.issuer.Account?
    requires 1 <= |c.code| <= 12 && NUL !in c.code && c.issuer.Account?
    ensures XdrOf(b) == XdrOf(c) ==> b.code == c.code && b.issuer == c.issuer
  {
    EncodeThenDecode(b.code, b.issuer);
    EncodeThenDecode(c.code, c.issuer);
  }

  /** The target trusts what it has a line for. */
  lemma HeldIsTrusted(targetLines: seq<Balance>, t: LedgerAccount, b: Balance, a: LedgerAccount)
    requires Shows(targetLines, t) && ShowsLine(b, a) && XdrOf(b) in t.lines
    ensures Trusted(false, targetLines, b)
  {
    var i :| 0 <= i < |targetLines| && targetLines[i].code != "" && XdrOf(targetLines[i]) == XdrOf(b);
    SameAsset(targetLines[i], b);
  }

  lemma PayableOnLedger(targetLines: seq<Balance>, t: LedgerAccount, b: Balance, a: LedgerAccount)
    requires Shows(targetLines, t) && ShowsLine(b, a)
    ensures Payable(false, targetLines, b) <==> XdrOf(b) in t.lines
  {
    if Payable(false, targetLines, b) {
      TrustedIsHeld(targetLines, t, b);
    } else if XdrOf(b) in t.lines {
      HeldIsTrusted(targetLines, t, b, a);
    }
  }

  /** The target holds a line for everything funded; a missing one for nothing. */
  predicate TakesFunded(s: State, source: AccountId, target: AccountId)
    requires source in s
  {
    forall x :: x in s[source].lines && s[source].lines[x].balance > 0 ==> target in s && x in s[target].lines
  }

  lemma XdrMember(bs: seq<Balance>, x: XdrAsset) returns (b: Balance)
    requires x in XdrsOf(bs)
    ensures b in bs && XdrOf(b) == x
  {
    var i :| 0 <= i < |bs| && XdrsOf(bs)[i] == x;
    b := bs[i];
  }

  lemma PayableMember(isNew: bool, targetLines: seq<Balance>, bs: seq<Balance>, b: Balance)
    requires AllPayable(isNew, targetLines, bs) && b in bs
    ensures Payable(isNew, targetLines, b) && !isNew
  {
  }

  lemma AllPayableOnLedger(s: State, source: AccountId, target: AccountId, targetLines: seq<Balance>, balances: seq<Balance>)
    requires source in s && SoundAccount(source, s[source]) && Shows(balances, s[source])
    requires target in s ==> Shows(targetLines, s[target])
    ensures AllPayable(target !in s, targetLines, FundedOf(balances)) <==> TakesFunded(s, source, target)
  {
    var fs, a := FundedOf(balances), s[source];
    if AllPayable(target !in s, targetLines, fs) {
      forall x | x in a.lines && a.lines[x].balance > 0 ensures target in s && x in s[target].lines {
        LineIsFunded(balances, a, source, x);
        var b := XdrMember(fs, x);
        ShownFunded(balances, a, source, b);
        PayableMember(target !in s, targetLines, fs, b);
        PayableOnLedger(targetLines, s[target], b, a);
      }
    } else if TakesFunded(s, source, target) {
      forall i | 0 <= i < |fs| ensures Payable(target !in s, targetLines, fs[i]) {
        ShownFunded(balances, a, source, fs[i]);
        PayableOnLedger(targetLines, s[target], fs[i], a);
      }
    }
  }

  predicate AllAmounts(bs: seq<Balance>) {
    forall i :: 0 <= i < |bs| ==> IsAmountText(bs[i].amount)
  }

  /** Every balance that horizon shows is the text of an amount. */
  lemma FundedAmounts(balances: seq<Balance>, a: LedgerAccount, id: AccountId)
    requires Shows(balances, a) && SoundAccount(id, a)
    ensures AllAmounts(FundedOf(balances))
  {
    forall i | 0 <= i < |FundedOf(balances)| ensures IsAmountText(FundedOf(balances)[i].amount) {
      var b := FundedOf(balances)[i];
      ShownFunded(balances, a, id, b);
      AmountEncodes(a.lines[XdrOf(b)].balance);
      ParsesExactly(b.amount);
    }
  }

  predicate AllDeletable(bs: seq<Balance>) {
    forall i :: 0 <= i < |bs| ==> Deletable(bs[i])
  }

  predicate AllShort(lines: Lines) {
    forall x :: x in lines ==> x.AlphaNum4?
  }

  lemma DeletableCredit(lines: seq<Balance>, a: LedgerAccount, b: Balance)
    requires Shows(lines, a) && b in CreditsOf(lines)
    ensures XdrOf(b) in a.lines && (Deletable(b) <==> XdrOf(b).AlphaNum4?)
  {
    ShownCredit(lines, a, b);
  }

  lemma DeletableMember(bs: seq<Balance>, b: Balance)
    requires AllDeletable(bs) && b in bs
    ensures Deletable(b)
  {
  }

  lemma DeletableOnLedger(lines: seq<Balance>, a: LedgerAccount)
    requires Shows(lines, a)
    ensures AllDeletable(CreditsOf(lines)) <==> AllShort(a.lines)
  {
    var cs := CreditsOf(lines);
    if AllDeletable(cs) {
      forall x | x in a.lines ensures x.AlphaNum4? {
        LineIsCredit(lines, a, x);
        var b := XdrMember(cs, x);
        DeletableMember(cs, b);
        DeletableCredit(lines, a, b);
      }
    } else if AllShort(a.lines) {
      forall i | 0 <= i < |cs| ensures Deletable(cs[i]) {
        DeletableCredit(lines, a, cs[i]);
      }
    }
  }

  lemma FaithfulTarget(s: State, source: AccountId, target: AccountId, snap: Snapshot)
    requires Faithful(s, source, target, snap)
    ensures TargetIsNew(snap) <==> target !in s
  {
  }

  lemma FitsByParts(body: MergeBody, target: AccountId, snap: Snapshot, isNew: bool, targetLines: seq<Balance>)
    requires snap.balances.Success? && snap.lines.Success? && isNew == TargetIsNew(snap)
    requires if isNew then targetLines == [] else snap.targetLines == Success(targetLines)
    ensures var fs, cs := FundedOf(snap.balances.value), CreditsOf(snap.lines.value);
      MergeFits(body, Account(target), snap) <==>
        && body == TakesAccountId && AllPayable(isNew, targetLines, fs) && AllAmounts(fs) && AllDeletable(cs)
        && (if isNew then 1 else 0) + |fs| + |cs| + 1 <= 100
  {
  }

  lemma FitsOnLedger(body: MergeBody, s: State, source: AccountId, target: AccountId, snap: Snapshot)
    requires Faithful(s, source, target, snap)
    ensures MergeFits(body, Account(target), snap) <==>
      && body == TakesAccountId && TakesFunded(s, source, target) && AllShort(s[source].lines)
      && (if target in s then 0 else 1) + |FundedLines(s[source].lines)| + |s[source].lines| + 1 <= 100
  {
    var a, balances, lines := s[source], snap.balances.value, snap.lines.value;
    var targetLines := if target in s then snap.targetLines.value else [];
    FaithfulTarget(s, source, target, snap);
    FitsByParts(body, target, snap, target !in s, targetLines);
    PlanCounts(balances, lines, a, source);
    AllPayableOnLedger(s, source, target, targetLines, balances);
    FundedAmounts(balances, a, source);
    DeletableOnLedger(lines, a);
  }

  /** A merge is signed exactly when the library takes the merge body, the sequence
      number and the passphrase are there, the target holds a line for every funded
      asset, no asset has a code of more than four bytes, and there is room for the
      creation, one payment per funded line, one deletion per line and the merge. */
  lemma MergeSignsOnLedger(from: SeedStr, target: AccountId, snap: Snapshot, timeBounds: Option<TimeBounds>, e: Setting, s: State)
    requires from.Seed? && Faithful(s, from.id, target, snap)
    ensures MergeResult(from, Account(target), snap, timeBounds, e).Success? <==>
      && e.body == TakesAccountId && e.sequence.Success? && !e.passphraseIsBlank
      && (forall x :: x in s[from.id].lines && s[from.id].lines[x].balance > 0 ==> target in s && x in s[target].lines)
      && (forall x :: x in s[from.id].lines ==> x.AlphaNum4?)
      && (if target in s then 0 else 1) + |FundedLines(s[from.id].lines)| + |s[from.id].lines| + 1 <= 100
  {
    MergeSignsExactly(from, Account(target), snap, timeBounds, e);
    FitsOnLedger(e.body, s, from.id, target, snap);
  }

  /** An address in place of a seed is found out only when everything else is in order,
      and a text that is neither at once. */
  lemma AddressCannotSign(from: SeedStr, to: AddressStr, snap: Snapshot, timeBounds: Option<TimeBounds>, e: Setting)
    ensures from.BadSeed? ==> MergeResult(from, to, snap, timeBounds, e) == Failure(BadSourceSeed)
    ensures from.PublicOnly? && MergeFits(e.body, to, snap) && e.sequence.Success? && !e.passphraseIsBlank ==>
      MergeResult(from, to, snap, timeBounds, e) == Failure(TxProblem(InvalidSeed))
  {
    MergeFitsExactly(e.body, to, snap);
    if from.PublicOnly? && MergeFits(e.body, to, snap) && e.sequence.Success? && !e.passphraseIsBlank {
      var ops := MergeOps(to, snap).value;
      OnlyOpsDecideMerge(e.body, ops, timeBounds);
      RunHoldsRequests(e.body, MergeCalls(ops, timeBounds));
    }
  }

  // ------------------------------------------------------ memo and bounds

  lemma MergeMemo(ops: seq<OpCall>, timeBounds: Option<TimeBounds>)
    ensures FinalMemo(MemosOf(MergeCalls(ops, timeBounds))) == MemoText("via keybase")
    ensures FinalTimes(TimesOf(MergeCalls(ops, timeBounds))) == timeBounds
  {
    var calls := AllOps(ops) + [OnTime(AddBuiltTimeBounds(timeBounds))];
    OpsOfAllOps(ops);
    CallsAppended(AllOps(ops), OnTime(AddBuiltTimeBounds(timeBounds)));
    CallsAppended(calls, OnMemo(MemoCall.AddMemoText(DEFAULT_MEMO)));
  }

  lemma RelocateMemo(ops: seq<OpCall>, memoID: Option<nat>, timeBounds: Option<TimeBounds>)
    ensures FinalMemo(MemosOf(RelocateCalls(ops, memoID, timeBounds))) == if memoID.None? then MemoNone else MemoID(memoID.value)
    ensures FinalTimes(TimesOf(RelocateCalls(ops, memoID, timeBounds))) == timeBounds
  {
    var calls := AllOps(ops) + [OnMemo(MemoCall.AddMemoID(memoID))];
    OpsOfAllOps(ops);
    CallsAppended(AllOps(ops), OnMemo(MemoCall.AddMemoID(memoID)));
    CallsAppended(calls, OnTime(AddBuiltTimeBounds(timeBounds)));
  }

  lemma SignedMemo(from: SeedStr, calls: seq<Call>, e: Setting)
    requires from.Address().Some? && SignCalls(from, calls, e).Success?
    ensures var t := SignCalls(from, calls, e).value.transaction;
      t.memo == FinalMemo(MemosOf(calls)) && t.timeBounds == FinalTimes(TimesOf(calls))
  {
    SignedIsRequested(e.body, calls, Header(from.Address().value, EffectiveBaseFee(e.baseFee), e.passphraseIsBlank), from, e.sequence);
  }

  /** Every signed merge says where it came from and holds the caller's time bounds. */
  lemma SignedMergeMemo(from: SeedStr, to: AddressStr, snap: Snapshot, timeBounds: Option<TimeBounds>, e: Setting)
    requires MergeResult(from, to, snap, timeBounds, e).Success?
    ensures var t := MergeResult(from, to, snap, timeBounds, e).value.transaction;
      t.memo == MemoText("via keybase") && t.timeBounds == timeBounds
  {
    var ops := MergeOps(to, snap).value;
    SignedMemo(from, MergeCalls(ops, timeBounds), e);
    MergeMemo(ops, timeBounds);
  }

  /** Every signed relocation holds the caller's memo id, if any, and time bounds. */
  lemma SignedRelocateMemo(from: SeedStr, to: AddressStr, toIsFunded: bool, memoID: Option<nat>, timeBounds: Option<TimeBounds>, e: Setting)
    requires RelocateResult(from, to, toIsFunded, memoID, timeBounds, e).Success?
    ensures var t := RelocateResult(from, to, toIsFunded, memoID, timeBounds, e).value.transaction;
      t.memo == (if memoID.None? then MemoNone else MemoID(memoID.value)) && t.timeBounds == timeBounds
  {
    var ops := RelocateOps(to, toIsFunded);
    SignedMemo(from, RelocateCalls(ops, memoID, timeBounds), e);
    RelocateMemo(ops, memoID, timeBounds);
  }

  // ------------------------------------------------------------ the loads

  predicate Creates(ops: seq<OpCall>) {
    exists i :: 0 <= i < |ops| && ops[i].AddCreateAccountOp?
  }

  lemma NoCreations(to: AddressStr, isNew: bool, targetLines: seq<Balance>, balances: seq<Balance>, lines: seq<Balance>)
    ensures Payments(to, isNew, targetLines, balances).Success? ==> !Creates(Payments(to, isNew, targetLines, balances).value)
    ensures Deletions(lines).Success? ==> !Creates(Deletions(lines).value)
  {
    PaymentsArePerFunded(to, isNew, targetLines, balances);
    DeletionsArePerCredit(lines);
    if Payments(to, isNew, targetLines, balances).Success? {
      var ps := Payments(to, isNew, targetLines, balances).value;
      forall i | 0 <= i < |ps| ensures !ps[i].AddCreateAccountOp? {
        assert PaymentOf(to, isNew, targetLines, FundedOf(balances)[i]) == Success(ps[i]);
      }
    }
  }

  lemma NotAmongFour(p: seq<OpCall>, d: seq<OpCall>, merge: OpCall)
    requires !Creates(p) && !Creates(d) && !merge.AddCreateAccountOp?
    ensures !Creates([] + p + d + [merge])
  {
    var ops := [] + p + d + [merge];
    forall i | 0 <= i < |ops| ensures !ops[i].AddCreateAccountOp? {
      assert ops[i] == if i < |p| then p[i] else if i < |p| + |d| then d[i - |p|] else merge;
    }
  }

  /** An account for the target is created exactly when the first load found none; any
      other failure of that load counts like an account that is there. */
  lemma OnlyMissingTargetIsCreated(to: AddressStr, snap: Snapshot)
    requires MergeOps(to, snap).Success?
    ensures Creates(MergeOps(to, snap).value) <==> snap.target == Failure(AccountNotFound)
    ensures snap.target == Failure(AccountNotFound) ==> MergeOps(to, snap).value[0] == AddCreateAccountOp(to, "1")
    ensures snap.target == Failure(LoadFailed) ==> MergeOps(to, snap) == MergeOps(to, snap.(target := Success([])))
  {
    var isNew := TargetIsNew(snap);
    var targetLines := if isNew then [] else snap.targetLines.value;
    var p, d := Payments(to, isNew, targetLines, snap.balances.value).value, Deletions(snap.lines.value).value;
    var ops := MergeOps(to, snap).value;
    NoCreations(to, isNew, targetLines, snap.balances.value, snap.lines.value);
    assert ops == Creation(to, isNew) + p + d + [AddAccountMergeOp(to)];
    if isNew {
      assert ops[0] == AddCreateAccountOp(to, "1");
    } else {
      NotAmongFour(p, d, AddAccountMergeOp(to));
      assert Creation(to, isNew) == [];
    }
  }

  /** A load that fails is reported, the source's balances first, then the lines of an
      existing target. */
  lemma LoadErrorsAreReported(to: AddressStr, snap: Snapshot)
    ensures snap.balances.Failure? ==> MergeOps(to, snap) == Failure(LoadProblem(snap.balances.error))
    ensures snap.balances.Success? && snap.targetLines.Failure? && snap.target != Failure(AccountNotFound) ==>
      MergeOps(to, snap) == Failure(LoadProblem(snap.targetLines.error))
  {
  }
}
