/** RelocateTransaction on the ledger, and AvailableBalance (account.go), which tells
    beforehand whether a relocation to a missing account can work. */
module Relocation {
  import opened Wrappers
  import opened Amounts
  import opened Addresses
  import opened TxBuilder
  import opened TxRuns
  import opened AccountPlans
  import opened MergePlans
  import opened Ledger
  import opened MergeOnLedger
  import opened MergeTheorem

  function AvailableStroops(balance: int, subentryCount: int): int {
    var minimum := Wrap64(BASE_RESERVE * Wrap64(2 + subentryCount));
    var available := Wrap64(balance - minimum);
    if available < 0 then 0 else available
  }

  /** The balance less two base reserves and one per subentry, and at least zero, in
      64-bit arithmetic. */
  function AvailableBalance(balance: string, subentryCount: int): Result<string, AmountError> {
    var b :- ParseStellarAmount(balance);
    Success(StringFromStellarAmount(AvailableStroops(b, subentryCount)))
  }

  /** What is available is what lies above half a lumen for each of two and every
      subentry, or nothing, exactly as long as the difference fits 64 bits. */
  lemma StroopsAboveReserve(balance: int, n: nat)
    requires -0x8000_0000_0000_0000 <= balance < 0x8000_0000_0000_0000 && n <= 0x7fff_ffff
    ensures AvailableStroops(balance, n) == (if balance < 5_000_000 * (2 + n) then 0 else balance - 5_000_000 * (2 + n))
      <==> balance - 5_000_000 * (2 + n) >= -0x8000_0000_0000_0000
  {
  }

  /** For an account as horizon shows it, what is available is what lies above the
      ledger's own minimum balance. */
  lemma AvailableIsAboveReserve(a: LedgerAccount)
    requires 0 <= a.balance <= MAX_INT64 && |a.lines| <= 0x7fff_ffff
    ensures AvailableBalance(StringFromStellarAmount(a.balance), |a.lines|) ==
      Success(StringFromStellarAmount(if a.balance < a.MinBalance() then 0 else a.balance - a.MinBalance()))
  {
    ParseInvertsPrint(a.balance);
    StroopsAboveReserve(a.balance, |a.lines|);
    assert AvailableBalance(StringFromStellarAmount(a.balance), |a.lines|) ==
      Success(StringFromStellarAmount(AvailableStroops(a.balance, |a.lines|)));
  }

  /** A relocation can take effect on this ledger: nothing but lumens to move, and
      either room at the target or a lumen to spare for creating it. */
  predicate RelocatePossible(s: State, source: AccountId, target: AccountId)
    requires source in s
  {
    s[source].lines == map[] && MergePossible(s, source, target)
  }

  /** The caller's flag tells the truth, source and target differ, and it can work. */
  predicate RelocateEnabled(s: State, source: AccountId, target: AccountId, toIsFunded: bool)
    requires source in s
  {
    source != target && toIsFunded == (target in s) && RelocatePossible(s, source, target)
  }

  /** Nothing follows the creation of an account that exists. */
  lemma CreationRefused(s: State, source: AccountId, target: AccountId, more: seq<Operation>)
    requires source in s && target in s
    ensures ApplyOps(s, source, CreateOps(target, true) + more).None?
  {
    assert ApplyOp(s, source, (CreateOps(target, true) + more)[0]).None?;
  }

  lemma CreatedThenMerged(s: State, source: AccountId, target: AccountId, made: State)
    requires source in s && target !in s && s[source].balance <= MAX_INT64
    requires ApplyOp(s, source, CreateAccount(target, STROOPS_PER_LUMEN)) == Some(made)
    ensures ApplyOps(made, source, [AccountMerge(target)]) ==
      if s[source].lines == map[] then Some(MergedIntoNew(s, source, target)) else None
  {
    if s[source].lines == map[] {
      assert DeleteOps([]) + [AccountMerge(target)] == [AccountMerge(target)];
      AfterCreation(s, source, target, []);
    } else {
      LastOp(made, source, AccountMerge(target));
    }
  }

  lemma RelocationToNew(s: State, source: AccountId, target: AccountId)
    requires source in s && target !in s && s[source].balance <= MAX_INT64
    ensures ApplyOps(s, source, CreateOps(target, true) + [AccountMerge(target)]) ==
      if RelocatePossible(s, source, target) then Some(AfterMerge(s, source, target)) else None
  {
    var create := CreateAccount(target, STROOPS_PER_LUMEN);
    ApplyOpsConcat(s, source, [create], [AccountMerge(target)]);
    LastOp(s, source, create);
    if ApplyOp(s, source, create).Some? {
      CreatedThenMerged(s, source, target, ApplyOp(s, source, create).value);
    }
  }

  /** The operations of a relocation, an optional creation and the merge, run exactly
      when it is enabled. */
  lemma {:induction false} RelocationRuns(s: State, source: AccountId, target: AccountId, toIsFunded: bool)
    requires source in s && s[source].balance <= MAX_INT64
    ensures ApplyOps(s, source, CreateOps(target, !toIsFunded) + [AccountMerge(target)]) ==
      if RelocateEnabled(s, source, target, toIsFunded) then Some(AfterMerge(s, source, target)) else None
  {
    if toIsFunded {
      assert CreateOps(target, false) + [AccountMerge(target)] == [AccountMerge(target)];
      LastOp(s, source, AccountMerge(target));
      if source != target && target in s && s[source].lines == map[] {
        assert Received(s[target].lines, s[source].lines, s[source].lines.Keys) == s[target].lines;
      }
    } else if target in s {
      CreationRefused(s, source, target, [AccountMerge(target)]);
    } else {
      RelocationToNew(s, source, target);
    }
  }

  /** `t` is what RelocateTransaction signs. */
  predicate IsSignedRelocation(from: SeedStr, target: AccountId, toIsFunded: bool, memoID: Option<nat>, timeBounds: Option<TimeBounds>, e: Setting, t: Transaction) {
    var r := RelocateResult(from, Account(target), toIsFunded, memoID, timeBounds, e);
    r.Success? && r.value.transaction == t
  }

  lemma RelocationRequested(body: MergeBody, target: AccountId, toIsFunded: bool)
    requires body.TakesAccountId?
    ensures AreRequested(body, CreateOps(target, !toIsFunded) + [AccountMerge(target)], RelocateOps(Account(target), toIsFunded))
  {
    CreationRequested(body, target, !toIsFunded);
    MergeRequested(body, target);
    RequestedConcat(body, CreateOps(target, !toIsFunded), Creation(Account(target), !toIsFunded), [AccountMerge(target)], [AddAccountMergeOp(Account(target))]);
  }

  /** The operations a signed relocation holds. */
  lemma SignedRelocateOperations(from: SeedStr, target: AccountId, toIsFunded: bool, memoID: Option<nat>, timeBounds: Option<TimeBounds>, e: Setting, t: Transaction)
    requires IsSignedRelocation(from, target, toIsFunded, memoID, timeBounds, e, t)
    ensures t.operations == CreateOps(target, !toIsFunded) + [AccountMerge(target)]
  {
    RelocateSignsExactly(from, Account(target), toIsFunded, memoID, timeBounds, e);
    RelocationRequested(e.body, target, toIsFunded);
    RequestedUnique(e.body, t.operations, CreateOps(target, !toIsFunded) + [AccountMerge(target)], RelocateOps(Account(target), toIsFunded));
  }

  lemma SignedRelocateHeader(from: SeedStr, target: AccountId, toIsFunded: bool, memoID: Option<nat>, timeBounds: Option<TimeBounds>, e: Setting, t: Transaction)
    requires from.Seed? && IsSignedRelocation(from, target, toIsFunded, memoID, timeBounds, e, t)
    ensures t.source.account == from.id
    ensures e.sequence.Success? && t.seqNum == Wrap64(e.sequence.value + 1)
  {
    SignedHeader(from, RelocateCalls(RelocateOps(Account(target), toIsFunded), memoID, timeBounds), e);
  }

  /** What the ledger makes of a signed relocation, for any target and either value of
      the caller's flag: the source's whole balance but the fee moves to the target
      exactly when that is enabled; otherwise only the fee is gone. */
  lemma RelocateOutcome(from: SeedStr, target: AccountId, toIsFunded: bool, memoID: Option<nat>, timeBounds: Option<TimeBounds>, e: Setting, s: State, t: Transaction)
    requires from.Seed? && from.id in s && s[from.id].balance <= MAX_INT64
    requires IsSignedRelocation(from, target, toIsFunded, memoID, timeBounds, e, t)
    ensures var charged := Charge(s, from.id, t.fee);
      ApplyTransaction(s, t) ==
        if !Admits(s, t) then Rejected
        else if RelocateEnabled(charged, from.id, target, toIsFunded) then Applied(AfterMerge(charged, from.id, target))
        else Failed(charged)
  {
    SignedRelocateHeader(from, target, toIsFunded, memoID, timeBounds, e, t);
    SignedRelocateOperations(from, target, toIsFunded, memoID, timeBounds, e, t);
    RelocationRuns(Charge(s, from.id, t.fee), from.id, target, toIsFunded);
  }

  /** With the ledger's own sequence number, only a fee that eats into the source's
      reserve turns a signed relocation away. */
  lemma RelocationIsAdmitted(from: SeedStr, target: AccountId, toIsFunded: bool, memoID: Option<nat>, timeBounds: Option<TimeBounds>, e: Setting, s: State, t: Transaction)
    requires from.Seed? && from.id in s && IsSignedRelocation(from, target, toIsFunded, memoID, timeBounds, e, t)
    requires e.sequence == Success(s[from.id].seqNum) && IsInt64(s[from.id].seqNum + 1)
    ensures Admits(s, t) <==> s[from.id].balance - t.fee >= s[from.id].MinBalance()
  {
    SignedRelocateHeader(from, target, toIsFunded, memoID, timeBounds, e, t);
  }

  /** The text is an amount of at least `v` stroops. */
  predicate AtLeast(text: Result<string, AmountError>, v: int) {
    text.Success? && ParseStellarAmount(text.value).Success? && ParseStellarAmount(text.value).value >= v
  }

  /** To a missing account, with no subentries: possible exactly when one lumen is
      available after the fee. */
  lemma CreationNeedsAvailableLumen(s: State, source: AccountId, target: AccountId)
    requires source in s && target !in s && s[source].lines == map[] && 0 <= s[source].balance <= MAX_INT64
    ensures RelocatePossible(s, source, target) <==> AtLeast(AvailableBalance(StringFromStellarAmount(s[source].balance), 0), STROOPS_PER_LUMEN)
  {
    var a := s[source];
    AvailableIsAboveReserve(a);
    ParseInvertsPrint(if a.balance < a.MinBalance() then 0 else a.balance - a.MinBalance());
  }
}
