/** A signed account merge on the ledger whose snapshot it was made from: it takes
    effect as a whole or not at all, and then moves everything and costs its fee. */
module SignedMerge {
  import opened Wrappers
  import opened Amounts
  import opened Addresses
  import opened Assets
  import opened TxBuilder
  import opened AccountPlans
  import opened MergePlans
  import opened Ledger
  import opened MergeOnLedger
  import opened MergeTheorem

  /** `t` is what AccountMergeTransaction signs. */
  predicate IsSignedMerge(from: SeedStr, target: AccountId, snap: Snapshot, timeBounds: Option<TimeBounds>, e: Setting, t: Transaction) {
    var r := MergeResult(from, Account(target), snap, timeBounds, e);
    r.Success? && r.value.transaction == t
  }

  /** The ledger as the operations find it: the same but for what the source paid. */
  predicate SameBut(s: State, charged: State, source: AccountId, target: AccountId) {
    && source in s && source in charged
    && charged[source].lines == s[source].lines && charged[source].balance <= MAX_INT64
    && (target in charged <==> target in s) && (target in s && target != source ==> charged[target] == s[target])
  }

  lemma MergeEncodesAs(body: MergeBody, target: AccountId)
    ensures Encode(body, AddAccountMergeOp(Account(target))).Success? ==>
      Encode(body, AddAccountMergeOp(Account(target))) == Success(AccountMerge(target))
  {
  }

  lemma EndsInMerge(from: SeedStr, target: AccountId, snap: Snapshot, timeBounds: Option<TimeBounds>, e: Setting, t: Transaction)
      returns (front: seq<Operation>)
    requires from.Seed? && IsSignedMerge(from, target, snap, timeBounds, e, t)
    ensures t.operations == front + [AccountMerge(target)]
  {
    MergeSignsExactly(from, Account(target), snap, timeBounds, e);
    MergeFitsParts(e.body, target, snap);
    var ops := MergeOps(Account(target), snap).value;
    assert ops[|ops| - 1] == AddAccountMergeOp(Account(target));
    front := t.operations[..|t.operations| - 1];
    MergeEncodesAs(e.body, target);
    assert t.operations == front + [t.operations[|t.operations| - 1]];
  }

  /** No account can be merged into itself, whatever the snapshot says: the operations
      are signed, but the last of them is never enabled. */
  lemma SelfMergeRefused(from: SeedStr, snap: Snapshot, timeBounds: Option<TimeBounds>, e: Setting, charged: State, t: Transaction)
    requires from.Seed? && IsSignedMerge(from, from.id, snap, timeBounds, e, t)
    ensures ApplyOps(charged, from.id, t.operations).None?
  {
    var front := EndsInMerge(from, from.id, snap, timeBounds, e, t);
    ApplyOpsConcat(charged, from.id, front, [AccountMerge(from.id)]);
    match ApplyOps(charged, from.id, front)
    case None =>
    case Some(next) => LastOp(next, from.id, AccountMerge(from.id));
  }

  lemma PayableToTarget(from: SeedStr, target: AccountId, snap: Snapshot, timeBounds: Option<TimeBounds>, e: Setting, s: State, t: Transaction)
    requires from.Seed? && Faithful(s, from.id, target, snap)
    requires IsSignedMerge(from, target, snap, timeBounds, e, t)
    ensures var targetLines := if target in s then snap.targetLines.value else [];
      Payments(Account(target), target !in s, targetLines, snap.balances.value).Success?
  {
    MergeSignsExactly(from, Account(target), snap, timeBounds, e);
    MergeFitsParts(e.body, target, snap);
  }

  /** The operations of a signed merge take effect exactly when the target takes every
      funded asset and the lumens, or, being new, can be created; otherwise some
      operation is not enabled. */
  lemma SignedMergeRuns(from: SeedStr, target: AccountId, snap: Snapshot, timeBounds: Option<TimeBounds>, e: Setting, s: State,
                        charged: State, t: Transaction)
    requires from.Seed? && Faithful(s, from.id, target, snap) && SameBut(s, charged, from.id, target)
    requires IsSignedMerge(from, target, snap, timeBounds, e, t)
    ensures ApplyOps(charged, from.id, t.operations) ==
      if MergePossible(charged, from.id, target) then Some(AfterMerge(charged, from.id, target)) else None
  {
    var source := from.id;
    var balances, funded, all := snap.balances.value, XdrsOf(FundedOf(snap.balances.value)), XdrsOf(CreditsOf(snap.lines.value));
    SignedMergeOperations(from, target, snap, timeBounds, e, s);
    PayableToTarget(from, target, snap, timeBounds, e, s, t);
    if source == target {
      SelfMergeRefused(from, snap, timeBounds, e, charged, t);
    } else if target in s {
      FundedNotIssuedByTarget(target, snap.targetLines.value, s[target], balances, s[source], source);
      MergeIntoExisting(charged, source, target, funded, all);
    } else {
      NewTakesNothing(target, [], balances);
      MergeIntoNew(charged, source, target, all);
    }
  }

  lemma SignedMergeHeader(from: SeedStr, target: AccountId, snap: Snapshot, timeBounds: Option<TimeBounds>, e: Setting, t: Transaction)
    requires from.Seed? && IsSignedMerge(from, target, snap, timeBounds, e, t)
    ensures t.source.account == from.id
    ensures e.sequence.Success? && t.seqNum == Wrap64(e.sequence.value + 1)
  {
    SignedHeader(from, MergeCalls(MergeOps(Account(target), snap).value, timeBounds), e);
  }

  function Verdict(s: State, source: AccountId, target: AccountId, t: Transaction): Outcome
    requires source in s
  {
    var charged := Charge(s, source, t.fee);
    if !Admits(s, t) then Rejected
    else if MergePossible(charged, source, target) then Applied(AfterMerge(charged, source, target))
    else Failed(charged)
  }

  /** A signed merge on the ledger it was made for: it is turned away, or takes effect
      as a whole if it is possible, or only the fee is gone. */
  lemma MergeOutcome(from: SeedStr, target: AccountId, snap: Snapshot, timeBounds: Option<TimeBounds>, e: Setting, s: State, t: Transaction)
    requires from.Seed? && Faithful(s, from.id, target, snap) && s[from.id].balance <= MAX_INT64
    requires IsSignedMerge(from, target, snap, timeBounds, e, t)
    ensures ApplyTransaction(s, t) == Verdict(s, from.id, target, t)
  {
    SignedMergeHeader(from, target, snap, timeBounds, e, t);
    SignedMergeRuns(from, target, snap, timeBounds, e, s, Charge(s, from.id, t.fee), t);
  }

  /** With the ledger's own sequence number, only a fee that eats into the source's
      reserve turns a signed merge away. */
  lemma MergeIsAdmitted(from: SeedStr, target: AccountId, snap: Snapshot, timeBounds: Option<TimeBounds>, e: Setting, s: State, t: Transaction)
    requires from.Seed? && from.id in s && IsSignedMerge(from, target, snap, timeBounds, e, t)
    requires e.sequence == Success(s[from.id].seqNum) && IsInt64(s[from.id].seqNum + 1)
    ensures Admits(s, t) <==> s[from.id].balance - t.fee >= s[from.id].MinBalance()
  {
    SignedMergeHeader(from, target, snap, timeBounds, e, t);
  }

  /** A missing target can only be merged into when there is nothing but lumens. */
  lemma NothingForNewTarget(from: SeedStr, target: AccountId, snap: Snapshot, timeBounds: Option<TimeBounds>, e: Setting, s: State, t: Transaction)
    requires from.Seed? && Faithful(s, from.id, target, snap) && target !in s
    requires IsSignedMerge(from, target, snap, timeBounds, e, t)
    ensures forall a :: a in s[from.id].lines ==> s[from.id].lines[a].balance == 0
  {
    PayableToTarget(from, target, snap, timeBounds, e, s, t);
    NewTakesNothing(target, [], snap.balances.value);
    ShownLists(snap.balances.value, snap.lines.value, s[from.id], from.id);
  }

  // ------------------------------------------------------- what it leaves

  /** From `s` to `after`: the source is gone; the target has all its lumens but the
      fee and its whole balance of every asset; nobody else notices. */
  ghost predicate Moved(s: State, source: AccountId, target: AccountId, fee: nat, after: State)
    requires source in s
  {
    && source !in after && target in after
    && after[target].balance == (if target in s then s[target].balance else 0) + s[source].balance - fee
    && (forall a :: a in s[source].lines && s[source].lines[a].balance > 0 ==>
          && target in s && a in s[target].lines && a in after[target].lines
          && after[target].lines[a].balance == s[target].lines[a].balance + s[source].lines[a].balance
          && after[target].lines[a].balance <= after[target].lines[a].limit)
    && (forall k :: k != source && k != target ==> (k in after <==> k in s) && (k in s ==> after[k] == s[k]))
  }

  /** A merge is possible and hands over nothing that has nowhere to go. */
  predicate Mergeable(s: State, source: AccountId, target: AccountId) {
    && source in s && source != target && SoundAccount(source, s[source]) && MergePossible(s, source, target)
    && (target !in s ==> forall a :: a in s[source].lines ==> s[source].lines[a].balance == 0)
  }

  lemma MergeMovesEverything(s: State, source: AccountId, target: AccountId, fee: nat)
    requires source in s && Mergeable(Charge(s, source, fee), source, target)
    ensures Moved(s, source, target, fee, AfterMerge(Charge(s, source, fee), source, target))
  {
  }

  lemma TargetHoldsBoth(s: State, source: AccountId, target: AccountId, asset: XdrAsset)
    requires Mergeable(s, source, target)
    ensures Holding(asset)(AfterMerge(s, source, target)[target]) ==
      Holding(asset)(s[source]) + (if target in s then Holding(asset)(s[target]) else 0)
  {
  }

  lemma MergeConservesCredits(s: State, source: AccountId, target: AccountId, fee: nat, asset: XdrAsset)
    requires source in s && Mergeable(Charge(s, source, fee), source, target)
    ensures Total(AfterMerge(Charge(s, source, fee), source, target), Holding(asset)) == Total(s, Holding(asset))
  {
    var charged := Charge(s, source, fee);
    var left := AfterMerge(charged, source, target);
    TotalSplits(s, Holding(asset), source);
    assert charged - {source} == s - {source};
    assert left == (s - {source})[target := left[target]];
    TotalSet(s - {source}, Holding(asset), target, left[target]);
    TargetHoldsBoth(charged, source, target, asset);
  }

  /** From `s` to `after` nothing but the fee is lost, of any asset. */
  ghost predicate Conserved(s: State, fee: nat, after: State) {
    && Total(after, LUMENS) == Total(s, LUMENS) - fee
    && forall asset :: Total(after, Holding(asset)) == Total(s, Holding(asset))
  }

  lemma SignedIsMergeable(from: SeedStr, target: AccountId, snap: Snapshot, timeBounds: Option<TimeBounds>, e: Setting, s: State, t: Transaction)
    requires from.Seed? && Faithful(s, from.id, target, snap)
    requires IsSignedMerge(from, target, snap, timeBounds, e, t)
    requires MergePossible(Charge(s, from.id, t.fee), from.id, target)
    ensures Mergeable(Charge(s, from.id, t.fee), from.id, target)
  {
    if target !in s {
      NothingForNewTarget(from, target, snap, timeBounds, e, s, t);
    }
  }

  /** The whole story of a signed merge. If the ledger applies it, everything has moved,
      there is as much of every other asset as before, and the lumens of the ledger fell
      by exactly the fee. If it fails, only the fee is gone. */
  lemma SignedMergeTheorem(from: SeedStr, target: AccountId, snap: Snapshot, timeBounds: Option<TimeBounds>, e: Setting, s: State, t: Transaction)
    requires from.Seed? && Faithful(s, from.id, target, snap) && s[from.id].balance <= MAX_INT64
    requires IsSignedMerge(from, target, snap, timeBounds, e, t)
    ensures ApplyTransaction(s, t).Applied? <==> Admits(s, t) && MergePossible(Charge(s, from.id, t.fee), from.id, target)
    ensures ApplyTransaction(s, t).Failed? ==> ApplyTransaction(s, t).state == Charge(s, from.id, t.fee)
    ensures ApplyTransaction(s, t).Applied? ==>
      && Moved(s, from.id, target, t.fee, ApplyTransaction(s, t).state)
      && Conserved(s, t.fee, ApplyTransaction(s, t).state)
  {
    MergeOutcome(from, target, snap, timeBounds, e, s, t);
    if ApplyTransaction(s, t).Applied? {
      SignedIsMergeable(from, target, snap, timeBounds, e, s, t);
      MergeMovesEverything(s, from.id, target, t.fee);
      forall asset ensures Total(AfterMerge(Charge(s, from.id, t.fee), from.id, target), Holding(asset)) == Total(s, Holding(asset)) {
        MergeConservesCredits(s, from.id, target, t.fee, asset);
      }
      TransactionCostsItsFee(s, t);
    }
  }
}
