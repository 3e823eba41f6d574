/** Running the operations of a merge on the ledger, phase by phase: create the
    target, hand over every funded asset, remove every trustline, merge. */
module MergeOnLedger {
  import opened Wrappers
  import opened Amounts
  import opened Addresses
  import opened Assets
  import opened TxBuilder
  import opened Ledger

  type Lines = map<XdrAsset, TrustLine>

  predicate Distinct(assets: seq<XdrAsset>) {
    forall i, j :: 0 <= i < j < |assets| ==> assets[i] != assets[j]
  }

  function PaymentOps(dest: AccountId, lines: Lines, assets: seq<XdrAsset>): seq<Operation>
    requires forall a :: a in assets ==> a in lines
  {
    if assets == [] then []
    else [Payment(MuxedAccount(dest, None), assets[0], lines[assets[0]].balance)] + PaymentOps(dest, lines, assets[1..])
  }

  function DeleteOps(assets: seq<XdrAsset>): seq<Operation> {
    if assets == [] then [] else [ChangeTrust(Line(assets[0]), 0)] + DeleteOps(assets[1..])
  }

  /** `lines` with the named balances gone. */
  function Drained(lines: Lines, assets: set<XdrAsset>): Lines {
    map a | a in lines :: if a in assets then lines[a].(balance := 0) else lines[a]
  }

  /** `lines` with the named balances of `given` added. */
  function Received(lines: Lines, given: Lines, assets: set<XdrAsset>): Lines {
    map a | a in lines :: if a in assets && a in given then lines[a].(balance := lines[a].balance + given[a].balance) else lines[a]
  }

  function AfterPayments(s: State, source: AccountId, dest: AccountId, assets: set<XdrAsset>): State
    requires source in s && dest in s
  {
    s[source := s[source].(lines := Drained(s[source].lines, assets))]
     [dest := s[dest].(lines := Received(s[dest].lines, s[source].lines, assets))]
  }

  /** The target trusts the asset and has room for the source's whole balance. */
  predicate Takes(s: State, source: AccountId, dest: AccountId, asset: XdrAsset)
    requires source in s && dest in s && asset in s[source].lines
  {
    && asset in s[dest].lines
    && s[dest].lines[asset].balance + s[source].lines[asset].balance <= s[dest].lines[asset].limit
  }

  predicate TakesAll(s: State, source: AccountId, dest: AccountId, assets: seq<XdrAsset>)
    requires source in s && dest in s && forall a :: a in assets ==> a in s[source].lines
  {
    forall a :: a in assets ==> Takes(s, source, dest, a)
  }

  /** A ledger as it can come to be: balances within limits, and no account holds a
      line in what it issues itself. */
  predicate SoundAccount(id: AccountId, a: LedgerAccount) {
    forall x :: x in a.lines ==>
      !x.Native? && !IssuedBy(x, id) && 0 <= a.lines[x].balance <= a.lines[x].limit <= MAX_INT64
  }

  predicate FundedIn(lines: Lines, assets: seq<XdrAsset>) {
    forall a :: a in assets ==> a in lines && lines[a].balance > 0
  }

  predicate Parties(s: State, source: AccountId, dest: AccountId) {
    source in s && dest in s && source != dest && SoundAccount(source, s[source]) && SoundAccount(dest, s[dest])
  }

  /** One payment of a whole balance. */
  lemma OnePayment(s: State, source: AccountId, dest: AccountId, asset: XdrAsset)
    requires Parties(s, source, dest) && !IssuedBy(asset, dest)
    requires asset in s[source].lines && s[source].lines[asset].balance > 0
    ensures var op := Payment(MuxedAccount(dest, None), asset, s[source].lines[asset].balance);
      ApplyOp(s, source, op) == if Takes(s, source, dest, asset) then Some(AfterPayments(s, source, dest, {asset})) else None
  {
    var amount := s[source].lines[asset].balance;
    var debited := AddToLine(s, source, asset, -amount);
    assert debited == Some(s[source := s[source].(lines := Drained(s[source].lines, {asset}))]) by {
      assert s[source].lines[asset := s[source].lines[asset].(balance := 0)] == Drained(s[source].lines, {asset});
    }
    if asset in s[dest].lines {
      var line := s[dest].lines[asset];
      assert s[dest].lines[asset := line.(balance := line.balance + amount)] == Received(s[dest].lines, s[source].lines, {asset});
    }
  }

  lemma PaymentKeepsParties(s: State, source: AccountId, dest: AccountId, asset: XdrAsset)
    requires Parties(s, source, dest)
    requires asset in s[source].lines && Takes(s, source, dest, asset)
    ensures Parties(AfterPayments(s, source, dest, {asset}), source, dest)
  {
  }

  /** The remaining payments do not notice a payment of another asset. */
  lemma PaymentsUndisturbed(s: State, source: AccountId, dest: AccountId, asset: XdrAsset, rest: seq<XdrAsset>)
    requires source in s && dest in s && source != dest && asset !in rest
    requires FundedIn(s[source].lines, rest)
    ensures var next := AfterPayments(s, source, dest, {asset});
      && FundedIn(next[source].lines, rest)
      && PaymentOps(dest, next[source].lines, rest) == PaymentOps(dest, s[source].lines, rest)
      && (TakesAll(next, source, dest, rest) <==> TakesAll(s, source, dest, rest))
  {
  }

  lemma PaymentsCompose(s: State, source: AccountId, dest: AccountId, asset: XdrAsset, rest: set<XdrAsset>)
    requires source in s && dest in s && source != dest && asset !in rest
    ensures AfterPayments(AfterPayments(s, source, dest, {asset}), source, dest, rest) ==
      AfterPayments(s, source, dest, {asset} + rest)
  {
    var next := AfterPayments(s, source, dest, {asset});
    assert Drained(next[source].lines, rest) == Drained(s[source].lines, {asset} + rest);
    assert Received(next[dest].lines, next[source].lines, rest) == Received(s[dest].lines, s[source].lines, {asset} + rest);
  }

  function AsSet(assets: seq<XdrAsset>): set<XdrAsset> {
    set a | a in assets
  }

  /** Paying the rest after the first asset leaves what paying all of them does. */
  lemma RemainingPayments(s: State, source: AccountId, dest: AccountId, assets: seq<XdrAsset>)
    requires source in s && dest in s && source != dest && assets != [] && Distinct(assets)
    ensures AfterPayments(AfterPayments(s, source, dest, {assets[0]}), source, dest, AsSet(assets[1..])) ==
      AfterPayments(s, source, dest, AsSet(assets))
  {
    PaymentsCompose(s, source, dest, assets[0], AsSet(assets[1..]));
    assert AsSet(assets) == {assets[0]} + AsSet(assets[1..]);
  }

  lemma FirstPayment(s: State, source: AccountId, dest: AccountId, assets: seq<XdrAsset>)
    requires source in s && dest in s && assets != [] && FundedIn(s[source].lines, assets)
    ensures var op := Payment(MuxedAccount(dest, None), assets[0], s[source].lines[assets[0]].balance);
      ApplyOps(s, source, PaymentOps(dest, s[source].lines, assets)) ==
        match ApplyOp(s, source, op)
        case None => None
        case Some(next) => ApplyOps(next, source, PaymentOps(dest, s[source].lines, assets[1..]))
    ensures TakesAll(s, source, dest, assets) <==>
      Takes(s, source, dest, assets[0]) && TakesAll(s, source, dest, assets[1..])
  {
    var ops := PaymentOps(dest, s[source].lines, assets);
    assert ops[1..] == PaymentOps(dest, s[source].lines, assets[1..]);
    assert assets == [assets[0]] + assets[1..];
  }

  lemma NothingPaid(s: State, source: AccountId, dest: AccountId)
    requires source in s && dest in s && source != dest
    ensures AfterPayments(s, source, dest, {}) == s
  {
    assert Drained(s[source].lines, {}) == s[source].lines;
    assert Received(s[dest].lines, s[source].lines, {}) == s[dest].lines;
  }

  /** The first payment, and then the others on the ledger it leaves. */
  lemma FirstThenRest(s: State, source: AccountId, dest: AccountId, assets: seq<XdrAsset>)
    requires Parties(s, source, dest) && assets != [] && Distinct(assets) && FundedIn(s[source].lines, assets)
    requires !IssuedBy(assets[0], dest)
    ensures var next := AfterPayments(s, source, dest, {assets[0]});
      ApplyOps(s, source, PaymentOps(dest, s[source].lines, assets)) ==
        if Takes(s, source, dest, assets[0]) then ApplyOps(next, source, PaymentOps(dest, s[source].lines, assets[1..])) else None
    ensures TakesAll(s, source, dest, assets) <==>
      Takes(s, source, dest, assets[0]) && TakesAll(s, source, dest, assets[1..])
  {
    OnePayment(s, source, dest, assets[0]);
    FirstPayment(s, source, dest, assets);
  }

  /** The payment phase is enabled exactly when the target takes every asset, and then
      moves every balance as a whole. */
  lemma {:induction false} PaymentPhase(s: State, source: AccountId, dest: AccountId, assets: seq<XdrAsset>)
    requires Parties(s, source, dest) && Distinct(assets) && FundedIn(s[source].lines, assets)
    requires forall a :: a in assets ==> !IssuedBy(a, dest)
    ensures ApplyOps(s, source, PaymentOps(dest, s[source].lines, assets)) ==
      if TakesAll(s, source, dest, assets) then Some(AfterPayments(s, source, dest, AsSet(assets))) else None
    decreases |assets|
  {
    if assets == [] {
      NothingPaid(s, source, dest);
      assert AsSet(assets) == {};
    } else {
      var a, rest := assets[0], assets[1..];
      FirstThenRest(s, source, dest, assets);
      if Takes(s, source, dest, a) {
        PaymentKeepsParties(s, source, dest, a);
        PaymentsUndisturbed(s, source, dest, a, rest);
        PaymentPhase(AfterPayments(s, source, dest, {a}), source, dest, rest);
        RemainingPayments(s, source, dest, assets);
      }
    }
  }

  /** Removing empty trustlines one by one. */
  lemma {:induction false} DeletionPhase(s: State, source: AccountId, assets: seq<XdrAsset>)
    requires source in s && Distinct(assets)
    requires forall a :: a in assets ==> a in s[source].lines && s[source].lines[a].balance == 0
    ensures ApplyOps(s, source, DeleteOps(assets)) == Some(s[source := s[source].(lines := s[source].lines - AsSet(assets))])
    decreases |assets|
  {
    if assets == [] {
      assert s[source].lines - AsSet(assets) == s[source].lines;
      assert s[source := s[source].(lines := s[source].lines - AsSet(assets))] == s;
    } else {
      var a, rest := assets[0], assets[1..];
      var next := s[source := s[source].(lines := s[source].lines - {a})];
      assert ApplyOp(s, source, ChangeTrust(Line(a), 0)) == Some(next);
      DeletionPhase(next, source, rest);
      var bare := s[source].(lines := s[source].lines - AsSet(assets));
      assert next[source].lines - AsSet(rest) == bare.lines;
      assert next[source := bare] == s[source := bare];
      assert DeleteOps(assets)[1..] == DeleteOps(rest);
    }
  }

  // --------------------------------------------------------- all the phases

  function CreateOps(target: AccountId, isNew: bool): seq<Operation> {
    if isNew then [CreateAccount(target, STROOPS_PER_LUMEN)] else []
  }

  /** The operations of a merge in terms of the ledger. */
  function MergeOperations(lines: Lines, target: AccountId, isNew: bool, funded: seq<XdrAsset>, all: seq<XdrAsset>): seq<Operation>
    requires forall a :: a in funded ==> a in lines
  {
    CreateOps(target, isNew) + PaymentOps(target, lines, funded) + DeleteOps(all) + [AccountMerge(target)]
  }

  /** The source's lines, listed once each, and the funded ones among them. */
  ghost predicate Lists(lines: Lines, funded: seq<XdrAsset>, all: seq<XdrAsset>) {
    && Distinct(funded) && Distinct(all)
    && AsSet(all) == lines.Keys
    && (forall a :: a in funded <==> a in lines && lines[a].balance > 0)
  }

  /** The target exists: it must take every funded asset and have room for the lumens. */
  predicate MergeEnabled(s: State, source: AccountId, target: AccountId)
    requires source in s && target in s
  {
    && (forall a :: a in s[source].lines && s[source].lines[a].balance > 0 ==> Takes(s, source, target, a))
    && s[target].balance + s[source].balance <= MAX_INT64
  }

  /** The ledger after a merge: the source is gone, the target has everything. */
  function Merged(s: State, source: AccountId, target: AccountId): State
    requires source in s && target in s
  {
    (s - {source})[target := s[target].(balance := s[target].balance + s[source].balance,
                                        lines := Received(s[target].lines, s[source].lines, s[source].lines.Keys))]
  }

  /** A line without balance adds nothing. */
  lemma OnlyFundedCount(lines: Lines, given: Lines, funded: seq<XdrAsset>)
    requires forall a :: a in given ==> given[a].balance >= 0
    requires forall a :: a in funded <==> a in given && given[a].balance > 0
    ensures Received(lines, given, AsSet(funded)) == Received(lines, given, given.Keys)
  {
  }

  /** After the payments every line of the source is empty. */
  lemma AllDrained(lines: Lines, funded: seq<XdrAsset>)
    requires forall a :: a in lines ==> lines[a].balance >= 0
    requires forall a :: a in funded <==> a in lines && lines[a].balance > 0
    ensures forall a :: a in lines ==> a in Drained(lines, AsSet(funded)) && Drained(lines, AsSet(funded))[a].balance == 0
    ensures Drained(lines, AsSet(funded)).Keys == lines.Keys
  {
  }

  lemma LastOp(s: State, source: AccountId, op: Operation)
    ensures ApplyOps(s, source, [op]) == ApplyOp(s, source, op)
  {
  }

  /** Deletions and the final merge, once the payments are done. */
  lemma ClosingPhase(s: State, source: AccountId, target: AccountId, all: seq<XdrAsset>)
    requires source in s && target in s && source != target && Distinct(all)
    requires AsSet(all) == s[source].lines.Keys
    requires forall a :: a in all ==> s[source].lines[a].balance == 0
    ensures ApplyOps(s, source, DeleteOps(all) + [AccountMerge(target)]) ==
      if s[target].balance + s[source].balance <= MAX_INT64 then Some(AddLumens(s - {source}, target, s[source].balance)) else None
  {
    DeletionPhase(s, source, all);
    var bare := s[source := s[source].(lines := s[source].lines - AsSet(all))];
    assert bare[source].lines == map[];
    ApplyOpsConcat(s, source, DeleteOps(all), [AccountMerge(target)]);
    LastOp(bare, source, AccountMerge(target));
    assert bare - {source} == s - {source};
  }

  lemma MergedFromPaid(s: State, source: AccountId, target: AccountId, funded: set<XdrAsset>)
    requires source in s && target in s && source != target
    requires Received(s[target].lines, s[source].lines, funded) == Received(s[target].lines, s[source].lines, s[source].lines.Keys)
    ensures var paid := AfterPayments(s, source, target, funded);
      AddLumens(paid - {source}, target, paid[source].balance) == Merged(s, source, target)
  {
  }

  lemma ConcatOfFour(x: seq<Operation>, y: seq<Operation>, z: seq<Operation>)
    ensures [] + x + y + z == x + (y + z)
  {
  }

  lemma OperationsForExisting(lines: Lines, target: AccountId, funded: seq<XdrAsset>, all: seq<XdrAsset>)
    requires forall a :: a in funded ==> a in lines
    ensures MergeOperations(lines, target, false, funded, all) ==
      PaymentOps(target, lines, funded) + (DeleteOps(all) + [AccountMerge(target)])
  {
    ConcatOfFour(PaymentOps(target, lines, funded), DeleteOps(all), [AccountMerge(target)]);
  }

  /** Once everything funded is paid, the closing operations complete the merge if the
      target has room for the lumens. */
  lemma AfterPaying(s: State, source: AccountId, target: AccountId, funded: seq<XdrAsset>, all: seq<XdrAsset>)
    requires Parties(s, source, target) && Lists(s[source].lines, funded, all)
    ensures ApplyOps(AfterPayments(s, source, target, AsSet(funded)), source, DeleteOps(all) + [AccountMerge(target)]) ==
      if s[target].balance + s[source].balance <= MAX_INT64 then Some(Merged(s, source, target)) else None
  {
    AllDrained(s[source].lines, funded);
    ClosingPhase(AfterPayments(s, source, target, AsSet(funded)), source, target, all);
    OnlyFundedCount(s[target].lines, s[source].lines, funded);
    MergedFromPaid(s, source, target, AsSet(funded));
  }

  /** On an existing target the merge is enabled exactly when the target takes every
      funded asset and the lumens, and then leaves the merged ledger. */
  lemma MergeIntoExisting(s: State, source: AccountId, target: AccountId, funded: seq<XdrAsset>, all: seq<XdrAsset>)
    requires Parties(s, source, target) && Lists(s[source].lines, funded, all)
    requires forall a :: a in funded ==> !IssuedBy(a, target)
    ensures ApplyOps(s, source, MergeOperations(s[source].lines, target, false, funded, all)) ==
      if MergeEnabled(s, source, target) then Some(Merged(s, source, target)) else None
  {
    OperationsForExisting(s[source].lines, target, funded, all);
    ApplyOpsConcat(s, source, PaymentOps(target, s[source].lines, funded), DeleteOps(all) + [AccountMerge(target)]);
    PaymentPhase(s, source, target, funded);
    if TakesAll(s, source, target, funded) {
      AfterPaying(s, source, target, funded, all);
    }
  }

  /** The ledger after a merge into an account that did not exist before. */
  function MergedIntoNew(s: State, source: AccountId, target: AccountId): State
    requires source in s
  {
    (s - {source})[target := LedgerAccount(s[source].balance, 0, map[])]
  }

  lemma OperationsForNew(lines: Lines, target: AccountId, all: seq<XdrAsset>)
    ensures MergeOperations(lines, target, true, [], all) ==
      [CreateAccount(target, STROOPS_PER_LUMEN)] + (DeleteOps(all) + [AccountMerge(target)])
  {
    assert PaymentOps(target, lines, []) == [];
  }

  lemma FirstOp(s: State, source: AccountId, op: Operation, more: seq<Operation>)
    ensures ApplyOps(s, source, [op] + more) ==
      match ApplyOp(s, source, op) case None => None case Some(next) => ApplyOps(next, source, more)
  {
    assert ([op] + more)[1..] == more;
  }

  lemma CreationEffect(s: State, source: AccountId, target: AccountId)
    requires source in s && target !in s
    ensures ApplyOp(s, source, CreateAccount(target, STROOPS_PER_LUMEN)) ==
      if s[source].balance - STROOPS_PER_LUMEN >= s[source].MinBalance()
      then Some(AddLumens(s, source, -STROOPS_PER_LUMEN)[target := LedgerAccount(STROOPS_PER_LUMEN, 0, map[])])
      else None
  {
  }

  /** Creating the target costs the source one lumen, if it can spare that. */
  lemma CreationThen(s: State, source: AccountId, target: AccountId, more: seq<Operation>)
    requires source in s && target !in s
    ensures ApplyOps(s, source, [CreateAccount(target, STROOPS_PER_LUMEN)] + more) ==
      if s[source].balance - STROOPS_PER_LUMEN >= s[source].MinBalance()
      then ApplyOps(AddLumens(s, source, -STROOPS_PER_LUMEN)[target := LedgerAccount(STROOPS_PER_LUMEN, 0, map[])], source, more)
      else None
  {
    FirstOp(s, source, CreateAccount(target, STROOPS_PER_LUMEN), more);
    CreationEffect(s, source, target);
  }

  lemma AfterCreation(s: State, source: AccountId, target: AccountId, all: seq<XdrAsset>)
    requires source in s && target !in s && s[source].balance <= MAX_INT64
    requires Lists(s[source].lines, [], all) && SoundAccount(source, s[source])
    ensures var made := AddLumens(s, source, -STROOPS_PER_LUMEN)[target := LedgerAccount(STROOPS_PER_LUMEN, 0, map[])];
      ApplyOps(made, source, DeleteOps(all) + [AccountMerge(target)]) == Some(MergedIntoNew(s, source, target))
  {
    var made := AddLumens(s, source, -STROOPS_PER_LUMEN)[target := LedgerAccount(STROOPS_PER_LUMEN, 0, map[])];
    assert forall a :: a in all ==> made[source].lines[a].balance == 0 by {
      forall a | a in all ensures made[source].lines[a].balance == 0 {
        assert a in AsSet(all) && a !in [];
      }
    }
    ClosingPhase(made, source, target, all);
    var merged := AddLumens(made - {source}, target, made[source].balance);
    assert merged[target] == LedgerAccount(s[source].balance, 0, map[]);
    assert made - {source} == (s - {source})[target := made[target]];
    assert merged == MergedIntoNew(s, source, target);
  }

  /** On a missing target with nothing but lumens to move, the merge is enabled exactly
      when the source can put up one lumen over its reserve; it gets it back. */
  lemma MergeIntoNew(s: State, source: AccountId, target: AccountId, all: seq<XdrAsset>)
    requires source in s && target !in s && s[source].balance <= MAX_INT64
    requires Lists(s[source].lines, [], all) && SoundAccount(source, s[source])
    ensures ApplyOps(s, source, MergeOperations(s[source].lines, target, true, [], all)) ==
      if s[source].balance - STROOPS_PER_LUMEN >= s[source].MinBalance() then Some(MergedIntoNew(s, source, target)) else None
  {
    OperationsForNew(s[source].lines, target, all);
    CreationThen(s, source, target, DeleteOps(all) + [AccountMerge(target)]);
    if s[source].balance - STROOPS_PER_LUMEN >= s[source].MinBalance() {
      AfterCreation(s, source, target, all);
    }
  }
}
