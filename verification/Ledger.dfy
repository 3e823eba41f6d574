/** A small ledger for the four operations the merge and relocate plans emit, after
    the "List of Operations" reference of the Stellar protocol: accounts with lumens
    and trustlines, reserves, limits, and transactions that are applied as a whole.
    Offers, liabilities, sponsorship and authorization flags do not occur. */
module Ledger {
  import opened Wrappers
  import opened Amounts
  import opened Addresses
  import opened Assets
  import opened TxBuilder

  const BASE_RESERVE: int := 5_000_000

  datatype TrustLine = TrustLine(balance: int, limit: int)

  datatype LedgerAccount = LedgerAccount(balance: int, seqNum: int, lines: map<XdrAsset, TrustLine>)
  {
    /** Two base reserves, and one more per trustline. */
    function MinBalance(): int {
      BASE_RESERVE * (2 + |lines|)
    }
  }

  type State = map<AccountId, LedgerAccount>

  predicate IssuedBy(asset: XdrAsset, account: AccountId) {
    !asset.Native? && asset.issuer == account
  }

  /** Change a trustline's balance; the issuer of an asset has no line to change. */
  function AddToLine(s: State, account: AccountId, asset: XdrAsset, delta: int): Option<State>
    requires account in s
  {
    if IssuedBy(asset, account) then Some(s)
    else if asset !in s[account].lines then None
    else
      var line := s[account].lines[asset];
      if 0 <= line.balance + delta <= line.limit
      then Some(s[account := s[account].(lines := s[account].lines[asset := line.(balance := line.balance + delta)])])
      else None
  }

  function PayCredit(s: State, source: AccountId, dest: AccountId, asset: XdrAsset, amount: int): Option<State>
    requires source in s && dest in s
  {
    match AddToLine(s, source, asset, -amount)
    case None => None
    case Some(debited) => AddToLine(debited, dest, asset, amount)
  }

  function AddLumens(s: State, account: AccountId, delta: int): State
    requires account in s
  {
    s[account := s[account].(balance := s[account].balance + delta)]
  }

  function PayNative(s: State, source: AccountId, dest: AccountId, amount: int): Option<State>
    requires source in s && dest in s
  {
    if s[source].balance - amount < s[source].MinBalance() then None
    else
      var debited := AddLumens(s, source, -amount);
      if debited[dest].balance + amount > MAX_INT64 then None else Some(AddLumens(debited, dest, amount))
  }

  function ApplyCreateAccount(s: State, source: AccountId, account: AccountId, start: int): Option<State>
    requires source in s
  {
    if account in s || start < 2 * BASE_RESERVE || s[source].balance - start < s[source].MinBalance() then None
    else Some(AddLumens(s, source, -start)[account := LedgerAccount(start, 0, map[])])
  }

  function ApplyPayment(s: State, source: AccountId, dest: AccountId, asset: XdrAsset, amount: int): Option<State>
    requires source in s
  {
    if amount <= 0 || dest !in s then None
    else if asset.Native? then PayNative(s, source, dest, amount)
    else PayCredit(s, source, dest, asset, amount)
  }

  /** Removing a trustline; setting a limit is something no plan does. */
  function ApplyChangeTrust(s: State, source: AccountId, asset: XdrAsset, limit: int): Option<State>
    requires source in s
  {
    if limit != 0 || asset !in s[source].lines || s[source].lines[asset].balance != 0 then None
    else Some(s[source := s[source].(lines := s[source].lines - {asset})])
  }

  function ApplyAccountMerge(s: State, source: AccountId, into: AccountId): Option<State>
    requires source in s
  {
    if into == source || into !in s || s[source].lines != map[] || s[into].balance + s[source].balance > MAX_INT64 then None
    else Some(AddLumens(s - {source}, into, s[source].balance))
  }

  /** The effect of an operation, or nothing when it is not enabled. The operations
      that no plan emits are not part of this ledger. */
  function ApplyOp(s: State, source: AccountId, op: Operation): Option<State> {
    if source !in s then None
    else
      match op
      case CreateAccount(account, start) => ApplyCreateAccount(s, source, account, start)
      case Payment(destination, asset, amount) => ApplyPayment(s, source, destination.account, asset, amount)
      case ChangeTrust(Line(asset), limit) => ApplyChangeTrust(s, source, asset, limit)
      case AccountMerge(into) => ApplyAccountMerge(s, source, into)
      case _ => None
  }

  function ApplyOps(s: State, source: AccountId, ops: seq<Operation>): Option<State>
    decreases |ops|
  {
    if ops == [] then Some(s)
    else
      match ApplyOp(s, source, ops[0])
      case None => None
      case Some(next) => ApplyOps(next, source, ops[1..])
  }

  /** Rejected: the ledger is as before. Failed: fee and sequence number are gone.
      Applied: every operation took effect. */
  datatype Outcome = Rejected | Failed(state: State) | Applied(state: State)

  function Charge(s: State, source: AccountId, fee: int): State
    requires source in s
  {
    s[source := s[source].(balance := s[source].balance - fee, seqNum := s[source].seqNum + 1)]
  }

  /** The next sequence number, and a fee that leaves the source its reserve. */
  predicate Admits(s: State, t: Transaction) {
    var source := t.source.account;
    && source in s && t.seqNum == s[source].seqNum + 1
    && s[source].balance - t.fee >= s[source].MinBalance()
  }

  function ApplyTransaction(s: State, t: Transaction): Outcome {
    var source := t.source.account;
    if !Admits(s, t) then Rejected
    else
      match ApplyOps(Charge(s, source, t.fee), source, t.operations)
      case None => Failed(Charge(s, source, t.fee))
      case Some(next) => Applied(next)
  }

  // ------------------------------------------------------------ conservation

  ghost function Total(s: State, f: LedgerAccount -> int): int
    decreases |s|
  {
    if s == map[] then 0
    else
      var k :| k in s;
      f(s[k]) + Total(s - {k}, f)
  }

  /** The total may be taken in any order. */
  lemma {:induction false} TotalSplits(s: State, f: LedgerAccount -> int, k: AccountId)
    requires k in s
    ensures Total(s, f) == f(s[k]) + Total(s - {k}, f)
    decreases |s|
  {
    var j :| j in s && Total(s, f) == f(s[j]) + Total(s - {j}, f);
    if j != k {
      TotalSplits(s - {j}, f, k);
      TotalSplits(s - {k}, f, j);
      assert s - {j} - {k} == s - {k} - {j};
    }
  }

  lemma TotalSet(s: State, f: LedgerAccount -> int, k: AccountId, a: LedgerAccount)
    ensures Total(s[k := a], f) == Total(s, f) + f(a) - (if k in s then f(s[k]) else 0)
  {
    TotalSplits(s[k := a], f, k);
    assert s[k := a] - {k} == s - {k};
    if k in s {
      TotalSplits(s, f, k);
    } else {
      assert s - {k} == s;
    }
  }

  const LUMENS: LedgerAccount -> int := (a: LedgerAccount) => a.balance

  function Holding(asset: XdrAsset): LedgerAccount -> int {
    (a: LedgerAccount) => if asset in a.lines then a.lines[asset].balance else 0
  }

  lemma AddLumensTotal(s: State, account: AccountId, delta: int)
    requires account in s
    ensures Total(AddLumens(s, account, delta), LUMENS) == Total(s, LUMENS) + delta
  {
    var a := s[account];
    var changed := a.(balance := a.balance + delta);
    assert LUMENS(changed) == LUMENS(a) + delta;
    TotalSet(s, LUMENS, account, changed);
    assert AddLumens(s, account, delta) == s[account := changed];
  }

  lemma CreationKeepsLumens(s: State, source: AccountId, account: AccountId, start: int)
    requires source in s && ApplyCreateAccount(s, source, account, start).Some?
    ensures Total(ApplyCreateAccount(s, source, account, start).value, LUMENS) == Total(s, LUMENS)
  {
    AddLumensTotal(s, source, -start);
    TotalSet(AddLumens(s, source, -start), LUMENS, account, LedgerAccount(start, 0, map[]));
  }

  lemma LineKeepsLumens(s: State, account: AccountId, asset: XdrAsset, delta: int)
    requires account in s && AddToLine(s, account, asset, delta).Some?
    ensures Total(AddToLine(s, account, asset, delta).value, LUMENS) == Total(s, LUMENS)
  {
    if !IssuedBy(asset, account) {
      var line := s[account].lines[asset];
      TotalSet(s, LUMENS, account, s[account].(lines := s[account].lines[asset := line.(balance := line.balance + delta)]));
    }
  }

  lemma PaymentKeepsLumens(s: State, source: AccountId, dest: AccountId, asset: XdrAsset, amount: int)
    requires source in s && ApplyPayment(s, source, dest, asset, amount).Some?
    ensures Total(ApplyPayment(s, source, dest, asset, amount).value, LUMENS) == Total(s, LUMENS)
  {
    if asset.Native? {
      AddLumensTotal(s, source, -amount);
      AddLumensTotal(AddLumens(s, source, -amount), dest, amount);
    } else {
      LineKeepsLumens(s, source, asset, -amount);
      LineKeepsLumens(AddToLine(s, source, asset, -amount).value, dest, asset, amount);
    }
  }

  lemma DeletionKeepsLumens(s: State, source: AccountId, asset: XdrAsset, limit: int)
    requires source in s && ApplyChangeTrust(s, source, asset, limit).Some?
    ensures Total(ApplyChangeTrust(s, source, asset, limit).value, LUMENS) == Total(s, LUMENS)
  {
    TotalSet(s, LUMENS, source, s[source].(lines := s[source].lines - {asset}));
  }

  lemma MergeKeepsLumens(s: State, source: AccountId, into: AccountId)
    requires source in s && ApplyAccountMerge(s, source, into).Some?
    ensures Total(ApplyAccountMerge(s, source, into).value, LUMENS) == Total(s, LUMENS)
  {
    TotalSplits(s, LUMENS, source);
    AddLumensTotal(s - {source}, into, s[source].balance);
  }

  /** No operation creates or destroys lumens. */
  lemma OpConservesLumens(s: State, source: AccountId, op: Operation)
    requires ApplyOp(s, source, op).Some?
    ensures Total(ApplyOp(s, source, op).value, LUMENS) == Total(s, LUMENS)
  {
    match op
    case CreateAccount(account, start) => CreationKeepsLumens(s, source, account, start);
    case Payment(destination, asset, amount) => PaymentKeepsLumens(s, source, destination.account, asset, amount);
    case ChangeTrust(line, limit) => DeletionKeepsLumens(s, source, line.asset, limit);
    case AccountMerge(into) => MergeKeepsLumens(s, source, into);
  }

  lemma {:induction false} OpsConserveLumens(s: State, source: AccountId, ops: seq<Operation>)
    requires ApplyOps(s, source, ops).Some?
    ensures Total(ApplyOps(s, source, ops).value, LUMENS) == Total(s, LUMENS)
    decreases |ops|
  {
    if ops != [] {
      OpConservesLumens(s, source, ops[0]);
      OpsConserveLumens(ApplyOp(s, source, ops[0]).value, source, ops[1..]);
    }
  }

  lemma ChargeCostsFee(s: State, source: AccountId, fee: int)
    requires source in s
    ensures Total(Charge(s, source, fee), LUMENS) == Total(s, LUMENS) - fee
  {
    var a := s[source];
    var charged := a.(balance := a.balance - fee, seqNum := a.seqNum + 1);
    assert LUMENS(charged) == LUMENS(a) - fee;
    TotalSet(s, LUMENS, source, charged);
    assert Charge(s, source, fee) == s[source := charged];
  }

  /** A transaction that is not rejected costs the ledger exactly its fee, whether its
      operations take effect or not. */
  lemma TransactionCostsItsFee(s: State, t: Transaction)
    ensures var r := ApplyTransaction(s, t);
      !r.Rejected? ==> Total(r.state, LUMENS) == Total(s, LUMENS) - t.fee
  {
    var source := t.source.account;
    if Admits(s, t) {
      ChargeCostsFee(s, source, t.fee);
      if ApplyTransaction(s, t).Applied? {
        OpsConserveLumens(Charge(s, source, t.fee), source, t.operations);
      }
    }
  }

  lemma {:induction false} ApplyOpsConcat(s: State, source: AccountId, a: seq<Operation>, b: seq<Operation>)
    ensures ApplyOps(s, source, a + b) ==
      match ApplyOps(s, source, a) case None => None case Some(next) => ApplyOps(next, source, b)
    decreases |a|
  {
    if a == [] {
      assert a + b == b;
    } else {
      assert (a + b)[1..] == a[1..] + b;
      match ApplyOp(s, source, a[0])
      case None =>
      case Some(next) => ApplyOpsConcat(next, source, a[1..], b);
    }
  }
}
