/** From what horizon shows about two accounts to what the signed merge does to the
    ledger. */
module MergeTheorem {
  import opened Wrappers
  import opened Amounts
  import opened Addresses
  import opened Assets
  import opened TxBuilder
  import opened TxRuns
  import opened AccountPlans
  import opened MergePlans
  import opened Ledger
  import opened MergeOnLedger

  function XdrOf(b: Balance): XdrAsset {
    match MakeXDRAsset(b.code, b.issuer)
    case Success(x) => x
    case Failure(_) => Native
  }

  function XdrsOf(bs: seq<Balance>): (xs: seq<XdrAsset>)
    ensures |xs| == |bs|
    ensures forall i :: 0 <= i < |bs| ==> xs[i] == XdrOf(bs[i])
  {
    if bs == [] then [] else XdrsOf(bs[..|bs| - 1]) + [XdrOf(bs[|bs| - 1])]
  }

  /** A balance entry showing one of the account's trustlines, with the type that the
      length of its code makes it. */
  predicate ShowsLine(b: Balance, a: LedgerAccount) {
    && 1 <= |b.code| <= 12 && NUL !in b.code && b.issuer.Account?
    && b.assetType == (if |b.code| <= 4 then "credit_alphanum4" else "credit_alphanum12")
    && XdrOf(b) in a.lines
    && b.amount == StringFromStellarAmount(a.lines[XdrOf(b)].balance)
  }

  /** A balance list as horizon gives it: entries without a code are lumens, and the
      others show every trustline of the account once, in any order. */
  ghost predicate Shows(bs: seq<Balance>, a: LedgerAccount) {
    && (forall i :: 0 <= i < |bs| ==> if bs[i].code == "" then bs[i].assetType == "native" else ShowsLine(bs[i], a))
    && (forall i, j :: 0 <= i < j < |bs| && bs[i].code != "" && bs[j].code != "" ==> XdrOf(bs[i]) != XdrOf(bs[j]))
    && (forall x :: x in a.lines ==> exists i :: 0 <= i < |bs| && bs[i].code != "" && XdrOf(bs[i]) == x)
  }

  /** The loads tell the truth about one ledger. */
  ghost predicate Faithful(s: State, source: AccountId, target: AccountId, snap: Snapshot) {
    && source in s && SoundAccount(source, s[source])
    && snap.balances.Success? && Shows(snap.balances.value, s[source])
    && snap.lines.Success? && Shows(snap.lines.value, s[source])
    && if target in s
       then SoundAccount(target, s[target]) && snap.target.Success?
         && snap.targetLines.Success? && Shows(snap.targetLines.value, s[target])
       else snap.target == Failure(AccountNotFound)
  }

  // -------------------------------------------------- funded and unfunded

  lemma ZeroText()
    ensures StringFromStellarAmount(0) == "0.0000000"
  {
  }

  lemma FundedIffPositive(b: Balance, a: LedgerAccount, id: AccountId)
    requires ShowsLine(b, a) && SoundAccount(id, a) && !b.IsNative()
    ensures b.IsFunded() <==> a.lines[XdrOf(b)].balance > 0
  {
    ZeroText();
    var v := a.lines[XdrOf(b)].balance;
    if v != 0 && StringFromStellarAmount(v) == StringFromStellarAmount(0) {
      PrintIsInjective(v, 0);
    }
  }

  lemma {:induction false} CreditMembers(bs: seq<Balance>, b: Balance)
    ensures b in CreditsOf(bs) <==> b in bs && !b.IsNative()
    ensures b in FundedOf(bs) <==> b in bs && b.IsFunded()
  {
    if bs != [] {
      CreditMembers(bs[..|bs| - 1], b);
      assert bs == bs[..|bs| - 1] + [bs[|bs| - 1]];
    }
  }

  /** The entries of a list that have a code are its trustlines. */
  lemma NativeExactly(bs: seq<Balance>, a: LedgerAccount, b: Balance)
    requires Shows(bs, a) && b in bs
    ensures b.IsNative() <==> b.code == ""
    ensures !b.IsNative() ==> ShowsLine(b, a)
  {
    var i :| 0 <= i < |bs| && bs[i] == b;
    assert "native" != "credit_alphanum4" && "native" != "credit_alphanum12";
  }

  lemma ShownCredit(bs: seq<Balance>, a: LedgerAccount, b: Balance)
    requires Shows(bs, a) && b in CreditsOf(bs)
    ensures ShowsLine(b, a)
  {
    CreditMembers(bs, b);
    NativeExactly(bs, a, b);
  }

  lemma FrontShown(bs: seq<Balance>)
    requires bs != [] && (forall i :: 0 <= i < |bs| ==> (bs[i].IsNative() <==> bs[i].code == ""))
    requires forall i, j :: 0 <= i < j < |bs| && bs[i].code != "" && bs[j].code != "" ==> XdrOf(bs[i]) != XdrOf(bs[j])
    ensures var front, b := bs[..|bs| - 1], bs[|bs| - 1];
      !b.IsNative() ==> forall c :: c in CreditsOf(front) ==> XdrOf(c) != XdrOf(b)
  {
    var front, b := bs[..|bs| - 1], bs[|bs| - 1];
    if !b.IsNative() {
      forall c | c in CreditsOf(front) ensures XdrOf(c) != XdrOf(b) {
        CreditMembers(front, c);
        var i :| 0 <= i < |front| && front[i] == c;
        assert bs[i] == c;
      }
    }
  }

  lemma DistinctAppend(bs: seq<Balance>, b: Balance)
    requires Distinct(XdrsOf(bs)) && XdrOf(b) !in XdrsOf(bs)
    ensures Distinct(XdrsOf(bs + [b]))
  {
  }

  lemma NotAmong(bs: seq<Balance>, x: XdrAsset)
    requires forall c :: c in bs ==> XdrOf(c) != x
    ensures x !in XdrsOf(bs)
  {
  }

  lemma {:induction false} CreditsDistinct(bs: seq<Balance>)
    requires forall i :: 0 <= i < |bs| ==> (bs[i].IsNative() <==> bs[i].code == "")
    requires forall i, j :: 0 <= i < j < |bs| && bs[i].code != "" && bs[j].code != "" ==> XdrOf(bs[i]) != XdrOf(bs[j])
    ensures Distinct(XdrsOf(CreditsOf(bs)))
  {
    if bs != [] {
      var front, b := bs[..|bs| - 1], bs[|bs| - 1];
      CreditsDistinct(front);
      if !b.IsNative() {
        FrontShown(bs);
        NotAmong(CreditsOf(front), XdrOf(b));
        DistinctAppend(CreditsOf(front), b);
      }
    }
  }

  lemma CreditIsLine(bs: seq<Balance>, a: LedgerAccount, x: XdrAsset)
    requires Shows(bs, a) && x in XdrsOf(CreditsOf(bs))
    ensures x in a.lines
  {
    var credits := CreditsOf(bs);
    var i :| 0 <= i < |credits| && XdrsOf(credits)[i] == x;
    ShownCredit(bs, a, credits[i]);
  }

  lemma CreditAsXdr(credits: seq<Balance>, b: Balance)
    requires b in credits
    ensures XdrOf(b) in XdrsOf(credits)
  {
    var j :| 0 <= j < |credits| && credits[j] == b;
    assert XdrsOf(credits)[j] == XdrOf(b);
  }

  lemma LineIsCredit(bs: seq<Balance>, a: LedgerAccount, x: XdrAsset)
    requires Shows(bs, a) && x in a.lines
    ensures x in XdrsOf(CreditsOf(bs))
  {
    var i :| 0 <= i < |bs| && bs[i].code != "" && XdrOf(bs[i]) == x;
    NativeExactly(bs, a, bs[i]);
    CreditMembers(bs, bs[i]);
    CreditAsXdr(CreditsOf(bs), bs[i]);
  }

  /** The plan's credit entries are the account's trustlines, each once. */
  lemma ShownCredits(bs: seq<Balance>, a: LedgerAccount)
    requires Shows(bs, a)
    ensures Distinct(XdrsOf(CreditsOf(bs)))
    ensures AsSet(XdrsOf(CreditsOf(bs))) == a.lines.Keys
  {
    forall i | 0 <= i < |bs| ensures bs[i].IsNative() <==> bs[i].code == "" {
      NativeExactly(bs, a, bs[i]);
    }
    CreditsDistinct(bs);
    forall x ensures x in XdrsOf(CreditsOf(bs)) <==> x in a.lines {
      if x in a.lines {
        LineIsCredit(bs, a, x);
      } else if x in XdrsOf(CreditsOf(bs)) {
        CreditIsLine(bs, a, x);
      }
    }
  }

  lemma DistinctFront(bs: seq<Balance>, b: Balance)
    requires Distinct(XdrsOf(bs + [b]))
    ensures Distinct(XdrsOf(bs))
    ensures forall c :: c in bs ==> XdrOf(c) != XdrOf(b)
  {
  }

  lemma {:induction false} FundedDistinct(bs: seq<Balance>)
    requires Distinct(XdrsOf(CreditsOf(bs)))
    ensures Distinct(XdrsOf(FundedOf(bs)))
  {
    if bs != [] {
      var front, b := bs[..|bs| - 1], bs[|bs| - 1];
      if b.IsNative() {
        FundedDistinct(front);
      } else {
        DistinctFront(CreditsOf(front), b);
        FundedDistinct(front);
        if b.IsFunded() {
          forall c | c in FundedOf(front) ensures c in CreditsOf(front) {
            CreditMembers(front, c);
          }
          NotAmong(FundedOf(front), XdrOf(b));
          DistinctAppend(FundedOf(front), b);
        }
      }
    }
  }

  lemma ShownFunded(balances: seq<Balance>, a: LedgerAccount, id: AccountId, b: Balance)
    requires Shows(balances, a) && SoundAccount(id, a) && b in FundedOf(balances)
    ensures ShowsLine(b, a) && !b.IsNative() && a.lines[XdrOf(b)].balance > 0
  {
    CreditMembers(balances, b);
    NativeExactly(balances, a, b);
    FundedIffPositive(b, a, id);
  }

  lemma LineIsFunded(balances: seq<Balance>, a: LedgerAccount, id: AccountId, x: XdrAsset)
    requires Shows(balances, a) && SoundAccount(id, a) && x in a.lines && a.lines[x].balance > 0
    ensures x in XdrsOf(FundedOf(balances))
  {
    var credits := CreditsOf(balances);
    LineIsCredit(balances, a, x);
    var i :| 0 <= i < |credits| && XdrsOf(credits)[i] == x;
    var b := credits[i];
    CreditMembers(balances, b);
    ShownCredit(balances, a, b);
    FundedIffPositive(b, a, id);
    var j :| 0 <= j < |FundedOf(balances)| && FundedOf(balances)[j] == b;
    assert XdrsOf(FundedOf(balances))[j] == x;
  }

  /** The two lists of the plan are the ledger's: all trustlines, and the funded ones. */
  lemma ShownLists(balances: seq<Balance>, lines: seq<Balance>, a: LedgerAccount, id: AccountId)
    requires Shows(balances, a) && Shows(lines, a) && SoundAccount(id, a)
    ensures Lists(a.lines, XdrsOf(FundedOf(balances)), XdrsOf(CreditsOf(lines)))
  {
    ShownCredits(balances, a);
    ShownCredits(lines, a);
    FundedDistinct(balances);
    var funded := XdrsOf(FundedOf(balances));
    forall x
      ensures x in funded <==> x in a.lines && a.lines[x].balance > 0
    {
      if x in funded {
        var i :| 0 <= i < |funded| && funded[i] == x;
        ShownFunded(balances, a, id, FundedOf(balances)[i]);
      }
      if x in a.lines && a.lines[x].balance > 0 {
        LineIsFunded(balances, a, id, x);
      }
    }
  }

  // ------------------------------------------------ what the calls encode to

  lemma AmountEncodes(v: int)
    requires IsInt64(v)
    ensures ParseInt64(StringFromStellarAmount(v)) == Success(v)
  {
    ParseInvertsPrint(v);
    StrictCheckIsRedundant(StringFromStellarAmount(v), v);
  }

  lemma PaymentCall(to: AddressStr, isNew: bool, targetLines: seq<Balance>, b: Balance, call: OpCall)
    requires 1 <= |b.code| <= 12 && PaymentOf(to, isNew, targetLines, b) == Success(call)
    ensures call == AddAssetPaymentOp(to, XdrOf(b), b.amount)
  {
  }

  lemma PaymentEncodes(body: MergeBody, target: AccountId, isNew: bool, targetLines: seq<Balance>, b: Balance, a: LedgerAccount, call: OpCall)
    requires ShowsLine(b, a) && IsInt64(a.lines[XdrOf(b)].balance)
    requires PaymentOf(Account(target), isNew, targetLines, b) == Success(call)
    ensures Encode(body, call) == Success(Payment(MuxedAccount(target, None), XdrOf(b), a.lines[XdrOf(b)].balance))
  {
    PaymentCall(Account(target), isNew, targetLines, b, call);
    AmountEncodes(a.lines[XdrOf(b)].balance);
  }

  lemma DeletionEncodes(body: MergeBody, b: Balance)
    requires 1 <= |b.code| <= 4 && b.issuer.Account?
    ensures Encode(body, AddDeleteTrustlineOp(b.code, b.issuer)) == Success(ChangeTrust(Line(XdrOf(b)), 0))
  {
  }

  lemma {:induction false} PaymentOpAt(dest: AccountId, lines: Lines, assets: seq<XdrAsset>, i: nat)
    requires i < |assets| && forall a :: a in assets ==> a in lines
    ensures |PaymentOps(dest, lines, assets)| == |assets|
    ensures PaymentOps(dest, lines, assets)[i] == Payment(MuxedAccount(dest, None), assets[i], lines[assets[i]].balance)
    decreases |assets|
  {
    if |assets| > 1 {
      PaymentOpAt(dest, lines, assets[1..], if i > 0 then i - 1 else 0);
    }
  }

  lemma {:induction false} DeleteOpAt(assets: seq<XdrAsset>, i: nat)
    requires i < |assets|
    ensures |DeleteOps(assets)| == |assets| && DeleteOps(assets)[i] == ChangeTrust(Line(assets[i]), 0)
    decreases |assets|
  {
    if |assets| > 1 {
      DeleteOpAt(assets[1..], if i > 0 then i - 1 else 0);
    }
  }

  lemma {:induction false} DeleteOpsCount(assets: seq<XdrAsset>)
    ensures |DeleteOps(assets)| == |assets|
    decreases |assets|
  {
    if assets != [] {
      DeleteOpsCount(assets[1..]);
    }
  }

  /** What an encoder makes of two lists it makes of the whole. */
  lemma MapsConcat(f: OpCall -> Result<Operation, TxError>, x: seq<Operation>, a: seq<OpCall>, y: seq<Operation>, b: seq<OpCall>)
    requires |x| == |a| && forall i :: 0 <= i < |a| ==> f(a[i]) == Success(x[i])
    requires |y| == |b| && forall i :: 0 <= i < |b| ==> f(b[i]) == Success(y[i])
    ensures forall i :: 0 <= i < |a + b| ==> f((a + b)[i]) == Success((x + y)[i])
  {
  }

  lemma RequestedConcat(body: MergeBody, x: seq<Operation>, a: seq<OpCall>, y: seq<Operation>, b: seq<OpCall>)
    requires AreRequested(body, x, a) && AreRequested(body, y, b)
    ensures AreRequested(body, x + y, a + b)
  {
    MapsConcat(c => Encode(body, c), x, a, y, b);
  }

  lemma RequestedUnique(body: MergeBody, x: seq<Operation>, y: seq<Operation>, a: seq<OpCall>)
    requires AreRequested(body, x, a) && AreRequested(body, y, a)
    ensures x == y
  {
  }

  lemma PaymentsRequested(body: MergeBody, target: AccountId, isNew: bool, targetLines: seq<Balance>, balances: seq<Balance>, a: LedgerAccount, id: AccountId)
    requires Shows(balances, a) && SoundAccount(id, a)
    requires Payments(Account(target), isNew, targetLines, balances).Success?
    ensures forall x :: x in XdrsOf(FundedOf(balances)) ==> x in a.lines
    ensures AreRequested(body, PaymentOps(target, a.lines, XdrsOf(FundedOf(balances))), Payments(Account(target), isNew, targetLines, balances).value)
  {
    var fs, xs, ps := FundedOf(balances), XdrsOf(FundedOf(balances)), Payments(Account(target), isNew, targetLines, balances).value;
    PaymentsArePerFunded(Account(target), isNew, targetLines, balances);
    forall x | x in xs ensures x in a.lines {
      var i :| 0 <= i < |xs| && xs[i] == x;
      ShownFunded(balances, a, id, fs[i]);
    }
    if xs == [] {
      assert PaymentOps(target, a.lines, xs) == [];
    } else {
      PaymentOpAt(target, a.lines, xs, 0);
    }
    forall i | 0 <= i < |ps|
      ensures Encode(body, ps[i]) == Success(PaymentOps(target, a.lines, xs)[i])
    {
      ShownFunded(balances, a, id, fs[i]);
      PaymentEncodes(body, target, isNew, targetLines, fs[i], a, ps[i]);
      PaymentOpAt(target, a.lines, xs, i);
    }
  }

  lemma DeletionsRequested(body: MergeBody, lines: seq<Balance>)
    requires Deletions(lines).Success?
    requires forall i :: 0 <= i < |CreditsOf(lines)| ==> Deletable(CreditsOf(lines)[i])
    ensures AreRequested(body, DeleteOps(XdrsOf(CreditsOf(lines))), Deletions(lines).value)
  {
    var cs, xs, ds := CreditsOf(lines), XdrsOf(CreditsOf(lines)), Deletions(lines).value;
    DeletionsArePerCredit(lines);
    DeleteOpsCount(xs);
    forall i | 0 <= i < |ds|
      ensures Encode(body, ds[i]) == Success(DeleteOps(xs)[i])
    {
      DeletionEncodes(body, cs[i]);
      DeleteOpAt(xs, i);
    }
  }

  lemma CreationRequested(body: MergeBody, target: AccountId, isNew: bool)
    ensures AreRequested(body, CreateOps(target, isNew), Creation(Account(target), isNew))
  {
    OneLumen();
  }

  lemma MergeFitsParts(body: MergeBody, target: AccountId, snap: Snapshot)
    requires MergeFits(body, Account(target), snap) && MergeOps(Account(target), snap).Success?
    ensures var isNew := TargetIsNew(snap);
      var targetLines := if isNew then [] else snap.targetLines.value;
      var p, d := Payments(Account(target), isNew, targetLines, snap.balances.value), Deletions(snap.lines.value);
      && p.Success? && d.Success?
      && MergeOps(Account(target), snap).value == Creation(Account(target), isNew) + p.value + d.value + [AddAccountMergeOp(Account(target))]
  {
  }

  lemma MergeRequested(body: MergeBody, target: AccountId)
    requires body.TakesAccountId?
    ensures AreRequested(body, [AccountMerge(target)], [AddAccountMergeOp(Account(target))])
  {
  }

  lemma RequestedInFour(body: MergeBody, w: seq<Operation>, a: seq<OpCall>, x: seq<Operation>, b: seq<OpCall>,
                        y: seq<Operation>, c: seq<OpCall>, z: seq<Operation>, d: seq<OpCall>)
    requires AreRequested(body, w, a) && AreRequested(body, x, b) && AreRequested(body, y, c) && AreRequested(body, z, d)
    ensures AreRequested(body, w + x + y + z, a + b + c + d)
  {
    RequestedConcat(body, w, a, x, b);
    RequestedConcat(body, w + x, a + b, y, c);
    RequestedConcat(body, w + x + y, a + b + c, z, d);
  }

  lemma PlannedMergeOperations(body: MergeBody, target: AccountId, isNew: bool, targetLines: seq<Balance>,
                               balances: seq<Balance>, lines: seq<Balance>, a: LedgerAccount, id: AccountId)
    requires body.TakesAccountId? && Shows(balances, a) && SoundAccount(id, a)
    requires Payments(Account(target), isNew, targetLines, balances).Success? && Deletions(lines).Success?
    requires forall i :: 0 <= i < |CreditsOf(lines)| ==> Deletable(CreditsOf(lines)[i])
    ensures forall x :: x in XdrsOf(FundedOf(balances)) ==> x in a.lines
    ensures AreRequested(body,
      MergeOperations(a.lines, target, isNew, XdrsOf(FundedOf(balances)), XdrsOf(CreditsOf(lines))),
      Creation(Account(target), isNew) + Payments(Account(target), isNew, targetLines, balances).value
        + Deletions(lines).value + [AddAccountMergeOp(Account(target))])
  {
    CreationRequested(body, target, isNew);
    PaymentsRequested(body, target, isNew, targetLines, balances, a, id);
    DeletionsRequested(body, lines);
    MergeRequested(body, target);
    RequestedInFour(body, CreateOps(target, isNew), Creation(Account(target), isNew),
      PaymentOps(target, a.lines, XdrsOf(FundedOf(balances))), Payments(Account(target), isNew, targetLines, balances).value,
      DeleteOps(XdrsOf(CreditsOf(lines))), Deletions(lines).value, [AccountMerge(target)], [AddAccountMergeOp(Account(target))]);
  }

  /** The operations a signed merge holds, in the ledger's terms. */
  lemma SignedMergeOperations(from: SeedStr, target: AccountId, snap: Snapshot, timeBounds: Option<TimeBounds>, e: Setting, s: State)
    requires from.Seed? && Faithful(s, from.id, target, snap)
    requires MergeResult(from, Account(target), snap, timeBounds, e).Success?
    ensures var funded, all := XdrsOf(FundedOf(snap.balances.value)), XdrsOf(CreditsOf(snap.lines.value));
      && Lists(s[from.id].lines, funded, all)
      && MergeResult(from, Account(target), snap, timeBounds, e).value.transaction.operations ==
        MergeOperations(s[from.id].lines, target, target !in s, funded, all)
  {
    var a, to := s[from.id], AddressStr.Account(target);
    var isNew := TargetIsNew(snap);
    var targetLines := if isNew then [] else snap.targetLines.value;
    ShownLists(snap.balances.value, snap.lines.value, a, from.id);
    MergeSignsExactly(from, to, snap, timeBounds, e);
    MergeFitsParts(e.body, target, snap);
    PlannedMergeOperations(e.body, target, isNew, targetLines, snap.balances.value, snap.lines.value, a, from.id);
    RequestedUnique(e.body, MergeResult(from, to, snap, timeBounds, e).value.transaction.operations,
      MergeOperations(a.lines, target, isNew, XdrsOf(FundedOf(snap.balances.value)), XdrsOf(CreditsOf(snap.lines.value))),
      MergeOps(to, snap).value);
  }

  // --------------------------------------------------------- what it does

  predicate Trusted(isNew: bool, targetLines: seq<Balance>, b: Balance) {
    HasTrustline(isNew, targetLines, AssetMinimal("", b.code, b.issuer))
  }

  lemma PayableIsTrusted(isNew: bool, targetLines: seq<Balance>, b: Balance)
    requires Payable(isNew, targetLines, b)
    ensures Trusted(isNew, targetLines, b)
  {
  }

  /** With a new target a signed merge has no funded asset to hand over. */
  lemma NewTakesNothing(target: AccountId, targetLines: seq<Balance>, balances: seq<Balance>)
    requires Payments(Account(target), true, targetLines, balances).Success?
    ensures FundedOf(balances) == []
  {
  }

  /** A trustline the target shows is a line the target has. */
  lemma TrustedIsHeld(targetLines: seq<Balance>, t: LedgerAccount, b: Balance)
    requires Shows(targetLines, t) && b.code != "" && Trusted(false, targetLines, b)
    ensures XdrOf(b) in t.lines
  {
    var i :| 0 <= i < |targetLines| && targetLines[i].code == b.code && targetLines[i].issuer == b.issuer;
    var c := targetLines[i];
    NativeExactly(targetLines, t, c);
    assert XdrOf(c) == XdrOf(b);
  }

  /** Every funded asset of a signed merge is one the target trusts, so the target is
      not its issuer. */
  lemma FundedNotIssuedByTarget(target: AccountId, targetLines: seq<Balance>, t: LedgerAccount, balances: seq<Balance>, a: LedgerAccount, id: AccountId)
    requires Shows(balances, a) && SoundAccount(id, a) && Shows(targetLines, t) && SoundAccount(target, t)
    requires Payments(Account(target), false, targetLines, balances).Success?
    ensures forall x :: x in XdrsOf(FundedOf(balances)) ==> !IssuedBy(x, target)
  {
    PaymentsArePerFunded(Account(target), false, targetLines, balances);
    forall x | x in XdrsOf(FundedOf(balances)) ensures !IssuedBy(x, target) {
      var i :| 0 <= i < |FundedOf(balances)| && XdrsOf(FundedOf(balances))[i] == x;
      var b := FundedOf(balances)[i];
      ShownFunded(balances, a, id, b);
      PayableIsTrusted(false, targetLines, b);
      TrustedIsHeld(targetLines, t, b);
    }
  }

  /** When the whole merge can take effect on a ledger. */
  predicate MergePossible(s: State, source: AccountId, target: AccountId)
    requires source in s
  {
    if source == target then false
    else if target in s then MergeEnabled(s, source, target)
    else s[source].balance - STROOPS_PER_LUMEN >= s[source].MinBalance()
  }

  /** The ledger a merge leaves. */
  function AfterMerge(s: State, source: AccountId, target: AccountId): State
    requires source in s
  {
    if target in s then Merged(s, source, target) else MergedIntoNew(s, source, target)
  }

  /** The charges of a signed transaction. */
  lemma SignedHeader(from: SeedStr, calls: seq<Call>, e: Setting)
    requires from.Seed? && SignCalls(from, calls, e).Success?
    ensures var t := SignCalls(from, calls, e).value.transaction;
      && t.source.account == from.id
      && e.sequence.Success? && t.seqNum == Wrap64(e.sequence.value + 1)
      && t.fee == FeeOf(EffectiveBaseFee(e.baseFee), |t.operations|)
  {
  }
}
