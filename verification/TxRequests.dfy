/** What each Add* call puts into a transaction (tx.go), read off the operation: its
    amounts are those the texts denote, its assets and accounts those that were named.
    And what a signed transaction says about its source, fee and sequence number. */
module TxRequests {
  import opened Wrappers
  import opened Decimals
  import opened Amounts
  import opened Addresses
  import opened Assets
  import opened TxBuilder
  import opened TxRuns

  /** The text is an amount of `v` stroops: a strict decimal of at most twenty
      characters without its sign that denotes `v` units of 10^-7. */
  predicate Says(text: string, v: int) {
    && DecimalShape(text) && |Unsigned(text)| <= 20
    && -0x8000_0000_0000_0000 <= v < 0x8000_0000_0000_0000
    && SameValue(ReadDecimal(text), Decimal(v, 7))
  }

  predicate Reaches(account: MuxedAccount, to: AddressStr) {
    match account.subAccount
    case None => to == Account(account.account)
    case Some(n) => to == Muxed(account.account, n)
  }

  lemma AmountSays(text: string, v: int)
    ensures ParseAmountOf(text) == Success(v) <==> Says(text, v)
  {
    ParseAccepts(text, v);
    StrictCheckIsRedundant(text, v);
  }

  lemma DestinationReached(to: AddressStr, account: MuxedAccount)
    ensures MuxedOf(to) == Success(account) <==> Reaches(account, to)
  {
  }

  lemma AssetNamed(a: AssetMinimal, x: XdrAsset)
    ensures AssetOf(a) == Success(x) <==> Names(x, a.code, a.issuer)
  {
    EncodersAgree(a.assetType, a.code, a.issuer);
    EncodesExactly(a.code, a.issuer, x);
  }

  /** A trustline names an asset of at most four bytes, or lumens. */
  predicate NamesLine(line: XdrChangeTrustAsset, code: string, issuer: AddressStr) {
    line.Line? && !line.asset.AlphaNum12? && Names(line.asset, code, issuer)
  }

  lemma LineNamed(code: string, issuer: AddressStr, line: XdrChangeTrustAsset)
    ensures TrustAssetOf(code, issuer) == Success(line) <==> NamesLine(line, code, issuer)
  {
    TrustlineEncoderAgreement(code, issuer);
    if line.Line? {
      EncodesExactly(code, issuer, line.asset);
    }
  }

  predicate NamesAll(xs: seq<XdrAsset>, path: seq<AssetMinimal>) {
    |xs| == |path| && forall i :: 0 <= i < |path| ==> Names(xs[i], path[i].code, path[i].issuer)
  }

  lemma NamesSnoc(xs: seq<XdrAsset>, path: seq<AssetMinimal>)
    requires xs != [] && path != []
    ensures NamesAll(xs, path) <==>
      && NamesAll(xs[..|xs| - 1], path[..|path| - 1])
      && Names(xs[|xs| - 1], path[|path| - 1].code, path[|path| - 1].issuer)
  {
  }

  lemma {:induction false} PathNamed(path: seq<AssetMinimal>, xs: seq<XdrAsset>)
    ensures AssetsOf(path) == Success(xs) <==> NamesAll(xs, path)
  {
    if path != [] && xs != [] {
      PathNamed(path[..|path| - 1], xs[..|xs| - 1]);
      AssetNamed(path[|path| - 1], xs[|xs| - 1]);
      NamesSnoc(xs, path);
      assert xs == xs[..|xs| - 1] + [xs[|xs| - 1]];
    }
  }

  // ------------------------------------------------------------ operations

  lemma PaymentOperation(body: MergeBody, to: AddressStr, amt: string, op: Operation)
    ensures Encode(body, AddPaymentOp(to, amt)) == Success(op) <==>
      op.Payment? && op.asset == Native && Reaches(op.destination, to) && Says(amt, op.amount)
  {
    if op.Payment? {
      AmountSays(amt, op.amount);
      DestinationReached(to, op.destination);
    }
  }

  lemma AssetPaymentOperation(body: MergeBody, to: AddressStr, asset: XdrAsset, amt: string, op: Operation)
    ensures Encode(body, AddAssetPaymentOp(to, asset, amt)) == Success(op) <==>
      op.Payment? && op.asset == asset && Reaches(op.destination, to) && Says(amt, op.amount)
  {
    if op.Payment? {
      AmountSays(amt, op.amount);
      DestinationReached(to, op.destination);
    }
  }

  /** The six parts of a path payment, each converted. */
  predicate AreParts(to: AddressStr, sendAsset: AssetMinimal, sendMax: string,
                     destAsset: AssetMinimal, destAmount: string, path: seq<AssetMinimal>, op: Operation) {
    && op.PathPayment?
    && AssetOf(sendAsset) == Success(op.sendAsset) && AssetOf(destAsset) == Success(op.destAsset)
    && ParseAmountOf(sendMax) == Success(op.sendMax) && MuxedOf(to) == Success(op.to)
    && ParseAmountOf(destAmount) == Success(op.destAmount) && AssetsOf(path) == Success(op.path)
  }

  lemma PartsEncode(body: MergeBody, to: AddressStr, sendAsset: AssetMinimal, sendMax: string,
                    destAsset: AssetMinimal, destAmount: string, path: seq<AssetMinimal>, op: Operation)
    requires AreParts(to, sendAsset, sendMax, destAsset, destAmount, path, op)
    ensures Encode(body, AddPathPaymentOp(to, sendAsset, sendMax, destAsset, destAmount, path)) == Success(op)
  {
  }

  lemma EncodedParts(body: MergeBody, to: AddressStr, sendAsset: AssetMinimal, sendMax: string,
                     destAsset: AssetMinimal, destAmount: string, path: seq<AssetMinimal>, op: Operation)
    requires Encode(body, AddPathPaymentOp(to, sendAsset, sendMax, destAsset, destAmount, path)) == Success(op)
    ensures AreParts(to, sendAsset, sendMax, destAsset, destAmount, path, op)
  {
  }

  lemma PathPaymentParts(body: MergeBody, to: AddressStr, sendAsset: AssetMinimal, sendMax: string,
                         destAsset: AssetMinimal, destAmount: string, path: seq<AssetMinimal>, op: Operation)
    ensures Encode(body, AddPathPaymentOp(to, sendAsset, sendMax, destAsset, destAmount, path)) == Success(op) <==>
      AreParts(to, sendAsset, sendMax, destAsset, destAmount, path, op)
  {
    if Encode(body, AddPathPaymentOp(to, sendAsset, sendMax, destAsset, destAmount, path)) == Success(op) {
      EncodedParts(body, to, sendAsset, sendMax, destAsset, destAmount, path, op);
    } else if AreParts(to, sendAsset, sendMax, destAsset, destAmount, path, op) {
      PartsEncode(body, to, sendAsset, sendMax, destAsset, destAmount, path, op);
    }
  }

  /** A path payment sends at most the amount and the asset asked for and delivers
      exactly the other ones, to this account and over these hops. */
  lemma PathPaymentOperation(body: MergeBody, to: AddressStr, sendAsset: AssetMinimal, sendMax: string,
                             destAsset: AssetMinimal, destAmount: string, path: seq<AssetMinimal>, op: Operation)
    ensures Encode(body, AddPathPaymentOp(to, sendAsset, sendMax, destAsset, destAmount, path)) == Success(op) <==>
      && op.PathPayment?
      && Names(op.sendAsset, sendAsset.code, sendAsset.issuer) && Says(sendMax, op.sendMax)
      && Names(op.destAsset, destAsset.code, destAsset.issuer) && Says(destAmount, op.destAmount)
      && Reaches(op.to, to) && NamesAll(op.path, path)
  {
    PathPaymentParts(body, to, sendAsset, sendMax, destAsset, destAmount, path, op);
    if op.PathPayment? {
      AssetNamed(sendAsset, op.sendAsset);
      AssetNamed(destAsset, op.destAsset);
      AmountSays(sendMax, op.sendMax);
      AmountSays(destAmount, op.destAmount);
      DestinationReached(to, op.to);
      PathNamed(path, op.path);
    }
  }

  lemma CreationOperation(body: MergeBody, to: AddressStr, amt: string, op: Operation)
    ensures Encode(body, AddCreateAccountOp(to, amt)) == Success(op) <==>
      op.CreateAccount? && to == Account(op.account) && Says(amt, op.startingBalance)
  {
    if op.CreateAccount? {
      AmountSays(amt, op.startingBalance);
    }
  }

  lemma MergeOperationExactly(body: MergeBody, to: AddressStr, op: Operation)
    ensures Encode(body, AddAccountMergeOp(to)) == Success(op) <==>
      body == TakesAccountId && op.AccountMerge? && to == Account(op.into)
  {
  }

  lemma InflationOperation(body: MergeBody, to: AddressStr, op: Operation)
    ensures Encode(body, AddInflationDestinationOp(to)) == Success(op) <==>
      op.SetInflationDestination? && to == Account(op.inflation)
  {
  }

  lemma HomeDomainOperation(body: MergeBody, domain: string, op: Operation)
    ensures Encode(body, AddHomeDomainOp(domain)) == Success(op) <==> |domain| <= 32 && op == SetHomeDomain(domain)
  {
  }

  lemma OfferOperation(body: MergeBody, selling: XdrAsset, buying: XdrAsset, amt: string, price: Option<Price>, op: Operation)
    ensures Encode(body, AddOfferOp(selling, buying, amt, price)) == Success(op) <==>
      && op.ManageSellOffer? && op.selling == selling && op.buying == buying
      && Says(amt, op.toSell) && price == Some(op.price)
  {
    if op.ManageSellOffer? {
      AmountSays(amt, op.toSell);
    }
  }

  lemma TrustlineOperation(body: MergeBody, code: string, issuer: AddressStr, limit: string, op: Operation)
    ensures Encode(body, AddCreateTrustlineOp(code, issuer, limit)) == Success(op) <==>
      op.ChangeTrust? && NamesLine(op.line, code, issuer) && Says(limit, op.limit) && op.limit > 0
  {
    if op.ChangeTrust? {
      LineNamed(code, issuer, op.line);
      AmountSays(limit, op.limit);
    }
  }

  lemma RemovalOperation(body: MergeBody, code: string, issuer: AddressStr, op: Operation)
    ensures Encode(body, AddDeleteTrustlineOp(code, issuer)) == Success(op) <==>
      op.ChangeTrust? && NamesLine(op.line, code, issuer) && op.limit == 0
  {
    if op.ChangeTrust? {
      LineNamed(code, issuer, op.line);
    }
  }

  // ---------------------------------------------------------------- faults

  /** A payment's amount is looked at before its destination. */
  lemma PaymentFault(body: MergeBody, to: AddressStr, asset: XdrAsset, amt: string)
    ensures var r := Encode(body, AddAssetPaymentOp(to, asset, amt));
      && (ParseInt64(amt).Failure? ==> r == Failure(BadAmount(ParseInt64(amt).error)))
      && (r == Failure(BadAddress) <==> ParseInt64(amt).Success? && !to.Account? && !to.Muxed?)
      && Encode(body, AddPaymentOp(to, amt)) == Encode(body, AddAssetPaymentOp(to, Native, amt))
  {
  }

  lemma {:induction false} PathFault(path: seq<AssetMinimal>)
    ensures AssetsOf(path).Failure? ==> AssetsOf(path).error.BadAsset?
  {
    if path != [] {
      PathFault(path[..|path| - 1]);
    }
  }

  /** The arguments of a path payment are looked at in this order: asset sent, asset
      delivered, amount sent, destination, amount delivered, path. */
  lemma PathPaymentFault(body: MergeBody, to: AddressStr, sendAsset: AssetMinimal, sendMax: string,
                         destAsset: AssetMinimal, destAmount: string, path: seq<AssetMinimal>)
    ensures var r := Encode(body, AddPathPaymentOp(to, sendAsset, sendMax, destAsset, destAmount, path));
      var sent, delivered := AssetBaseToXDR(sendAsset), AssetBaseToXDR(destAsset);
      && (sent.Failure? ==> r == Failure(BadAsset(sent.error)))
      && (sent.Success? && delivered.Failure? ==> r == Failure(BadAsset(delivered.error)))
      && (sent.Success? && delivered.Success? && ParseInt64(sendMax).Failure? ==> r == Failure(BadAmount(ParseInt64(sendMax).error)))
      && (r == Failure(BadAddress) <==>
            sent.Success? && delivered.Success? && ParseInt64(sendMax).Success? && !to.Account? && !to.Muxed?)
  {
    PathFault(path);
  }

  lemma OtherFaults(body: MergeBody, to: AddressStr, domain: string, code: string, issuer: AddressStr, amt: string, price: Option<Price>, selling: XdrAsset, buying: XdrAsset)
    ensures Encode(body, AddHomeDomainOp(domain)) == Failure(DomainTooLong) <==> |domain| > 32
    ensures Encode(body, AddOfferOp(selling, buying, amt, price)) == Failure(BadPrice) <==> price.None?
    ensures Encode(body, AddAccountMergeOp(to)) == Failure(WrongBodyType) <==> to.Account? && body == TakesMuxedAccount
    ensures Encode(body, AddAccountMergeOp(to)) == Failure(BadAddress) <==> !to.Account?
    ensures Encode(body, AddInflationDestinationOp(to)) == Failure(BadAddress) <==> !to.Account?
    ensures Encode(body, AddCreateTrustlineOp(code, issuer, amt)) == Failure(LimitNotPositive) <==>
      MakeXDRChangeTrustAsset(code, issuer).Success? && ParseInt64(amt).Success? && ParseInt64(amt).value <= 0
  {
  }

  // -------------------------------------------------------------- signing

  predicate CongruentModulo(x: int, y: int, m: int)
    requires m > 0
  {
    (x - y) % m == 0
  }

  /** Signing succeeds exactly for one to a hundred usable operations with at most one
      memo and one set of bounds, when the account's number can be had, the source is
      an account, the network has a passphrase and the seed is one. */
  lemma SignsExactly(body: MergeBody, calls: seq<Call>, h: Header, from: SeedStr, sequence: Result<int, TxError>)
    ensures SignBuilding(Run(body, calls), h, from, sequence).Success? <==>
      && Fits(body, calls) && OpsOf(calls) != []
      && sequence.Success? && (h.source.Account? || h.source.Muxed?) && !h.passphraseIsBlank && from.Seed?
  {
    RunHoldsRequests(body, calls);
  }

  /** Calls that fit fail to sign for the first of these reasons that applies. */
  lemma SigningErrors(body: MergeBody, calls: seq<Call>, h: Header, from: SeedStr, sequence: Result<int, TxError>)
    requires Fits(body, calls) && SignBuilding(Run(body, calls), h, from, sequence).Failure?
    ensures var e := SignBuilding(Run(body, calls), h, from, sequence).error;
      && (OpsOf(calls) == [] ==> e == NoOps)
      && (OpsOf(calls) != [] && sequence.Failure? ==> e == sequence.error)
      && (OpsOf(calls) != [] && sequence.Success? ==>
            e == (if !h.source.Account? && !h.source.Muxed? then BadAddress
                  else if h.passphraseIsBlank then EmptyPassphrase
                  else InvalidSeed))
  {
    RunHoldsRequests(body, calls);
  }

  lemma WrapIsCongruent(x: int)
    ensures CongruentModulo(Wrap64(x), x, 0x1_0000_0000_0000_0000)
  {
  }

  lemma LowBitsCongruent(x: nat)
    ensures CongruentModulo(x % 0x1_0000_0000_0000_0000 % 0x1_0000_0000, x, 0x1_0000_0000)
  {
  }

  lemma UnsignedIsCongruent(v: int)
    requires IsInt64(v)
    ensures ToUint64(v) < 0x1_0000_0000_0000_0000 && CongruentModulo(ToUint64(v), v, 0x1_0000_0000_0000_0000)
  {
  }

  lemma FeeIsCongruent(baseFee: nat, n: nat)
    ensures FeeOf(baseFee, n) < 0x1_0000_0000 && CongruentModulo(FeeOf(baseFee, n), baseFee * n, 0x1_0000_0000)
  {
    LowBitsCongruent(baseFee * n);
  }

  lemma SignedFields(b: Building, h: Header, from: SeedStr, sequence: Result<int, TxError>)
    requires SignBuilding(b, h, from, sequence).Success?
    ensures var r := SignBuilding(b, h, from, sequence).value;
      && sequence.Success?
      && IsInt64(r.transaction.seqNum)
      && CongruentModulo(r.transaction.seqNum, sequence.value + 1, 0x1_0000_0000_0000_0000)
      && r.seqno < 0x1_0000_0000_0000_0000
      && CongruentModulo(r.seqno, r.transaction.seqNum, 0x1_0000_0000_0000_0000)
      && r.transaction.fee < 0x1_0000_0000
      && CongruentModulo(r.transaction.fee, h.baseFee * |b.operations|, 0x1_0000_0000)
      && Reaches(r.transaction.source, h.source)
      && from == Seed(r.signer)
  {
    WrapIsCongruent(sequence.value + 1);
    UnsignedIsCongruent(Wrap64(sequence.value + 1));
    FeeIsCongruent(h.baseFee, |b.operations|);
  }

  /** A signed transaction carries the number after the account's last one, as a signed
      and as an unsigned 64-bit number, the low 32 bits of base fee times operations,
      the source it was built for, and the key of the seed that signed it. */
  lemma SignedCarries(body: MergeBody, calls: seq<Call>, h: Header, from: SeedStr, sequence: Result<int, TxError>)
    requires SignBuilding(Run(body, calls), h, from, sequence).Success?
    ensures var r := SignBuilding(Run(body, calls), h, from, sequence).value;
      && sequence.Success?
      && -0x8000_0000_0000_0000 <= r.transaction.seqNum < 0x8000_0000_0000_0000
      && CongruentModulo(r.transaction.seqNum, sequence.value + 1, 0x1_0000_0000_0000_0000)
      && 0 <= r.seqno < 0x1_0000_0000_0000_0000
      && CongruentModulo(r.seqno, r.transaction.seqNum, 0x1_0000_0000_0000_0000)
      && 0 <= r.transaction.fee < 0x1_0000_0000
      && CongruentModulo(r.transaction.fee, h.baseFee * |OpsOf(calls)|, 0x1_0000_0000)
      && Reaches(r.transaction.source, h.source)
      && from == Seed(r.signer)
  {
    SignedIsRequested(body, calls, h, from, sequence);
    SignedFields(Run(body, calls), h, from, sequence);
  }
}
