/** The transaction builder (tx.go). `Tx` is a mutable object with a delayed error;
    `Building` is the value it stands for and `Step` what one Add* call does to it. */
module TxBuilder {
  import opened Wrappers
  import opened Amounts
  import opened Addresses
  import opened Assets

  const MIN_BASE_FEE: nat := 100
  const MAX_OPERATIONS: nat := 100
  const MAX_DOMAIN: nat := 32

  /** The type the linked XDR library demands for the body of account_merge. The
      builder always supplies an AccountId; the vendored library takes a
      MuxedAccount (vendor/github.com/stellar/go/xdr/xdr_generated.go:20286). */
  datatype MergeBody = TakesAccountId | TakesMuxedAccount

  datatype Price = Price(n: nat, d: nat)

  datatype TimeBounds = TimeBounds(min: int, max: int)

  datatype Memo =
    | MemoNone
    | MemoText(text: string)
    | MemoID(id: nat)
    | MemoHash(hash: string)
    | MemoReturn(returnHash: string)
    | MemoOfUnknownType

  datatype Operation =
    | Payment(destination: MuxedAccount, asset: XdrAsset, amount: int)
    | PathPayment(sendAsset: XdrAsset, sendMax: int, to: MuxedAccount, destAsset: XdrAsset, destAmount: int, path: seq<XdrAsset>)
    | CreateAccount(account: AccountId, startingBalance: int)
    | AccountMerge(into: AccountId)
    | SetInflationDestination(inflation: AccountId)
    | SetHomeDomain(domain: string)
    | ManageSellOffer(selling: XdrAsset, buying: XdrAsset, toSell: int, price: Price)
    | ChangeTrust(line: XdrChangeTrustAsset, limit: int)

  datatype TxError =
    | BadAmount(amountError: AmountError)
    | BadAddress
    | BadAsset(assetError: AssetError)
    | BadPrice
    | DomainTooLong
    | LimitNotPositive
    | WrongBodyType
    | UnknownMemoType
    | TxOpFull
    | MemoExists
    | TimeBoundsExist
    | NoOps
    | SequenceError
    | EmptyPassphrase
    | InvalidSeed

  // ------------------------------------------------------------ the calls

  /** The Add* calls that add an operation. The parsing of a price belongs to the
      Stellar library; its outcome is the argument. */
  datatype OpCall =
    | AddPaymentOp(to: AddressStr, amt: string)
    | AddAssetPaymentOp(to: AddressStr, asset: XdrAsset, amt: string)
    | AddPathPaymentOp(to: AddressStr, sendAsset: AssetMinimal, sendMax: string, destAsset: AssetMinimal, destAmount: string, path: seq<AssetMinimal>)
    | AddCreateAccountOp(to: AddressStr, amt: string)
    | AddAccountMergeOp(to: AddressStr)
    | AddInflationDestinationOp(to: AddressStr)
    | AddHomeDomainOp(domain: string)
    | AddOfferOp(selling: XdrAsset, buying: XdrAsset, amt: string, price: Option<Price>)
    | AddCreateTrustlineOp(code: string, issuer: AddressStr, limit: string)
    | AddDeleteTrustlineOp(code: string, issuer: AddressStr)

  datatype MemoCall =
    | AddMemo(memo: Option<Memo>)
    | AddMemoText(text: string)
    | AddMemoID(id: Option<nat>)

  datatype TimeCall =
    | AddTimeBounds(min: int, max: int)
    | AddBuiltTimeBounds(bounds: Option<TimeBounds>)

  datatype Call = OnOps(op: OpCall) | OnMemo(memo: MemoCall) | OnTime(time: TimeCall)

  function ParseAmountOf(text: string): Result<int, TxError> {
    match ParseInt64(text)
    case Success(v) => Success(v)
    case Failure(e) => Failure(BadAmount(e))
  }

  function MuxedOf(a: AddressStr): Result<MuxedAccount, TxError> {
    if a.MuxedAccountOf().Some? then Success(a.MuxedAccountOf().value) else Failure(BadAddress)
  }

  function AccountOf(a: AddressStr): Result<AccountId, TxError> {
    if a.AccountID().Some? then Success(a.AccountID().value) else Failure(BadAddress)
  }

  function AssetOf(a: AssetMinimal): Result<XdrAsset, TxError> {
    match AssetBaseToXDR(a)
    case Success(x) => Success(x)
    case Failure(e) => Failure(BadAsset(e))
  }

  function AssetsOf(path: seq<AssetMinimal>): Result<seq<XdrAsset>, TxError> {
    if path == [] then Success([])
    else
      var front :- AssetsOf(path[..|path| - 1]);
      var last :- AssetOf(path[|path| - 1]);
      Success(front + [last])
  }

  function TrustAssetOf(code: string, issuer: AddressStr): Result<XdrChangeTrustAsset, TxError> {
    match MakeXDRChangeTrustAsset(code, issuer)
    case Success(x) => Success(x)
    case Failure(e) => Failure(BadAsset(e))
  }

  /** xdr.NewOperationBody for account_merge, handed an AccountId. */
  function MergeOperation(body: MergeBody, into: AccountId): Result<Operation, TxError> {
    match body
    case TakesAccountId => Success(AccountMerge(into))
    case TakesMuxedAccount => Failure(WrongBodyType)
  }

  /** The operation a call asks for, or the first error its arguments cause. */
  function Encode(body: MergeBody, call: OpCall): Result<Operation, TxError> {
    match call
    case AddPaymentOp(to, amt) =>
      var a :- ParseAmountOf(amt);
      var dest :- MuxedOf(to);
      Success(Payment(dest, Native, a))
    case AddAssetPaymentOp(to, asset, amt) =>
      var a :- ParseAmountOf(amt);
      var dest :- MuxedOf(to);
      Success(Payment(dest, asset, a))
    case AddPathPaymentOp(to, sendAsset, sendMax, destAsset, destAmount, path) =>
      var s :- AssetOf(sendAsset);
      var d :- AssetOf(destAsset);
      var most :- ParseAmountOf(sendMax);
      var dest :- MuxedOf(to);
      var a :- ParseAmountOf(destAmount);
      var p :- AssetsOf(path);
      Success(PathPayment(s, most, dest, d, a, p))
    case AddCreateAccountOp(to, amt) =>
      var a :- ParseAmountOf(amt);
      var account :- AccountOf(to);
      Success(CreateAccount(account, a))
    case AddAccountMergeOp(to) =>
      var account :- AccountOf(to);
      MergeOperation(body, account)
    case AddInflationDestinationOp(to) =>
      var account :- AccountOf(to);
      Success(SetInflationDestination(account))
    case AddHomeDomainOp(domain) =>
      if |domain| > MAX_DOMAIN then Failure(DomainTooLong) else Success(SetHomeDomain(domain))
    case AddOfferOp(selling, buying, amt, price) =>
      if price.None? then Failure(BadPrice)
      else
        var a :- ParseAmountOf(amt);
        Success(ManageSellOffer(selling, buying, a, price.value))
    case AddCreateTrustlineOp(code, issuer, limit) =>
      var line :- TrustAssetOf(code, issuer);
      var l :- ParseAmountOf(limit);
      if l <= 0 then Failure(LimitNotPositive) else Success(ChangeTrust(line, l))
    case AddDeleteTrustlineOp(code, issuer) =>
      var line :- TrustAssetOf(code, issuer);
      Success(ChangeTrust(line, 0))
  }

  // ----------------------------------------------------------- the builder

  datatype Building = Building(operations: seq<Operation>, memo: Memo, timeBounds: Option<TimeBounds>, err: Option<TxError>)

  const EMPTY: Building := Building([], MemoNone, None, None)

  function StepOp(body: MergeBody, b: Building, call: OpCall): Building {
    if b.err.Some? then b
    else if |b.operations| >= MAX_OPERATIONS then b.(err := Some(TxOpFull))
    else
      match Encode(body, call)
      case Success(op) => b.(operations := b.operations + [op])
      case Failure(e) => b.(err := Some(e))
  }

  /** A nil id is ignored; a nil memo is ignored too, but only after the check that
      there is no memo yet. */
  function StepMemo(b: Building, call: MemoCall): Building {
    if call == AddMemoID(None) || b.err.Some? then b
    else if b.memo != MemoNone then b.(err := Some(MemoExists))
    else
      match call
      case AddMemo(None) => b
      case AddMemo(Some(MemoOfUnknownType)) => b.(err := Some(UnknownMemoType))
      case AddMemo(Some(m)) => b.(memo := m)
      case AddMemoText(text) => b.(memo := MemoText(text))
      case AddMemoID(Some(id)) => b.(memo := MemoID(id))
  }

  function StepTime(b: Building, call: TimeCall): Building {
    if call == AddBuiltTimeBounds(None) || b.err.Some? then b
    else if b.timeBounds.Some? then b.(err := Some(TimeBoundsExist))
    else
      match call
      case AddTimeBounds(min, max) => b.(timeBounds := Some(TimeBounds(min, max)))
      case AddBuiltTimeBounds(Some(bounds)) => b.(timeBounds := Some(bounds))
  }

  function Step(body: MergeBody, b: Building, call: Call): Building {
    match call
    case OnOps(c) => StepOp(body, b, c)
    case OnMemo(c) => StepMemo(b, c)
    case OnTime(c) => StepTime(b, c)
  }

  // ----------------------------------------------------------- signing

  datatype Header = Header(source: AddressStr, baseFee: nat, passphraseIsBlank: bool)

  datatype Transaction = Transaction(source: MuxedAccount, fee: nat, seqNum: int, timeBounds: Option<TimeBounds>, memo: Memo, operations: seq<Operation>)

  /** The signed envelope and its hash are functions of the transaction and signer. */
  datatype SignResult = SignResult(seqno: nat, transaction: Transaction, signer: AccountId)

  /** The larger of the two. */
  function EffectiveBaseFee(baseFee: nat): (f: nat)
    ensures f >= baseFee && f >= 100 && (f == baseFee || f == 100)
  {
    if baseFee < MIN_BASE_FEE then MIN_BASE_FEE else baseFee
  }

  /** A 64-bit product cut down to 32 bits. */
  function FeeOf(baseFee: nat, operations: nat): nat {
    baseFee * operations % 0x1_0000_0000_0000_0000 % 0x1_0000_0000
  }

  /** A signed 64-bit number read as unsigned. */
  function ToUint64(v: int): nat
    requires IsInt64(v)
  {
    if v < 0 then v + 0x1_0000_0000_0000_0000 else v
  }

  function SignBuilding(b: Building, h: Header, from: SeedStr, sequence: Result<int, TxError>): Result<SignResult, TxError> {
    if b.err.Some? then Failure(b.err.value)
    else if |b.operations| == 0 then Failure(NoOps)
    else
      var last :- sequence;
      var seqNum := Wrap64(last + 1);
      var source :- MuxedOf(h.source);
      if h.passphraseIsBlank then Failure(EmptyPassphrase)
      else if !from.Seed? then Failure(InvalidSeed)
      else Success(SignResult(ToUint64(seqNum),
                              Transaction(source, FeeOf(h.baseFee, |b.operations|), seqNum, b.timeBounds, b.memo, b.operations),
                              from.id))
  }

  /** An error in a path stays the path's error however it goes on. */
  lemma PathError(path: seq<AssetMinimal>, k: nat)
    requires k <= |path| && AssetsOf(path[..k]).Failure?
    ensures AssetsOf(path) == AssetsOf(path[..k])
    decreases |path| - k
  {
    if k == |path| {
      assert path[..k] == path;
    } else {
      assert path[..k + 1][..k] == path[..k];
      PathError(path, k + 1);
    }
  }

  class Tx {
    const body: MergeBody
    const source: AddressStr
    const baseFee: nat
    const passphraseIsBlank: bool
    var operations: seq<Operation>
    var memo: Memo
    var timeBounds: Option<TimeBounds>
    var err: Option<TxError>
    var seqNum: int
    var fee: nat

    constructor (source: AddressStr, baseFee: nat, body: MergeBody, passphraseIsBlank: bool)
      ensures State() == EMPTY
      ensures Head() == Header(source, EffectiveBaseFee(baseFee), passphraseIsBlank)
      ensures this.body == body
    {
      this.body, this.source, this.passphraseIsBlank := body, source, passphraseIsBlank;
      this.baseFee := if baseFee < MIN_BASE_FEE then MIN_BASE_FEE else baseFee;
      operations, memo, timeBounds, err := [], MemoNone, None, None;
      seqNum, fee := 0, 0;
    }

    function State(): Building
      reads this
    {
      Building(operations, memo, timeBounds, err)
    }

    function Head(): Header {
      Header(source, baseFee, passphraseIsBlank)
    }

    predicate IsFull()
      reads this
    {
      |operations| >= MAX_OPERATIONS
    }

    predicate HaveMemo()
      reads this
    {
      memo != MemoNone
    }

    method SkipAddOp() returns (skip: bool)
      modifies this
      ensures skip == (old(err).Some? || old(IsFull()))
      ensures State() == if old(err).None? && old(IsFull()) then old(State()).(err := Some(TxOpFull)) else old(State())
    {
      if err.Some? {
        return true;
      }
      if IsFull() {
        err := Some(TxOpFull);
        return true;
      }
      return false;
    }

    method SkipAddMemo() returns (skip: bool)
      modifies this
      ensures skip == (old(err).Some? || old(HaveMemo()))
      ensures State() == if old(err).None? && old(HaveMemo()) then old(State()).(err := Some(MemoExists)) else old(State())
    {
      if err.Some? {
        return true;
      }
      if HaveMemo() {
        err := Some(MemoExists);
        return true;
      }
      return false;
    }

    /** Appends an operation whose body could be made, or keeps the error. */
    method AddOp(op: Result<Operation, TxError>)
      requires err.None?
      modifies this
      ensures op.Success? ==> State() == old(State()).(operations := old(operations) + [op.value])
      ensures op.Failure? ==> State() == old(State()).(err := Some(op.error))
    {
      match op
      case Failure(e) => err := Some(e);
      case Success(o) => operations := operations + [o];
    }

    /** A conversion that failed: the error is kept and the call is over. */
    method Fail(e: TxError)
      requires err.None?
      modifies this
      ensures State() == old(State()).(err := Some(e))
    {
      err := Some(e);
    }

    method AddPaymentOp(to: AddressStr, amt: string)
      modifies this
      ensures State() == StepOp(body, old(State()), OpCall.AddPaymentOp(to, amt))
    {
      AddAssetPaymentOp(to, Native, amt);
    }

    method AddAssetPaymentOp(to: AddressStr, asset: XdrAsset, amt: string)
      modifies this
      ensures State() == StepOp(body, old(State()), OpCall.AddAssetPaymentOp(to, asset, amt))
    {
      var skip := SkipAddOp();
      if skip {
        return;
      }
      var a := ParseAmountOf(amt);
      if a.Failure? {
        Fail(a.error);
        return;
      }
      var dest := MuxedOf(to);
      if dest.Failure? {
        Fail(dest.error);
        return;
      }
      AddOp(Success(Payment(dest.value, asset, a.value)));
    }

    method AddPathPaymentOp(to: AddressStr, sendAsset: AssetMinimal, sendMax: string, destAsset: AssetMinimal, destAmount: string, path: seq<AssetMinimal>)
      modifies this
      ensures State() == StepOp(body, old(State()), OpCall.AddPathPaymentOp(to, sendAsset, sendMax, destAsset, destAmount, path))
    {
      var skip := SkipAddOp();
      if skip {
        return;
      }
      var s := AssetOf(sendAsset);
      if s.Failure? {
        Fail(s.error);
        return;
      }
      var d := AssetOf(destAsset);
      if d.Failure? {
        Fail(d.error);
        return;
      }
      var most := ParseAmountOf(sendMax);
      if most.Failure? {
        Fail(most.error);
        return;
      }
      var dest := MuxedOf(to);
      if dest.Failure? {
        Fail(dest.error);
        return;
      }
      var a := ParseAmountOf(destAmount);
      if a.Failure? {
        Fail(a.error);
        return;
      }
      var p := EncodePath(path);
      if p.Failure? {
        Fail(p.error);
        return;
      }
      AddOp(Success(PathPayment(s.value, most.value, dest.value, d.value, a.value, p.value)));
    }

    static method EncodePath(path: seq<AssetMinimal>) returns (r: Result<seq<XdrAsset>, TxError>)
      ensures r == AssetsOf(path)
    {
      var xdrPath := [];
      for i := 0 to |path|
        invariant AssetsOf(path[..i]) == Success(xdrPath)
      {
        var a := AssetOf(path[i]);
        assert path[..i + 1][..i] == path[..i];
        if a.Failure? {
          PathError(path, i + 1);
          return Failure(a.error);
        }
        xdrPath := xdrPath + [a.value];
      }
      assert path[..|path|] == path;
      return Success(xdrPath);
    }

    method AddCreateAccountOp(to: AddressStr, amt: string)
      modifies this
      ensures State() == StepOp(body, old(State()), OpCall.AddCreateAccountOp(to, amt))
    {
      var skip := SkipAddOp();
      if skip {
        return;
      }
      var a := ParseAmountOf(amt);
      if a.Failure? {
        Fail(a.error);
        return;
      }
      var account := AccountOf(to);
      if account.Failure? {
        Fail(account.error);
        return;
      }
      AddOp(Success(CreateAccount(account.value, a.value)));
    }

    method AddAccountMergeOp(to: AddressStr)
      modifies this
      ensures State() == StepOp(body, old(State()), OpCall.AddAccountMergeOp(to))
    {
      var skip := SkipAddOp();
      if skip {
        return;
      }
      var account := AccountOf(to);
      if account.Failure? {
        Fail(account.error);
        return;
      }
      AddOp(MergeOperation(body, account.value));
    }

    method AddInflationDestinationOp(to: AddressStr)
      modifies this
      ensures State() == StepOp(body, old(State()), OpCall.AddInflationDestinationOp(to))
    {
      var skip := SkipAddOp();
      if skip {
        return;
      }
      var account := AccountOf(to);
      if account.Failure? {
        Fail(account.error);
        return;
      }
      AddOp(Success(SetInflationDestination(account.value)));
    }

    method AddHomeDomainOp(domain: string)
      modifies this
      ensures State() == StepOp(body, old(State()), OpCall.AddHomeDomainOp(domain))
    {
      var skip := SkipAddOp();
      if skip {
        return;
      }
      if |domain| > MAX_DOMAIN {
        Fail(DomainTooLong);
        return;
      }
      AddOp(Success(SetHomeDomain(domain)));
    }

    method AddOfferOp(selling: XdrAsset, buying: XdrAsset, amt: string, price: Option<Price>)
      modifies this
      ensures State() == StepOp(body, old(State()), OpCall.AddOfferOp(selling, buying, amt, price))
    {
      var skip := SkipAddOp();
      if skip {
        return;
      }
      if price.None? {
        Fail(BadPrice);
        return;
      }
      var a := ParseAmountOf(amt);
      if a.Failure? {
        Fail(a.error);
        return;
      }
      AddOp(Success(ManageSellOffer(selling, buying, a.value, price.value)));
    }

    method AddCreateTrustlineOp(code: string, issuer: AddressStr, limit: string)
      modifies this
      ensures State() == StepOp(body, old(State()), OpCall.AddCreateTrustlineOp(code, issuer, limit))
    {
      var skip := SkipAddOp();
      if skip {
        return;
      }
      var line := TrustAssetOf(code, issuer);
      if line.Failure? {
        Fail(line.error);
        return;
      }
      var l := ParseAmountOf(limit);
      if l.Failure? {
        Fail(l.error);
        return;
      }
      if l.value <= 0 {
        Fail(LimitNotPositive);
        return;
      }
      AddOp(Success(ChangeTrust(line.value, l.value)));
    }

    method AddDeleteTrustlineOp(code: string, issuer: AddressStr)
      modifies this
      ensures State() == StepOp(body, old(State()), OpCall.AddDeleteTrustlineOp(code, issuer))
    {
      var skip := SkipAddOp();
      if skip {
        return;
      }
      var line := TrustAssetOf(code, issuer);
      if line.Failure? {
        Fail(line.error);
        return;
      }
      AddOp(Success(ChangeTrust(line.value, 0)));
    }

    method AddMemo(m: Option<Memo>)
      modifies this
      ensures State() == StepMemo(old(State()), MemoCall.AddMemo(m))
    {
      var skip := SkipAddMemo();
      if skip {
        return;
      }
      match m
      case None =>
      case Some(MemoOfUnknownType) => err := Some(UnknownMemoType);
      case Some(value) => memo := value;
    }

    method AddMemoText(text: string)
      modifies this
      ensures State() == StepMemo(old(State()), MemoCall.AddMemoText(text))
    {
      var skip := SkipAddMemo();
      if skip {
        return;
      }
      memo := MemoText(text);
    }

    method AddMemoID(id: Option<nat>)
      modifies this
      ensures State() == StepMemo(old(State()), MemoCall.AddMemoID(id))
    {
      if id.None? {
        return;
      }
      var skip := SkipAddMemo();
      if skip {
        return;
      }
      memo := MemoID(id.value);
    }

    method AddTimeBounds(min: int, max: int)
      modifies this
      ensures State() == StepTime(old(State()), TimeCall.AddTimeBounds(min, max))
    {
      if err.Some? {
        return;
      }
      if timeBounds.Some? {
        err := Some(TimeBoundsExist);
        return;
      }
      timeBounds := Some(TimeBounds(min, max));
    }

    method AddBuiltTimeBounds(bounds: Option<TimeBounds>)
      modifies this
      ensures State() == StepTime(old(State()), TimeCall.AddBuiltTimeBounds(bounds))
    {
      if bounds.None? {
        return;
      }
      AddTimeBounds(bounds.value.min, bounds.value.max);
    }

    /** Signing leaves the collected parts as they are. The account's last sequence
        number is what the sequence provider answers. */
    method Sign(from: SeedStr, sequence: Result<int, TxError>) returns (r: Result<SignResult, TxError>)
      modifies this
      ensures r == SignBuilding(old(State()), Head(), from, sequence)
      ensures State() == old(State())
    {
      if err.Some? {
        return Failure(err.value);
      }
      if |operations| == 0 {
        return Failure(NoOps);
      }
      if sequence.Failure? {
        return Failure(sequence.error);
      }
      seqNum := Wrap64(sequence.value + 1);
      fee := FeeOf(baseFee, |operations|);
      var sourceAccount := MuxedOf(source);
      if sourceAccount.Failure? {
        return Failure(sourceAccount.error);
      }
      if passphraseIsBlank {
        return Failure(EmptyPassphrase);
      }
      if !from.Seed? {
        return Failure(InvalidSeed);
      }
      r := Success(SignResult(ToUint64(seqNum), Transaction(sourceAccount.value, fee, seqNum, timeBounds, memo, operations), from.id));
    }
  }
}
