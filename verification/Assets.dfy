/** Assets (assets.go): three encoders from a code and an issuer to the fixed-width
    XDR form, and the decoders back. A code is a sequence of bytes. */
module Assets {
  import opened Wrappers
  import opened Texts
  import opened Addresses

  const NUL: char := 0 as char
  const WIDTH4: nat := 4
  const WIDTH12: nat := 12

  datatype XdrAsset =
    | Native
    | AlphaNum4(code4: string, issuer: AccountId)
    | AlphaNum12(code12: string, issuer: AccountId)

  datatype XdrChangeTrustAsset = Line(asset: XdrAsset) | PoolShare

  datatype AssetMinimal = AssetMinimal(assetType: string, code: string, issuer: AddressStr)

  datatype AssetError = InvalidCodeLength | InvalidIssuer | InvalidXdrType

  /** Go's `copy` into a zeroed array of `width` bytes. */
  function CopyInto(code: string, width: nat): (r: string)
    ensures |r| == width
  {
    if |code| <= width then code + seq(width - |code|, i => NUL) else code[..width]
  }

  function AssetCodeToType(code: string): Result<string, AssetError> {
    var x := |code|;
    if x == 0 then Success("native")
    else if 1 <= x <= 4 then Success("credit_alphanum4")
    else if 5 <= x <= 12 then Success("credit_alphanum12")
    else Failure(InvalidCodeLength)
  }

  function NewAssetMinimal(code: string, issuer: AddressStr): Result<AssetMinimal, AssetError> {
    if |code| == 0 && issuer.IsEmpty() then Success(AssetMinimal("native", code, issuer))
    else
      var t :- AssetCodeToType(code);
      Success(AssetMinimal(t, code, issuer))
  }

  function MakeXDRAsset(code: string, issuerID: AddressStr): Result<XdrAsset, AssetError> {
    if |code| == 0 && issuerID.IsEmpty() then Success(Native)
    else if issuerID.AccountID().None? then Failure(InvalidIssuer)
    else
      var issuer, x := issuerID.AccountID().value, |code|;
      if 1 <= x && x <= 4 then Success(AlphaNum4(CopyInto(code, WIDTH4), issuer))
      else if 5 <= x && x <= 12 then Success(AlphaNum12(CopyInto(code, WIDTH12), issuer))
      else Failure(InvalidCodeLength)
  }

  /** The guard of the second case is the source's: no length satisfies it. */
  function MakeXDRChangeTrustAsset(code: string, issuerID: AddressStr): Result<XdrChangeTrustAsset, AssetError> {
    if |code| == 0 && issuerID.IsEmpty() then Success(Line(Native))
    else if issuerID.AccountID().None? then Failure(InvalidIssuer)
    else
      var issuer, x := issuerID.AccountID().value, |code|;
      if 1 <= x && x <= 4 then Success(Line(AlphaNum4(CopyInto(code, WIDTH4), issuer)))
      else if 5 <= x && x <= 1 then Success(Line(AlphaNum12(CopyInto(code, WIDTH12), issuer)))
      else Failure(InvalidCodeLength)
  }

  function AssetBaseToXDR(a: AssetMinimal): Result<XdrAsset, AssetError> {
    if |a.code| == 0 && a.issuer.IsEmpty() then Success(Native)
    else if NewAddressStr(a.issuer).None? then Failure(InvalidIssuer)
    else
      var issuerID := NewAddressStr(a.issuer).value.AccountID();
      if issuerID.None? then Failure(InvalidIssuer)
      else
        var x := |a.code|;
        if 1 <= x && x <= 4 then Success(AlphaNum4(CopyInto(a.code, WIDTH4), issuerID.value))
        else if 5 <= x && x <= 12 then Success(AlphaNum12(CopyInto(a.code, WIDTH12), issuerID.value))
        else Failure(InvalidCodeLength)
  }

  /** The code up to the first zero byte. */
  function CodeOf(bytes: string): string {
    bytes[..IndexOf(bytes, NUL)]
  }

  function XDRToAssetMinimal(x: XdrAsset): AssetMinimal {
    match x
    case Native => AssetMinimal("", "", EmptyAddress)
    case AlphaNum4(code, issuer) => AssetMinimal("", CodeOf(code), Account(issuer))
    case AlphaNum12(code, issuer) => AssetMinimal("", CodeOf(code), Account(issuer))
  }

  function ChangeTrustXDRToAssetMinimal(x: XdrChangeTrustAsset): Result<AssetMinimal, AssetError> {
    match x
    case Line(asset) => Success(XDRToAssetMinimal(asset))
    case PoolShare => Failure(InvalidXdrType)
  }

  // ------------------------------------------------------------- properties

  /** `bytes` is the code followed by zero bytes up to this width. */
  predicate Filled(bytes: string, code: string, width: nat) {
    && |bytes| == width
    && forall i :: 0 <= i < width ==> bytes[i] == if i < |code| then code[i] else 0 as char
  }

  /** What an encoded asset stands for: lumens have neither code nor issuer; a code of
      one to four bytes has a field of four, one of five to twelve a field of twelve. */
  predicate Names(x: XdrAsset, code: string, issuer: AddressStr) {
    match x
    case Native => code == "" && issuer == EmptyAddress
    case AlphaNum4(bytes, id) => 1 <= |code| <= 4 && Filled(bytes, code, 4) && issuer == Account(id)
    case AlphaNum12(bytes, id) => 5 <= |code| <= 12 && Filled(bytes, code, 12) && issuer == Account(id)
  }

  lemma FilledExactly(bytes: string, code: string, width: nat)
    requires |code| <= width
    ensures Filled(bytes, code, width) <==> bytes == CopyInto(code, width)
  {
    if Filled(bytes, code, width) {
      assert forall i :: 0 <= i < width ==> bytes[i] == CopyInto(code, width)[i];
    }
  }

  /** The encoder finds what stands for the code and issuer, if anything does. */
  lemma EncodesExactly(code: string, issuer: AddressStr, x: XdrAsset)
    ensures MakeXDRAsset(code, issuer) == Success(x) <==> Names(x, code, issuer)
  {
    match x
    case Native =>
    case AlphaNum4(bytes, _) =>
      if |code| <= 4 {
        FilledExactly(bytes, code, 4);
      }
    case AlphaNum12(bytes, _) =>
      if |code| <= 12 {
        FilledExactly(bytes, code, 12);
      }
  }

  /** Nothing stands for an asset whose issuer is no account, or whose code is empty or
      longer than twelve bytes. */
  lemma RefusedExactly(code: string, issuer: AddressStr)
    ensures MakeXDRAsset(code, issuer) == Failure(InvalidIssuer) <==>
      !issuer.Account? && !(code == "" && issuer == EmptyAddress)
    ensures MakeXDRAsset(code, issuer) == Failure(InvalidCodeLength) <==>
      issuer.Account? && !(1 <= |code| <= 12)
  {
  }

  /** The type that an asset is given agrees with its encoding. */
  lemma TypeOfEncoding(code: string, issuer: AddressStr, x: XdrAsset)
    requires MakeXDRAsset(code, issuer) == Success(x)
    ensures NewAssetMinimal(code, issuer) == Success(AssetMinimal(
      match x case Native => "native" case AlphaNum4(_, _) => "credit_alphanum4" case AlphaNum12(_, _) => "credit_alphanum12",
      code, issuer))
  {
  }

  lemma CopyThenRead(code: string, width: nat)
    requires |code| <= width
    ensures CodeOf(CopyInto(code, width)) == code <==> NUL !in code
  {
    var bytes := CopyInto(code, width);
    if NUL !in code {
      assert forall i :: 0 <= i < |code| ==> bytes[i] == code[i];
      IndexOfUnique(bytes, NUL, |code|);
      assert bytes[..|code|] == code;
    }
    assert NUL !in CodeOf(bytes);
  }

  /** A code of one to twelve bytes with a valid issuer can be encoded, and decoding
      gives back the same code and issuer exactly when no byte of it is zero. */
  lemma EncodeThenDecode(code: string, issuer: AddressStr)
    requires 1 <= |code| <= 12 && issuer.Account?
    ensures MakeXDRAsset(code, issuer).Success?
    ensures XDRToAssetMinimal(MakeXDRAsset(code, issuer).value) == AssetMinimal("", code, issuer)
      <==> NUL !in code
  {
    CopyThenRead(code, if |code| <= 4 then 4 else 12);
  }

  /** Different assets never share an encoding. */
  lemma EncodingIsInjective(code: string, issuer: AddressStr, code': string, issuer': AddressStr)
    requires NUL !in code && NUL !in code'
    requires MakeXDRAsset(code, issuer).Success? && MakeXDRAsset(code, issuer) == MakeXDRAsset(code', issuer')
    ensures code == code' && issuer == issuer'
  {
    if |code| > 0 {
      EncodeThenDecode(code, issuer);
      EncodeThenDecode(code', issuer');
    }
  }

  /** The two encoders of assets accept the same inputs and agree on them. */
  lemma EncodersAgree(t: string, code: string, issuer: AddressStr)
    ensures AssetBaseToXDR(AssetMinimal(t, code, issuer)) == MakeXDRAsset(code, issuer)
  {
  }

  /** As written, the trustline encoder agrees with the asset encoder exactly when
      the code is not five to twelve bytes long; it refuses all of those. */
  lemma TrustlineEncoderAgreement(code: string, issuer: AddressStr)
    ensures 5 <= |code| <= 12 ==> MakeXDRChangeTrustAsset(code, issuer).Failure?
    ensures (match MakeXDRAsset(code, issuer)
             case Success(a) => MakeXDRChangeTrustAsset(code, issuer) == Success(Line(a))
             case Failure(e) => MakeXDRChangeTrustAsset(code, issuer) == Failure(e))
      <==> !(5 <= |code| <= 12 && issuer.Account?)
  {
  }

  /** What the trustline encoder does accept is decoded to the same code and issuer,
      and only pool shares have neither. */
  lemma TrustlineEncodeThenDecode(code: string, issuer: AddressStr)
    requires MakeXDRChangeTrustAsset(code, issuer).Success?
    ensures ChangeTrustXDRToAssetMinimal(MakeXDRChangeTrustAsset(code, issuer).value) == Success(AssetMinimal("", code, issuer))
      <==> NUL !in code
  {
    if 1 <= |code| <= 4 {
      EncodeThenDecode(code, issuer);
    }
  }
}
