/** Addresses and seeds (keys.go). Strkey encoding and Ed25519 are foreign to the
    model: an address string is represented by what decoding it yields. */
module Addresses {
  import opened Wrappers

  datatype AccountId = AccountId(key: nat)

  /** The destination form that also admits a sub-account number. */
  datatype MuxedAccount = MuxedAccount(account: AccountId, subAccount: Option<nat>)

  datatype AddressStr =
    | Account(id: AccountId)
    | Muxed(id: AccountId, subAccount: nat)
    | SeedText(id: AccountId)
    | EmptyAddress
    | Malformed(text: string)
  {
    predicate IsEmpty() {
      EmptyAddress?
    }

    function AccountID(): Option<AccountId> {
      if Account? then Some(id) else None
    }

    function MuxedAccountOf(): Option<MuxedAccount> {
      match this
      case Account(id) => Some(MuxedAccount(id, None))
      case Muxed(id, n) => Some(MuxedAccount(id, Some(n)))
      case _ => None
    }
  }

  /** NewAddressStr: only a plain account address passes. */
  function NewAddressStr(a: AddressStr): Option<AddressStr> {
    if a.Account? then Some(a) else None
  }

  datatype SeedStr =
    | Seed(id: AccountId)
    | PublicOnly(id: AccountId)
    | BadSeed
  {
    function Address(): Option<AddressStr> {
      match this
      case Seed(id) => Some(Account(id))
      case PublicOnly(id) => Some(Account(id))
      case BadSeed => None
    }
  }
}
