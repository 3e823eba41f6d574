# stellarnet, modelled and proved

stellarnet is a Go library that builds, signs and submits Stellar transactions and does the
arithmetic a wallet needs. This project models its hard parts in Dafny and proves what callers
rely on. Code that changes things in place is modelled by classes and loops with the same
branches (`Tx`, `Rat`, `Session`, the merge compiler, the comma loop, the domain-name scanner);
code made of expressions is modelled by functions.

| file | what it holds |
|---|---|
| `SendProtocol.dfy`, `SendRuns.dfy`, `SendSession.dfy` | `SendXLM` and `Submit` as a protocol between a client, a network that delays, repeats and drops, and a ledger; when it falls back and retries; then the Go control flow, each statement a step of that protocol |
| `TxBuilder.dfy`, `TxRuns.dfy`, `TxRequests.dfy` | the transaction builder, what any sequence of calls leaves in it, and what each operation and signed transaction says |
| `AccountPlans.dfy`, `MergePlans.dfy` | the compilers of account merges and relocations onto the builder, and exactly when they sign |
| `Ledger.dfy`, `MergeOnLedger.dfy`, `MergeTheorem.dfy`, `MergeSigning.dfy`, `SignedMerge.dfy`, `Relocation.dfy` | a ledger for the four operations they emit (create_account, payment, change_trust with limit 0, account_merge), and what the signed transactions do there |
| `Decimals.dfy`, `Amounts.dfy`, `Rationals.dfy`, `Conversion.dfy`, `RoundTrips.dfy`, `OutsideTrips.dfy`, `Comparison.dfy`, `ConversionTexts.dfy` | amounts: text, stroops, currency conversion and exactly when it can be undone, comparison |
| `Rounding.dfy`, `Formatting.dfy`, `DisplayedText.dfy` | display of amounts |
| `DomainNames.dfy`, `DomainPositions.dfy`, `Encodings.dfy`, `EncodedTexts.dfy`, `StellarUri.dfy`, `UriValues.dfy` | domain names, base64 and query escaping, the signing payload of SEP-0007 |
| `Assets.dfy`, `Addresses.dfy`, `Texts.dfy`, `Wrappers.dfy` | asset codes; shared vocabulary |

## What the model assumes

* **Network and ledger.** A post hands the signed envelope to the network for ever: it may be
  delivered at any later step, any number of times, or never, and every attempt may be answered by
  a timeout whether it was delivered or not. Somebody else may advance the account's sequence
  number and create or remove the destination between any two steps. The sequence number horizon
  reports may be out of date. One assumption is made of horizon's answers: it reports success only
  for an envelope the ledger credited, and "tx_failed" only for one that the ledger applied as
  failed, which uses up its sequence number. Any other answer, with any other result code, may come
  at any time; that an error leaves the outcome open rests on this.
* **Applying a transaction.** The ledger turns a transaction away unless it carries the source's next
  sequence number and its fee leaves the source its reserve; otherwise fee and sequence number are
  gone, and the operations take effect all together or not at all.
* **Accounts as horizon shows them.** The merge theorems are about a snapshot that tells the truth
  about one ledger: each load lists the account's trustlines, each once, with the type its code's
  length makes it and its printed balance, and entries without a code are lumens. What
  `MergeSignsExactly` says about signing holds for any snapshot, truthful or not.
* **Numbers.** `math/big` rationals are exact reals; int64, uint64 and uint32 arithmetic wraps
  where Go's does; text is a sequence of bytes.

## Where the code and its promises differ

* `AddAccountMergeOp` (tx.go:159-171) passes an account id to the operation body, but the linked
  library wants a muxed account (vendor/github.com/stellar/go/xdr/xdr_generated.go:20286-20292).
  As linked, every merge and relocation fails to sign: `MergePlans.VendoredLibraryRefusesMerges`.
  The model takes the library's expectation as the parameter `MergeBody`, so the other theorems say
  what the code does with a library that takes the account id.
* assets.go:272 compares `x >= 5 && x <= 1`, which never holds, so trustlines with codes of 5 to 12
  bytes can be neither created nor deleted and an account holding one cannot be merged:
  `Assets.TrustlineEncoderAgreement` and the condition `MergePlans.Deletable`.
* `ParseStellarAmount` also refuses a text of more than 20 characters after the sign, whatever its
  value (vendor/github.com/stellar/go/amount/main.go:36,63-83): `Amounts.ParseAccepts`,
  `Amounts.LongZeroIsRefused`. Its own format check changes nothing (`Amounts.StrictCheckIsRedundant`).
* `FmtAmount` refuses "-." followed by zeros only, because the decimal library trims the zeros and
  then reads "-": `Formatting.FormatAccepts`, and "-.0" is such an amount
  (`Formatting.SignedZeroIsRefused`).
* `WithinFactorStellarAmounts` counts equality although its comment writes `<`, as for 90 and 100
  at factor 0.1, and is never true when exactly one amount is zero (amounts.go:145,162-167,177):
  `Comparison.EqualityCounts`, `Comparison.ZeroIsNeverWithin`. It keeps the comment's promise exactly
  where the difference is not equal to factor times the larger size, and for a single zero exactly
  up to factor one: `Comparison.StrictPromiseExactly`.
* A conversion prints "-0.0000000" for exactly the negative results that are less than half a unit
  of 10^-7 away from zero: `Rationals.NegativeZeroExactly`, `Conversion.OutsideIsNegativeZeroExactly`,
  `Conversion.XlmIsNegativeZeroExactly`.
* Converting lumens out and back returns every accepted amount exactly when the rate takes less than
  half of itself off 2^63 stroops, which rates a hair below one still do; without a bound on the
  amounts only rates of at least one return everything: `RoundTrips.AllLumensReturnExactly`,
  `RoundTrips.EverythingComesBackExactly`.
* Converting outside amounts of at most seven decimals to lumens and back returns all those whose
  lumens are an int64 exactly when the rate adds less than half a unit of 10^-7 to the largest of
  them; every rate up to one does. Larger amounts are refused on the way at any rate:
  `OutsideTrips.AllOutsideReturnExactly`, `OutsideTrips.LargeOutsideIsRefused`.
* An error of `SendXLM` settles whether the destination was credited if and only if it is one of its
  own two refusals, of the memo or of the amount; an error of building or signing, such as a bad seed
  or address or a blank network passphrase; an error that names the request for a sequence number; or
  horizon's verdict on a failed transaction. Then it was not. A timeout or a broken connection of a
  submission, any other answer of horizon to one, as after three "tx_bad_seq", a status 404 or an
  answer that cannot be decoded leave it open, so calling again may pay twice:
  `SendSession.ErrorsSettleExactly`. The last two leave it open even when nothing was sent, because
  their errors need not say which request met them (errors.go:88-90,112-113).
* `SignStellarURI` signs every URI, but the appended signature is not read back from a URI without a
  query or with a fragment, nor when the URI carried a signature before; then only that earlier one
  can make it accepted (`StellarUri.SignedUriIsAccepted`).
* `PathPaymentMaxValue` multiplies by 105 in int64 and wraps for larger amounts:
  `Amounts.CeilingIsExactUpToBound` gives the exact bound.

## Model

| member | source | states |
|---|---|---|
| SendProtocol.StepKeepsInv | account.go:969-999 | every possible step of client, network or anybody else keeps the invariant: log numbers rise, only the signed envelopes are out, a creation exists only after the payment failed for good, at most three posts per envelope |
| SendProtocol.RunKeepsInv | account.go:546-569 | the invariant holds in every state of every run |
| SendProtocol.ReplyKeepsInv | account.go:972-996 | whatever horizon answers, going on, falling back and giving up keep the invariant |
| SendProtocol.ConcludeKeepsInv | errors.go:72-115 | mapping the last error to the caller's error, or to the fallback, never claims a verdict the ledger did not reach |
| SendProtocol.CreditedAtMostOnce | account.go:546-569 | in every state of every run the destination was credited at most once and each envelope posted at most three times |
| SendProtocol.CreationMeansPaymentIsOver | account.go:558-566 | once a create_account is signed, no payment has been credited or ever will be, however the run goes on |
| SendProtocol.SuccessMeansOneCredit | account.go:955-999 | a nil error means exactly one credit, now and in every continuation |
| SendProtocol.RuledOutMeansNoCredit | account.go:587-593 | an error of building or signing, one that names the request for a sequence number, or one with horizon's verdict means no credit, now or in any continuation |
| SendSession.ErrorsSettleExactly | account.go:546-569 | of all the errors SendXLM can return for any arguments, exactly the two local refusals, errors of building or signing, errors that name the request for a sequence number and horizon's verdict settle the outcome, namely without a credit; each of the others can come with one credit and with none |
| SendProtocol.NetworkErrorsSettleExactly | errors.go:82-115 | for every sequence number and every network error of either request: the error it is mapped to rules out a credit if and only if it names the request for a sequence number or is horizon's verdict; any other can end both a call that credited the destination and one that did not |
| SendProtocol.RunEndsMapped | errors.go:72-115 | every error a run ends with is one of building or signing, or what some network error is mapped to |
| SendProtocol.BuildingCanFail | tx.go:425-486 | an error of building or signing ends a call that credited nothing |
| SendProtocol.NoVerdictDecidesNothing | account.go:971-999 | any answer whose result codes do not say "tx_failed" can end a call with one credit, and one with none |
| SendProtocol.EndsWithSameAnswer | account.go:971-999 | from any attempt, the same answer over and over ends the call with its mapped error, at once or after posting again up to the third attempt, without touching what the ledger applied |
| SendProtocol.OneCredit | account.go:546-569 | two applications of this call's envelopes cannot both be credits |
| SendRuns.FallsBackExactly | account.go:555-566 | from any state that keeps the invariant: a step starts a creation if and only if it is horizon's "tx_failed" with the one code "op_no_destination", about the payment or the request for its sequence number |
| SendRuns.MissingDestinationIsCreated | account.go:555-566 | from every sequence number, for a destination without an account: some run fails to pay with "op_no_destination", creates the account under the next sequence number, and ends with nil and one credit |
| SendRuns.RetriesExactly | account.go:971-996 | an answer leads to another attempt if and only if it is a timeout or "tx_bad_seq", and to nil if and only if horizon accepted |
| SendRuns.ThreeAttempts | account.go:969-998 | the loop head posts the envelope while there have been fewer than three attempts and then ends the call |
| SendRuns.SignsNextNumber | tx.go:436-440 | payment and creation alike carry the number after the one horizon reports |
| SendRuns.ErrorsKeepTheirKind | errors.go:72-115 | timeouts, other transport errors, undecodable answers, status 404, a missing destination and any other answer of horizon are each reported as themselves, in both directions |
| SendRuns.EndReportsLastError | account.go:992-998 | the error a call ends with is that of the step that ended it |
| SendSession.Session.constructor | account.go:546-548 | a call starts at the start of a run |
| SendSession.Session.SubmitTransactionXDR | account.go:972 | one post of the envelope; the answer moves the client as `Answered` says |
| SendSession.Session.Submit | account.go:969-999 | posts the same envelope once per attempt, at most three times, and ends as its error says |
| SendSession.Session.SignAndSubmit | account.go:587-593 | asks for a sequence number, signs and submits; posts only its own envelope, as often as the attempt says; ends as its error says, whatever fails on the way: building or signing, the request for a sequence number, or the submission |
| SendSession.Session.SendXLM | account.go:546-569 | refuses a memo over 28 bytes and bad amounts before anything is sent; otherwise ends at most once credited, exactly once on nil, never on an error that rules it out; reports the attempt that succeeded, and attempt zero for a payment that failed |
| SendSession.EndIsAccounted | account.go:546-569 | a run that ended with this error has the credits and posts the error promises |
| TxBuilder.Tx.constructor | tx.go:33-45 | a new builder is empty and has at least the minimum base fee |
| TxBuilder.Tx.SkipAddOp | tx.go:305-315 | skips after an error or when full; the first overflow is recorded, nothing else moves |
| TxBuilder.Tx.SkipAddMemo | tx.go:323-333 | skips after an error or on a second memo, which is recorded |
| TxBuilder.Tx.AddOp | tx.go:291-301 | appends exactly the built operation or records the error |
| TxBuilder.Tx.AddPaymentOp | tx.go:58-74 | the new state is the builder step of this request |
| TxBuilder.Tx.AddAssetPaymentOp | tx.go:77-94 | the new state is the builder step of this request |
| TxBuilder.Tx.AddPathPaymentOp | tx.go:97-137 | the new state is the builder step of this request, the path encoded hop by hop |
| TxBuilder.Tx.EncodePath | tx.go:125-133 | the loop encodes every hop in order or stops at the first that fails |
| TxBuilder.Tx.AddCreateAccountOp | tx.go:140-156 | the new state is the builder step of this request |
| TxBuilder.Tx.AddAccountMergeOp | tx.go:158-171 | the new state is the builder step of this request, with the body the library expects or an error |
| TxBuilder.Tx.AddInflationDestinationOp | tx.go:175-188 | the new state is the builder step of this request |
| TxBuilder.Tx.AddHomeDomainOp | tx.go:192-206 | the new state is the builder step of this request |
| TxBuilder.Tx.AddOfferOp | tx.go:209-235 | the new state is the builder step of this request |
| TxBuilder.Tx.AddCreateTrustlineOp | tx.go:239-267 | the new state is the builder step of this request |
| TxBuilder.Tx.AddDeleteTrustlineOp | tx.go:271-288 | the new state is the builder step of this request |
| TxBuilder.Tx.AddMemo | tx.go:337-352 | the new state is the builder step of this request |
| TxBuilder.Tx.AddMemoText | tx.go:356-368 | the new state is the builder step of this request |
| TxBuilder.Tx.AddMemoID | tx.go:372-386 | the new state is the builder step of this request |
| TxBuilder.Tx.AddTimeBounds | tx.go:389-402 | the new state is the builder step of this request |
| TxBuilder.Tx.AddBuiltTimeBounds | tx.go:405-410 | the new state is the builder step of this request; nil adds nothing |
| TxBuilder.Tx.Sign | tx.go:425-486 | reports the kept error, or the missing operations, or signs with the next sequence number and the 32-bit fee |
| TxBuilder.EffectiveBaseFee | tx.go:35-37 | the larger of the given base fee and 100 |
| TxRequests.PaymentOperation | tx.go:58-74 | in both directions: the operation is a payment of lumens to the named account, of exactly the amount the text denotes |
| TxRequests.AssetPaymentOperation | tx.go:77-94 | the same of any asset |
| TxRequests.PathPaymentOperation | tx.go:97-137 | in both directions: asset and greatest amount sent, asset and amount delivered, destination and every hop are those named, none in the other's place |
| TxRequests.CreationOperation | tx.go:140-156 | in both directions: the named account with the starting balance the text denotes |
| TxRequests.MergeOperationExactly | tx.go:158-171 | in both directions: a merge into the named account, with a library that takes an account id |
| TxRequests.InflationOperation | tx.go:175-188 | in both directions: the named account |
| TxRequests.HomeDomainOperation | tx.go:192-206 | in both directions: the given domain, of at most 32 bytes |
| TxRequests.OfferOperation | tx.go:209-235 | in both directions: what is sold, what is bought, the amount the text denotes, and the price |
| TxRequests.TrustlineOperation | tx.go:239-267 | in both directions: the named asset and the positive limit the text denotes |
| TxRequests.RemovalOperation | tx.go:271-288 | in both directions: the named asset with limit zero |
| TxRequests.PaymentFault | tx.go:58-94 | a bad amount is reported before a bad destination |
| TxRequests.PathPaymentFault | tx.go:97-137 | the faults of a path payment are reported in the order of its checks |
| TxRequests.OtherFaults | tx.go:158-267 | which fault of a domain, an offer, a merge, an inflation destination or a limit is reported, in both directions |
| TxRuns.RunHoldsRequests | tx.go:58-410 | a run of calls has no error exactly when the calls fit (at most 100 encodable operations, one memo, one set of time bounds), and then holds exactly what was asked, one operation per call and in order |
| TxRuns.SignedIsRequested | tx.go:425-486 | a signed transaction holds 1 to 100 operations, exactly the requested ones, with the requested memo and time bounds |
| TxRequests.SignsExactly | tx.go:425-486 | signing succeeds if and only if the calls fit, there is an operation, the number can be had, the source is an account, the passphrase is not blank and the seed is one |
| TxRequests.SigningErrors | tx.go:425-470 | calls that fit fail for the first of no operations, sequence number, source, passphrase, seed |
| TxRequests.SignedCarries | tx.go:435-486 | the signed number is the account's last plus one in 64 bits, signed and unsigned; the fee is the low 32 bits of base fee times operations; the source and the signer are those given |
| TxRuns.ErrorSticks | tx.go:305-333 | after the first error no call changes operations, memo, time bounds or error |
| TxRuns.FirstErrorIsReported | tx.go:425-428 | signing reports the error of the first call that no longer fits, whatever follows it |
| TxRuns.SomeCallIsFirst | tx.go:305-409 | every run that fails has such a first call |
| TxRuns.InterleavingsAgree | tx.go:305-409 | reordering calls of different kinds changes neither whether signing succeeds nor what is signed |
| TxRuns.FeeIsExactUpToBound | tx.go:34-37 | the written 32-bit fee is base fee times operations for every count up to 100 if and only if the base fee is at most 42,949,672 |
| TxRuns.FeeFits | tx.go:441 | below the bound no fee wraps |
| AccountPlans.AccountMergeTransaction | account.go:709-794 | the loops over balances and trustlines push exactly the planned operations and sign them, or return the first problem |
| AccountPlans.PushPayments | account.go:755-771 | pushes one payment per funded balance, in order, or stops with the first untrusted or unusable one |
| AccountPlans.PushDeletions | account.go:773-787 | pushes one deletion per trustline, in order |
| AccountPlans.RelocateTransaction | account.go:859-876 | pushes an optional creation and the merge, and signs |
| MergePlans.PaymentsArePerFunded | account.go:755-771 | the payments are exactly the funded non-native balances, in order, and exist if and only if the target can be paid each of them |
| MergePlans.PayableExactly | account.go:759-769 | a balance can be paid if and only if the target shows a trustline of its code and issuer and that asset has an encoding |
| MergePlans.DeletionsArePerCredit | account.go:773-787 | exactly one deletion per non-native trustline, in order |
| MergePlans.MergeFitsExactly | account.go:742-793 | a plan exists and fits exactly when the loads succeed, every funded balance is payable, codes and issuers are usable and creations, payments, deletions and the merge are at most 100 |
| MergePlans.MergeSignsExactly | account.go:709-794 | a merge signs if and only if its plan fits and signing is possible at all; it then holds exactly the planned operations in order |
| MergePlans.RefusedPayment | account.go:755-776 | a funded balance with too long a code, or one no line of the target names, is refused for that reason |
| MergeTheorem.ShownCredits | account.go:755-787 | the entries the loops do not skip are exactly the account's trustlines, each once |
| MergeSigning.MergeSignsOnLedger | account.go:709-794 | for a snapshot of one ledger: a merge is signed if and only if the library takes the body, number and passphrase are there, the target holds a line for every funded asset, every code has at most four bytes, and creation, payments, deletions and merge are at most a hundred |
| MergeSigning.AddressCannotSign | account.go:709-721 | an address in place of a seed is refused last, a text that is neither at once |
| MergeSigning.SignedMergeMemo | account.go:790-793 | a signed merge carries the memo "via keybase" and the caller's time bounds |
| MergeSigning.OnlyMissingTargetIsCreated | account.go:724-730 | the target is created, with one lumen and first, if and only if its load found no account; any other failure of that load counts like an account that is there |
| MergeSigning.LoadErrorsAreReported | account.go:731-745 | a load that fails is reported, the source's balances before the target's lines |
| MergePlans.RelocateSignsExactly | account.go:863-876 | a relocation signs if and only if the target is a plain account and the library takes the merge body |
| MergeSigning.SignedRelocateMemo | account.go:863-877 | a signed relocation carries the caller's memo id, if any, and time bounds |
| MergePlans.VendoredLibraryRefusesMerges | vendor/github.com/stellar/go/xdr/xdr_generated.go:20286-20292 | with the linked library no merge or relocation ever signs |
| Ledger.OpConservesLumens | account.go:709-794 | no emitted operation creates or destroys lumens on the ledger |
| Ledger.OpsConserveLumens | account.go:709-794 | nor does any list of them |
| Ledger.TransactionCostsItsFee | tx.go:436-441 | a transaction that is not rejected lowers the ledger's lumens by exactly its fee, whether it takes effect or not |
| MergeOnLedger.PaymentPhase | account.go:755-771 | the payments of a plan all run if and only if the target takes each asset, and move every named balance |
| MergeOnLedger.DeletionPhase | account.go:773-787 | the deletions of emptied trustlines always run and remove exactly them |
| MergeOnLedger.MergeIntoExisting | account.go:755-791 | on an existing target all operations run if and only if it trusts and has room for every funded asset and the lumens; the result is the merged ledger |
| MergeOnLedger.MergeIntoNew | account.go:746-791 | on a missing target all operations run if and only if the source can put up one lumen over its reserve; it comes back in the merge |
| MergeTheorem.SignedMergeOperations | account.go:709-794 | for a truthful snapshot the signed operations are the creation, one payment of each funded balance, one deletion of each line, the merge |
| SignedMerge.SignedMergeRuns | account.go:709-794 | those operations all run exactly when the merge is possible |
| SignedMerge.SelfMergeRefused | account.go:709-794 | a merge of an account into itself is signed but never applied, whatever the snapshot |
| SignedMerge.MergeOutcome | account.go:709-794 | the ledger turns the signed transaction away, or applies it as a whole if and only if the merge is possible, or only the fee is gone |
| SignedMerge.MergeIsAdmitted | tx.go:436-441 | with the ledger's own sequence number it is turned away only if the fee eats into the source's reserve |
| SignedMerge.SignedMergeTheorem | account_test.go:862-885 | from a truthful snapshot and a successful signature alone: if the ledger applies the transaction, the source is gone, the target has all its lumens but the fee and its whole balance of every asset within limits, nobody else changed, the total of every other asset is kept and the lumens fell by exactly the fee; if it fails, only the fee is gone |
| SignedMerge.NothingForNewTarget | account.go:742-767 | a signed merge into a missing account has no funded asset to hand over |
| SignedMerge.MergeMovesEverything | account_test.go:862-885 | a possible merge leaves the source gone, the target with everything and everybody else unchanged |
| SignedMerge.MergeConservesCredits | account_test.go:862-885 | a possible merge keeps the ledger's total of every asset but lumens |
| Relocation.AvailableIsAboveReserve | account.go:251-268 | the available balance is what lies above the ledger's minimum balance, zero if nothing does, without wrap |
| Relocation.StroopsAboveReserve | account.go:254-268 | what is available is the balance less 5000000 stroops for each of two and every subentry, or zero, if and only if the difference fits 64 bits |
| Relocation.SignedRelocateOperations | account.go:863-876 | a signed relocation holds the optional creation and the merge, nothing else |
| Relocation.RelocationRuns | account.go:863-876 | for any target and flag, its operations run if and only if source and target differ, the flag says whether the target exists, there is nothing but lumens and room or a spare lumen; they leave the merged ledger |
| Relocation.RelocateOutcome | account.go:859-876 | for any target and flag: the source's whole balance but the fee reaches the target if and only if that is enabled; otherwise the transaction is turned away or only the fee is gone |
| Relocation.RelocationIsAdmitted | tx.go:436-441 | with the ledger's own sequence number it is turned away only if the fee eats into the source's reserve |
| Relocation.CreationNeedsAvailableLumen | account.go:251-268 | to a missing target, without subentries, it is possible if and only if the available balance after the fee is at least 1 XLM |
| Decimals.StrictExpressionIsShape | amounts.go:19-33 | the two-way regular expression recognises exactly: optional '-', digits with at most one dot, at least one digit |
| Decimals.FixedReads | amounts.go:45-48 | sign, whole part, dot and padded fraction read back as the number they were printed from |
| Decimals.DigitAppended | amounts.go:58-67 | one more digit makes the number ten times the number and the digit, away from zero, with one place more behind a dot |
| Decimals.DotAppended | amounts.go:58-67 | a dot at the end changes nothing |
| Decimals.OneDigit | amounts.go:58-67 | a single digit, with or without dot and sign, is that digit; with the last two this fixes what every strict decimal denotes |
| Decimals.FixedIsOnlyText | amounts.go:48-51 | the rendered text is the only one with all the decimals, no spare zero and the given sign that denotes the number |
| Decimals.PartsOfNumber | amounts.go:45-48 | leading part and last digits recompose the number |
| Decimals.DigitsAroundDot | format.go:74-79 | the digits of a number are those before the dot followed by those after it |
| Amounts.ParseAccepts | amounts.go:38-43 | accepts exactly the strict decimals of at most 20 characters after the sign whose value times 10^7 is an int64, and returns that value |
| Amounts.StrictCheckIsRedundant | amounts.go:39-42 | the format check before the library's parser changes no result |
| Amounts.LongZeroIsRefused | vendor/github.com/stellar/go/amount/main.go:36 | a zero written with 21 digits is refused although it is an int64 amount |
| Amounts.RefusalsAreNamed | amounts.go:25-42 | in both directions, which texts are refused as empty, no strict decimal, too long, no whole number of stroops, or beyond 64 bits |
| Amounts.ParseInvertsPrint | amounts_test.go:221-273 | parsing what was printed returns the value for every int64, the minimum included, and for no other number |
| Amounts.PrintIsInjective | amounts.go:45-48 | different amounts print differently |
| Amounts.CeilingIsExactUpToBound | amounts.go:198-207 | the result is 105% truncated to a stroop if and only if the amount is at most 87,841,638,446,235,960 stroops in size |
| Amounts.CeilingOfWrappedProduct | amounts.go:198-207 | for every amount the result is the 64-bit product with 105, whichever that is, over a hundred toward zero |
| Amounts.CeilingCoversAmount | amounts.go:198-207 | within the bound a non-negative ceiling is at least the amount |
| Rationals.Rat.Mul | amounts.go:94-95 | in-place product, the receiver possibly an argument |
| Rationals.Rat.Sub | amounts.go:169-170 | in-place difference, the receiver possibly an argument |
| Rationals.Rat.Quo | amounts.go:112 | in-place quotient, the receiver possibly an argument |
| Rationals.Rat.Set | amounts.go:171-172 | copies the value |
| Rationals.Rat.Abs | amounts.go:175-176 | in-place absolute value |
| Rationals.FloatStringReads | amounts.go:96 | the seven-place text reads back as the value rounded to 10^-7 |
| Rationals.PrintedExactly | amounts.go:96 | the printed text is the only one with seven decimals and no spare zero that denotes a nearest number and has the sign of the exact one |
| Rationals.NegativeZeroExactly | amounts.go:96 | a zero with a sign is printed for exactly the negative numbers less than half a unit of 10^-7 away from zero |
| Rationals.RoundIsNearest | amounts.go:96 | the rounding is the only nearest integer that goes away from zero on a tie |
| Rationals.RoundIsOdd | amounts.go:96 | rounding turns its sign with its argument |
| Rationals.RoundIsMonotone | amounts.go:96 | rounding keeps order |
| Conversion.ConvertXLMToOutside | amounts.go:85-97 | the accumulator holds amount times rate, printed to seven places, or the first error |
| Conversion.ConvertOutsideToXLM | amounts.go:103-114 | the accumulator holds amount over rate, printed to seven places, or the first error |
| Conversion.XlmToOutsideIsNearest | amounts.go:85-97 | the result is the multiple of 10^-7 nearest to amount times rate |
| Conversion.OutsideToXlmIsNearest | amounts.go:103-114 | the result is the multiple of 10^-7 nearest to amount over rate |
| ConversionTexts.AmountReadsDigits | amounts.go:58-67 | a text is read if and only if it is a strict decimal, as its digits over the power of ten of its decimals, all of which count |
| ConversionTexts.RateReadsDigits | amounts.go:180-196 | a rate is accepted if and only if it is a strict decimal above zero; zero and negative ones are refused by name |
| ConversionTexts.XlmToOutsideByDigits | amounts.go:85-97 | over the digits of the texts: conversion succeeds exactly for an amount and a positive rate, with the product rounded to the nearest 10^-7 |
| ConversionTexts.OutsideToXlmByDigits | amounts.go:103-113 | over the digits of the texts: conversion succeeds exactly for a strict decimal and a positive rate, with the quotient rounded to the nearest 10^-7 |
| ConversionTexts.BadRateComesFirst | amounts.go:85-107 | a bad rate is reported before the amount is looked at |
| Conversion.XlmToOutsideIsMonotone | amounts.go:85-97 | at one rate, more lumens never convert to less |
| Conversion.XlmToOutsideIsOdd | amounts.go:85-97 | a negative amount converts to the negative of its opposite |
| Conversion.OutsideToXlmIsMonotone | amounts.go:103-114 | at one rate, more money never converts to fewer lumens |
| Conversion.OutsideToXlmIsOdd | amounts.go:103-114 | a negative amount converts to the negative of its opposite |
| Conversion.XlmSurvivesRoundTrip | amounts_test.go:27-79 | at a rate of at least one every accepted amount comes back exactly |
| Conversion.OutsideSurvivesRoundTrip | amounts_test.go:27-79 | at a rate of at most one every amount of at most seven decimals comes back exactly if the lumens between are an int64, and is refused otherwise |
| Conversion.StroopIsLostAtSmallRate | amounts.go:85-114 | below one half a stroop becomes zero and stays lost |
| RoundTrips.LumensReturnExactly | amounts.go:85-114 | one amount of lumens returns exactly, as text, if and only if its stroops survive multiplying and dividing, each time rounded |
| RoundTrips.AllLumensReturnExactly | amounts.go:85-114 | every accepted amount of lumens returns if and only if the rate takes less than half of itself off 2^63 stroops |
| RoundTrips.AllComeBackExactly | amounts.go:85-114 | the same for every bound: all numbers from -bound to below it come back if and only if 2 * (bound - bound * rate) < rate |
| RoundTrips.EverythingComesBackExactly | amounts.go:85-114 | numbers of any size all come back if and only if the rate is at least one |
| RoundTrips.FirstUnsafeIsLost | amounts.go:85-114 | below one, the first number whose loss reaches half the rate does not come back |
| OutsideTrips.OutsideReturnsExactly | amounts.go:85-114 | one outside amount of at most seven decimals returns, as text, if and only if the lumens between are an int64 amount and its units survive dividing and multiplying |
| OutsideTrips.AllOutsideReturnExactly | amounts.go:85-114 | all outside amounts of at most seven decimals whose lumens are an int64 return, as text, if and only if 2 * (largest * rate - largest) < 1 for the largest of them |
| OutsideTrips.AllOutsideComeBackExactly | amounts.go:85-114 | the same for the two roundings of integers |
| OutsideTrips.LargestIsLast | amounts.go:103-114 | the largest number of units whose lumens do not exceed 2^63 stroops is the last one below (2^63 + 1/2) * rate |
| OutsideTrips.LargeOutsideIsRefused | amounts.go:85-93 | beyond it no outside amount returns, at any rate |
| OutsideTrips.EveryOutsideComesBackExactly | amounts.go:85-114 | as integers, without the refusal of lumens outside int64, all numbers survive the two roundings if and only if the rate is at most one |
| Conversion.OutsideIsNegativeZeroExactly | amounts.go:94-96 | the result is "-0.0000000" if and only if the product is negative and less than half a unit away from zero |
| Conversion.XlmIsNegativeZeroExactly | amounts.go:112-113 | the result is "-0.0000000" if and only if the quotient is negative and less than half a unit away from zero |
| Comparison.WithinFactorStellarAmounts | amounts.go:146-178 | the in-place sequence decides exactly: both zero, or both non-zero and the difference at most factor times the larger size; errors of the three texts in order |
| Comparison.CompareQuotients | amounts.go:168-177 | the aliased subtractions, divisions and absolute values decide that relation |
| Comparison.WithinIsSymmetric | amounts.go:142-146 | the amounts may be swapped |
| Comparison.WithinIsMonotone | amounts.go:142-146 | a larger factor accepts at least as much |
| Comparison.WithinIsScaleFree | amounts.go:142-146 | scaling both amounts by any non-zero factor changes nothing |
| Comparison.ZeroIsNeverWithin | amounts.go:162-167 | a zero amount is within no factor of a non-zero one, although the relation would hold from factor one |
| Comparison.StrictPromiseExactly | amounts.go:142-177 | the code agrees with the strict relation of its comment if and only if the difference is not factor times the larger size, or, for a single zero, the factor is at most one |
| Comparison.StrictQuotients | amounts.go:145 | the comment's two strict comparisons of quotients are that relation |
| Comparison.EqualityCounts | amounts.go:177 | 90 and 100 stroops are within the factor "0.1000000" of each other for the code and not for the comment |
| ConversionTexts.ComparedExactly | amounts.go:146-161 | two texts are compared if and only if both are amounts and the factor is a strict decimal not below zero |
| ConversionTexts.ZerosCompared | amounts.go:162-167 | two zeros are within every factor, a single one within none |
| ConversionTexts.QuotientsCompared | amounts.go:168-177 | otherwise the answer is whether one of the two quotients is at most the factor, read to its last decimal |
| ConversionTexts.ComparisonRefusals | amounts.go:146-161 | the first amount, the second, the factor and its sign are refused in this order |
| Rounding.DecimalAccepts | vendor/github.com/shopspring/decimal/decimal.go:105-157 | accepts exactly the strict decimals in int32 range that are not "-." followed by zeros only |
| Rounding.DecimalReadsValue | amounts.go:70-81 | the decimal read has the value the text denotes |
| Rounding.RoundToIsNearest | vendor/github.com/shopspring/decimal/decimal.go:763-782 | rounding gives the nearest multiple, ties away from zero |
| Rounding.RescaleTruncates | vendor/github.com/shopspring/decimal/decimal.go:365-382 | rescaling truncates toward zero |
| Rounding.NearestIsUnique | vendor/github.com/shopspring/decimal/decimal.go:763-782 | texts of equal value round alike |
| Rounding.TruncatedIsUnique | vendor/github.com/shopspring/decimal/decimal.go:365-382 | texts of equal value truncate alike |
| Formatting.FmtAmount | format.go:53-108 | the method returns the specified display, or the error of an unreadable amount |
| Formatting.InsertCommas | format.go:78-93 | the backwards loop and the reversal group the whole part, and report a comma if and only if it has more than three digits |
| Formatting.InsertAndShorten | format.go:74-107 | splitting, grouping and the zero-fraction branch give the display |
| Formatting.Reverse | format.go:110-116 | the in-place swap loop reverses the text |
| Formatting.GroupRemoved | format.go:78-93 | deleting the commas gives the digits back |
| Formatting.GroupPositions | format.go:78-93 | commas stand exactly at every fourth place from the right, never first |
| Formatting.GroupPrepend | format.go:83-91 | one more digit in front needs a comma exactly when the digits so far are a multiple of three |
| Formatting.UnitsAreRounded | format.go:61-73 | the number shown is the input rounded or truncated at two or seven places |
| Formatting.TruncatedText | format.go:68-73 | the truncating branch prints one place too many, always a zero, and cuts it off |
| Formatting.FormatMeansRounding | format.go:53-108 | the display without commas reads as exactly the input rounded, ties away from zero, or truncated |
| DisplayedText.ShownWithTwoPlaces | format.go:53-108 | with the precision of two: a grouped whole part, a dot and two digits, denoting the input rounded, ties away from zero, or cut off at 10^-2 |
| DisplayedText.ShownWithSevenPlaces | format.go:53-108 | otherwise seven digits after the dot, or for a fraction of zeros ".00" behind a comma and nothing without one, denoting the input rounded or cut off at 10^-7 |
| DisplayedText.SomethingIsShown | format.go:61-73 | every strict decimal has such a rounding and such a truncation |
| DisplayedText.FormatErrors | format.go:53-60 | the empty text and unreadable ones are told apart |
| Formatting.FormatAccepts | format.go:53-60 | formatting fails for exactly the texts that are no strict decimal, are "-." and zeros only, or have more decimals than 32 bits count |
| Formatting.SignedZeroIsRefused | format.go:53-60 | "-.0" is an amount of zero that cannot be displayed |
| Formatting.FormatIsIdempotent | format.go:53-108 | formatting its own comma-free output changes nothing |
| DomainNames.IsDomainName | stellar_uri.go:447-496 | the one-pass scanner accepts a text if and only if it is a domain name by the label grammar of section 2.3.4 of RFC 1035 and section 2.1 of RFC 1123 |
| DomainNames.ScanByte | stellar_uri.go:462-490 | one byte of the scan keeps last byte, label length and letter flag in step with the prefix, or refuses a prefix that no text can mend |
| DomainNames.NameByLastLabel | stellar_uri.go:491-495 | the checks after the loop complete the grammar |
| DomainNames.NoRecovery | stellar_uri.go:462-490 | a prefix the scanner refuses is the prefix of no domain name |
| DomainPositions.NameByPositions | stellar_uri.go:447-496 | the same names byte by byte: length, bytes allowed, what may follow a dot or a dash, a dot among any 64 neighbours, and a letter or underscore |
| Encodings.Base64RoundTrip | stellar_uri.go:90-91 | decoding the base64 of section 4 of RFC 4648 undoes encoding for any bytes |
| Encodings.EscapeRoundTrip | stellar_uri.go:91-93 | query unescaping undoes escaping |
| Encodings.EscapedIsPlain | stellar_uri.go:91-93 | escaped text has only unreserved characters, '%' and '+' |
| EncodedTexts.Base64IsStandard | stellar_uri.go:90 | the character at every place: a letter of the standard alphabet for its six bits, or padding behind the last bit |
| EncodedTexts.Base64Accepts | stellar_uri.go:286-289 | a text is decoded if and only if, without its line breaks, it is groups of four letters with padding at the very end only |
| EncodedTexts.EscapeOfByte | stellar_uri.go:91 | what a single byte is escaped to |
| EncodedTexts.EscapeConcat | stellar_uri.go:91 | a text is escaped byte by byte |
| EncodedTexts.UnescapeAccepts | stellar_uri.go:203 | escaped text can be read if and only if two hexadecimal digits follow every percent sign |
| EncodedTexts.UnescapeOfByte | stellar_uri.go:203 | what an escape in either case, a plus and any other byte are read as |
| EncodedTexts.UnescapeConcat | stellar_uri.go:203 | escaped text is read piece by piece |
| StellarUri.CheckedPayloadIsSignedPayload | stellar_uri.go:298-310 | the payload the validator recomputes from a signed URI is the payload that was signed, for every URI and signature |
| StellarUri.PayloadIsInjective | stellar_uri.go:432-440 | equal payloads mean equal URIs |
| StellarUri.AppendedParameterIsNoticed | stellar_uri.go:298-310 | a parameter appended after signing changes the payload |
| StellarUri.AcceptedValuesWereSigned | stellar_uri.go:266-310 | under a key that signed only one URI, without a signature in it: whatever is appended, if the result is accepted then every value handed out but the signature's is that of the signed URI |
| StellarUri.SignedUriIsAccepted | stellar_uri.go:266-296 | for every URI: once signed it is accepted under the key's own test if and only if it ends in a query without a signature and the new one is not empty, or an earlier signature is read instead and verifies |
| StellarUri.SignatureRead | stellar_uri.go:189-207 | the signature read from a signed URI is the appended one unless the URI does not end in a query or carried one before |
| UriValues.PayloadBytes | stellar_uri.go:432-441 | the signed payload byte by byte |
| UriValues.Verdict | stellar_uri.go:266-310 | unsigned, bad signature and signed, each in both directions, for any URI with a separator |
| UriValues.VerdictWithoutSeparator | stellar_uri.go:298-310 | without any separator the empty text must have been signed |
| UriValues.SignedUriVerdict | stellar_uri.go:266-310 | the verdict on every signed URI under any test of the key |
| UriValues.ParameterCounts | stellar_uri.go:203 | a parameter counts if and only if it is not empty, has no semicolon, and is properly escaped |
| UriValues.KeyAndValue | stellar_uri.go:203 | the key ends at the first equals sign |
| UriValues.ValueOfQuery | stellar_uri.go:203-207 | a query written from keys and values gives each key the first of its values, trimmed, and any other key nothing |
| UriValues.TrimmedText | stellar_uri.go:428-430 | trimming takes the spaces off both ends and nothing else |
| Assets.CopyThenRead | assets.go:369-375 | a code survives the fixed-width field if and only if it holds no NUL |
| Assets.EncodeThenDecode | assets.go:353-375 | decoding returns the issuer, and the code if and only if it holds no NUL |
| Assets.EncodingIsInjective | assets.go:281-303 | different NUL-free codes or issuers encode differently |
| Assets.EncodesExactly | assets.go:281-303 | in both directions: which encoding stands for a code and an issuer, byte by byte |
| Assets.RefusedExactly | assets.go:281-303 | in both directions: bad issuers and bad lengths |
| Assets.TypeOfEncoding | assets.go:30-52 | the type an asset is given agrees with its encoding |
| Assets.EncodersAgree | assets.go:323-349 | the two asset encoders agree everywhere, errors included |
| Assets.TrustlineEncoderAgreement | assets.go:257-279 | the trustline encoder refuses 5 to 12 bytes and agrees with the asset encoder on every other length |
| Assets.TrustlineEncodeThenDecode | assets.go:377-398 | what the trustline encoder accepts decodes to the same issuer, and to the same code if and only if it holds no NUL |

## Left out

- SendXLM's ledger number and transaction id, and the amount itself inside the two envelopes: the protocol says which envelope exists, not what the signed bytes are; the builder is modelled apart in `TxBuilder`.
- The texts of errors: those of horizon and of the transport keep the request they name, by its URL or response, with the status and result codes; all errors of building or signing are the one value `NotSent`.
- TimeoutHandler: an optional callback that the caller installs; it returns nothing to the protocol.
- Horizon over HTTP, JSON and paging: account loads are one immutable snapshot, answers are arbitrary.
- Ed25519, strkey, transaction hashing and XDR marshalling: an address or seed is its decoded value, a signature whatever the caller's predicate accepts.
- The global client and network under `configLock`: locked getters and setters.
- TxBuilder.Tx.AddOfferOp: takes the outcome of parsing the price text as an argument, because the price library's continued fractions are foreign to this package.
- Ledger features the merge code never mentions: offers, liabilities, sponsorship, authorisation flags, pool shares, signers and data entries. A created account starts at sequence number zero instead of the ledger's own, and a merge is not refused for a sequence number too far ahead. The ledger enables only the four operations the two compilers emit.
- Limits of the Go toolchain: newer releases of `math/big` refuse a text of more than a million decimals, and older ones of `net/url` split a query at ';' too. The model has no such limit and drops a parameter that holds a ';'.
- Trimming a URI's values: the six ASCII spaces are trimmed, the Unicode spaces that `strings.TrimSpace` also knows are not; a base64 text holds neither.
- URL parsing beyond splitting off the query and the fragment; the network lookup of a signing key.
- Memo kinds and `verify.go`: short case splits; a memo is one of five tags with its value.
- `CompareStellarAmounts`, `FeeString`, `GetStellarExchangeRate`, `FmtCurrency` and the summary, fee, page and key helpers: thin wrappers that would add easy members only.
- `CreateCustomAssetWithKPs`: straight-line use of what is modelled here.
- Unicode: texts are bytes, so `reverse` on runes is modelled for the ASCII texts that reach it.
