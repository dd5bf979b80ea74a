# A verified model of the Aztec cross-chain multisig

This project models the parts of the repository that decide who may move value, and proves what they
guarantee over whole runs:

- the Noir multisig contract: its stored notes, the signature-counting loop, the four entry points and
  the packing of an approved intent (`Words`, `IntentPayload`, `MultisigSpec`, `MultisigContract`,
  `MultisigCalls`, `MultisigRuns`, `MultisigReplay`, `MultisigOrder`);
- the two Solidity vaults on Arbitrum, with the load-and-shift payload decoder and the token they mint
  through (`EvmMemory`, `DonationToken`, `VaultContract`, `IntentVaultContract`);
- both ends together, from signatures to minted tokens, in any interleaving (`EndToEnd`);
- the relayer's deduplication cache and its goroutines (`RelayerCache`, `RelayerLoop`);
- the CLI's proposal ledger and its local copy of the contract (`ProposalLedger`, `CliMirror`,
  `CliCreation`, `CliExecution`, `CliCommands`).

`dafny verify dfyconfig.toml` checks everything.

## How it is built

Each contract or component is a class whose methods follow the source step by step, and a state machine
on values. A method's contract ties the class's new state to one step of the state machine; the lemmas
about runs are about the state machine. Whether a call is accepted is stated over sets and quantifiers,
not by the loops that decide it. A rejected transaction leaves everything as it was; where Solidity
writes before a call that may revert, the method restores what it wrote.

Parameters and assumptions:

- Poseidon2 and Schnorr verification are arbitrary functions, carried in a `Crypto` value. Nothing
  assumes that hashes are injective.
- What Wormhole reports about a message (validity, emitter, payload) is an input. `EndToEnd` assumes one
  thing, `Genuine`: a message reported valid frames a payload that this multisig has published by then.
  The framing is the one the vault's own offsets fix: a 32-byte id, three 31-byte rows, three filler
  bytes, two 31-byte rows, and anything after that. Wormhole's own code is not part of this model.
- The chain id, the memory behind the payload, and the clock are inputs. The relayer's clock does not run
  backwards.
- Utility reads of private notes return the stored state.
- New CLI identities have a nonzero address that no registered name has, and what is on file when a
  multisig is created agrees with the registry (`SoundFiles`, `Hashed`), as empty files do.

## Where code and documentation differ

The model follows the code.

- The repository's README says the intent vault checks the registered emitter. Its `_verify` does not;
  only `Vault` does. `AcceptanceIgnoresEmitter` states it, and `FramedIntentDeliveredIff` lists all that
  a framed intent does need.
- All four entry points of the multisig check that the message hash has not been executed, which reads
  as if no approved message could pass twice. For intents that is so, as the repository's README says.
  But the contract records the hashes of additions and intents only (`SpentIffRecorded`), so a removal
  or a threshold change can be accepted again. `ApprovalServesAgainIff` and `AcceptedAgainIff` say
  exactly when, at any later point of any run; `ThresholdChangePassesAgainIff` and
  `RemovalPassesAgainIff` give the two shortest replays, and `ThresholdMessageAcceptedTwice` and
  `RemovalMessageAcceptedTwice` are concrete runs. The two kinds of message also share their preimage
  format (`PreimagesCoincideIff`, `OneApprovalServesBothIff`), and no signature binds the Wormhole
  contract an intent is sent to (`AcceptanceIgnoresWormholeAddress`). The CLI ledger closes replay for
  calls made through it (`ExecutedAtMostOnce`).
- The intent vault processes a message as often as it is delivered, as long as the supply has room
  (`RedeliveryPaysAgain`, `EveryCopyIsProcessed`, `DeliveriesMintWhileRoom`); its maps agree with what it
  minted exactly when no paid transfer was superseded (`MintedEqualsOnFileIff`).
- `remove_signer` lowers only a local copy of the signer counter. So "counter = active signers" holds
  exactly in runs without a removal (`CounterExactIffNoRemoval`), and "threshold <= active signers" can
  fail (`RemovalsCanStrandTheAccount`). `RemovalSticksIffLastQuorum` and
  `OtherCallsStickIffThresholdTooHigh` say exactly which accepted calls leave an account that no one can
  operate again.
- The vault accepts payloads from 127 bytes on, but reads up to byte 192 of the payload;
  `DecodingIgnoresWhatFollows` shows that 190 bytes is the exact bound for a result that depends on the
  payload alone.

## Model

| member | source | states |
|---|---|---|
| `IntentPayload.AsU32ReadsLastBytes` | aztec-contracts/src/main.nr:424 | Noir's `as u32` is the number in the last four bytes of the field element |
| `Words.FromConcat` | arbitrum-contracts/src/ArbitrumIntentVault.sol:95-99 | reading a concatenation big-endian is shifting the left part by the right part's length and adding |
| `Words.SplitIsDivMod` | arbitrum-contracts/src/ArbitrumIntentVault.sol:95-147 | cutting a byte string in two is division with remainder by a power of 256 |
| `Words.FromToBytes` | aztec-contracts/src/main.nr:317-320 | k big-endian bytes of n denote n modulo 256^k |
| `Words.ToFromBytes` | aztec-contracts/src/main.nr:317-320 | every byte string is the big-endian form of the number it denotes |
| `EvmMemory.LoadThenDrop` | arbitrum-contracts/src/ArbitrumIntentVault.sol:95-135 | a loaded word shifted right by whole bytes is the shorter window at the same place |
| `EvmMemory.ShiftPair12And92` | arbitrum-contracts/src/ArbitrumIntentVault.sol:104-114 | shr 12, shl 92 modulo 2^256 and taking the top 20 bytes selects the 20 bytes before the last two |
| `EvmMemory.ShiftPair16And96` | arbitrum-contracts/src/ArbitrumIntentVault.sol:139-147 | shr 16, shl 96 modulo 2^256 and taking the top 20 bytes selects the same 20 bytes |
| `EvmMemory.ShiftToFirstByte` | arbitrum-contracts/src/Vault.sol:144-149 | shr 248 of a loaded word is its first byte |
| `IntentPayload.EncodeMeaning` | aztec-contracts/src/main.nr:314-344 | rows are the encoding of an intent iff each row denotes its field modulo 2^248 and the others denote zero |
| `IntentPayload.EncodeInjectiveModulo248` | aztec-contracts/src/main.nr:314-344 | two intents have one encoding iff they agree modulo 2^248 in every field |
| `IntentPayload.PackRow` | aztec-contracts/src/main.nr:317-320 | one packing loop writes one row and leaves the others |
| `IntentPayload.PackIntent` | aztec-contracts/src/main.nr:314-344 | the five loops over the zeroed buffer produce the encoding |
| `IntentPayload.Frame` | arbitrum-contracts/src/ArbitrumIntentVault.sol:85-147 | where the id and the five rows lie in a delivered payload |
| `IntentPayload.LoadAndShift` | arbitrum-contracts/src/ArbitrumIntentVault.sol:89-147 | the overlapping loads and shifts compute exactly the plain slices |
| `IntentPayload.LoadChain` | arbitrum-contracts/src/ArbitrumIntentVault.sol:95-101 | the chain is bytes 32 to 63 |
| `IntentPayload.LoadTarget` | arbitrum-contracts/src/ArbitrumIntentVault.sol:104-114 | the target contract is bytes 74 to 94 |
| `IntentPayload.LoadIntentType` | arbitrum-contracts/src/ArbitrumIntentVault.sol:122-128 | the intent type is bytes 95 to 125 |
| `IntentPayload.LoadAmount` | arbitrum-contracts/src/ArbitrumIntentVault.sol:130-136 | the amount is bytes 128 to 159 |
| `IntentPayload.LoadRecipient` | arbitrum-contracts/src/ArbitrumIntentVault.sol:139-147 | the recipient is bytes 170 to 190 |
| `IntentPayload.DecodingIgnoresWhatFollows` | arbitrum-contracts/src/ArbitrumIntentVault.sol:87-147 | the decoded fields do not depend on memory after the payload iff the payload has at least 190 bytes |
| `IntentPayload.RoundTrip` | arbitrum-contracts/src/ArbitrumIntentVault.sol:89-147 | decoding any framing of any encoding yields chain and amount mod 2^248, type mod 2^240, addresses mod 2^160 |
| `IntentPayload.RoundTripIsIdentityIffInRange` | arbitrum-contracts/src/ArbitrumIntentVault.sol:89-147 | the round trip is the identity iff every field fits the width the decoder keeps |
| `MultisigSpec.CountIsCardinality` | aztec-contracts/src/main.nr:468-476 | without duplicate signers the counted slots are the size of the signer set |
| `MultisigSpec.CountPositive` | aztec-contracts/src/main.nr:434-437 | the count is positive iff some slot is taken, and never exceeds the slots |
| `MultisigSpec.InitialSatisfiesInv` | aztec-contracts/src/main.nr:46-97 | a deployed contract satisfies the invariant, with counter = active signers = listed signers |
| `MultisigSpec.EffectPreservesInv` | aztec-contracts/src/main.nr:103-370 | every applicable call keeps the maps on one domain without the zero address, keys nonzero exactly for active signers, threshold <= counter <= 8, and changes the active set by exactly its own signer |
| `MultisigContract.CountValidSigners` | aztec-contracts/src/main.nr:468-476 | the loop counts the taken slots |
| `MultisigContract.AssertValidInitialization` | aztec-contracts/src/main.nr:428-465 | the nested loops accept iff signers are distinct, some exist, the threshold is within their number, and keys are nonzero exactly for taken slots |
| `MultisigContract.MultisigAccount.constructor` | aztec-contracts/src/main.nr:46-97 | the initializer leaves the initial state, note by note |
| `MultisigContract.MultisigAccount.InitializeSigners` | aztec-contracts/src/main.nr:75-96 | the loop gives every listed signer its flag and its own key, and no note is initialized twice |
| `MultisigContract.MultisigAccount.Deploy` | aztec-contracts/src/main.nr:46-97 | deployment succeeds iff the initialization is valid |
| `MultisigContract.MultisigAccount.AssertIsSigner` | aztec-contracts/src/main.nr:492-501 | passes iff the address is an active signer |
| `MultisigContract.MultisigAccount.CheckSlot` | aztec-contracts/src/main.nr:391-414 | one taken slot passes iff its owner is new, active, and the signature verifies under the stored key |
| `MultisigContract.MultisigAccount.CountSignatures` | aztec-contracts/src/main.nr:379-415 | the loop passes iff owners are distinct, active and verified; then count = seen_count = number of distinct owners; the buffer index stays in bounds |
| `MultisigContract.MultisigAccount.AssertValidSignatures` | aztec-contracts/src/main.nr:373-425 | accepts iff the slots are an approval: distinct, active, verified, and at least max(1, threshold) of them |
| `MultisigContract.MultisigAccount.AddSigner` | aztec-contracts/src/main.nr:103-176 | accepted iff the specification accepts; then exactly the specified state, otherwise unchanged; invariant kept; no note write fails |
| `MultisigContract.MultisigAccount.RemoveSigner` | aztec-contracts/src/main.nr:179-230 | likewise for removal, which leaves the stored counter and the executed hashes alone |
| `MultisigContract.MultisigAccount.ChangeThreshold` | aztec-contracts/src/main.nr:233-276 | likewise for the threshold, which leaves the executed hashes alone |
| `MultisigContract.MultisigAccount.ExecuteCrossChainIntent` | aztec-contracts/src/main.nr:282-370 | likewise for an intent: one publication of its encoding, and its hash recorded |
| `MultisigContract.CountedIffGood` | aztec-contracts/src/main.nr:384-415 | the loop's incremental view of the slots equals the set view |
| `MultisigContract.SeeOwner` | aztec-contracts/src/main.nr:392-396 | the duplicate scan of the fixed buffer finds an owner iff it was met before, and otherwise stores it in the next cell |
| `MultisigCalls.ApprovesIff` | aztec-contracts/src/main.nr:384-424 | slot by slot: no owner twice, each with the signer flag and a signature that verifies under the two stored coordinates in order, at least one slot taken and at least as many as the threshold |
| `MultisigCalls.AdditionAcceptedIff` | aztec-contracts/src/main.nr:103-150 | accepted iff sent by the master, hash unspent and equal to poseidon2 of [signer, x, y, deadline], enough signed, signer and coordinates nonzero, signer not active, counter at most 7 |
| `MultisigCalls.RemovalAcceptedIff` | aztec-contracts/src/main.nr:179-211 | accepted iff sent by the master, hash unspent and equal to poseidon2 of [target, deadline], enough signed, target active, threshold below the counter |
| `MultisigCalls.ThresholdChangeAcceptedIff` | aztec-contracts/src/main.nr:233-270 | accepted iff sent by the master, hash unspent and equal to poseidon2 of [threshold, deadline], enough signed, new threshold between 1 and the counter and different |
| `MultisigCalls.IntentAcceptedIff` | aztec-contracts/src/main.nr:282-308 | accepted iff sent by the master, hash unspent and equal to poseidon2 of the five fields and the deadline, enough signed |
| `MultisigCalls.CallLeaves` | aztec-contracts/src/main.nr:139-370 | note by note: what each accepted call writes, that every other signer's notes, and the numbers it does not concern, stay; an intent is published once at the Wormhole address it names with the master as sender; a rejected call changes nothing |
| `MultisigCalls.PublishedInOrder` | aztec-contracts/src/main.nr:346-362 | over any run the publications are those of the accepted intents, in order, each at its own Wormhole address and from the master |
| `MultisigCalls.DeploymentAcceptedIff` | aztec-contracts/src/main.nr:428-465 | a deployment passes iff some slot lists a signer, at least as many as the threshold, none twice, with two nonzero coordinates exactly in the taken slots |
| `MultisigCalls.DeploymentLeaves` | aztec-contracts/src/main.nr:54-96 | each listed signer gets flag 1 and its own coordinates, nobody else is on file, the counter is the number of taken slots, the deployer is the master |
| `MultisigRuns.RunKeepsInv` | aztec-contracts/src/main.nr:103-370 | the invariant and the master hold after every run |
| `MultisigRuns.CounterLaw` | aztec-contracts/src/main.nr:139-217 | over every run the counter grows by accepted additions, the active set by additions less removals |
| `MultisigRuns.CounterIsActivePlusRemoved` | aztec-contracts/src/main.nr:199-217 | from deployment on, counter = active signers + accepted removals, threshold <= counter <= 8, and both survive `as u32` |
| `MultisigRuns.CounterExactIffNoRemoval` | aztec-contracts/src/main.nr:199-209 | the counter equals the active signers iff no removal was accepted, and then threshold <= active signers |
| `MultisigRuns.MeasureLaw` | aztec-contracts/src/main.nr:139-217 | 2*(8 - counter) + active signers falls by exactly one per accepted addition or removal, and is never negative |
| `MultisigRuns.MembershipChangesBounded` | aztec-contracts/src/main.nr:139-217 | no run from deployment has more than 16 - n0 membership changes |
| `MultisigRuns.ApprovalNeedsQuorum` | aztec-contracts/src/main.nr:418-424 | an approval exists only in a state with at least max(1, threshold) active signers |
| `MultisigRuns.StuckIsAbsorbing` | aztec-contracts/src/main.nr:384-424 | with fewer active signers than the quorum no call of any later run is accepted and nothing changes |
| `MultisigRuns.RemovalSticksIffLastQuorum` | aztec-contracts/src/main.nr:199-217 | an accepted removal leaves a stuck account iff the active signers were exactly the quorum |
| `MultisigRuns.OtherCallsStickIffThresholdTooHigh` | aztec-contracts/src/main.nr:254-275 | any other accepted call leaves a stuck account iff it raises the threshold above the active signers |
| `MultisigRuns.ApprovalsIntersect` | aztec-contracts/src/main.nr:384-424 | two approvals of one state share a signer when twice the quorum exceeds the active signers |
| `MultisigRuns.ExecutedOnlyGrows` | aztec-contracts/src/main.nr:171-175 | executed hashes and publications are never taken back |
| `MultisigRuns.RecordedHashIsSpent` | aztec-contracts/src/main.nr:111-116 | a hash accepted in an addition or intent is rejected afterwards by all four entry points |
| `MultisigRuns.HashesCountOperations` | aztec-contracts/src/main.nr:347-369 | executed hashes = accepted additions + intents; publications = accepted intents |
| `MultisigRuns.OnePublicationPerHash` | aztec-contracts/src/main.nr:347-369 | publications are as many as distinct hashes recorded by intents |
| `MultisigRuns.KeyProvenance` | aztec-contracts/src/main.nr:152-168 | in every run a signer's stored key is that of its last accepted addition, with no removal since, or the initial one never touched |
| `MultisigOrder.ApprovalIsOrderFree` | aztec-contracts/src/main.nr:384-415 | acceptance of the signature array is invariant under every permutation of its slots |
| `MultisigReplay.SpentIffRecorded` | aztec-contracts/src/main.nr:365-369 | over any run a hash becomes spent iff an accepted addition or intent carried it |
| `MultisigReplay.ApprovalServesAgainIff` | aztec-contracts/src/main.nr:103-370 | at any later position of any run an approval that has served one call serves another with the same sender, hash, signatures and hashed list iff the first was a removal or a threshold change, its hash is still unspent, its signatures still verify and reach the quorum, and the other call applies |
| `MultisigReplay.AcceptedAgainIff` | aztec-contracts/src/main.nr:179-276 | at any later position of any run a message accepted before is accepted again iff it is a removal or a threshold change, no accepted addition or intent has spent its hash in between, its signatures still verify and reach the quorum, and it still has something to do |
| `MultisigReplay.AcceptedAgainAmongSameSigners` | aztec-contracts/src/main.nr:179-276 | if no signer of the message was added or removed in between, that comes down to: unspent hash, as many signers as the quorum then asks for, and another threshold in force or, for a removal, its target (not one of its signers) back and the counter above the threshold |
| `MultisigReplay.ThresholdChangePassesAgainIff` | aztec-contracts/src/main.nr:233-276 | after a second accepted threshold change the first message is accepted again iff it has at least as many signers as the second threshold |
| `MultisigReplay.RemovalPassesAgainIff` | aztec-contracts/src/main.nr:179-230 | after its target was added back the removal message is accepted again iff the addition had another hash and the target's signature on it, if any, verifies under the new key |
| `MultisigOrder.PreimagesCoincideIff` | aztec-contracts/src/main.nr:118-307 | two calls hash the same list iff they agree in all hashed arguments, or one removes signer n and the other sets threshold n with the same deadline; the Wormhole address is never hashed |
| `MultisigOrder.OneApprovalServesBothIff` | aztec-contracts/src/main.nr:194-250 | the signatures that removed signer n are accepted right after as a change to threshold n iff n is within the counter, differs from the threshold, and did not sign |
| `MultisigOrder.RemovalsCanStrandTheAccount` | aztec-contracts/src/main.nr:199-209 | two accepted removals from three signers with threshold 2 leave one signer and a stuck account |
| `MapSums.SumUpdate` | arbitrum-contracts/src/Vault.sol:154-155 | writing one entry changes the sum of a mapping by the difference at that entry |
| `DonationToken.MintKeepsInv` | arbitrum-contracts/src/Donation.sol:29-35 | minting keeps supply = sum of balances, and changes one balance by the amount |
| `DonationToken.BalancesFit` | arbitrum-contracts/src/Donation.sol:29-35 | no balance can overflow a word |
| `DonationToken.Donation.constructor` | arbitrum-contracts/src/Donation.sol:19-23 | the deployer holds the initial supply |
| `DonationToken.Donation.Donate` | arbitrum-contracts/src/Donation.sol:29-35 | mints iff amount and receiver are nonzero and the supply does not overflow; otherwise nothing changes |
| `VaultContract.Vault.RegisterEmitter` | arbitrum-contracts/src/Vault.sol:189-201 | the owner sets one nonzero emitter; everything else is rejected |
| `VaultContract.Vault.Verify` | arbitrum-contracts/src/Vault.sol:69-99 | accepted iff valid, from the registered emitter, on the right chain, long enough, with a nonzero id that carries no amount yet, and payable; exact new state |
| `VaultContract.Vault.ProcessPayload` | arbitrum-contracts/src/Vault.sol:101-166 | the checks, the record and the donation, all or nothing |
| `VaultContract.DeliveredIff` | arbitrum-contracts/src/Vault.sol:80-178 | at any point of any run from deployment on a message is accepted iff valid, from the emitter last registered for its chain (zero if none), on this chain, at least 127 bytes long, with first 32 bytes nonzero and not carried by an accepted message with an amount, and byte 94 fits the supply |
| `VaultContract.DeliveryLeaves` | arbitrum-contracts/src/Vault.sol:126-161 | byte 94 goes on record under the first 32 bytes and is minted to the receiver; no other record or balance moves |
| `VaultContract.EmittersAreLastRegistered` | arbitrum-contracts/src/Vault.sol:174-200 | over any run a chain's emitter is the one of the owner's last successful registration |
| `VaultContract.OnRecordIffPaid` | arbitrum-contracts/src/Vault.sol:150-161 | over any run an id has an amount on record iff an accepted message with that id carried one |
| `VaultContract.EffectConserves` | arbitrum-contracts/src/Vault.sol:150-161 | a message for an id without an amount keeps one donation per id, each on record, and records adding up to donations |
| `VaultContract.RunConserves` | arbitrum-contracts/src/Vault.sol:101-166 | over every run: at most one donation per id, total donated = sum of records, supply = initial + outside mints + donated |
| `VaultContract.RecordsArePermanent` | arbitrum-contracts/src/Vault.sol:150-155 | a nonzero record is never overwritten |
| `VaultContract.IdWithAmountIsClosed` | arbitrum-contracts/src/Vault.sol:150-155 | after an accepted message with an amount, no later message with its id is accepted |
| `IntentVaultContract.ArbitrumIntentVault.Verify` | arbitrum-contracts/src/ArbitrumIntentVault.sol:65-81 | accepted iff valid and the decoded fields pass; exact new state of vault and token; otherwise unchanged |
| `IntentVaultContract.ArbitrumIntentVault.ProcessIntentPayload` | arbitrum-contracts/src/ArbitrumIntentVault.sol:83-168 | the checks on the decoded fields, in terms of plain slices |
| `IntentVaultContract.ArbitrumIntentVault.StoreAndExecute` | arbitrum-contracts/src/ArbitrumIntentVault.sol:150-191 | four records and, for a transfer, one mint, all or nothing |
| `IntentVaultContract.MessageAcceptedIff` | arbitrum-contracts/src/ArbitrumIntentVault.sol:83-148 | for a payload of any length: accepted iff valid, right chain, at least 127 bytes, and bytes 32 to 63, 74 to 94, 95 to 125, 128 to 159 and 170 to 190 of memory name the chain, this vault, type 0 or 1, a nonzero amount and recipient, with room for a transfer |
| `IntentVaultContract.DeliveryIsFiled` | arbitrum-contracts/src/ArbitrumIntentVault.sol:150-153 | an accepted message is filed in all four maps under its first 32 bytes, with the amount, type and recipient of its bytes; every other id is untouched |
| `IntentVaultContract.FramedIntentIsFiled` | arbitrum-contracts/src/ArbitrumIntentVault.sol:150-153 | for a framed intent: under the envelope's id, amount mod 2^248 twice, its type, recipient mod 2^160 |
| `IntentVaultContract.LastDeliveryIsOnFile` | arbitrum-contracts/src/ArbitrumIntentVault.sol:83-168 | over any run, transfers and NONE intents alike, the four maps hold at an id what the last accepted message with that id says, byte by byte, and what they held at first if there was none |
| `IntentVaultContract.LatestIsLast` | arbitrum-contracts/src/ArbitrumIntentVault.sol:150-153 | the record of an id is its last accepted message |
| `IntentVaultContract.RunAccounts` | arbitrum-contracts/src/ArbitrumIntentVault.sol:128-191 | over every run: each id's four records are its last accepted message, intentAmounts = arbitrumMessages, supply grew by exactly the accepted transfers |
| `IntentVaultContract.MintedEqualsOnFileIff` | arbitrum-contracts/src/ArbitrumIntentVault.sol:150-188 | over every run the vault has minted at least what its own amount and type maps show, and exactly that iff no paid transfer was followed by an accepted message with its id |
| `IntentVaultContract.RedeliveryPaysAgain` | arbitrum-contracts/src/ArbitrumIntentVault.sol:65-191 | a message acceptable once is, after any run whatsoever, accepted again iff the supply still has room for its amount, and is then paid again |
| `IntentVaultContract.EveryCopyIsProcessed` | arbitrum-contracts/src/ArbitrumIntentVault.sol:65-191 | in any run that leaves room for one more, every delivered copy of a message was accepted and has its own entry among the processed messages |
| `IntentVaultContract.EveryCopyIsPaid` | arbitrum-contracts/src/ArbitrumIntentVault.sol:65-191 | and from a fresh vault on, the supply has grown by the amount of every copy, on top of what others minted |
| `IntentVaultContract.DeliveriesMintWhileRoom` | arbitrum-contracts/src/ArbitrumIntentVault.sol:65-191 | n deliveries of a transfer in a row mint its amount min(n, remaining room / amount) times, all to its recipient |
| `EndToEnd.PublicationWasApproved` | aztec-contracts/src/main.nr:282-370 | in every interleaving each publication encodes an intent accepted with verified signatures from a quorum of distinct then-active signers, was sent to the Wormhole address of that very call, with the master as sender |
| `EndToEnd.EveryDeliveryWasApproved` | arbitrum-contracts/src/ArbitrumIntentVault.sol:65-191 | every message the vault accepts carries an intent approved before, field by field modulo the kept widths |
| `EndToEnd.EveryMintWasApproved` | arbitrum-contracts/src/ArbitrumIntentVault.sol:162-191 | every token movement caused by a relayed message is the mint an approved intent asked for: its amount mod 2^248, its recipient mod 2^160, its chain and vault |
| `EndToEnd.InRangeIntentsArriveExactly` | arbitrum-contracts/src/ArbitrumIntentVault.sol:65-147 | in every interleaving an accepted message carries an intent approved before, and carries it exactly, field by field, iff that intent is in range |
| `EndToEnd.FramedIntentDeliveredIff` | arbitrum-contracts/src/ArbitrumIntentVault.sol:65-191 | the converse: at any point of any run a valid frame of an intent is accepted iff the intent names this chain and vault, has type 0 or 1, a nonzero amount and recipient (in the kept widths), and the supply has room |
| `RelayerCache.Dedupe.BeginProcessing` | relayer/relayer.go:760-779 | begins iff the key is neither in flight nor a success younger than the TTL; exact new cache |
| `RelayerCache.Dedupe.FinishProcessing` | relayer/relayer.go:781-798 | the key leaves flight, a success is stamped, and the sweep keeps exactly the entries not before the cutoff |
| `RelayerCache.RunAgrees` | relayer/relayer.go:760-798 | what the cache has dropped is too old to block anything |
| `RelayerCache.PrunedAnswersLikeUnpruned` | relayer/relayer.go:760-798 | under a monotone clock the pruned cache answers like one that remembers every success forever |
| `RelayerLoop.RunKeepsInv` | relayer/relayer.go:660-703 | in every interleaving: in-flight keys are exactly those of busy goroutines and the spawn under way, and the wait group is exact |
| `RelayerLoop.MutualExclusion` | relayer/relayer.go:688-703 | at most one busy goroutine per key; in-flight and processed keys are disjoint |
| `RelayerLoop.SuccessesAreSpaced` | relayer/relayer.go:764-790 | after a success at t no processing of the key begins before t + TTL |
| `RelayerLoop.RunKeepsSuccessesApart` | relayer/relayer.go:764-790 | in every interleaving any two successes of one key are at least a TTL apart |
| `RelayerLoop.SuccessesAreBounded` | relayer/relayer.go:760-798 | so a window of length D holds at most D / TTL + 1 successes of one key, which bounds how often the relayer feeds one message to the vault |
| `RelayerLoop.ReceivedIsBegunIffDue` | relayer/relayer.go:687-703 | in every interleaving a received key is begun, and handed to its own goroutine, iff no goroutine works on it and no success of it is younger than the TTL; otherwise it is skipped |
| `RelayerLoop.FinishedIsLogged` | relayer/relayer.go:695-701 | a working goroutine can finish with either outcome at any time, is logged with it, and then leaves the wait group |
| `RelayerLoop.ReturnsIffNoGoroutineLeft` | relayer/relayer.go:660-684 | the waiting main loop returns exactly when no goroutine is left |
| `RelayerLoop.ShutdownIsComplete` | relayer/relayer.go:661-703 | when `wg.Wait` has returned, no goroutine is left, nothing is in flight, every begun key was finished |
| `RelayerLoop.ShutdownIsAlwaysPossible` | relayer/relayer.go:646-703 | from every reachable state some continuation shuts the relayer down: no interleaving deadlocks the wait group or the main loop |
| `RelayerLoop.InflightBounded` | relayer/relayer.go:695-703 | in-flight keys never outnumber the wait group, plus one between begin and `wg.Add` |
| `RelayerLoop.FailureFreesKey` | relayer/relayer.go:698-700 | after a failed run the key may be begun at any time |
| `RelayerLoop.IdleUntilReceived` | relayer/relayer.go:760-798 | and it stays so, whatever else happens, until it is received again |
| `ProposalLedger.FirstIndex` | cli/src/proposal-manager.ts:281 | `find` returns the first match |
| `ProposalLedger.ProposalManager.CreateProposal` | cli/src/proposal-manager.ts:129-219 | appends a pending proposal under its message hash |
| `ProposalLedger.ProposalManager.SignProposal` | cli/src/proposal-manager.ts:222-268 | appends the signature iff the proposal is pending and the signer has not signed it |
| `ProposalLedger.ProposalManager.MarkProposalExecuted` | cli/src/proposal-manager.ts:296-303 | marks the first match and nothing else |
| `ProposalLedger.ProposalManager.CleanupExecutedProposal` | cli/src/proposal-manager.ts:305-315 | drops the signatures of the hash and marks its first proposal |
| `ProposalLedger.MessageHashIs` | cli/src/proposal-manager.ts:129-200 | each kind of proposal is signed over poseidon2 of the literal list its entry point hashes |
| `ProposalLedger.FilingMakesPending` | cli/src/proposal-manager.ts:200-219 | a filed proposal is found pending under its hash, unless an earlier one with that hash is on file |
| `ProposalLedger.SignatureKeptIff` | cli/src/proposal-manager.ts:237-265 | a signature is appended iff its proposal is found pending and its signer has none for that hash |
| `ProposalLedger.KeptUntilCleanup` | cli/src/proposal-manager.ts:275-315 | over any run without a cleanup of its hash a proposal stays as found and its signatures only grow |
| `ProposalLedger.CleanupSparesOthers` | cli/src/proposal-manager.ts:305-315 | a cleanup changes neither the proposal nor the signatures of another hash |
| `ProposalLedger.CleanupSettles` | cli/src/proposal-manager.ts:305-315 | after a cleanup the lookup returns an executed proposal and no signature for it is left |
| `ProposalLedger.SettledForever` | cli/src/proposal-manager.ts:275-315 | and so it stays in every later state, even if the same proposal is filed again |
| `ProposalLedger.SignaturesStayUnique` | cli/src/proposal-manager.ts:237-265 | over every run each signer has at most one signature per hash |
| `ProposalLedger.PackSignatures` | cli/index.ts:840-857 | the fill loop puts the first eight signatures in order and leaves the other slots empty |
| `CliMirror.SaveThenFind` | cli/src/signer-manager.ts:143-158 | saving is an upsert by address: the saved entry is found, the others are untouched |
| `CliMirror.UpdateMirrors` | cli/index.ts:881-889 | the local update after an accepted call follows the contract |
| `CliMirror.RunMirrors` | cli/index.ts:781-1232 | every run of commands keeps the mirror: the manifest lists exactly the active signers, once each, with the contract's threshold, and files agree with the registry |
| `CliCreation.CreationMirrors` | cli/src/create_multisig.ts:90-173 | a deployment the contract accepts establishes everything `RunMirrors` starts from; a name listed twice is rejected |
| `CliCreation.MirroredSinceCreation` | cli/src/create_multisig.ts:90-173 | so from creation on, after any run of commands, the manifest is an exact copy, as long as the active set, and the shared account is still the master |
| `CliCreation.CanCreateIff` | cli/index.ts:111-140 | with distinct addresses on file a creation passes iff 1 <= threshold <= number of names <= 8, no name twice, all registered with nonzero keys, the current signer among them |
| `CliCreation.CreationDeploys` | cli/src/create_multisig.ts:90-112 | the new contract holds each listed name's own key under its address, the threshold, and the shared account as master |
| `CliMirror.RegisteredForever` | cli/src/signer-manager.ts:79-82 | over every run of commands a registered name keeps its identity |
| `CliMirror.ManifestCountsActive` | cli/index.ts:1055-1065 | the manifest lists as many names as there are active signers, at most the stored counter |
| `CliMirror.ExecutedAtMostOnce` | cli/index.ts:1108-1116 | through the CLI every message hash is executed at most once, whatever its type |
| `CliExecution.ProposalIsFiled` | cli/index.ts:336-690 | which proposing command passes, and the proposal it files: hash, data from the registry, and the manifest's threshold |
| `CliExecution.ExecutionLeaves` | cli/index.ts:865-935 | after an accepted execution the contract holds what the proposal says, the manifest follows, the proposal is executed and its signatures are gone |
| `CliExecution.OnFileIsWellKept` | cli/index.ts:840-857 | what the CLI packs from its own files never contains a duplicate owner: the kept signatures are as many as their owners |
| `CliExecution.ExecutionAcceptedIff` | cli/index.ts:784-878 | a command past the CLI's gates is accepted iff the account is the master, the hash is unspent and the preimage's, the call applies, and every kept signature is by an active signer and verifies, quorum reached |
| `CliExecution.AcceptedSinceCreationIff` | cli/index.ts:784-878 | from creation on, after any run, a command is accepted iff it passes the gates, the hash is unspent, the call applies, and the kept signatures all verify and reach the quorum: master and preimage are always right |
| `CliCommands.CliSession.CreateSigner` | cli/src/signer-manager.ts:73-117 | registers a name iff it is not taken, as one step of the command model, whether or not a multisig is current |
| `CliCommands.CliSession.SignProposal` | cli/src/proposal-manager.ts:222-268 | signs iff the signer is registered, the proposal is pending and the signer has not signed it, as one step of the command model |
| `CliCommands.CliSession.SaveMultisig` | cli/src/signer-manager.ts:143-158 | replaces the first entry with the address, or appends |
| `CliCommands.CliSession.DeployFor` | cli/index.ts:111-140 | the create command deploys iff threshold and registered names pass its checks, the creator is among them, and the contract's initialization is valid |
| `CliCommands.CliSession.CreateMultisig` | cli/src/create_multisig.ts:90-173 | the contract as deployed from the shared account, and a manifest with the listed names: the state from which the mirror holds |
| `CliCommands.CliSession.CheckGates` | cli/index.ts:793-818 | passes iff the proposal is pending, of the command's type, signed as often as it says, and the current signer is listed |
| `CliCommands.CliSession.Submit` | cli/index.ts:865-878 | the contract call with the stored data and the packed array |
| `CliCommands.CliSession.Execute` | cli/index.ts:784-935 | gates, call, manifest and cleanup make exactly one step of the command model |
| `CliCommands.CliSession.RecordExecution` | cli/index.ts:880-935 | the manifest update and the cleanup after an accepted call |

## Left out

- Poseidon2, Schnorr, SHA-256 and Wormhole's guardian checks: arbitrary functions or inputs.
- Note encryption, delivery, nullifiers and the PXE: only the stored values are modelled.
- Error messages and events: a rejected call is rejected, for whichever reason comes first.
- The fixed arguments of the Wormhole publishing call: a publication is the contract it is sent to, the sender and the eight rows.
- The relayer's stream errors, retries and the processing itself: a goroutine's outcome is arbitrary, and the main loop may stop at any receive.
- The deadline is only hashed, as in the contract; the model has no clock for it either.
- `registerEmitter` of the intent vault and the constructor checks of the vault base contracts: nothing modelled reads what they store.
- ERC-20 transfers, allowances and ownership: the token is balances, supply and an overflow-checked mint.
- A command that the contract accepts also gets its local files written, and `create-multisig` deploys the Arbitrum proxy before it saves: a failure in between is not modelled.
- Intents proposed through the CLI fix chain, target and type, and need a recorded Arbitrum proxy; the model lets a proposal carry any intent.
- JSON files, unreadable-file fallbacks, spinners, the `clean` command, and the `--signer-name` path of signing, whose promise is not awaited.
- The CLI's older `execute-cross-chain` command, which sends no signatures.
- Network clients, the verification service, WebRTC exchange, deployment scripts and `Portal.sol`.
- Saturation of Go's durations after 292 years: relayer times are unbounded integers.
