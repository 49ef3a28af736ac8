# Helios verification model

A Dafny model of the Helios light client, with proofs of what its answers are worth when nothing a server says is
trusted.

- **Consensus.** The light client store (`LightClient`, `ConsensusClient`), what becomes of every kind of message, read
  off the message as it is sent (`Messages`), the store's safety over every run (`LightClientSafety`), its agreement
  with the Altair light client specification (`Altair`), what its counters, slots and checkpoint say about the run
  behind them (`RunHistory`), progress against an honest server (`SyncProgress`) and the backfilling of payloads
  (`Backfill`). `Ssz` has the hash trees and the Merkle branch check of the phase 0 specification.
- **Proofs.** RLP (`Rlp`, Yellow Paper Appendix B), hex-prefix paths (`HexPrefix`, Appendix C), the Merkle-Patricia trie
  (`Trie`, Appendix D), the proof verifier (`Proof`), the exact meaning of its verdicts (`ProofTheorems`) and an account
  that it reports as empty (`OpenExtension`).
- **Clients of the two.** Accounts end to end (`Accounts`), receipts and logs (`Receipts`), fee history (`FeeHistory`),
  the node with its bounded payload windows (`PayloadWindow`, `Node`) and the EVM's account cache (`ProofDb`).
- **Consistency.** `ChainConsistency` and `StateConsistency` show that the assumptions below can be met together, and
  hold the concrete messages of the Altair finding. `Results`, `Sets` and `RlpPrefix` are helpers.

Objects that the source updates in place are classes whose methods are proved against functions on values; the theorems
are lemmas about those functions. Server answers, clock readings and the random choices of the network are parameters,
so every theorem is about all of them.

## Assumptions

Each assumption is a predicate that a theorem requires; nothing is an axiom.

- `LightClientSafety.Honest`: a header signed by two thirds of the committee in office is canonical; the state of a
  canonical header commits to the committees of its period and of the next, and only to canonical finalized headers.
  `Trusted`: the checkpoint is the root of a canonical header. `RunHistory.FinalizesOlder`: what a canonical header
  finalizes is older than it. `Altair.Real`: no canonical header and no committee of the chain is the specification's
  default value. `ChainConsistency.HonestChainExists` shows that all of them can be met together, and
  `ChainConsistency.HonestSyncExists` that those of `SyncProgress` can. `RunHistory.Assumed` is `Honest`,
  `FinalizesOlder` and `Trusted` together. BLS is a parameter (`SignatureCheck`) and the hash trees of `Ssz` are free of
  collisions by construction. The clock is at or after genesis; where slots are compared with it, it does not run
  backwards.
- `Trie.Binds`: keccak, a parameter, collides for no node of the proof at hand and node of the trie, and no stored value
  is the digest of a node of the proof. `Trie.WellFormed`: all keys have the same length, no node is inlined in its
  parent, branches have no value of their own, and every node is shorter than the 2^64 bytes at which RLP ends.
- `Accounts.Committed` and `Accounts.Sound`: the state root belongs to such a trie that holds exactly the accounts, each
  account's storage root to one that holds exactly its slots, and a proof of an empty value does not stop at an open
  extension (see below). `Accounts.NoOther`: the hash does not collide for the key asked for and a stored one; of other
  keys nothing is assumed. `StateConsistency.AcceptedAnswerExists` gives, for every hash, address and account that is
  not empty, a state and an accepted answer that meet all of these, `StateConsistency.DigestExists` such a hash and
  account.
- `Receipts.SoundReceipts`: the root of the receipts that were fetched does not collide with that of the block's own
  receipts, and each of them is short enough for RLP. `Backfill.AuthenticBackfill` names its block hash likewise.

## Findings

- **Exclusion proofs.** The verifier compares whole remaining paths at the last node and does not ask whether that node
  is a leaf (`execution/src/proof.rs:34`). A proof broken off at an extension whose path is a prefix of the remaining
  key is therefore accepted for an empty value, whatever lies below. `OpenExtension.OpenExtensionExample` is the case
  end to end: in any state of two equal accounts whose hashed addresses share their first nibbles, the root node alone
  makes the client report either as empty, with no node short enough to be inlined. `ProofTheorems.EndsOpen` tests for
  the situation on proof and key alone, and `ProofTheorems.ExclusionExact` shows that the accepted exclusions are right
  exactly outside it. `ProofTheorems.VerdictExact` gives the full meaning of acceptance.
- **Empty tries.** No proof is accepted against the root of the empty trie (`ProofTheorems.EmptyTrieProvesNothing`), so
  an absent slot of an account without storage cannot be proved. `Accounts.HonestAccountAccepted` is the exact extent:
  the honest answer for any account of a non-empty state, absent ones included, is accepted if and only if no slot is
  asked for or the account has storage.
- **Altair.** Client and specification differ in two ways. The client does not check that an offered next committee
  equals the known one (`ChainConsistency.AcceptedOtherCommittee`, with a safe store and one signer). And it treats
  every full update as one with finality and a next committee (`consensus/src/types.rs:411-422`), and a finalized header
  of slot 0 like any other, where the specification reads a branch of zeros as absent and has a case for genesis: a full
  update without finality is valid there and fails here, which ends a whole sync
  (`ChainConsistency.RefusedWithoutFinality`). `Altair.ConversionExact` shows that the conversion is the whole of this
  second difference: had it dropped absent parts, only messages at genesis would be left. `Altair.ValidateExact` covers
  every message: on those that look like what they are (`Altair.Plain`) the missing check is the whole difference, and
  of the others none is accepted by both unless the attested state itself holds a default value. With a quorum from the
  right committee the missing check changes nothing (`Altair.QuorumOffersKnown`, `Altair.QuorumRefined`), and over whole
  runs of plain messages that offer a committee only with a quorum both end in the same store (`Altair.RunRefined`).
- **Finalized payload.** When head and finalized header have the same slot, the finalized payload is checked against the
  head's header (`consensus/src/consensus.rs:91-97`). It is then certain to be the finalized header's exactly under the
  condition of `ConsensusClient.FinalizedPayloadExact`. On a chain whose headers finalize only older ones the case does
  not arise: `RunHistory.RunHeadsAgree` shows that two headers of one slot are the same header in every run, and
  `Node.Node.UpdatePayloads` that every finalized payload is then the finalized header's.
- **Backfilled payloads.** `get_payloads` compares the block and parent hashes that the server filled in, with each
  other and with an end block that is not compared with the head. Roots and numbers of a linked payload can be replaced
  (`Backfill.ContentsUnchecked`). Linked payloads are the chain's exactly when every block hash is that of its contents
  (`Backfill.AuthenticBackfill`). What is proved about accounts, receipts and logs is relative to the payload held.
- **Latest.** The backfill is inserted after the head's payload, under numbers that the server writes
  (`client/src/node.rs:126-128`). A backfilled payload with the head's number or a higher one is what `Latest` then
  finds, and with the same number the head's own payload is gone (`Node.HeadDisplaced`). `Latest` is the head's payload
  exactly when no number inserted so far is above the head's and the last payload of that number is the head's
  (`Node.LatestExact`); against a server that answers with the chain it always is (`Node.HonestLatest`). The finalized
  map does not have this weakness: only payloads of finalized headers enter it, and in every sync and advance they stay
  payloads of canonical headers, whatever the servers answer (`Node.Node.Sync`, `Node.Node.Advance`).
- **First backfill.** A head of a slot below the history size makes the first backfill start past the head, so that
  nothing is fetched (`client/src/node.rs:120-122`, `Node.EarlyBackfill`).
- **Fee history.** The range has one block more than `block_count`, and it is empty when `block_count` exceeds the
  clamped last block (`FeeHistory.RangeExact`). The comment at `execution/src/execution.rs:366` says that the latest
  block number bounds the request; the code compares with the oldest. The error then names the latest number where its
  message promises the oldest (`execution/src/errors.rs:37-38`).
- **Requested receipts.** A returned receipt is not compared with the requested hash: every receipt of a block is
  accepted for every hash (`Receipts.AcceptedForAnyHash`). It is that of the requested transaction exactly when it
  encodes like the answer at that transaction's position, which the client has at hand and does not compare
  (`Receipts.RequestedExact`).
- **Receipt types.** A type above one byte is cut off in the encoding (`Receipts.WideTypesCollide`), so that types are
  told apart exactly up to 256 (`Receipts.TypesToldApart`). The missing EIP-2718 check that a type byte is below 0x80
  does no harm: no type byte before a receipt makes the encoding of another receipt (`RlpPrefix.ByteBeforeList`).

## Model

| member | source | states |
|---|---|---|
| LightClientSafety.RunSafe | consensus/src/consensus.rs:216-434 | After an accepted bootstrap from a trusted checkpoint, no sequence of server answers makes the store hold a finalized header that is not canonical, a current committee that is not its period's, or a next committee that is not the following period's |
| LightClientSafety.StrictRunSafe | consensus/src/consensus.rs:158-214 | The same for sync and advance, which stop at the first failure and keep what was installed before |
| LightClientSafety.VerifiedPeriods | consensus/src/consensus.rs:271-300 | Which periods a verified update can concern; in particular the finalized period is the store's whenever an update is applied with the next committee unknown, an assertion of the specification that the code never checks |
| LightClientSafety.VerifiedQuorum | consensus/src/consensus.rs:301-336 | In a safe store, a verified update with two thirds of the signers has a canonical attested header, a canonical finalized header and the true committee of the period after the attested one |
| LightClientSafety.BootSafe | consensus/src/consensus.rs:216-261 | An accepted bootstrap is the trusted header with the committee of its period |
| LightClientSafety.RotationNeverSkips | consensus/src/consensus.rs:404-419 | Committees rotate exactly when the finalized header enters a new period, which is always the next one |
| LightClientSafety.GenericIsPaired | consensus/src/types.rs:411-451 | In all three conversions the optional parts come with their branches |
| Messages.UpdateReported | consensus/src/consensus.rs:265-363 | The verdict on a full, finality or optimistic update is the error of the first of its seven checks that fails, each read off the fields of that update: signers, time, period, relevance, finality branch, committee branch, signature |
| Messages.UpdateInstalled | consensus/src/consensus.rs:381-443 | What an accepted update of each kind installs as finalized header, checkpoint, current and next committee, in terms of its own fields |
| Messages.HeadInstalled | consensus/src/consensus.rs:367-379 | The head after an accepted update: its attested header if newer and signed by more than half of the best participation, its finalized header if that is newer still |
| Messages.BootReported | consensus/src/consensus.rs:216-261 | The verdict on a bootstrap is the error of the first of its checks that fails, age under the strict setting, header root, committee branch; an accepted one replaces the whole store, a refused one changes nothing |
| Messages.DeliverReported | consensus/src/consensus.rs:265-274 | Updates are checked at the slot of the clock, and a refused one changes nothing |
| Messages.SlotOfTime | consensus/src/consensus.rs:539-545 | A slot is current exactly during its twelve seconds, counted from genesis |
| LightClientSafety.CountIsSigners | consensus/src/consensus.rs:597-606 | The count compared with two thirds is the number of committee positions that signed |
| LightClientSafety.CountIsKeys | consensus/src/consensus.rs:581-595 | It is also the number of keys given to the signature check |
| LightClientSafety.KeysInOrder | consensus/src/consensus.rs:581-595 | Each signer's own key is among them, at the place of its rank |
| LightClientSafety.ChangeNeedsQuorum | consensus/src/consensus.rs:396-434 | An update that changes the finalized header or a committee has at least 342 of 512 signers |
| LightClientSafety.QuorumsIntersect | consensus/src/consensus.rs:396-402 | Two such signer sets of one committee share at least 172 positions |
| Ssz.MerkleBranchExact | consensus/src/utils.rs:21-42 | A branch verifies exactly when the leaf is at that place of the tree and the branch lists its siblings |
| Ssz.HeaderLeaves | consensus/src/types.rs:373-384 | Where the five fields of a header are in its hash tree |
| Altair.ValidateExact | consensus/src/consensus.rs:263-338 | For every message: if it is plain, the specification validates it exactly when the client verifies it and it offers no other committee than the known one; if it is not, no message is accepted by both unless the attested state holds a default value |
| Altair.ProcessRefined | consensus/src/consensus.rs:365-434 | On every message both accept, with the same exception, the client's new store is the one process_light_client_update computes, and no assertion of the specification fails |
| Altair.QuorumRefined | consensus/src/consensus.rs:365-434 | In a safe store, every verified update with a quorum is processed by the specification to the client's new store if it is plain, and refused if it is not |
| Altair.ConversionExact | consensus/src/types.rs:411-422 | Once the parts that the specification reads as absent are dropped, it validates a plain message exactly when the client would verify it and it offers no other committee; a message that is not plain then is validated only with a zero leaf for genesis |
| Altair.RunRefined | consensus/src/consensus.rs:158-214 | Over a whole run from an accepted bootstrap or a safe store, of bootstraps and plain messages, valid or not, that offer a committee only with a quorum, client and specification end in the same store |
| ChainConsistency.RefusedWithoutFinality | consensus/src/types.rs:411-422 | A canonical full update without finality, signed by all, that the specification validates and the client refuses |
| ChainConsistency.AcceptedOtherCommittee | consensus/src/consensus.rs:316-328 | On an honest chain and with a safe store, a plain update with another next committee than the known one that the client verifies and the specification refuses |
| RunHistory.ParticipationHistory | consensus/src/consensus.rs:367-416 | Over any run the two counters are the largest participation among the updates applied in the finalized period and in the period before it |
| RunHistory.StrictParticipation | consensus/src/consensus.rs:158-214 | The same for events given up at the first failure, as sync and advance are |
| RunHistory.HeadNeedsHalf | consensus/src/consensus.rs:373-379 | The head moves to an attested header only with more than half of the participation of any update applied in those two periods |
| RunHistory.SlotOrder | consensus/src/consensus.rs:272-274 | Over any run after a bootstrap, finalized and optimistic slot never decrease and finalized <= optimistic <= slot of the clock |
| RunHistory.StrictSlotOrder | consensus/src/consensus.rs:158-214 | The same for events given up at the first failure |
| RunHistory.BootOrdered | consensus/src/consensus.rs:251-258 | A bootstrap starts in that order exactly when its slot is not in the future |
| RunHistory.RunHeadsAgree | consensus/src/consensus.rs:365-434 | After an accepted bootstrap, over every run complete or broken off, head and finalized header are the same header whenever they have the same slot |
| RunHistory.CheckpointHistory | consensus/src/consensus.rs:418-427 | The last checkpoint is always the root of the latest header finalized by an update at a slot divisible by 32 |
| RunHistory.StrictCheckpoint | consensus/src/consensus.rs:158-214 | The same for events given up at the first failure |
| RunHistory.CheckpointAge | consensus/src/consensus.rs:569-578 | Within 64 bits and for a slot not in the future, the age test compares the true age |
| SyncProgress.SyncProgress | consensus/src/consensus.rs:158-170 | After an accepted bootstrap in period p, k honest updates of the periods p, p + 1, ... are all accepted and end in period p + k - 1 with the committee of period p + k known |
| SyncProgress.Progress | consensus/src/consensus.rs:167-170 | The same from any safe store that can take an update of period p next |
| SyncProgress.WholeSync | consensus/src/consensus.rs:158-186 | A whole sync, with a finality and an optimistic update that are newer than all that was finalized and need no quorum, succeeds and leaves a safe store, also when the finality update enters a new period; when that update has a quorum and is the newest, the sync ends at its finalized header, and at its root as checkpoint if it starts an epoch |
| SyncProgress.AdvanceExact | consensus/src/consensus.rs:188-214 | When an advance succeeds, with which error it fails, and its whole new state: beyond the head, only a lone update that passes its checks is installed, and only while the next committee is unknown |
| SyncProgress.AdvanceLearns | consensus/src/consensus.rs:199-211 | Against an honest server, an advance whose head is accepted learns an unknown next committee |
| ChainConsistency.HonestSyncExists | consensus/src/consensus.rs:158-186 | A chain, a bootstrap, an honest full update and two updates of the head that meet all that progress and a whole sync require |
| ConsensusClient.GetBits | consensus/src/consensus.rs:597-606 | The loop computes the count of set bits |
| ConsensusClient.GetParticipatingKeys | consensus/src/consensus.rs:581-595 | The loop collects the keys at the set bits, in order |
| ConsensusClient.ConsensusClient.GetExecutionPayload | consensus/src/consensus.rs:83-108 | The payload that the answer for a slot, or for the head where none is given, proves, or which error, as the function the next two rows are about |
| ConsensusClient.PayloadExact | consensus/src/consensus.rs:83-108 | A payload can be obtained for a slot exactly if the header of that slot commits to it, the head's where head and finalized header share the slot |
| ConsensusClient.PayloadRefused | consensus/src/consensus.rs:83-108 | Which error: not fetched, a slot of neither header, or another root |
| ConsensusClient.FinalizedPayloadExact | consensus/src/consensus.rs:88-97 | Every payload accepted as finalized is the finalized header's if and only if the slots differ, the head's body root is none, or both headers commit to the same payload |
| ConsensusClient.ConsensusClient.DoBootstrap | consensus/src/consensus.rs:216-261 | The new state and the error, in the order of the checks; a failed bootstrap changes nothing |
| ConsensusClient.ConsensusClient.VerifyGenericUpdate | consensus/src/consensus.rs:265-338 | The verdict on an update with its error, as the function the theorems are about |
| ConsensusClient.ConsensusClient.ApplyGenericUpdate | consensus/src/consensus.rs:367-434 | The whole new state, checkpoint included, as the function the theorems are about |
| ConsensusClient.ConsensusClient.Sync | consensus/src/consensus.rs:158-186 | State and result are those of running bootstrap, all updates, finality and optimistic update up to the first failure |
| ConsensusClient.ConsensusClient.Advance | consensus/src/consensus.rs:188-214 | State and result of an advance, whose last attempt to learn the next committee may fail silently |
| Backfill.GetPayloads | consensus/src/consensus.rs:110-148 | The longest prefix of the fetched payloads, newest first, that is an unbroken parent-hash chain ending at the end block |
| Backfill.FetchedExact | consensus/src/consensus.rs:115-117 | Fetched are exactly the blocks from the start slot up to but not including the end slot, later slots first |
| Backfill.HonestBackfill | consensus/src/consensus.rs:110-148 | Against an honest chain with missed slots: every payload of the range, numbered without a gap |
| Backfill.ContentsUnchecked | consensus/src/consensus.rs:131-146 | Roots and number of any payload of a linked sequence can be replaced and it stays linked |
| Backfill.AuthenticBackfill | consensus/src/consensus.rs:131-146 | Linked payloads are those of the chain if and only if the block hash of each is the hash of its contents |
| Rlp.DecodeEncode | execution/src/proof.rs:14 | Decoding the encoding of an item gives the item and what follows it |
| Rlp.KnownEncodings | execution/src/proof.rs:14 | Encodings that Appendix B fixes |
| Rlp.KnownHeaders | execution/src/proof.rs:14 | Length prefixes that Appendix B fixes, at the border of the short form |
| HexPrefix.HexPrefixRoundTrip | execution/src/proof.rs:137-159 | Skipping the flag and reading nibbles recovers every encoded path, and the flag its kind |
| HexPrefix.KnownPaths | execution/src/proof.rs:137-159 | Paths that Appendix C fixes, for both flags and both parities |
| HexPrefix.UnknownFlag | execution/src/proof.rs:149-155 | Nothing is skipped of a node path whose first nibble is no flag |
| HexPrefix.PathsMatch | execution/src/proof.rs:68-86 | True exactly when the two nibble suffixes are equal |
| HexPrefix.SharedPrefixLength | execution/src/proof.rs:114-135 | The length of the longest common prefix of the remaining path and the node's path |
| Proof.VerifyProof | execution/src/proof.rs:5-66 | The loop's verdict is that of a recursion over nodes and remaining nibbles; the path offset never passes the end of the path |
| ProofTheorems.VerdictExact | execution/src/proof.rs:5-66 | A proof is accepted exactly when it is the walk to the key and the value is stored there, or is empty and nothing is, or when it breaks off at an open extension and the value is empty; against a non-empty trie there is always an answer, with no nibble out of range |
| ProofTheorems.InclusionSound | execution/src/proof.rs:40-48 | An accepted value that is not empty is what the trie stores under the key |
| ProofTheorems.ExclusionSound | execution/src/proof.rs:16-38 | An accepted empty value means that the key is absent or bound to that encoding, unless the proof stops at an open extension |
| ProofTheorems.ExclusionExact | execution/src/proof.rs:32-38 | An accepted exclusion holds for all keys it cannot tell apart if and only if it does not stop at an open extension |
| OpenExtension.OpenExtensionExample | execution/src/proof.rs:32-38 | For every hash, any two addresses whose digests share their first nibbles and any account that is not empty: in the state in which both have it, the client reports the first as empty on the root node alone |
| ProofTheorems.VerdictLocal | execution/src/proof.rs:9-63 | The verdict depends only on the nibbles examined |
| ProofTheorems.Completeness | execution/src/proof.rs:9-63 | The walk to a key is accepted for exactly what is stored there, or for an empty value when nothing is |
| ProofTheorems.EmptyTrieProvesNothing | execution/src/proof.rs:5-66 | No proof is accepted against the root of the empty trie |
| Accounts.GetAccount | execution/src/execution.rs:47-124 | The account that an answer proves, or the first failing check |
| Accounts.SlotsReported | execution/src/execution.rs:75-96 | The slots are proved if all storage proofs are accepted; otherwise the error is that of the first that is not |
| Accounts.AccountReported | execution/src/execution.rs:47-124 | Which check fails, in their order, and when the code is asked for |
| Accounts.AccountFaithful | execution/src/execution.rs:47-124 | A returned account has balance, nonce, code hash, storage root and code of the state, exactly the slots that came with proofs, and in every slot the value in storage, zero where absent |
| Accounts.HonestAccountAccepted | execution/src/execution.rs:47-124 | The honest answer for any address and list of slots of a non-empty state is accepted if and only if no slot is asked for or the account has storage; it gives the state's account with exactly the slots asked for, each with its value |
| Accounts.AccountLayout | execution/src/proof.rs:161-169 | A decoder reads an encoded account as nonce, balance, storage root and code hash |
| Accounts.EmptyValues | execution/src/proof.rs:98-112 | The two values that count as empty, byte by byte |
| Accounts.AccountInjective | execution/src/proof.rs:161-169 | Two accounts with the same encoding are the same |
| Accounts.EmptyAccount | execution/src/proof.rs:98-112 | An account accepted as empty is the empty account |
| Accounts.EmptyUint | execution/src/proof.rs:98-112 | A slot accepted as empty is zero |
| Receipts.EncodeReceiptExact | execution/src/execution.rs:464-479 | Receipts of whatever types encode alike exactly when type byte, status, gas, bloom and logs are the same |
| Receipts.ReceiptLayout | execution/src/execution.rs:464-479 | After the type byte a decoder reads status, gas, bloom and for every log address, topics and data |
| RlpPrefix.ByteBeforeList | execution/src/execution.rs:464-479 | One byte before the encoding of a list is never the encoding of a list that begins with a string, as a receipt does |
| Receipts.TypesToldApart | execution/src/execution.rs:475-478 | The encoding tells the types up to a bound apart if and only if the bound is at most 256 |
| Receipts.WideTypesCollide | execution/src/execution.rs:475-478 | Types beyond one byte collide |
| Receipts.GetTransactionReceipt | execution/src/execution.rs:205-249 | A receipt is returned exactly when the answers for its block hash to the receipts root and contain it; otherwise which error, with the requested hash |
| Receipts.ReceiptReturned | execution/src/execution.rs:205-249 | A receipt, with or without logs, is returned if and only if it is the first answer, its payload is known, and the answers for its block are complete, hash to the receipts root and hold it |
| Receipts.ReceiptNotReturned | execution/src/execution.rs:205-249 | When nothing is returned, and when which error |
| Receipts.ReturnedSound | execution/src/execution.rs:205-249 | Every receipt that is returned is in all that consensus commits to one of the block's own |
| Receipts.AcceptedForAnyHash | execution/src/execution.rs:205-249 | Every receipt of a block is accepted, for every hash that is asked for |
| Receipts.RequestedExact | execution/src/execution.rs:244-248 | A proved receipt is that of the j-th transaction of its block if and only if it encodes like the j-th answer |
| Receipts.ReceiptSound | execution/src/execution.rs:205-249 | A proved receipt, of whatever type, is in all that consensus commits to one of the block's own |
| Receipts.GetLogs | execution/src/execution.rs:289-347 | With the filter's default range: an error when more than five logs come back, else the first failing check of the first log that fails one, else the logs |
| Receipts.NarrowedExact | execution/src/execution.rs:294-307 | Which filter is asked for: without end and block hash it ends at the newest known block, and starts there unless it has a start |
| Receipts.LogsReturned | execution/src/execution.rs:315-345 | Nothing fails exactly when every log names a transaction and is encoded in a proved receipt |
| Receipts.LogReported | execution/src/execution.rs:315-345 | Otherwise which error, with hash and index |
| Receipts.LogSound | execution/src/execution.rs:309-346 | One of the receipts that the payload's receipts root commits to has a log of the same address, topics and data |
| FeeHistory.GetFeeHistory | execution/src/execution.rs:349-413 | Succeeds exactly when the last block is not older than the window and every number of the clamped range is present, with the base fees of that range in order and an empty reward for every known payload |
| FeeHistory.RangeExact | execution/src/execution.rs:374-385 | Start and end of the range for all 64-bit inputs; it is empty exactly when the block count exceeds the clamped last block |
| FeeHistory.NoMoreThanPayloads | execution/src/execution.rs:394-410 | Never more entries than payloads |
| PayloadWindow.InsertKeeps | client/src/node.rs:111-128 | Inserting keeps a window on the unbounded map, also for a number that was dropped before |
| PayloadWindow.PopKeeps | client/src/node.rs:132-134 | Dropping the smallest key of an overfull window loses none of the largest |
| PayloadWindow.TrimmedIsNewest | client/src/node.rs:132-140 | A trimmed window is exactly the largest keys of the unbounded map |
| PayloadWindow.MaxAgrees | client/src/node.rs:380-389 | Window and unbounded map have the same newest payload |
| Node.Node.UpdatePayloads | client/src/node.rs:96-143 | It succeeds exactly when both heads' blocks prove and the end block is there; what is inserted and from which slot on, each payload under its own block number, the finalized one committed to by the finalized header wherever the heads agree, and exactly when the latest is the head's; after a success both maps are exactly the newest part of everything ever inserted, also when earlier calls failed half way |
| Node.Node.GetPayload | client/src/node.rs:378-395 | Latest finds the payload of the highest number ever inserted, Finalized that of the highest number ever inserted as finalized, which a canonical header commits to; Number finds the payload of that number unless newer ones fill the window |
| Node.LatestExact | client/src/node.rs:111-128 | The latest payload is the head's if and only if no number inserted before or now is above its number and the last payload of that number is it |
| Node.HeadDisplaced | client/src/node.rs:126-128 | A linked backfill whose payload takes the place of the head's as the latest one |
| Node.HonestLatest | client/src/node.rs:96-143 | From maps filled from the chain, an update against a server that answers with the chain leaves maps filled from the chain, and the latest payload is the head's |
| Node.HonestFinalized | client/src/node.rs:118-123 | From a finalized map filled from the chain, Finalized finds the finalized payload just inserted |
| Node.Node.Sync | client/src/node.rs:61-79 | Consensus state and error of the checks and the consensus sync; whatever the servers answer, every finalized payload ever kept is that of a canonical header, and a sync that gets as far as the payloads leaves a safe store whose heads agree |
| Node.Node.Advance | client/src/node.rs:81-87 | The same for an advance, which keeps such a store such, whether it fails or not |
| Node.HeadAgeExact | client/src/node.rs:410-420 | In every ordered state the head-age subtraction does not underflow |
| Node.HeadAheadOfClock | client/src/node.rs:410-420 | A head ahead of the clock wraps around, and so counts as out of sync |
| Node.Node.CheckHeadAge | client/src/node.rs:410-420 | Out of sync exactly when the delay exceeds ten slots |
| ProofDb.BatchFetchAccounts | execution/src/evm.rs:106-172 | The chunked loops build the map of all proved accounts of the list, later ones winning, whatever the chunks |
| ProofDb.FetchedFaithful | execution/src/evm.rs:150-171 | That map holds only accounts as the state has them |
| ProofDb.FetchedExact | execution/src/evm.rs:150-171 | Fetched are exactly the addresses that some answer proves, each with its last proved account |
| ProofDb.PrecompileExact | execution/src/evm.rs:298-301 | Precompiles are exactly the addresses whose first 19 bytes are zero and whose last is from 1 to 9 |
| ProofDb.BasicTransparent | execution/src/evm.rs:239-260 | For every other 20-byte address an account is reported exactly if it is cached or its answer proves it, and is then the state's; those nine are empty |
| ProofDb.StorageReported | execution/src/evm.rs:271-291 | A slot is reported exactly if it is cached or the answer proves an account with that slot, also where the cached account lacks it; otherwise which error |
| ProofDb.StorageTransparent | execution/src/evm.rs:271-291 | A successful slot answer is the state's value, cached, fetched, or fetched because the cached account lacks the slot |
| ProofDb.CachesAgree | execution/src/evm.rs:239-291 | Two databases with different caches never disagree |
| ProofDb.SlotKeyExact | execution/src/evm.rs:274 | Slot numbers below 2^256 and 32-byte storage keys correspond one to one |
| ProofDb.ProofDB.Basic | execution/src/evm.rs:239-260 | The lookup order of account answers |
| ProofDb.ProofDB.Storage | execution/src/evm.rs:271-291 | The lookup order of slot answers |

## Left out

- Altair.ValidateExact: nothing is said of messages that both might accept because the attested state itself holds a default header or committee, which no canonical state does.
- Altair.RunRefined: leaves out messages that offer a committee without a quorum, on which the missing check shows, and bootstraps refused for their age, which is a rule of the client alone.
- Accounts.AccountFaithful: for an empty value it requires that the proof does not stop at an open extension, because the property is false otherwise (see Findings).
- Undecodable nodes: `Aborted` stands for what decode_list does with bytes that are not an RLP list of strings; the rlp crate is not part of this model, and no such node is reached against an honest root.
- Debug builds: 64-bit subtractions wrap around as in release builds; in a debug build the same inputs stop the program.
- BLS, keccak and SHA-256 themselves, fork-version selection and the parsing of public keys, which are parameters or hash trees without collisions.
- Logging, including the age and participation figures it computes.
- The revm interpreter, gas estimation and block-hash lookup of the EVM database.
- FeeHistory.GetFeeHistory: gas-used ratios are not part of the answer, because they are rounded floating point.
- Full transactions and blocks (`get_block`, `get_transaction`), which compare encodings of one payload.
- The fetching of the servers' chain ids, whose checks are parameters of the node's sync, and the node's lookup of payloads by hash.
- The storage keys of an access list, which only shape a request: the client checks and keeps whatever slots the answer holds.
- RPC transport, JSON, configuration, the command line, external checkpoint services, asynchronous scheduling and locks.
- Changing `history_size` after construction.
