# Ledger integrity engine and toy Merkle-Damgard hashes, in Dafny

This project models two parts of the TCHAI ledger repository and proves properties of them.

**The ledger integrity engine of `app.py`:**
- The canonical signing message `p1|p2|t|a`.
- The chained fingerprint `SHA-256(p1|p2|t|a|prev_hash)`.
- The public-key registry.
- The chain builder of `add_transaction`. It chains a new record on the `h` of the last record in timestamp order.
- The audit loop of `verify_integrity`. It replays the records in timestamp order against a running `prev_hash`, checks the signatures, and builds the OK/KO report.
- The read-only queries: all records in timestamp order, the records involving a person, and a person's balance.

**The three toy hashes of `TD1-2-3-FonctionsDeHachage.py`:**
- The 32-bit XOR compression function `comp` and the IV `0x78617368`.
- `XD`, `XDD` and `XDDD`. They fold `comp` over big-endian 4-byte blocks and differ only in how they pad.

## Layout

| file | module | contents |
|---|---|---|
| `common.dfy` | `Common` | `Option`, `Result` |
| `text_order.dfy` | `TextOrder` | Python's `<=` on strings (`StrLe`), a total order |
| `records.dfy` | `Records` | record type, signing message, fingerprint, key lookup, Python truthiness of a looked-up key (`Usable`), delimiter facts |
| `chronology.dfy` | `Chronology` | the stable sort by timestamp (`tx.get("t", "")`) |
| `audit.dfy` | `Audit` | the audit as a specification: the signature check (`SignatureAccepted`), per-record verdict, replay fold, report |
| `chain.dfy` | `Chain` | the predecessor choice and the record `add_transaction` appends |
| `ledger.dfy` | `LedgerStore` | class `Ledger` with the record list and the key registry, updated in place; its methods are proved against `Chain` and `Audit` |
| `integrity.dfy` | `Integrity` | what the audit detects: tampering, deletion, appends, the delimiter blind spot, the builder/audit divergence |
| `queries.dfy` | `Queries` | all records in timestamp order; records involving a person; balance |
| `compression.dfy` | `Compression` | `^` (`Xor`) and `& 0xFFFFFFFF` (`Low`) digit by digit, `comp`, `IV` |
| `merkle_damgard.dfy` | `MerkleDamgard` | the three paddings, the block loop, `XD`/`XDD`/`XDDD`, collisions |

SHA-256, RSA-PSS verification and Python's `str` of an amount are not computed. They are the fields of a `Primitives` value that the functions take as a parameter. Two lemma preconditions state what the integrity lemmas need from them:
- `HashInjective`: the hash has no collisions.
- `RenderInjective`: distinct amounts render differently.

The clock (`now_iso`) is the `now` parameter of `Admit` and `AddTransaction`.

## Where the code and the specification disagree

The model follows the code in every case below.

- **Tamper propagation.** The specification says a tamper flips the verdict of every chronologically later record too. It gives an example with two records T1 and T2, in which changing T1's amount invalidates both. The audit loop instead moves `prev_hash` to the *stored* `h` of every record that has `h` and all four fields, valid or not (`app.py:397`, `app.py:417`). So a later record is still checked against the untouched stored fingerprint and still passes. `Integrity.TamperFlagsOnlyThatRecord` proves that exactly the tampered record fails. `Integrity.AmountTamperReported` proves that the report has `invalid_count == 1` (T1 only).
- **Predecessor choice.** The specification says the predecessor is the record with the greatest timestamp. The code takes the last element of Python's stable sort (`app.py:220-221`): among records with equal timestamps, that is the one appended last (`Chain.PredecessorHash`, `Chronology.LastOfSort`). If that record has no `h`, the code uses `"0"` (`app.py:222-223`). The audit does not restart at `"0"`; it keeps its running fingerprint (`app.py:355-361`). So the first record appended after a legacy record is flagged by the audit (`Integrity.AppendAfterLegacyTailFlagged`).
- **Ordering.** Timestamps are compared as strings, never parsed. A missing `t` sorts as `""` in the builder and the audit (`app.py:220`, `app.py:348`). `list_transactions` and `list_transactions_for_person` read `tx["t"]` and fail on a record without `t` (`app.py:298`, `app.py:311`).

## Model

| member | source | states |
|---|---|---|
| Records.SigningMessage | app.py:119-130 | the signed message is the four fields joined by three `|`: its length is the sum of the field lengths plus 3 |
| Records.SigningMessageLayout | app.py:130 | sender, recipient, timestamp and amount rendering appear in that order, each right after the previous field and one `|` |
| Records.ComputeHash | app.py:142-158 | the fingerprint is SHA-256 of the signing message followed by `|` and the predecessor fingerprint |
| Records.KeyOf | app.py:76-83 | the lookup returns a key exactly when the person is registered, and then it is the registered key |
| Records.HashInputCancels | app.py:156 | with the predecessor fixed, the fingerprint input `m|prev` determines the message; with the message fixed, it determines the predecessor |
| Records.MessageDeterminesFields | app.py:119-130 | when names and timestamp contain no `|`, equal signing messages have equal sender, recipient and timestamp and equal amount renderings; with injective rendering, equal amounts |
| Records.DelimiterAmbiguity | app.py:130 | the delimiter is not escaped: moving a `|` from the sender's name into the recipient's leaves the signing message unchanged |
| Records.SplitAtFirstBar | app.py:130 | a `|`-free leading field is recovered from `field|rest` |
| TextOrder.StrLeTotal | app.py:220 | any two timestamp strings are ordered one way or the other |
| TextOrder.StrLeTrans | app.py:348 | string order on timestamps is transitive |
| TextOrder.StrLeAntisym | app.py:348 | two strings ordered both ways are equal |
| Chronology.InsertSortedPermutation | app.py:220 | inserting into a sorted list keeps it sorted and adds exactly that record |
| Chronology.SortedSnoc | app.py:348 | a sorted list followed by a record no earlier than any of its records is sorted |
| Chronology.SortByTime | app.py:348 | the sort by `tx.get("t", "")` returns a permutation of the records in non-decreasing timestamp order |
| Chronology.SortedUnchanged | app.py:348 | a ledger already in timestamp order is returned unchanged |
| Chronology.AppendLatest | app.py:220 | a record no earlier than every other sorts last, and the rest keep their sorted order |
| Chronology.LastOfSort | app.py:220-221 | the last element of the sort is the latest-appended record among those with the greatest timestamp |
| Chronology.SameKeyReplaceKeepsSorted | app.py:348 | replacing a record by one with the same timestamp keeps timestamp order |
| Chronology.DeletionKeepsSorted | app.py:348 | deleting a record keeps timestamp order |
| Chronology.InsertLatest | app.py:348 | a record no earlier than any record of a sorted list is inserted at the end |
| Chronology.InsertSameKey | app.py:348 | two records with the same timestamp are inserted at the same position |
| Chronology.InsertReplace | app.py:348 | inserting into a sorted list with one record replaced by a same-timestamp record gives the same result with that record replaced |
| Chronology.InsertTakenOut | app.py:348 | the inserted record sits at some position, and removing it gives back the sorted list |
| Chronology.InsertDelete | app.py:348 | inserting into a sorted list with one record deleted gives the same result with that record deleted |
| Chronology.SortReplace | app.py:348 | the sort commutes with replacing a record by one with the same timestamp: the new record takes the old one's sorted position and nothing else moves |
| Chronology.SortDelete | app.py:348 | the sort commutes with deleting a record: the sorted result loses exactly the position that record sorted to, and the rest keep their order |
| Chain.ChosenTime | app.py:191 | a non-empty `t` from the request is kept; an absent or empty one is replaced by the clock reading, so the timestamp is empty only when the clock reading is |
| Chain.PredecessorHash | app.py:217-223 | `"0"` for an empty ledger; otherwise the `h` of the latest-appended record of greatest timestamp, or `"0"` if that record has no `h` |
| Chain.Admit | app.py:180-245 | refuses exactly when `p1`/`p2`/`a` is missing, or when a non-empty signature comes with no usable sender key, or fails to verify; otherwise returns the record with id = length + 1, the chosen timestamp, `h` chained on the predecessor, and a signature exactly when a non-empty one was given |
| Chain.LegacyTailRestartsBuilder | app.py:221-223 | after appending a latest record that has no `h`, the builder's predecessor is `"0"` |
| LedgerStore.Ledger.constructor | app.py:24-33 | storage starts with no records and no keys |
| LedgerStore.Ledger.SavePublicKey | app.py:63-73 | the person's key is added or replaced, the last registration wins, and no other entry changes |
| LedgerStore.Ledger.AddTransaction | app.py:167-245 | the result is `Admit` of the old state; on success exactly that record is appended, and on refusal the ledger is unchanged |
| LedgerStore.Ledger.CheckSignature | app.py:383-392 | an unsigned record passes; a signed one passes exactly when its sender has a non-empty registered key under which the signature of its signing message verifies |
| LedgerStore.Ledger.CheckFullRecord | app.py:376-414 | on a record with `h` and all four fields, the checks give exactly the verdict `Examine` specifies on the running fingerprint |
| LedgerStore.Ledger.AuditRecord | app.py:353-417 | one loop iteration turns the loop state into exactly the state `Step` specifies: skipped records are reported, others checked, and `prev_hash` moves to the stored `h` |
| LedgerStore.Ledger.VerifyIntegrity | app.py:336-432 | the loop over the sorted records produces exactly the report `AuditLedger` of the current records and keys |
| Audit.RejectionReason | app.py:399-408 | the reason names the hash failure, the signature failure, or both joined by `; `, each exactly when that check failed |
| Audit.Examine | app.py:353-414 | a record without `h` or missing a field is flagged with that reason; otherwise it is accepted exactly when the recomputed hash equals the stored one and the signature is absent or verifies under the sender's non-empty key; the debug fields are set exactly when the hash failed |
| Audit.NextPrev | app.py:397-417 | after a record with `h` and all four fields, `prev_hash` is its stored `h`, whatever it was before; after a skipped record it is unchanged |
| Audit.Step | app.py:353-417 | one iteration appends the record's verdict to exactly one list: its id to the valid list when `Examine` accepts it, otherwise its entry, which carries the record, to the invalid list; `prev_hash` moves as `NextPrev` says |
| Audit.StepOnFullRecord | app.py:374-417 | one iteration on a full record appends its id or its detailed entry and moves `prev_hash` to the stored `h` |
| Audit.CarryForward | app.py:352-417 | after a full record, valid or not, `prev_hash` is its stored `h`; a skipped record leaves `prev_hash` and the valid list unchanged and adds one entry |
| Audit.Replay | app.py:352-417 | every record lands in exactly one list, and the final `prev_hash` is the running stored fingerprint |
| Audit.AuditLedger | app.py:419-432 | total equals the record count, valid + invalid counts equal the total, the counts match the lists, and status is OK exactly when nothing is invalid |
| Audit.ReplayFollowsOutcomes | app.py:352-417 | the valid ids are those of the accepted records, and the invalid entries are those of the flagged records, both in chronological order |
| Audit.NoFlaggedIffAllAccepted | app.py:420 | there are no invalid entries exactly when every record is accepted |
| Audit.AuditValidIffIntact | app.py:420-421 | the audit says OK exactly when every record passes in timestamp order |
| Audit.RunningPrevAfterFull | app.py:397 | after a full record, the running fingerprint is that record's stored `h` |
| Audit.IntactIffWellLinked | app.py:376-397 | the audit of a chronological sequence passes exactly when every record is full, its signature checks, and its `h` is the hash of its message chained on the previous record's `h` (or `"0"`) |
| Integrity.IntactRecordsAreFull | app.py:355-372 | in a chain that passes, every record has `h` and all four fields |
| Integrity.PrefixPrevAgree | app.py:397-417 | replacing a full record by a full one with the same `h` leaves the running `prev_hash` of every prefix unchanged, whatever the other records are |
| Integrity.ReplaceKeepsOthers | app.py:417 | replacing a full record by one with the same `h` changes no other record's verdict, whatever the other records are (legacy and incomplete ones included) |
| Integrity.DistinctMessagesDistinctHashes | app.py:376-380 | with an injective hash, different messages on the same predecessor give different fingerprints |
| Integrity.DistinctPrevsDistinctHashes | app.py:376-380 | with an injective hash, the same message on different predecessors gives different fingerprints |
| Integrity.TamperFlagsOnlyThatRecord | app.py:376-417 | in a passing chain, changing one record's signed message but not its `h` makes exactly that record fail |
| Integrity.DeletionFlagsOnlySuccessor | app.py:376-417 | deleting a non-last record of a passing chain makes exactly its successor fail, when the deleted `h` differs from the fingerprint it was chained on |
| Integrity.DroppingLastKeepsIntact | app.py:352-417 | deleting the last record of a passing chain leaves a passing chain |
| Integrity.OnlyOneFlagged | app.py:406-414 | a replay with exactly one failing record lists exactly that record's entry |
| Integrity.ReportOfSingleFailure | app.py:419-431 | a ledger, stored in any order, whose chronological order has exactly one failing record gives status KO, one invalid entry carrying that record, and total − 1 valid |
| Integrity.ReplacementReported | app.py:376-431 | when an OK ledger is changed so that one record of its chronological order is replaced by one with the same `h` and a different signed message, the report is KO with exactly that new record invalid |
| Integrity.TamperedRecordReported | tests/test_attacks_v3.py:89 | in an OK ledger stored in any order, replacing one record by one with the same timestamp and `h` but a different signed message gives KO with exactly that record invalid |
| Integrity.AmountChangesMessage | app.py:119-130 | a different amount gives a different signing message, when rendering is injective |
| Integrity.SenderChangesMessage | app.py:119-130 | a different sender gives a different signing message, whatever characters the names contain |
| Integrity.RecipientChangesMessage | app.py:119-130 | a different recipient gives a different signing message, whatever characters the names contain |
| Integrity.TimeChangesMessage | app.py:119-130 | a different timestamp gives a different signing message, whatever characters the timestamps contain |
| Integrity.AmountTamperReported | tests/test_attacks_v3.py:89 | changing one amount in an OK ledger, stored in any order, gives KO with exactly that record invalid, when rendering is injective |
| Integrity.SenderTamperReported | app.py:376-431 | changing one sender in an OK ledger, stored in any order, gives KO with exactly that record invalid |
| Integrity.RecipientTamperReported | app.py:376-431 | changing one recipient in an OK ledger, stored in any order, gives KO with exactly that record invalid |
| Integrity.TimeTamperReported | app.py:376-431 | in an OK ledger stored in timestamp order, changing one timestamp without reordering gives KO with exactly that record invalid |
| Integrity.InteriorDeletionReported | tests/test_attacks_v3.py:174 | deleting from an OK ledger the record at a non-last chronological position gives KO with exactly its chronological successor invalid, when the deleted record's `h` differs from the fingerprint it was chained on |
| Integrity.DeletionReported | tests/test_attacks_v3.py:174 | deleting any record from an OK ledger stored in any order: the record sorted to some position `k` and the others keep their order; if `k` is last the report stays OK; otherwise, when the deleted record's `h` differs from the `h` of the record before it (or `"0"` at the start), the report is KO with exactly its chronological successor invalid |
| Integrity.LastDeletionUndetected | app.py:352-421 | deleting from an OK ledger, stored in any order, the chronologically last record leaves it OK |
| Integrity.ExtendKeepsIntact | app.py:376-397 | a passing chain extended by an unsigned full record chained on the running fingerprint still passes |
| Integrity.BuilderMatchesAudit | app.py:217-223 | on a passing ledger, the builder's predecessor equals the audit's running fingerprint |
| Integrity.AppendKeepsAuditOK | app.py:212-245 | appending an unsigned record whose timestamp is no earlier than any stored one keeps an OK audit OK and keeps timestamp order |
| Integrity.ChainedOnGenesisFlagged | app.py:376-380 | a record chained on `"0"` fails after a prefix whose running fingerprint is not `"0"` |
| Integrity.AppendAfterLegacyTailFlagged | app.py:217-226 | after a legacy last record, a newly appended record is flagged by the audit when the audit's running fingerprint is not `"0"` |
| Integrity.MoveBar | app.py:130 | moving the `|` yields a different record with the same `h`, timestamp, amount and signature |
| Integrity.SameMessageKeepsIntact | app.py:376-397 | replacing a record of a passing chain by an unsigned one with the same message and `h` keeps the chain passing |
| Integrity.MoveBarKeepsIntact | app.py:130 | in a passing chain, moving a `|` between the names of an unsigned record keeps the chain passing |
| Integrity.BarInNamesHidesTamper | app.py:130 | in an OK ledger stored in any order, moving a `|` between the names of an unsigned record is not detected: the audit stays OK |
| Queries.Involves | app.py:313 | the test fails exactly when `p1` is missing, or `p1` differs and `p2` is missing; otherwise it is true exactly when the person is sender or recipient |
| Queries.Filter | app.py:313 | fails exactly when some record cannot be tested; otherwise it keeps each involving record with its multiplicity and drops the rest |
| Queries.FilterIsSubsequence | app.py:313 | the kept records appear in their original relative order |
| Queries.FilterKeepsSorted | app.py:311-313 | filtering a timestamp-ordered list keeps it ordered |
| Queries.ListTransactions | app.py:292-299 | fails exactly when a record lacks `t`; otherwise returns every record, with its multiplicity, in timestamp order |
| Queries.TransactionsFor | app.py:304-314 | fails when a record lacks `t`, or when a record cannot be tested; otherwise returns exactly the involving records, each with its multiplicity, in timestamp order |
| Queries.Contribution | app.py:327-329 | a matching record adds its amount and fails without one; a non-matching record adds 0 |
| Queries.Total | app.py:327-329 | the sum fails exactly when a matching record has no amount |
| Queries.Balance | app.py:319-331 | the balance fails exactly when a record naming the person has no amount |
| Queries.TotalOfConcat | app.py:327-329 | the sum over a concatenation is the sum of the sums |
| Queries.BalanceOfConcat | app.py:325-331 | the balance over a concatenation is the sum of the balances |
| Queries.TotalWithout | app.py:327-329 | the sum is the sum without one record plus that record's contribution |
| Queries.TotalIgnoresOrder | app.py:327-329 | sums over two orderings of the same records are equal |
| Queries.BalanceIgnoresOrder | app.py:325-331 | the balance does not depend on the order the records are stored in |
| Queries.TransferMovesAmount | app.py:325-331 | appending a transfer of `v` from `a` to `b ≠ a` lowers `a`'s balance by `v`, raises `b`'s by `v`, and changes nobody else's; a self-transfer changes nothing |
| Compression.SameBitsSameNumber | TD1-2-3-FonctionsDeHachage.py:7 | numbers with the same binary digits are equal |
| Compression.XorBits | TD1-2-3-FonctionsDeHachage.py:7 | each digit of `a ^ b` is set exactly when it is set in exactly one operand |
| Compression.XorCommutes | TD1-2-3-FonctionsDeHachage.py:7 | `a ^ b == b ^ a` |
| Compression.XorAssociates | TD1-2-3-FonctionsDeHachage.py:7 | `(a ^ b) ^ c == a ^ (b ^ c)` |
| Compression.XorUnits | TD1-2-3-FonctionsDeHachage.py:7 | `a ^ 0 == a` and `a ^ a == 0` |
| Compression.XorBound | TD1-2-3-FonctionsDeHachage.py:7 | XOR of two n-digit numbers has at most n digits |
| Compression.LowBits | TD1-2-3-FonctionsDeHachage.py:7 | masking keeps exactly the digits below the mask width |
| Compression.LowBound | TD1-2-3-FonctionsDeHachage.py:7 | masking to n digits gives a value below 2^n |
| Compression.LowOfSmall | TD1-2-3-FonctionsDeHachage.py:7 | masking a value that already fits returns it unchanged |
| Compression.Comp | TD1-2-3-FonctionsDeHachage.py:3-7 | `comp(a, b)` is below 2^32 |
| Compression.CompBits | TD1-2-3-FonctionsDeHachage.py:3-7 | `comp` is digit-wise exclusive or on the low 32 digits, and clears every higher digit |
| Compression.CompCommutes | TD1-2-3-FonctionsDeHachage.py:3-7 | `comp(a, b) == comp(b, a)` |
| Compression.CompOfWords | TD1-2-3-FonctionsDeHachage.py:7 | on 32-bit operands the mask changes nothing |
| MerkleDamgard.Zeros | TD1-2-3-FonctionsDeHachage.py:26 | `b'\x00' * k` is k zero bytes |
| MerkleDamgard.Word | TD1-2-3-FonctionsDeHachage.py:39 | a big-endian 4-byte block is below 2^32 |
| MerkleDamgard.LengthBytes | TD1-2-3-FonctionsDeHachage.py:97 | `to_bytes(4, 'big')` fails exactly when the length is at least 2^32; otherwise its four bytes decode back to the length |
| MerkleDamgard.XorOfBlocksBound | TD1-2-3-FonctionsDeHachage.py:32-41 | the XOR of the blocks is below 2^32 |
| MerkleDamgard.Absorb | TD1-2-3-FonctionsDeHachage.py:29-43 | the state after the block loop, started from `IV`, stays below 2^32 |
| MerkleDamgard.AbsorbIsIvXorBlocks | TD1-2-3-FonctionsDeHachage.py:29-43 | the fold of `comp` from `IV` equals `IV` XORed with every block |
| MerkleDamgard.AbsorbStep | TD1-2-3-FonctionsDeHachage.py:41 | absorbing one more block applies `comp` to the digest so far and that block |
| MerkleDamgard.TopUp | TD1-2-3-FonctionsDeHachage.py:36-37 | the top-up loop appends `4 − len` zero bytes to a short block, one per iteration, and leaves a full block unchanged |
| MerkleDamgard.AbsorbBlocks | TD1-2-3-FonctionsDeHachage.py:32-41 | the block loop computes the fold of `comp` from `IV`, calls `comp` exactly `len/4` times, and never tops up a block |
| MerkleDamgard.PadZeros | TD1-2-3-FonctionsDeHachage.py:24-26 | `XD` appends 0–3 zero bytes, reaching the smallest multiple of 4 not below the length |
| MerkleDamgard.PadOneZeros | TD1-2-3-FonctionsDeHachage.py:56-61 | `XDD` appends exactly one `0x80` byte then 0–3 zero bytes; the length becomes a multiple of 4 strictly above the input's |
| MerkleDamgard.PadWithLength | TD1-2-3-FonctionsDeHachage.py:84-98 | `XDDD` pads with the input, `0x80`, 0–3 zero bytes, then the 4-byte big-endian input length; the length is a multiple of 4, the last four bytes decode to the input length, and it fails exactly when the length is at least 2^32 |
| MerkleDamgard.XD | TD1-2-3-FonctionsDeHachage.py:15-43 | returns the fold of `comp` over the zero-padded message |
| MerkleDamgard.XDD | TD1-2-3-FonctionsDeHachage.py:46-74 | returns the fold of `comp` over the `0x80`-padded message |
| MerkleDamgard.XDDD | TD1-2-3-FonctionsDeHachage.py:77-111 | returns the fold of `comp` over the length-strengthened message, or fails exactly when the length is at least 2^32 |
| MerkleDamgard.DigestFacts | TD1-2-3-FonctionsDeHachage.py:29-43 | `XD` of the empty message is `IV`; every digest is below 2^32 |
| MerkleDamgard.ZeroPaddingCollision | TD1-2-3-FonctionsDeHachage.py:25-26 | a message and the same message extended with zero bytes to the next multiple of 4 differ but have the same `XD` digest |
| MerkleDamgard.OneZerosPaddingInjective | TD1-2-3-FonctionsDeHachage.py:54-61 | `XDD`'s padding is injective: equal padded forms come from equal messages |
| MerkleDamgard.LengthPaddingInjective | TD1-2-3-FonctionsDeHachage.py:96-98 | `XDDD`'s padding is injective |
| MerkleDamgard.XorOfBlocksConcat | TD1-2-3-FonctionsDeHachage.py:32-41 | the XOR of the blocks of a concatenation is the XOR of the two parts |
| MerkleDamgard.SwappedBlocksCollide | TD1-2-3-FonctionsDeHachage.py:32-41 | swapping two adjacent blocks of a padded message leaves the digest unchanged |
| MerkleDamgard.SwapChangesMessage | TD1-2-3-FonctionsDeHachage.py:32-34 | two different blocks in either order form two different messages |
| MerkleDamgard.XdSwapCollision | TD1-2-3-FonctionsDeHachage.py:15-43 | `XD` gives the same digest for a two-block message and its blocks swapped |
| MerkleDamgard.XddSwapCollision | TD1-2-3-FonctionsDeHachage.py:46-74 | so does `XDD` |
| MerkleDamgard.LengthPaddingShape | TD1-2-3-FonctionsDeHachage.py:84-98 | `XDDD`'s padded message is the message followed by a tail that depends only on its length |
| MerkleDamgard.XdddSwapCollision | TD1-2-3-FonctionsDeHachage.py:77-111 | so does `XDDD`, despite its length field |

## Left out

- The Flask layer is not modelled: routing, HTTP status codes and JSON (de)serialisation. A refused request is an `AddError` value.
- File persistence (`load_transactions`, `save_transactions`, `load_public_keys`, the JSON files) is not modelled. The stored lists are the fields of the `Ledger` class.
- `register_public_key` and `get_person_public_key` are outside this model. They only validate a PEM payload and store or return one registry entry; storing is `Ledger.SavePublicKey`.
- The primitives are parameters, not computed: SHA-256 (FIPS 180-4), RSASSA-PSS verification (section 8.1 of RFC 8017) with PEM key loading and base64 decoding, and Python's `str` of an amount.
- The clock `now_iso` is the `now` parameter. ISO-8601 is never parsed.
- JSON value types are not modelled. Names and timestamps are strings and amounts are integers. JSON `null` values, floating-point amounts (only through `showAmount`) and comparisons of values of mixed types are out of scope. A request or record whose key holds `null` is outside the model.
- Concurrent requests racing on the storage files are not modelled.
- Integrity.TamperedRecordReported: assumes an injective hash and an edit that keeps the record's timestamp. The stored order is arbitrary.
- Integrity.TimeTamperReported: assumes the ledger is stored in timestamp order and the new timestamp keeps it so. A timestamp edit that moves the record within the sorted order changes the running fingerprint at two places and can flag other records as well; that case is not modelled.
- Integrity.DeletionFlagsOnlySuccessor: requires that the deleted record's `h` differ from the fingerprint it was chained on. An injective hash alone does not give this. `Integrity.InteriorDeletionReported` and `Integrity.DeletionReported` state the same condition.
- Chronology.SortByTime: stability is stated only where the model uses it: which record sorts last among equal timestamps (`Chronology.LastOfSort`), and how the sort moves under a same-timestamp replacement or a deletion (`Chronology.SortReplace`, `Chronology.SortDelete`). No lemma says in general that equal-timestamp records keep their stored order.
- LedgerStore.Ledger.VerifyIntegrity: the report lists records as values. The id, reason and debug fields are kept; Python's dict layout of each entry is not.
- The toy hashes take the message as bytes. Python's UTF-8 encoding of the `str` argument is not modelled.
- Compression.Comp: defined on non-negative integers only. Python's `^` and `&` on negative integers (two's complement) are not modelled; every caller passes byte-built blocks and `IV`.
- The `__main__` demonstration blocks of both files only print.
