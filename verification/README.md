# Secure Fusion: a verified model

Secure Fusion is a MySQL proxy that encrypts columns and still answers queries through index columns
the server can read. This project models, in Dafny 4.11, the parts of the proxy on which its answers
depend, and proves what they keep and exactly when they do not.

`dafny verify dfyconfig.toml` checks the whole project.

## What is proved

**Filters** (`Filter`, `SplitBounds`, `SplitExact`, `SplitRows`, `Rows`, `OptimizeCmp`, `Sql`,
`RangeIndex`, `BucketOrder`, `BlindIndex`, `Resolver`). A WHERE tree is evaluated in SQL's three truth
values. With S and U for the supported and unsupported parts of a split of `f`, six inequalities
(`f <= S`, `S <= f`, `f <= U`, `U <= f`, `S and U <= f`, `f <= S or U`) are closed under the cases of
the split, and `SplitBounds.Holds` decides each from the shape of the tree. Where it says yes, the
inequality is true on every tree and valuation of its leaves; where it says no and no leaf occurs
twice, a valuation breaks it, and if leaves do not depend on each other, a row does.
Merging comparisons only ever weakens a filter. A row is carried through the whole resolution, over
any table and list of indices, provided every split on the way keeps its upper bounds and every index
query keeps the row; conjunctions always meet the first condition, and for blind and range indices
the second is reduced to conditions on the comparisons themselves. In the other direction, a row that
satisfies what is sent satisfies every filter that is not checked again.

**Transactions** (`Transactions`). Nested sink executions that can fail at any point are atomic under
autocommit, and only buffer writes when the user controls the transaction. In any session a rollback
drops exactly what was buffered since the start, and a commit keeps exactly that, in order.

**Writes** (`WritePipeline`, `ReadBack`, `Multiplex`, `LengthPrefixed`, `ColumnCipher`, `Identifiers`). The two
projection layers, the multiplexer, the encodings bound to each ciphertext, and the encryption and
decryption of columns, from a plaintext row to what each sink receives and what is read back. The
cipher is uninterpreted:
`ColumnCipher.Ideal` states what is assumed of it, and `ColumnCipher.BindingOn` what is assumed for
the associated data in use; a cipher that meets both is given.

**Sessions** (`BinaryLiterals`, `LiteralScan`, `LiteralTrace`, `PlanCache`, `PreparedStatements`). The
extraction of binary literals, compared over whole queries with section 11.1.1 of the MySQL 8.4
Reference Manual; the plan cache; and the two levels of prepared statements, over runs of any length.

## Where the code differs from what it says

- The split promises that the supported part returns a superset of the matching rows. This fails for
  an OR of a wholly supported and a wholly unsupported branch, and for a NOT over a mixed AND, on two
  columns each. `SplitRows.RowsKeptExactly` gives the exact condition for leaves that do not depend on
  each other; leaves on one column can hide the failure.
- Merging comparisons compares decimals by their stored integers. `OptimizeCmp.MergeAddsOnBoundExactly`
  and `OptimizeCmp.MergeExactly` say exactly when this keeps the wrong bound.
- The range index announces support for NOT but cannot translate it: its query fails exactly then.
- A lone `<` or `>` on the range index loses rows exactly when its bound is not on a bucket edge.
- The blind index inserts the bytes of a value but looks up its printed form. On text they agree; on
  other types a row is lost unless their identifiers coincide. A NULL literal is looked up as a word.
- In the physical phase, an index without physical support consumes the remainder.
  `Resolver.PhysicalLoopExactly` says exactly when this matters.
- The plan cache key leaves out the state of the session, such as its current database: a hit is right
  for every planner exactly in the state of the entry's origin.
- A value whose encryption fails, or that has no associated data, is stored as NULL.
- Queries with binary literals never close the backend statement they open.
- A query with binary literals that reopens the backend id of a live statement replaces its plan; this
  takes 2^64 openings.
- A binary literal is closed at the wrong quote exactly when its first bare quote follows a backslash
  or is doubled, and opened at the wrong one exactly when an escaped or doubled quote comes before its
  invalid bytes, or these are outside any literal but behind a quote.
- A parameter differs from the value of its literal exactly on escaped wildcards and doubled quotes.
- After an update that changes the key of a row, the encrypted columns it wrote are not read back.

Each item is proved by a member listed below.

## Model

| member | source | states |
|---|---|---|
| Filter.Split | backends/mysql/src/filtering/indexable_filter.rs:467-579 | a split always leaves something; without an unsupported part it forwards the tree unchanged |
| Filter.SupportedPartIsAccepted | backends/mysql/src/filtering/indexable_filter.rs:460-579 | the supported part is made of accepted trees, joined only by connectives the options allow |
| SplitBounds.BoundedAnd | backends/mysql/src/filtering/indexable_filter.rs:479-490 | each of the six bounds passes through a conjunction under the condition `HoldsAnd` |
| SplitBounds.BoundedOr | backends/mysql/src/filtering/indexable_filter.rs:491-565 | each of the six bounds passes through every case of a disjunction under the condition `HoldsOr` |
| SplitBounds.BoundsAreTrue | backends/mysql/src/filtering/indexable_filter.rs:460-579 | on every tree and every three-valued valuation, a bound decided to hold is true |
| SplitExact.Refute | backends/mysql/src/filtering/indexable_filter.rs:460-579 | on a tree without repeated leaves, a bound decided not to hold is broken by a valuation (left side True, right side False) |
| SplitExact.SupersetExactly | backends/mysql/src/filtering/indexable_filter.rs:463-466 | for leaves that take any truth values: the supported part is true wherever the tree is, if `Holds(KeepsS)`, and on trees without repeated leaves only if |
| SplitExact.MeaningExactly | backends/mysql/src/filtering/indexable_filter.rs:460-465 | for leaves that take any truth values: supported AND unsupported has the truth value of the tree if `MeaningKept`, and on trees without repeated leaves only if |
| SplitExact.SafeShapesKeepMeaning | backends/mysql/src/filtering/indexable_filter.rs:491-574 | trees free of the two unsafe shapes satisfy `MeaningKept` |
| SplitExact.OrOfBothKindsIsUnsafe | backends/mysql/src/filtering/indexable_filter.rs:530-547 | an OR of a wholly supported and a wholly unsupported branch forwards the supported one alone, which some truth values of the leaves show to be false where the OR is true |
| SplitExact.NotOverMixedIsUnsafe | backends/mysql/src/filtering/indexable_filter.rs:566-574 | a NOT over such an AND forwards the negated supported side alone, with the same effect |
| SplitExact.NotOverUnsafeOrKeepsMeaning | backends/mysql/src/filtering/indexable_filter.rs:530-574 | a NOT over an OR of a wholly supported branch and an unsupported leaf keeps its meaning: the unsafe shapes are not the exact condition |
| SplitRows.BoundKeepsRows | backends/mysql/src/filtering/indexable_filter.rs:463-466 | every tree with `Holds(KeepsS)` keeps every matching row |
| SplitRows.RowsKeptExactly | backends/mysql/src/filtering/indexable_filter.rs:463-466 | on trees whose leaves are opaque or sit on columns of their own, the supported part keeps every matching row exactly when `Holds(KeepsS)` |
| SplitRows.RowTruthKeptExactly | backends/mysql/src/filtering/indexable_filter.rs:460-465 | on such trees both parts together have the truth value of the tree on every row exactly when `MeaningKept` |
| SplitRows.OrOfBothKindsLosesRows | backends/mysql/src/filtering/indexable_filter.rs:530-547 | on such trees the unsafe OR loses a row |
| SplitRows.NotOverMixedLosesRows | backends/mysql/src/filtering/indexable_filter.rs:566-574 | on such trees the NOT over a mixed AND loses a row |
| SplitRows.ComparisonIsFree | backends/mysql/src/filtering/indexable_filter.rs:460-579 | every comparison of a bare column with a number meets the condition on a leaf |
| SplitRows.OrLosesThisRow | backends/mysql/src/filtering/indexable_filter.rs:530-547 | a = 1 OR b = 2 with only the first supported, and the row that is lost |
| SplitRows.NotLosesThisRow | backends/mysql/src/filtering/indexable_filter.rs:566-574 | NOT (a = 1 AND b = 2) with only the first supported, and the row that is lost |
| SplitRows.DependentLeavesLoseNothing | backends/mysql/src/filtering/indexable_filter.rs:530-547 | two leaves on one column, c < 5 OR c < 3, have the unsafe shape and lose no row |
| Sql.ForwardKeepsMeaning | backends/mysql/src/filtering/logical.rs:196-239 | a forwarded tree has on every row the truth value of the filter |
| Sql.ForwardsExactly | backends/mysql/src/filtering/logical.rs:196-239 | forwarding succeeds exactly on trees without a full-text match |
| OptimizeCmp.Min | backends/mysql/src/filtering/indexable_filter.rs:118-303 | the minimum is one of the two literals and is decided exactly for non-null numbers of one variant |
| OptimizeCmp.MergeWeakens | backends/mysql/src/filtering/indexable_filter.rs:340-400 | merging two inequalities never lowers the truth value of a row, whatever the literals |
| OptimizeCmp.OptimizeWeakens | backends/mysql/src/filtering/indexable_filter.rs:318-408 | optimizing a tree never lowers the truth value of a row |
| OptimizeCmp.MergeAddsOnBoundExactly | backends/mysql/src/filtering/indexable_filter.rs:340-400 | for literals of any scale, on all rows a merge changes nothing but rows on a bound, exactly when it does not keep the wrong one of two bounds on one side |
| OptimizeCmp.WrongBoundAdds | backends/mysql/src/filtering/indexable_filter.rs:142-161 | keeping the wrong bound adds a row strictly between the two, on no bound |
| OptimizeCmp.OneScaleKeepsOrder | backends/mysql/src/filtering/indexable_filter.rs:118-303 | literals of one scale are ordered alike by their stored integers and by their values, so no wrong bound is kept |
| OptimizeCmp.OptimizeAddsOnBound | backends/mysql/src/filtering/indexable_filter.rs:318-408 | in a tree whose merges keep no wrong bound, a row whose truth value changes has a cell equal to a compared literal |
| OptimizeCmp.MergeExactly | backends/mysql/src/filtering/indexable_filter.rs:340-400 | for literals of any scale, a merge keeps the meaning on all rows exactly under `MergeExact`; that bounds are merged at all is used by `RangeIndex.RangeFiltersKeepRows` |
| OptimizeCmp.OptimizeExact | backends/mysql/src/filtering/indexable_filter.rs:318-408 | optimizing keeps every truth value when each merge satisfies `MergeExact` |
| OptimizeCmp.MixedScalesAddMore | backends/mysql/src/filtering/indexable_filter.rs:142-161 | a merge of decimals of two scales that keeps the wrong bound, and a row it adds |
| RangeIndex.Bucket | backends/mysql/src/metadata/indices/range_queries.rs:47-59 | a bucket number always fits 32 bits, for every interval but zero |
| RangeIndex.BucketMonotone | backends/mysql/src/metadata/indices/range_queries.rs:47-59 | bucketing is monotone up to any value where neither subtraction nor bucket number wraps |
| BucketOrder.BucketMonotoneExactly | backends/mysql/src/metadata/indices/range_queries.rs:47-59 | for all 64-bit minima, intervals (negative ones included) and upper ends, bucket numbers are ordered like the values exactly under `KeepsOrder`, which accounts for truncation and for the wrap-around of the subtraction |
| BucketOrder.BeforeWrap | backends/mysql/src/metadata/indices/range_queries.rs:47-59 | as long as the subtraction does not wrap: exactly when no bucket is truncated (positive interval) or fewer than two intervals are covered (negative interval) |
| BucketOrder.NegativePastWrap | backends/mysql/src/metadata/indices/range_queries.rs:47-59 | behind the wrap-around a negative interval keeps the order in one corner only |
| RangeIndex.BucketsAreTight | backends/mysql/src/metadata/indices/range_queries.rs:47-59 | a bucket comparison misses the comparison of values by less than one interval, except below the first bucket |
| RangeIndex.EvalArray | backends/mysql/src/metadata/indices/range_queries.rs:365-379 | the index column holds the stored cell of each value, NULL exactly for NULL, also for a column of the null type; exactly wide decimals and types not stored as integers are refused |
| RangeIndex.TranslatesExactly | backends/mysql/src/metadata/indices/range_queries.rs:185-248 | an accepted tree is translated exactly when it contains no NOT |
| RangeIndex.QueryFailsExactlyOnNot | backends/mysql/src/metadata/indices/range_queries.rs:185-282 | the query over the supported part of any filter succeeds exactly when that part contains no NOT |
| RangeIndex.NegatedComparisonFails | backends/mysql/src/metadata/indices/range_queries.rs:246-269 | NOT over any accepted comparison is handed to the index whole, and its query fails |
| RangeIndex.TranslateKeepsRows | backends/mysql/src/metadata/indices/range_queries.rs:185-248 | a stored row matching a filter matches its translation, if strict comparisons are on bucket edges and literals in the domain |
| RangeIndex.QueryKeepsRows | backends/mysql/src/metadata/indices/range_queries.rs:271-282 | the same through the merging of comparisons, the condition being on the merged filter |
| RangeIndex.RangeFiltersKeepRows | backends/mysql/src/metadata/indices/range_queries.rs:119-282 | AND and OR over BETWEEN, =, <=, >=, pairs of a lower and an upper bound, strict or not, and pairs on one side whose tighter bound allows equality: handed to the index whole, always translated, and no stored matching row is lost |
| RangeIndex.BothBoundsKeepRows | backends/mysql/src/filtering/indexable_filter.rs:318-408 | a lower and an upper bound on the bare column, strict or not, in either order, on or off bucket edges: the query succeeds and keeps every stored matching row |
| RangeIndex.NonStrictKeepsRows | backends/mysql/src/metadata/indices/range_queries.rs:119-282 | AND/OR filters over BETWEEN, =, <= and >= with literals of the domain are always translated and lose no stored row |
| RangeIndex.LoneComparisonExactly | backends/mysql/src/metadata/indices/range_queries.rs:225-245 | a lone comparison keeps all matching stored rows exactly when it is aligned with the buckets |
| RangeIndex.AlignedMeansOnBucketEdge | backends/mysql/src/metadata/indices/range_queries.rs:47-59 | inside the domain of a type bucketed as it is, aligned means that the bound starts (for <) or ends (for >) a bucket |
| RangeIndex.AlignedOnUnsigned | backends/mysql/src/metadata/indices/range_queries.rs:549 | inside the domain of 64-bit unsigned values, which are halved, a bound is aligned exactly when it is the first (for <) or last (for >) of all values of its bucket |
| RangeIndex.HasBucketExactly | backends/mysql/src/metadata/indices/range_queries.rs:526-551 | exactly non-null values stored as integers have a bucket, decimals only of 32 or 64 bits |
| RangeIndex.ValuesAreTight | backends/mysql/src/metadata/indices/range_queries.rs:526-551 | on every type of the index, ordered buckets mean values ordered up to one interval, or two for halved values |
| BlindIndex.QueryNeverFails | backends/mysql/src/metadata/blind_index.rs:111-218 | the query over the supported part of any filter succeeds |
| BlindIndex.AcceptsLeavesExactly | backends/mysql/src/metadata/blind_index.rs:111-140 | of single conditions exactly equalities and IN lists on the indexed column are accepted |
| BlindIndex.EqualityTreesAreHandedWhole | backends/mysql/src/metadata/blind_index.rs:111-218 | AND and OR over such conditions are handed to the index whole, and translated |
| BlindIndex.InListIsSent | backends/mysql/src/metadata/blind_index.rs:111-218 | a lone IN list becomes a test of the index column against the identifiers of all its literals |
| BlindIndex.LeafSelects | backends/mysql/src/metadata/blind_index.rs:143-197 | the query of an uncast leaf selects a stored row exactly when a literal of it has the identifier of the stored bytes |
| BlindIndex.QueryKeepsRows | backends/mysql/src/metadata/blind_index.rs:143-197 | a stored row of any type matching an uncast filter matches the query, if no literal equal to the cell is lost on it |
| BlindIndex.TextIsNeverLost | backends/mysql/src/metadata/blind_index.rs:273-302 | on text columns no literal is ever lost |
| BlindIndex.QueryExactWithoutCollisions | backends/mysql/src/metadata/blind_index.rs:143-197 | if moreover no literal different from the cell collides with it, the query selects the row exactly when the filter does |
| BlindIndex.LoneEqualityKeepsExactly | backends/mysql/src/metadata/blind_index.rs:95-109 | on any type, an equality keeps a matching row exactly when printed literal and stored bytes have one identifier |
| BlindIndex.KeptUnderEveryKeyExactly | backends/mysql/src/metadata/blind_index.rs:70-109 | a matching row is kept whatever the key exactly when the printed literal is the inserted bytes |
| BlindIndex.LoneEqualityAddsExactly | backends/mysql/src/metadata/blind_index.rs:95-109 | on text, an equality selects a row that does not match exactly when another text has the identifier of the literal |
| BlindIndex.NullLiteralSelectsTheWord | backends/mysql/src/metadata/blind_index.rs:70-73 | a NULL literal is looked up as the text NULL and selects rows holding that word |
| BlindIndex.IntegersAreLost | backends/mysql/src/metadata/blind_index.rs:70-73 | a number is printed in a query and inserted as bytes, so its row is lost unless the two happen to have one identifier |
| Resolver.ConsultIndices | backends/mysql/src/filtering/resolver.rs:279-312 | the loop over the indices, of both phases, computes `Consult`, first failure included |
| Resolver.FullySupported | backends/mysql/src/filtering/resolver.rs:258-264 | the reported positions are exactly those of filters forwarded whole and unchanged |
| Resolver.ResolveLogical | backends/mysql/src/filtering/resolver.rs:234-320 | the two loops compute `Resolve`, first failure included; what `Resolve` sends is the subject of `Resolver.SentConditionsSuffice`, `Resolver.QueriesAreSent`, `Resolver.FirstIndexIsHandedAll` and `Resolver.ResolveKeepsRow` |
| Resolver.SentConditionsSuffice | backends/mysql/src/filtering/resolver.rs:266-320 | a row that satisfies every condition sent satisfies what the table took of each filter, and so every filter that is not checked again |
| Resolver.QueriesAreSent | backends/mysql/src/filtering/resolver.rs:281-311 | a row that satisfies every condition of the plan satisfies every fixed query that an index was asked for, in either phase |
| Resolver.FirstIndexIsHandedAll | backends/mysql/src/filtering/resolver.rs:272-311 | filters of which the table takes nothing reach the first index as one conjunction, from the left and with its bounds merged; if the index accepts that, its answer or its error is the result |
| Resolver.FilterSupported | backends/mysql/src/filtering/resolver.rs:194-231 | Exact exactly for filters forwarded whole; Unsupported exactly when neither the table nor any index takes a part |
| Resolver.ConsultOnlyAdds | backends/mysql/src/filtering/resolver.rs:279-312 | consulting the indices never drops or reorders what was already forwarded |
| Resolver.PhysicalPhaseStops | backends/mysql/src/filtering/resolver.rs:362-397 | in the physical phase, indices after the first without physical support have no effect |
| Resolver.PhysicalLoopExactly | backends/mysql/src/filtering/resolver.rs:362-397 | the physical loop agrees with one that passes over indices without physical support exactly when no later index could take a part of what reaches the first of them |
| Resolver.SupportedFilterIsSwallowed | backends/mysql/src/filtering/resolver.rs:362-369 | two indices, the first without physical support: a filter the second would answer is not forwarded |
| Resolver.BlindEqualityIsSwallowed | backends/mysql/src/filtering/resolver.rs:362-369 | the same with a blind index and an equality on its column |
| Resolver.ConsultKeepsRow | backends/mysql/src/filtering/resolver.rs:279-312 | if every split on the way keeps its upper bounds and every fixed query keeps the row, all added conditions hold of a row matching the remainder |
| Resolver.TableKeepsRow | backends/mysql/src/filtering/resolver.rs:243-277 | a row matching all filters matches what the table is sent and what remains, if each split keeps its upper bounds |
| Resolver.TableSplitIsExact | backends/mysql/src/filtering/resolver.rs:243-277 | if each split keeps its meaning, a row matches all filters exactly when it matches what is sent and what remains |
| Resolver.ResolveKeepsRow | backends/mysql/src/filtering/resolver.rs:234-320 | under the conditions of the two parts, a row matching every filter matches every condition forwarded by the whole resolution |
| Resolver.TableQueryKeeps | backends/mysql/src/filtering/resolver.rs:293-307 | blind and range indices keep a stored row for every filter that suits them |
| Resolver.ConsultSucceedsExactly | backends/mysql/src/filtering/resolver.rs:279-312 | consulting blind and range indices succeeds exactly when no range index is handed a NOT |
| Resolver.IndexedFiltersKeepRows | backends/mysql/src/filtering/resolver.rs:234-320 | for any filters on any list of blind and range indices: once forwarding succeeds, resolution succeeds exactly when no range index is handed a NOT, and keeps every stored matching row if the splits keep their upper bounds and suit their indices |
| Resolver.ConjunctiveFiltersKeepRows | backends/mysql/src/filtering/resolver.rs:234-320 | for conjunctions the conditions on splits and NOT always hold |
| Transactions.RunsAreConsistent | backends/mysql/src/transaction_control.rs:41-117 | in every run of fewer than 2^32 operations, control and server agree, weak scopes exist only under autocommit and are counted |
| Transactions.DepthWraps | backends/mysql/src/transaction_control.rs:86-97 | the bound is sharp: after 2^32 nested weak starts the transaction is open and no weak commit ends it |
| Transactions.ExecuteInWeakScope | backends/mysql/src/sinks/sink.rs:122-154 | inside a scope, success buffers all writes in order and restores the depth; any failure rolls everything back |
| Transactions.ExecuteIsAtomic | backends/mysql/src/sinks/sink.rs:103-160 | with autocommit on and no transaction, a plan nested less than 2^32 deep commits all its writes or none and leaves nothing open |
| Transactions.SucceedsExactly | backends/mysql/src/sinks/sink.rs:122-154 | an execution succeeds exactly when nothing in the plan fails |
| Transactions.ExecuteUnderUser | backends/mysql/src/transaction_control.rs:56-97 | under a forced transaction or without autocommit, an execution only buffers a prefix of its writes, all of them on success |
| Transactions.SessionsAreConsistent | backends/mysql/src/transaction_control.rs:41-117 | in sessions of any length (statements nested less than 2^32 deep) no scope outlives its statement, control and server agree, committed writes stay |
| Transactions.StatementsBuffer | backends/mysql/src/transaction_control.rs:55-97 | while the client controls the transaction, any statements only add to the pending writes: in order, of each a prefix of its writes, and all of them if nothing in it fails |
| Transactions.RollbackDropsWrites | backends/mysql/src/transaction_control.rs:105-109 | after any statements of a client that controls the transaction, a rollback leaves what was committed and drops all that was pending |
| Transactions.CommitKeepsWrites | backends/mysql/src/transaction_control.rs:99-117 | a commit, another start, or turning autocommit on adds to what was committed exactly what was pending and what the statements buffered, in order |
| Transactions.AutocommitOffKeepsPending | backends/mysql/src/transaction_control.rs:41-53 | turning autocommit off commits nothing and drops nothing |
| Transactions.TransactionsAreObeyed | backends/mysql/src/transaction_control.rs:99-117 | in any session a start commits what was pending; statements and a rollback then leave the writes as they were right after the start, statements and a commit add exactly what was buffered, in order |
| Transactions.ExecuteSink | backends/mysql/src/sinks/sink.rs:103-160 | the run of effects with early exits on the objects computes `Execute` |
| Transactions.Connection.Commit | backends/mysql/src/transaction_control.rs:150-157 | pending writes become committed and the transaction ends |
| Transactions.Connection.Rollback | backends/mysql/src/transaction_control.rs:177-184 | pending writes are dropped and the transaction ends |
| Transactions.Connection.StartTransaction | backends/mysql/src/transaction_control.rs:168-175 | what was pending is committed and a transaction opens |
| Transactions.Connection.SetAutocommit | backends/mysql/src/transaction_control.rs:159-166 | turning autocommit on commits, repeating it does not |
| Transactions.TransactionControl.constructor | backends/mysql/src/transaction_control.rs:22-30 | autocommit on, no transaction |
| Transactions.TransactionControl.SetAutocommit | backends/mysql/src/transaction_control.rs:41-53 | control and connection move as the step says: an implicit commit when turned on, and no transaction afterwards |
| Transactions.TransactionControl.WeakCommit | backends/mysql/src/transaction_control.rs:56-71 | control and connection move as the step says: only the outermost scope commits |
| Transactions.TransactionControl.WeakRollback | backends/mysql/src/transaction_control.rs:74-83 | control and connection move as the step says: any open scope is rolled back whole |
| Transactions.TransactionControl.WeakStartTransaction | backends/mysql/src/transaction_control.rs:86-97 | control and connection move as the step says: a scope opens or its depth grows, wrapping at 32 bits |
| Transactions.TransactionControl.Commit | backends/mysql/src/transaction_control.rs:99-103 | control and connection move as the step says, autocommit unchanged |
| Transactions.TransactionControl.Rollback | backends/mysql/src/transaction_control.rs:105-109 | control and connection move as the step says; `Transactions.RollbackDropsWrites` says what becomes of the writes |
| Transactions.TransactionControl.StartTransaction | backends/mysql/src/transaction_control.rs:111-117 | control and connection move as the step says: the old transaction is committed, a forced one opens |
| LengthPrefixed.ValuesInjective | crypto/src/row_id.rs:452-456 | length-prefixed values (shorter than 2^64 bytes) can be read back without knowing their number |
| LengthPrefixed.ReadsValue | crypto/src/row_id.rs:452-456 | a reader of an eight-byte big-endian length and then the bytes gets the value and what follows it |
| LengthPrefixed.ReadsValues | crypto/src/row_id.rs:452-456 | the same for a list of values |
| LengthPrefixed.AppendRow | crypto/src/planning/physical/compute_aad.rs:142-146 | the inner loop appends the encoding of one row |
| LengthPrefixed.AppendAad | crypto/src/planning/physical/compute_aad.rs:141-149 | one turn of the loop appends the encoding of one row and keeps the earlier slices |
| LengthPrefixed.EvaluateAad | crypto/src/planning/physical/compute_aad.rs:91-154 | slice i of the buffer is the encoding of row i; no columns give one scalar; it fails exactly for more than 255 columns or a buffer beyond 32-bit offsets |
| LengthPrefixed.AadInjective | crypto/src/planning/physical/compute_aad.rs:100-146 | associated data is equal exactly when type and bound values are |
| LengthPrefixed.ReadsAad | crypto/src/planning/physical/compute_aad.rs:100-146 | a reader of the type, one byte of count and the values gets type and values, for up to 255 values |
| LengthPrefixed.RowIdInjective | crypto/src/row_id.rs:445-456 | keys of any number of columns have equal encodings exactly when they are equal, although the count is cut to a byte |
| LengthPrefixed.ReadsRowId | crypto/src/row_id.rs:445-456 | a reader of one byte of count and the values gets the key, for up to 255 values |
| LengthPrefixed.ComputeRowIds | crypto/src/row_id.rs:430-467 | each identifier is derived from the encoding of its own row, although one buffer is reused |
| Identifiers.OpaqueIdentifier | crypto/src/identifiers.rs:8-21 | the identifier has as few bytes as the bits need, as a big-endian number at most that many bits, its first byte is the derived one shifted down to the bits left over, and the others are as derived |
| ColumnCipher.DecryptInvertsEncrypt | crypto/src/cipher/rustcrypto.rs:15-77 | one value round-trips for both tag positions, and the stored size is plaintext, nonce and tag |
| ColumnCipher.StoredLayout | crypto/src/cipher/rustcrypto.rs:51-77 | the nonce comes last, before it ciphertext and tag in the order of the cipher |
| ColumnCipher.DecryptOnlyAuthentic | crypto/src/cipher/rustcrypto.rs:15-49 | what decrypts was encrypted under the same associated data |
| ColumnCipher.TellingIsIdealAndBinding | crypto/src/cipher/rustcrypto.rs:15-77 | the assumptions on ciphers can be met, for any two associated data |
| ColumnCipher.DecryptToSlice | crypto/src/cipher/rustcrypto.rs:15-49 | succeeds exactly on authentic values that fit, writes the plaintext at its place and leaves what is before it |
| ColumnCipher.DecryptRow | crypto/src/planning/physical/decrypt.rs:183-207 | one turn of the loop appends the plaintext of a value behind what was written, nothing for NULL, and fails exactly on missing associated data, unauthentic values and lack of room |
| ColumnCipher.RoomForRow | crypto/src/planning/physical/decrypt.rs:165-207 | in a readable column the plaintext up to any row is part of the whole |
| ColumnCipher.ReadableFits | crypto/src/planning/physical/decrypt.rs:165-171 | if every row has associated data, the buffer sized from the ciphertexts holds a readable column |
| ColumnCipher.DecryptArray | crypto/src/planning/physical/decrypt.rs:157-216 | succeeds exactly when every paired value is readable and the buffer holds the plaintexts, and then yields plaintexts and NULLs in order; associated data may be shorter or longer than the column |
| ColumnCipher.RoundTrip | crypto/src/planning/physical/encrypt.rs:138-158 | decrypting an encrypted column with the same associated data, per row or broadcast, never fails, the buffer sized from the ciphertexts holds it, and each value that was encrypted comes back; the others come back as NULL |
| ColumnCipher.RoundTripExactly | crypto/src/planning/physical/encrypt.rs:138-158 | the column comes back as it was exactly when no value lacked associated data and no encryption failed |
| ColumnCipher.AcceptedElsewhereExactly | crypto/src/cipher/rustcrypto.rs:15-49 | a value is accepted under other associated data exactly when some message has the same ciphertext there |
| ColumnCipher.MovedValueIsRejected | crypto/src/planning/physical/decrypt.rs:183-207 | with a cipher binding on the associated data in use, a value put under another one of them makes the column unreadable |
| WritePipeline.WritesEncryptOnce | backends/mysql/src/providers/table_provider.rs:957-1140 | if every index reads what it tracks and the second layer binds plaintext: each encrypted column is encrypted once under the associated data of the plaintext row, the others are unchanged, index columns and sink inputs come from plaintext; which columns those are is said by name in `WritePipeline.EncryptsByName` |
| WritePipeline.EncryptsByName | backends/mysql/src/providers/table_provider.rs:1025-1045 | under the same conditions exactly the columns named after an encrypted one, as it is or with the prefix `__pr_dup__`, are encrypted, with the key and type of that column; NULL stays NULL and any other column is unchanged |
| WritePipeline.NullBindsAsEmpty | crypto/src/planning/physical/compute_aad.rs:140-147 | a NULL among the bound columns counts as an empty value |
| WritePipeline.AadUnchangedExactly | backends/mysql/src/providers/table_provider.rs:1054-1120 | both layers compute the same associated data on all rows exactly when the first encrypts no bound column |
| WritePipeline.RequestsAreMet | backends/mysql/src/providers/table_provider.rs:971-977 | if every index reads only columns it tracks or that are not encrypted, the first layer leaves all its inputs in clear |
| WritePipeline.ColumnarReadsOwn | backends/mysql/src/metadata/blind_index.rs:273-302 | blind and range indices read only the column they track, for every schema |
| WritePipeline.IndexColumnIsComputed | backends/mysql/src/metadata/blind_index.rs:273-301 | a blind or range index on a written column adds one column, behind those of the schema and of the indices before it, computed from the plaintext of the indexed column; on any other column it adds none |
| WritePipeline.AddedInOrder | backends/mysql/src/providers/table_provider.rs:992-1005 | the columns added by indices come index by index |
| WritePipeline.SinkInputsInOrder | backends/mysql/src/providers/table_provider.rs:1007-1018 | the inputs of index sinks come index by index |
| WritePipeline.TrackedInOrder | backends/mysql/src/providers/table_provider.rs:971-977 | every index has the columns it tracks set aside |
| WritePipeline.OneIndex | backends/mysql/src/providers/table_provider.rs:992-1018 | an index that adds columns contributes its columns and no sink, one with a sink of its own its inputs and no column |
| WritePipeline.UpdatesBindInClear | backends/mysql/src/providers/table_provider.rs:277-300 | an update binds key columns under their filter names, which the first layer never encrypts |
| ReadBack.ReadsBackExactly | proxy/src/analyzer/add_decryption_rule.rs:102-122 | an encrypted value is read back exactly when the key columns of the stored row are those that were bound on writing |
| ReadBack.UpdateReadsBackExactly | backends/mysql/src/planning/logical/update.rs:114-120 | after an update of a table with clear keys, exactly when the update leaves the key columns unchanged |
| ReadBack.InsertReadsBackExactly | backends/mysql/src/providers/table_provider.rs:1054-1088 | after an insert, exactly when no key column is itself encrypted |
| ReadBack.OpensCanBeMet | proxy/src/analyzer/add_decryption_rule.rs:102-122 | what is assumed of encryption and decryption can be met, for any two associated data |
| Multiplex.MultiplexSink.constructor | backends/mysql/src/sinks/multiplex_sink.rs:19-24 | no sinks and an empty schema |
| Multiplex.MultiplexSink.AddSink | backends/mysql/src/sinks/multiplex_sink.rs:33-45 | the sink is appended and the schema stays the concatenation of the sinks' schemas |
| Multiplex.TakeColumns | backends/mysql/src/sinks/multiplex_sink.rs:73-75 | columns are taken off the front one by one; exactly too few fail |
| Multiplex.MultiplexSink.SplitBatch | backends/mysql/src/sinks/multiplex_sink.rs:69-80 | each sink gets its own consecutive columns; exactly too narrow batches and invalid columns fail |
| Multiplex.MultiplexSink.SplitBatches | backends/mysql/src/sinks/multiplex_sink.rs:66-80 | each sink gets its pieces of all batches in order; exactly a too narrow batch or an invalid column fails |
| Multiplex.PiecesRebuild | backends/mysql/src/sinks/multiplex_sink.rs:69-80 | the pieces put back together are the batch |
| Multiplex.PieceIsPart | backends/mysql/src/sinks/multiplex_sink.rs:69-80 | cutting a concatenation at the sinks' widths gives each part back |
| Multiplex.ChainSink | backends/mysql/src/providers/table_provider.rs:935-951 | the chain is the main sink followed by the index sinks; without index sinks there is no multiplexer |
| Multiplex.SinksReceiveTheirParts | backends/mysql/src/providers/table_provider.rs:1122-1139 | under the conditions of `WritesEncryptOnce` and with sinks as wide as their inputs, the table sink receives the stored row and each index sink exactly its own inputs |
| Multiplex.CombineResults | backends/mysql/src/sinks/multiplex_sink.rs:84-91 | the largest row count and the first reported id; exactly a failing sink fails the whole |
| BinaryLiterals.UnescapePieces | frontends/mysql/src/command_phase/char_utils.rs:48-70 | unescaping in pieces is unescaping the whole |
| BinaryLiterals.AutoEscapeVec.constructor | frontends/mysql/src/command_phase/char_utils.rs:72-77 | empty, nothing dangling |
| BinaryLiterals.AutoEscapeVec.ExtendUnescape | frontends/mysql/src/command_phase/char_utils.rs:48-70 | the bytes are unescaped behind what was there, across calls; what an escape stands for is fixed by `LiteralScan.EscapesAgree` |
| LiteralScan.StopsAtBareQuote | frontends/mysql/src/command_phase/char_utils.rs:178-208 | the parser stops at the first quote that no backslash escapes, or, if a backslash directly precedes that, behind it |
| LiteralScan.ClosesExactly | frontends/mysql/src/command_phase/char_utils.rs:178-208 | the parser closes a literal where section 11.1.1 of the MySQL manual does, exactly when the first bare quote neither follows a backslash nor is doubled |
| LiteralScan.EscapedBackslashIsMisread | frontends/mysql/src/command_phase/char_utils.rs:192-202 | a literal ending in an escaped backslash: the parser runs past its closing quote |
| LiteralScan.DoubledQuoteEndsTooEarly | frontends/mysql/src/command_phase/char_utils.rs:204-208 | a doubled quote is taken for the end of the literal |
| LiteralScan.OpenIsNotClosed | frontends/mysql/src/command_phase/char_utils.rs:140-152 | in the literal a scan has open at the end of a text, every later quote is escaped or doubled |
| LiteralScan.StartsRightExactly | frontends/mysql/src/command_phase/char_utils.rs:132-167 | before invalid bytes the parser opens the literal that is open, or refuses bytes outside any literal, exactly when no quote follows the opening one, or outside, when there is no quote at all |
| LiteralScan.EscapedQuoteIsTakenForTheStart | frontends/mysql/src/command_phase/char_utils.rs:140-152 | a literal with an escaped quote before its invalid bytes is opened at that quote |
| LiteralScan.DoubledQuoteIsTakenForTheStart | frontends/mysql/src/command_phase/char_utils.rs:140-152 | a literal with a doubled quote before its invalid bytes is opened at the second of the two |
| LiteralScan.ParameterIsValueExactly | frontends/mysql/src/command_phase/char_utils.rs:28-70 | a parameter is the value the manual gives its raw literal, by a table of escapes of its own, exactly when that has no escaped wildcard and no doubled quote |
| LiteralScan.EscapesAgree | frontends/mysql/src/command_phase/char_utils.rs:28-43 | every escaped byte but a wildcard is replaced as section 11.1.1 of the MySQL 8.4 Reference Manual lists it; a wildcard stands for itself |
| BinaryLiterals.ContinueClosesAt | frontends/mysql/src/command_phase/char_utils.rs:169-218 | inside a literal the parser ends it at the chosen quote or reads the whole chunk, and no escape dangles there |
| BinaryLiterals.AddExplained | frontends/mysql/src/command_phase/char_utils.rs:124-218 | every accepted chunk extends the texts, the raw literals and the open literal by exactly its bytes |
| BinaryLiterals.ExtractionIsLossless | frontends/mysql/src/command_phase/char_utils.rs:106-218 | for every cut into chunks, putting the raw literals back for the placeholders rebuilds the query, and parameters are the literals unescaped |
| LiteralTrace.EventsAreTheParsers | frontends/mysql/src/command_phase/char_utils.rs:124-218 | for every UTF-8 cut, the parser fails when its sequence of chosen quotes does, and each parameter is the unescaped text between its two quotes |
| LiteralTrace.SettledBetween | frontends/mysql/src/command_phase/char_utils.rs:203-207 | no escape dangles at the start of a chunk, so the branch for a quote escaped from the chunk before is never taken |
| LiteralTrace.ExtractsRightLiteralsExactly | frontends/mysql/src/command_phase/char_utils.rs:221-250 | over a whole query, if the parser gets through, it extracts the literals that the scan does exactly when every opening and every closing on the way meets its condition |
| LiteralTrace.ScannerSucceedsExactly | frontends/mysql/src/command_phase/char_utils.rs:132-150 | the scan gets through exactly when all invalid bytes are inside literals of the whole query |
| LiteralTrace.ScannerState | frontends/mysql/src/command_phase/char_utils.rs:124-218 | after a chunk with invalid bytes a scan of the whole query is inside the literal opened at the last quote chosen |
| LiteralTrace.ScannerFindsLiterals | frontends/mysql/src/command_phase/char_utils.rs:169-218 | every literal the scan extracts is a literal of the whole query, from its opening to its closing quote |
| LiteralTrace.ThisQueryIsRewritten | frontends/mysql/src/command_phase/char_utils.rs:124-218 | an opening quote, an escaped newline, the byte 255 and a closing quote behind `x ` become a placeholder behind `x ` and the parameter newline, 255 |
| BinaryLiterals.ParserState.constructor | frontends/mysql/src/command_phase/char_utils.rs:98-104 | nothing read |
| BinaryLiterals.ParserState.AddChunk | frontends/mysql/src/command_phase/char_utils.rs:124-130 | the new state is that of `Add`; it fails exactly when `Add` does |
| BinaryLiterals.ParserState.AddChunkStart | frontends/mysql/src/command_phase/char_utils.rs:132-167 | the new state is that of `Start`; it fails exactly when `Start` does |
| BinaryLiterals.ParserState.AddChunkContinue | frontends/mysql/src/command_phase/char_utils.rs:169-218 | the new state is that of `Continue`; it fails exactly when `Continue` does |
| BinaryLiterals.ExtractInvalidBytes | frontends/mysql/src/command_phase/char_utils.rs:221-250 | a valid query is returned as it is, a rewritten one is lossless; it fails exactly when a chunk does or a literal stays open |
| PlanCache.FreedSurvivors | proxy/src/cache.rs:54-73 | after eviction the recorded memory is below the limit and what stays is unchanged |
| PlanCache.EvictsLeastRecent | proxy/src/cache.rs:54-73 | nothing evicted was used after anything that stays |
| PlanCache.FreedAccounting | proxy/src/cache.rs:54-73 | the recorded memory never falls below the real one and stays exact once it is |
| PlanCache.NewestSurvives | proxy/src/cache.rs:37-73 | with an exact count, an entry used strictly last that fits alone is not evicted |
| PlanCache.RunsStayAccurate | proxy/src/cache.rs:184-206 | in every run the recorded memory is the sum of sizes and below the limit; if the clock has advanced, a cacheable statement just planned is cached |
| PlanCache.CachesExactlySmallPlans | proxy/src/cache.rs:37-45 | a miss is cached exactly when planning succeeds and the entry is smaller than 16 KiB, and all entries together stay below 1 MiB |
| PlanCache.HitRefreshes | proxy/src/cache.rs:47-51 | a hit makes its entry the most recently used one and changes no plan, size or key |
| PlanCache.EvictsNoMore | proxy/src/cache.rs:54-73 | with an exact count, the entries and the last one evicted would still exceed the limit |
| PlanCache.OriginMissed | proxy/src/cache.rs:184-206 | the origin of a live entry missed, and the entry was live after every later request |
| PlanCache.CachedPlansWerePlanned | proxy/src/cache.rs:184-206 | every cached plan is the one made in the session state of its origin |
| PlanCache.AnswersAreFresh | proxy/src/cache.rs:184-206 | while the state of the session does not change, every answer is the planner's |
| PlanCache.RunsSameShape | proxy/src/cache.rs:37-74 | what a run keeps and evicts does not depend on the plans |
| PlanCache.AnswerInAnotherState | proxy/src/cache.rs:184-206 | a hit is right for every planner that never fails exactly when the request is made in the session state of the origin |
| PlanCache.OldDatabaseIsRead | proxy/src/cache.rs:184-206 | after switching the database, the same statement still runs on the old one |
| PlanCache.ReplacingOvercounts | proxy/src/cache.rs:37-45 | inserting over a present key counts the replaced entry as well |
| PlanCache.Cache.constructor | proxy/src/cache.rs:76-83 | an empty store |
| PlanCache.Cache.Get | proxy/src/cache.rs:47-51 | a hit returns the cached plan and only refreshes its time; a miss changes nothing |
| PlanCache.Cache.InsertPlan | proxy/src/cache.rs:37-45 | an entry below the size limit is counted and stored and space is freed; a larger one changes nothing |
| PlanCache.Cache.FreeSpace | proxy/src/cache.rs:54-73 | the loop evicts least recently used entries, as long as needed and no longer |
| PlanCache.Cache.PrepareOrGetCached | proxy/src/cache.rs:184-206 | answer and store are those of `Serve` for some legal sequence of evictions |
| PreparedStatements.StepRefinesExactly | frontends/mysql/src/command_phase/client_side_wrapper.rs:135-206 | every command answers like the single map, and keeps to it exactly unless a query with binary literals reopens the backend id of a live client id with another plan |
| PreparedStatements.RunsStayLinked | frontends/mysql/src/command_phase/client_side_wrapper.rs:135-206 | in every run, of any length, both counters move together and every live client id goes with a live backend statement |
| PreparedStatements.RunsRefineOneMap | frontends/mysql/src/command_phase/client_side_wrapper.rs:135-206 | in every run without such a clash, of any length, the two maps answer like one map, and a live id is always found in the backend |
| PreparedStatements.FewOpeningsNeverClash | proxy/src/session.rs:210-223 | a clash takes at least 2^64 openings |
| PreparedStatements.LiteralReplacesLiveStatement | proxy/src/session.rs:210-223 | a run that clashes: a live statement runs the plan of a query with binary literals |
| PreparedStatements.LiteralQueriesLeak | frontends/mysql/src/command_phase/client_side_wrapper.rs:400-433 | in every run opening fewer than 2^32 statements, backend statements are the live client ids plus one for each query with binary literals |
| PreparedStatements.BackendSession.constructor | proxy/src/session.rs:80-87 | no statements, first id zero |
| PreparedStatements.BackendSession.StatementOpen | proxy/src/session.rs:190-225 | the plan is stored under the next id and the counter wraps at 64 bits |
| PreparedStatements.BackendSession.StatementExecute | proxy/src/session.rs:147-162 | the stored plan, or not found |
| PreparedStatements.BackendSession.StatementClose | proxy/src/session.rs:292-296 | the id is removed and nothing else changes |
| PreparedStatements.ClientWrapper.constructor | frontends/mysql/src/command_phase/client_side_wrapper.rs:77-91 | no statements, first id one |
| PreparedStatements.ClientWrapper.DoPrepare | frontends/mysql/src/command_phase/client_side_wrapper.rs:135-183 | a backend statement is opened and a client id taken, but not yet linked |
| PreparedStatements.ClientWrapper.HandlePrepare | frontends/mysql/src/command_phase/client_side_wrapper.rs:185-196 | state and answer are those of the step |
| PreparedStatements.ClientWrapper.HandleExecute | frontends/mysql/src/command_phase/client_side_wrapper.rs:198-206 | the answer is that of the step and nothing changes |
| PreparedStatements.ClientWrapper.HandleLiteralQuery | frontends/mysql/src/command_phase/client_side_wrapper.rs:406-429 | state and answer are those of the step: the statement is opened and never linked |
| PreparedStatements.ClientWrapper.HandleClose | frontends/mysql/src/command_phase/client_side_wrapper.rs:467-483 | state and answer are those of the step: both levels forget the statement |
| PreparedStatements.PreparedStatementsHolder.constructor | frontends/mysql/src/command_phase/statements.rs:98-103 | no statements, search starts after zero |
| PreparedStatements.PreparedStatementsHolder.CreateStatement | frontends/mysql/src/command_phase/statements.rs:126-149 | the statement gets the first free id after the starting one, wrapping; it gives up exactly when all ids but the starting one are taken |

## Left out

- Conversion of query engine expressions into filter trees, and the choice of what the table accepts: results hold for any support predicate.
- Selectivity estimates and table statistics: they do not decide which rows are kept.
- `pushup_not` and `pushdown_not` in indexable_filter.rs: they are called only by themselves.
- The inverted index: it appears only as an index whose query is dynamic, and dynamic filters are not evaluated.
- The forwarding step of physical resolution, which silently drops supported parts without an SQL form: only its index loop is modelled.
- Rows.Order: values of different variants have no order, so comparing them is Unknown, because the coercions of the query engine and the server are not modelled; floats are reals without NaN.
- SplitExact.SupersetExactly: the "only if" direction needs a tree without repeated leaves, because a repeated leaf can make an unsafe shape harmless.
- SplitExact.MeaningExactly: the "only if" direction needs a tree without repeated leaves, for the same reason.
- RangeIndex.Bucket: requires an interval other than zero, by which the source divides; the one overflowing division, of the smallest 64-bit integer by -1, is not modelled as the panic it is.
- BlindIndex.QueryKeepsRows: the bytes a value is inserted as are a function given to the index; only those of text are fixed.
- Failing COMMIT, ROLLBACK, START TRANSACTION and SET commands (the source panics), isolation levels, locks and concurrent use of one connection.
- LengthPrefixed.EvaluateAad: a NULL in a bound column contributes the bytes stored in its place, which `WritePipeline` takes to be none.
- ColumnCipher.RoundTrip: nonces are a parameter, and one that is missing stands for a failing encryption.
- ColumnCipher.DecryptArray: the panics of the source on short values are failures like any other, and so is the subtraction that sizes the buffer.
- WritePipeline.WritesEncryptOnce: casts are not modelled, one fixed choice of nonces stands for the random ones, and that the inverted index reads only columns it tracks or that are not encrypted is assumed of it.
- Multiplex.MultiplexSink.SplitBatch: which column is valid for which field is a parameter; a missing column is a failure where the source panics.
- BinaryLiterals.ExtractInvalidBytes: the cut of the query into UTF-8 chunks is an input.
- LiteralScan.StartsRightExactly: the scanner knows quotes and backslashes, not literals in double quotes, comments, or the mode without backslash escapes.
- SplitRows.RowsKeptExactly: requires independent leaves, because leaves on one column can hide an unsafe shape; `SplitRows.DependentLeavesLoseNothing` is an instance.
- ReadBack.UpdateReadsBackExactly: what the server keeps of the columns of an ON DUPLICATE KEY UPDATE is not modelled, only their encryption, and keys are in clear.
- PlanCache.Cache.PrepareOrGetCached: the size of an entry and the time of a request are inputs, and what a session's state consists of is left open.
- PlanCache.RunsStayAccurate: does not promise that a statement is cached if the clock has not advanced, because of two entries with one time either may be evicted.
- OptimizeCmp.OptimizeAddsOnBound: for trees the condition is sufficient only, because other comparisons can hide a wrong bound; for one merge it is exact.
- PreparedStatements.ClientWrapper.HandlePrepare: parsing, parameter types and packets are not modelled; a failure before planning ends is one plan error.
- Network protocol, authentication, key management, SHOW and other local commands, configuration and metadata files.
