# SnapDB in Dafny

SnapDB is an embedded table store. This project models its four linked parts and proves that each
fast form keeps its simple meaning:

- **Encoded columns** (`Bits`, `Lanes`, `Masks`, `IntColumns`, `BytesColumns`, `BoolColumns`,
  `IntRebuilds`, `Columns`). An integer column moves between a raw array, base plus deltas, and bit
  lanes inside one unbounded integer; a bytes column between dictionary codes and a list; a bool column
  is a bitset. Each is proved to be a plain sequence of optional values through every run and every
  mode change, and modes left are never entered again.
- **Columnar tables** (`Grids`, `ColumnarTables`, `TableQueries`, `TableFiles`, `TableCompaction`,
  `Aggregates`). Rows across such columns, liveness, mask queries on big integers, aggregates, saving
  and loading, and what compaction keeps.
- **The row store** (`Values`, `XorStreams`, `Codec`, `Layout`, `Slabs`, `Images`, `Persist`,
  `Rebuild`, `Stores`, `Crash`). Slabs of fixed-width, optionally encrypted rows in one mapped file:
  reads, writes, batches, zone maps, flushing, loading, compaction, and what a file holds after a
  crash. `Images` gives the meaning of a file: a map from row numbers to rows.
- **The database** (`Indexes`, `UniqueKeys`, `Wals`, `Recovery`, `OldLogs`, `SnapDBs`, `Transactions`,
  `Lookups`, `Lifecycle`, `CrashRuns`, `ZoneRuns`, `Queries`). Hash and range indexes, the unique map, the undo
  list and the log kept in step with the live rows; transactions and what they mean; rollback;
  recovery; opening and compacting; from a checkpoint through a crash and back; the query planner.

What the source changes step by step is a class or a loop here, proved against a function or a
sequence; ghost fields (`model`, `states`, `grid`, the transaction's base and records, the log's
records) carry the abstract state, and `Valid()` ties them to the real fields.

What a computation has to mean is defined apart from how it is computed: ranges, orders, conditions and
aggregates on the integers and texts themselves (`NumWithin`, `TextWithin`, `Precedes`, `NumCompares`,
`Meets`, `IsAggregate`), uniqueness on the flags of the schema (`Clash`, `FirstTaken`), stored rows column
by column (`StoredAs`, `UpdatedTo`), found rows by what the store holds (`HoldsNumbers`, `Numbered`), and
slices by position.

## Preconditions

- A row given to insert or update has, wherever it has a value, one that reads back as itself
  (`Storable`; `Codec.ValueRoundTrip` says which those are). Missing and null columns are not excluded:
  they are answered with the error the code raises. Values for columns outside the schema are dropped
  on entry, since encoding drops them.
- A column value fits the element type of its column, and dictionary thresholds are at most 2^32.
- Query conditions that order values do so against values of the column's type; anything else raises
  in the original.
- Row columns are not nullable. SHA-256 is an arbitrary function from bytes to 32 bytes.

## Where code and documentation differ

- `_rebuild_column_alive` (`snapdb/columnar.py:88-177`) is meant to keep the values of live rows. It
  clears every null, shifts a delta column by one row and flattens a FOR column to its minimum.
  `TableCompaction.Compact` says exactly which tables it keeps; `IntRebuilds.DeltaRebuildShifts`,
  `IntRebuilds.FrameRebuildFlattens` and `Masks.NullTurnsValue` are inputs it does not keep.
- Recovery is meant to restore the committed rows and nothing else. It does if and only if the
  surviving inserts since the last flush are numbered without a gap (`Recovery.GapShiftsRows` breaks
  this) and no surviving row the log does not update was rewritten in place since, which an update
  inside a transaction that never commits does (`Recovery.UncommittedUpdateStays`).
  `Recovery.RecoveryRestores` has the condition, `CrashRuns.CrashAndReopen` the whole way there. The
  unique map is empty during replay and rebuilt after it (`snapdb/core.py:601-604`), so replay of a
  gap-free log never meets a spurious clash.
- A log whose last line is torn is meant to lose that record only. Opening clears it only if something
  was committed (`snapdb/core.py:829`); else the next record is written onto the torn line and nothing
  behind it is ever recovered: `Wals.CommitBehindTornLine`, and exactly when in
  `CrashRuns.RunAfterOpening`.
- Zone maps are meant to bound the live rows of their slab. `_tx_rollback` restores deleted rows around
  them (`snapdb/core.py:1906-1917`): `ZoneRuns.RunHidesRow` is a run after which a live row is skipped,
  `SnapDBs.SnapDB.Rollback` and `Transactions.Transaction` say when maps stay sound.
- `compact` puts the new file in place before it clears the log (`snapdb/core.py:1613-1628`); a crash in
  between replays old row numbers over renumbered rows. `Lifecycle.OldLogOverCompacted` says when that
  leaves them alone, `CrashRuns.CrashInCompact` runs it, `Lifecycle.CompactedRowLost` loses a row.

## Model

| member | source | states |
|---|---|---|
| Lanes.PutLaneKeepsLanes | snapdb/columnar.py:428-441 | OR-ing a delta in at lane `count` keeps the integer below 2^((count+1)*bits), stores the delta there and leaves every earlier lane as it was |
| IntColumns.UnpackPush | snapdb/columnar.py:428-441 | a lane integer with one more packed value unpacks to the old values and the new one |
| IntColumns.PackableRange | snapdb/columnar.py:598-606 | the range test `bit_length() <= 16` holds exactly when any two values differ by less than 65536 |
| IntColumns.IntColumn.ReconstructDelta | snapdb/columnar.py:311-319 | the loop yields base plus prefix sums of the deltas, one value more than there are deltas |
| IntColumns.IntColumn.EnsureDeltaCache | snapdb/columnar.py:321-327 | a cache that is present equals the reconstruction; asking for it changes no value |
| IntColumns.IntColumn.ConvertDeltaToRaw | snapdb/columnar.py:329-341 | leaving delta mode keeps every value, and gives delta encoding up: no later phase of the column has it again |
| IntColumns.IntColumn.UpgradeDeltaStorage | snapdb/columnar.py:374-387 | a wider delta array holds the same deltas; widening only uses up rank |
| IntColumns.SmallestHolds | snapdb/columnar.py:66-77 | the typecode chosen for the deltas holds every delta up to the bound, and no narrower signed one does |
| IntColumns.IntColumn.AppendDelta | snapdb/columnar.py:488-512 | appends the value, upgrading the delta array as needed; delta mode survives exactly when the delta lies between -2^63 and 2^63 - 1; where the previous value noted is stale, the value stored is the last one plus the step from the stale one |
| IntColumns.IntColumn.FinishDeltaSampling | snapdb/columnar.py:557-580 | delta mode is chosen exactly when the samples never decrease and every step fits; the samples read as before |
| IntColumns.IntColumn.AppendDeltaEncoded | snapdb/columnar.py:552-583 | appending during or after sampling adds exactly that value, whichever mode results |
| IntColumns.IntColumn.AppendFor | snapdb/columnar.py:428-435 | packing a value in range appends it |
| IntColumns.IntColumn.GetForValue | snapdb/columnar.py:437-441 | shift and mask of one lane is the unpacked value at that index |
| IntColumns.IntColumn.EnsureForCache | snapdb/columnar.py:443-452 | a present FOR cache equals the unpacked values |
| IntColumns.IntColumn.WidenFor | snapdb/columnar.py:454-471 | repacking at a strictly larger width keeps every value; it succeeds exactly when the needed width is at most 16, else the column goes raw |
| IntColumns.IntColumn.ConvertForToRaw | snapdb/columnar.py:473-486 | leaving FOR mode keeps every value, and gives FOR encoding up: no later phase of the column has it again |
| IntColumns.IntColumn.StartForMode | snapdb/columnar.py:389-426 | after sampling, FOR mode starts exactly when all stored values, null placeholders included, lie within 16 bits of their minimum; the values read as before |
| IntColumns.IntColumn.AppendForSample | snapdb/columnar.py:586-606 | sampling adds the value, tracks the non-null minimum and maximum, and decides between FOR, raw and more sampling |
| IntColumns.IntColumn.AppendForPacked | snapdb/columnar.py:607-623 | FOR mode survives exactly when the value is less than 65536 above the minimum; the value is appended either way |
| IntColumns.IntColumn.AppendPlaceholder | snapdb/columnar.py:515-533 | a null adds one stored placeholder in every mode and keeps all earlier values |
| IntColumns.IntColumn.Append | snapdb/columnar.py:514-625 | append adds exactly the value or None at the end, in every mode and through every mode change; when sampling ends, delta or FOR encoding starts exactly under its condition; fallbacks stay set, widths never shrink, and every change of form is counted |
| IntColumns.IntColumn.SetItem | snapdb/columnar.py:651-700 | set replaces exactly one entry, or refuses an index out of range and changes nothing; the phase only goes onward as with append |
| IntColumns.IntColumn.GetItem | snapdb/columnar.py:635-649 | reading an entry gives the abstract value in every mode |
| IntColumns.IntColumn.ToList | snapdb/columnar.py:730-760 | the one-pass decode is the whole abstract sequence |
| IntColumns.RunColumn | snapdb/columnar.py:514-760 | any run of appends, sets and reads, with any mix of delta and FOR asked for and any thresholds, equals the run on a plain list; its phases only go onward, and the form of the column changes at most 20 times however long the run |
| IntColumns.LeftForGood | snapdb/columnar.py:296-341 | an encoding once left is never entered again, and element types and lane widths only grow, at any three points of a run |
| IntColumns.ChangesCounted | snapdb/columnar.py:389-486 | a run changes the form of the column no more often than it re-encodes it |
| IntColumns.AcrossCompactions | snapdb/columnar.py:136-171 | over operations and compactions in any order an encoding given up stays given up, and each compaction allows at most sixteen more re-encodings |
| BytesColumns.BytesColumn.AddToDict | snapdb/columnar.py:343-357 | gives a code below the limit of the code array whose value is the one asked for, keeps both directions of the dictionary inverse, and overflows exactly at a new value past the threshold |
| BytesColumns.BytesColumn.ConvertToRaw | snapdb/columnar.py:296-309 | overflow turns every code into its value |
| BytesColumns.BytesColumn.Append | snapdb/columnar.py:514-548 | append adds exactly the value or None, through overflow too; a column that left dictionary mode never returns |
| BytesColumns.BytesColumn.SetItem | snapdb/columnar.py:651-686 | set replaces exactly one entry, through overflow too |
| BytesColumns.BytesColumn.GetItem | snapdb/columnar.py:635-642 | reading an entry gives the abstract value in either mode |
| BytesColumns.BytesColumn.ToList | snapdb/columnar.py:744-753 | the list is the whole abstract sequence |
| BytesColumns.BytesColumn.MatchCodes | snapdb/columnar.py:1283-1305 | comparing codes flags exactly the non-null values equal to the one asked for, different from it, or among those listed, also when they are not in the dictionary |
| BytesColumns.BytesColumn.SameByCode | snapdb/columnar.py:1292-1305 | a code is among the wanted codes exactly when its value passes the test |
| BytesColumns.BytesColumn.RebuildAlive | snapdb/columnar.py:88-135 | dropping dead rows keeps the live values if and only if no live row is null; it fails only when a live null meets an empty dictionary |
| BytesColumns.BytesColumn.RebuildDict | snapdb/columnar.py:111-130 | renumbered codes decode to the kept values, the new dictionary is inverse both ways, no larger, and every new code is used |
| BytesColumns.RenumberedApart | snapdb/columnar.py:114-127 | renumbered values stay pairwise different, so the rebuilt dictionary has one code per value and no more codes than before |
| BoolColumns.OneBit | snapdb/columnar.py:286-294 | raising or clearing one bit of a byte leaves the other seven alone |
| BoolColumns.BoolColumn.BoolSet | snapdb/columnar.py:286-294 | sets or clears exactly one bit of the growing bitset |
| BoolColumns.BoolColumn.Append | snapdb/columnar.py:514-551 | append adds exactly the value or None; a null or False writes no bit |
| BoolColumns.BoolColumn.SetItem | snapdb/columnar.py:651-688 | set replaces exactly one entry |
| BoolColumns.BoolColumn.GetItem | snapdb/columnar.py:279-284 | a bit is read back, missing bytes as False |
| BoolColumns.BoolColumn.RebuildAlive | snapdb/columnar.py:97-109 | packing the live bits keeps the live values if and only if no live row is null |
| BoolColumns.PickBits | snapdb/columnar.py:100-108 | the packed bitset reads as the picked rows if and only if none of them was null |
| IntRebuilds.RebuildDeltas | snapdb/columnar.py:136-145 | the rebuilt delta array decodes to the old base followed by the kept values, one value too many; it fails exactly when the step to some kept value overflows the element type |
| IntRebuilds.DeltaRebuildKeeps | snapdb/columnar.py:136-148 | read through the rebuilt deltas, the kept values come back if and only if all of them equal the base |
| IntRebuilds.RebuildFrame | snapdb/columnar.py:149-170 | the rebuilt frame has the minimum of the kept values and the least width that holds them above it |
| IntRebuilds.FrameRebuildKeeps | snapdb/columnar.py:149-171 | unpacked from no bits, the kept values come back if and only if they are all equal |
| IntRebuilds.RebuildAlive | snapdb/columnar.py:136-177 | a rebuilt integer column of any encoding reads as its live entries if and only if none of them is null and, when encoded, they are all one value (in delta mode, the base); it raises, changing nothing, exactly when a delta overflows; encodings in use and given up stay, lanes only get narrower, and no re-encoding is forgotten |
| IntRebuilds.DeltaRebuildShifts | snapdb/columnar.py:136-148 | a run on a delta column: 1, 2 and 7 appended, the last row deleted, the column rebuilt, 3 appended: the rows read 1, 1 and 2, and -2 is stored behind them |
| IntRebuilds.FrameRebuildFlattens | snapdb/columnar.py:149-171 | a run on a FOR column: 5, 7 and 9 appended, the last row deleted, the column rebuilt: the rows read 5 and 5 |
| IntRebuilds.AppendAfterDeltaRebuild | snapdb/columnar.py:136-148 | append to a rebuilt delta column: the new row shows the last kept value, or the base, whatever is appended, and the value stored behind it is the last kept one plus the step from the value that was last before the rebuild |
| IntRebuilds.AppendAfterEmptyFrame | snapdb/columnar.py:154-156 | append to a FOR column rebuilt with no live row: the value goes behind the dead ones, and the new row shows the first of those |
| Masks.ClearedMask | snapdb/columnar.py:108-177 | with the null mask cleared, rows read as before if and only if none was null and the values shown are theirs |
| Masks.NullTurnsValue | snapdb/columnar.py:129-177 | a concrete live null comes back as its placeholder |
| TableCompaction.RebuildColumn | snapdb/columnar.py:88-177 | a column of any type reads as its live cells after the rebuild if and only if they survive it; a rebuild that raises changes nothing, and never happens to cells that would survive |
| TableCompaction.PickedRows | snapdb/columnar.py:1756-1791 | a table shows the picked rows of a former one if and only if every column shows the picked cells |
| TableCompaction.Compact | snapdb/columnar.py:1756-1791 | compacting a table of any mix of columns gives exactly its live rows, in order and renumbered, if and only if every column survives; without dead rows nothing happens, and with no integer column delta encoded or packed and emptied the table stays sound |
| Values.BytesLtIs | snapdb/core.py:1821-1825 | texts are ordered by the first place where they differ, and a proper prefix comes first |
| Values.OpHoldsIs | snapdb/query.py:35-38 | each of the six comparisons answers as the integers, or the texts, themselves compare; a null equals a null only |
| Values.InRangeIs | snapdb/core.py:1821-1825 | a value is in range exactly as the integers, or the texts, themselves lie between the bounds, inclusive or not; a null never is |
| Grids.AfterAppend | snapdb/columnar.py:894-899 | appending cells adds one row, dead exactly when all its cells are null, and changes no other row |
| Grids.AfterReplace | snapdb/columnar.py:968-976 | replacing a row of cells changes what that row reads as and no other |
| ColumnarTables.ColumnarTable.Insert | snapdb/columnar.py:894-899 | adds one row over all columns, whatever their encodings: every column grows by the value given for it, or a null; every other position reads as before |
| ColumnarTables.ColumnarTable.BatchInsert | snapdb/columnar.py:901-908 | row i of the batch reads at start + i, column by column as given or null; every other position as before |
| ColumnarTables.ColumnarTable.GetRow | snapdb/columnar.py:952-966 | a row out of range or null in every column reads as None, any other as the cell of each column under its name |
| ColumnarTables.ColumnarTable.Update | snapdb/columnar.py:968-976 | the named columns change to the values given and the others keep theirs; out of range and dead rows are refused and change nothing |
| ColumnarTables.ColumnarTable.Delete | snapdb/columnar.py:978-1001 | the row becomes null in every column and reads as None; no other cell changes |
| TableQueries.LiveMask | snapdb/columnar.py:913-932 | a row is flagged exactly when some column of it is not null |
| TableQueries.ConditionMask | snapdb/columnar.py:1179-1213 | the mask flags a cell exactly when: it lies between the two bounds, both included; it is one of those listed; it compares so with the value, for each of six comparisons; for integers by their own order, for texts by the first place where they differ; a null is never flagged |
| Grids.MatchesIs | snapdb/columnar.py:1195-1213 | what a condition answers for a cell, form by form, through the integers and the texts themselves |
| Grids.HitIs | snapdb/columnar.py:1215-1257 | a row is found exactly when some cell of it is not null and its cells, found by column name, meet all or one of the conditions |
| Bits.BitwiseOnBytes | snapdb/columnar.py:1244-1257 | AND, OR and XOR on little-endian integers work byte by byte |
| Grids.CombineFlags | snapdb/columnar.py:1249-1257 | AND/OR of two 0/1 masks read as integers flags the rows the conjunction or disjunction flags |
| TableQueries.CombineMasks | snapdb/columnar.py:1381-1391 | the combined integer is the mask of the rows satisfying all, or some, of the conditions |
| Bits.PopCountOfMask | snapdb/columnar.py:1244-1257 | the population count of a mask read as an integer is its number of flagged rows |
| Grids.HitsExact | snapdb/columnar.py:1402-1413 | the reference list holds exactly the live rows that satisfy the conditions, each once, in order |
| Grids.OnesAreHits | snapdb/columnar.py:1257 | a mask of exactly the matching rows has as many ones as there are matching rows |
| TableQueries.CountWhere | snapdb/columnar.py:1215-1257 | the popcount path returns the number of rows with some value whose cells meet all, or one, of the conditions, as integers and texts themselves compare |
| TableQueries.SelectWhere | snapdb/columnar.py:1339-1413 | the rows are, position by position, the cells of the columns asked for in the rows that meet the conditions, rising, from the offset on up to the limit; unknown columns and a limit of zero or less answer as the code does |
| TableQueries.Emit | snapdb/columnar.py:1402-1413 | the output loop emits exactly the slice, stopping at the limit; a negative offset skips nothing |
| Aggregates.ExtremesBound | snapdb/columnar.py:1636-1639 | the reference minimum and maximum are values of the list and bound it |
| Aggregates.FoldIs | snapdb/columnar.py:1624-1687 | folding the non-null cells gives their number, their total added up cell by cell, their mean, or an extreme that is one of them |
| Aggregates.CountValid | snapdb/columnar.py:762-763 | the null mask count is the number of non-null values |
| Aggregates.AggregateColumn | snapdb/columnar.py:1608-1687 | raw array, cached reconstruction and value-by-value paths all return the number of the non-null values, their sum, their mean, or the one of them that none is below or above; of no values 0 or nothing as the code does |
| Aggregates.AggregateWhere | snapdb/columnar.py:1689-1732 | the predicate path counts, or folds, exactly the non-null cells of the rows with some value that the predicate accepts: number, total, mean and extremes of those integers |
| Aggregates.AlwaysTrueAccepts | snapdb/columnar.py:1700-1706 | a predicate that accepts everything leaves exactly the non-null values of the column |
| Aggregates.AggregatesAgree | snapdb/columnar.py:1599-1732 | with an always-true predicate every aggregate, count included, returns what it returns without one |
| TableFiles.LiveRowsAre | snapdb/core.py:877-882 | the saved list holds exactly the live rows, in order, at their positions |
| TableFiles.Load | snapdb/core.py:864-875 | each saved row reads at its position again and every gap as None |
| TableFiles.SaveAndLoad | snapdb/core.py:864-888 | a table saved and loaded into fresh columns of the same types reads the same at every position; only dead rows at the end are gone |
| XorStreams.XorBlock | snapdb/_util.py:70-74 | the 256-bit integer fast path is the byte-by-byte XOR |
| XorStreams.XorStream | snapdb/_util.py:59-83 | byte i of the stream is byte i of the data XOR byte i % 32 of the digest of key, nonce and block number i // 32 in eight little-endian bytes, whatever the length |
| XorStreams.XoredTwice | snapdb/_util.py:59-83 | the stream cipher is its own inverse for every hash, key, nonce and data |
| Codec.ValueRoundTrip | snapdb/core.py:175-202 | a value survives encoding if and only if it is canonical: in range, 0/1 for bool, no longer than the column and without a trailing NUL for bytes |
| Codec.ValueBytes | snapdb/core.py:175-192 | integers are stored lowest byte first and in two’s complement, truth values as 0 or 1, texts cut or padded with NULs |
| Codec.RowBytes | snapdb/core.py:175-192 | a row is stored column after column: each value at the sum of the widths before it |
| Codec.RowRoundTrip | snapdb/core.py:175-202 | a row over the schema decodes to itself if and only if every value is canonical |
| Codec.HeaderRoundTrip | snapdb/core.py:66-77 | a header whose numbers fit its fields unpacks to itself |
| Codec.HeaderBytes | snapdb/core.py:59-67 | the header is SNAP, version 1, page size, flags and schema offset, each lowest byte first |
| Layout.CodecIsLawful | snapdb/core.py:675-679 | what is encoded, and encrypted under its absolute offset, decodes at that offset |
| Layout.Cipher.CryptAt | snapdb/core.py:675-679 | a row is encrypted byte by byte under its absolute file offset as a nonce of 16 little-endian bytes; without a key it stays as it is |
| Layout.EnvOfIsWf | snapdb/core.py:760-783 | every schema whose rows fit a page gives a well-formed file geometry |
| Layout.SlotsDisjoint | snapdb/core.py:273-274 | different row numbers never share a byte |
| Layout.SlotIs | snapdb/core.py:776-796 | row g lies in slab g // rps behind that slab’s bitmap, g % rps row widths into the page |
| Layout.ZoneColumnsAre | snapdb/core.py:125-127 | zone maps track exactly the integer columns |
| Layout.SlotMissesBitmap | snapdb/core.py:776-795 | no row slot touches a liveness bitmap |
| Layout.WriteRow | snapdb/core.py:383-393 | writing one row makes exactly that row read back and changes no other |
| Layout.GrowKeepsRows | snapdb/core.py:890-920 | units appended to the file change no stored row |
| Layout.RowsThenGrow | snapdb/core.py:992-1073 | writing rows and then appending units leaves the bytes that appending first and writing then leaves |
| Slabs.PruneSafe | snapdb/core.py:318-336 | a value within the bounds and within the asked range is never ruled out |
| Slabs.OverlapsIs | snapdb/core.py:318-336 | integer bounds rule a slab out exactly when the range ends below the least or starts above the greatest, by <= or < as the bound is included |
| Slabs.Slab.ZoneWiden | snapdb/core.py:293-304 | the widened map is the bounds after the row was seen column by column: it covers the row and everything it covered, and its bounds are values seen |
| Slabs.Slab.EnsureZoneMap | snapdb/core.py:306-316 | a map built lazily covers every live row of the slab; a built one is left alone |
| Slabs.Slab.GetRow | snapdb/core.py:276-284 | decodes a live slot; out of range and dead slots give None |
| Slabs.Slab.Insert | snapdb/core.py:338-355 | writes at the count, flags the slot live and widens a built zone map over the row; a full slab changes nothing |
| Slabs.Slab.BatchInsert | snapdb/core.py:357-381 | one buffered write equals writing the rows slot by slot, truncated to the room there is |
| Slabs.ChunkIsRows | snapdb/core.py:357-381 | the bytes a buffered chunk leaves are those its rows leave written one after the other |
| Slabs.Slab.Update | snapdb/core.py:383-393 | rewrites a live slot and widens a built zone map; a dead slot is refused and nothing changes |
| Slabs.Slab.IterRows | snapdb/core.py:399-426 | one pass over the page yields exactly the live rows in slot order |
| Slabs.ZonesAfterWrite | snapdb/core.py:353-354 | writes through the slab keep every built zone map covering all live rows |
| Slabs.ZonesAfterRestore | snapdb/core.py:1906-1917 | a rollback restore, which writes around the zone map, keeps it covering if and only if the map is not built or already covers the row |
| Slabs.UnprunedIsAll | snapdb/core.py:1815-1828 | scanning only the slabs not ruled out finds every row in range if and only if the map of each such row has bounds on both sides of the range asked for |
| Slabs.CoveredIsReached | snapdb/core.py:318-336 | maps that cover their rows rule out no slab with a row in range |
| Slabs.SelectSlab | snapdb/core.py:1362-1372 | scanning slab after slab, skipped ones included, is scanning the rows of those not skipped in number order |
| Images.PutRow | snapdb/core.py:338-355 | writing a row into a slot and flagging it live adds or replaces that row of the live map only |
| Images.RemoveRow | snapdb/core.py:395-397 | clearing a live flag removes that row only |
| Images.LeastSlabsUnique | snapdb/core.py:1017-1024 | the least number of slabs with room for the rows is unique |
| Images.CeilSlabs | snapdb/core.py:1021-1024 | ceil(needed / rows_per_slab) more slabs are exactly enough |
| Images.SameRowsSameSlabs | snapdb/core.py:784-787 | live rows, high-water mark and number of slabs determine every slab count and live flag |
| Stores.Store.Grow | snapdb/core.py:890-920 | growing appends empty slabs over a fresh mapping to which every slab points; live rows are kept |
| Stores.Store.GetRow | snapdb/core.py:1075-1087 | a row is found exactly when it is live, negative and too large numbers included |
| Stores.Store.Insert | snapdb/core.py:969-974 | the row takes the next number, at the least number of slabs, and the file is the old one with appended units and the row written; zone maps keep covering |
| Stores.Store.Update | snapdb/core.py:1234-1248 | replaces one live row; numbers and counts stay |
| Stores.Store.Delete | snapdb/core.py:1271-1281 | removes one live row; its number is never handed out again |
| Stores.Store.Restore | snapdb/core.py:1906-1919 | puts a deleted row back at its number; zone maps keep covering exactly under the condition of ZonesAfterRestore |
| Stores.Store.BatchInsert | snapdb/core.py:1014-1073 | the batch takes consecutive numbers from the high-water mark, grows the file by exactly the slabs it lacks, and leaves the bytes of appended units with its rows written one by one |
| Stores.Store.Rows | snapdb/core.py:1362-1372 | iteration yields exactly the live rows in number order |
| Stores.Store.RangeScan | snapdb/core.py:1815-1828 | the pruned scan returns the brute-force rows in range, in order, for every choice of bounds, if and only if no such row sits in a slab its map rules out; maps that cover their rows never do that |
| Stores.Store.Flush | snapdb/core.py:1382-1401 | after a flush the file holds every bitmap and the last count, and the store is unchanged |
| Stores.Store.LoadFrom | snapdb/core.py:760-810 | loading a flushed file gives back the same live rows, slab counts, live flags, live count and next row number |
| Persist.ReloadKeeps | snapdb/core.py:784-810 | reloaded slabs hold the same rows in the same filling order, with zone maps unbuilt |
| Rebuild.CompactFile | snapdb/core.py:1576-1613 | the rewritten file loads as exactly the given rows numbered from zero, with the slab count and last count loading expects |
| Stores.Store.Compact | snapdb/core.py:1566-1619 | afterwards the store holds exactly the live rows in order, renumbered from zero, in the least number of slabs |
| Stores.Create | snapdb/core.py:744-758 | a newly created file opens as an empty store |
| Indexes.IndexUnique | snapdb/index.py:33-64 | the live rows determine the buckets: agreeing with the same rows again is being restored |
| Indexes.SortedUnique | snapdb/index.py:148-168 | a strictly sorted item list is determined by its entries |
| Indexes.ItemsUnique | snapdb/index.py:140-168 | the live rows determine the range items |
| Indexes.HashIndex.Insert | snapdb/index.py:33-39 | buckets and entry count stay those of exactly the rows indexed; no bucket is empty |
| Indexes.HashIndex.Update | snapdb/index.py:41-55 | as Insert, for a changed row, equal keys included |
| Indexes.HashIndex.Delete | snapdb/index.py:57-64 | as Insert, for a removed row |
| Indexes.HashIndex.Lookup | snapdb/index.py:66-69 | the row numbers holding exactly the value, ascending |
| Indexes.MultiIndex.Lookup | snapdb/index.py:102-124 | the ascending numbers of exactly the rows matching every pair; an unindexed column is named unless an earlier intersection was empty |
| Indexes.Bisect | snapdb/index.py:154-160 | binary search returns the number of entries before the probe |
| Indexes.RangeIndex.Build | snapdb/index.py:140-146 | the sorted non-null entries of exactly the listed rows |
| Indexes.RangeIndex.Insert | snapdb/index.py:148-152 | items stay strictly sorted and those of exactly the rows indexed; nulls are skipped |
| Indexes.RangeIndex.Delete | snapdb/index.py:154-160 | as Insert, for a removed row |
| Indexes.RangeIndex.Update | snapdb/index.py:162-168 | as Insert, for a changed row |
| Indexes.RangeIndex.RangeLookup | snapdb/index.py:170-185 | exactly the rows whose integer, or text by the first place where it differs, lies between the bounds, open, inclusive or exclusive, each once, by value and then by number; nulls never |
| UniqueKeys.OwnersAreDistinct | snapdb/core.py:706-715 | an owner map with an owner per row forces the rows to differ in every unique column |
| UniqueKeys.OwnersUnique | snapdb/core.py:713-732 | the live rows determine the unique map |
| UniqueKeys.UniqueMap.Validate | snapdb/core.py:706-711 | passes exactly when no other row holds a value of the row in a unique column, else names the first column in which one does |
| UniqueKeys.UniqueMap.Insert | snapdb/core.py:713-715 | the map stays exactly the inverse of the rows |
| UniqueKeys.UniqueMap.Delete | snapdb/core.py:717-723 | gives up the values of that row and of no other |
| UniqueKeys.UniqueMap.Update | snapdb/core.py:725-732 | moves a row to new values exactly when they are free, otherwise the map is as it was |
| UniqueKeys.UniqueMap.ValidateBatch | snapdb/core.py:995-1002 | a batch passes exactly when, inserted, all rows would differ: against stored rows and within the batch |
| SnapDBs.UniqueColumnsAre | snapdb/core.py:608 | the unique columns are exactly those the schema flags |
| SnapDBs.CheckShape | snapdb/core.py:696-701 | finds the first missing or null column, if any |
| SnapDBs.SnapDB.Insert | snapdb/core.py:958-982 | succeeds exactly when every column of the schema is given and not null and no live row has the same value in a column flagged unique, else names the first column that is missing or null, or else the first whose value is taken; the row takes the next number and holds, as does the record logged, exactly the values given for the schema columns; a refused insert changes nothing |
| SnapDBs.SnapDB.Update | snapdb/core.py:1223-1253 | succeeds exactly on a live row when no schema column is given as null and no other live row has a value given for a column flagged unique; then every schema column holds the value given, or the one it had, in the row and in the record logged; a refused update names the first such column and changes nothing |
| SnapDBs.SnapDB.Delete | snapdb/core.py:1260-1285 | removes exactly a live row and its index entries and unique values; otherwise changes nothing |
| SnapDBs.SnapDB.BatchInsert | snapdb/core.py:992-1073 | succeeds exactly when all rows are complete and none repeats, in a column flagged unique, a value of a live row or of another in the batch; then row k stands at the next number plus k with the values given, logged as stored, and numbers and bytes are those of inserting each; otherwise nothing is inserted |
| SnapDBs.SnapDB.LiveRows | snapdb/core.py:703-721 | in every valid state live rows have a value in every column and differ in every column flagged unique |
| SnapDBs.SnapDB.Begin | snapdb/core.py:1857-1870 | opens a transaction over the current rows; a nested one is refused and changes nothing |
| SnapDBs.SnapDB.Commit | snapdb/core.py:1871-1875 | the whole transaction is written to the log file, behind whatever that file held when the database was opened, torn line included; its records lead from the rows at its start to the rows now |
| SnapDBs.SnapDB.Rollback | snapdb/core.py:1882-1923 | the live rows are those at the start of the transaction, with all derived structures exactly theirs; only the next row number may be larger; zone maps stay sound if and only if they, widened over the updates undone, cover the deleted rows that come back |
| SnapDBs.ZonesAfterUndoing | snapdb/core.py:1882-1923 | after undoing any run of writes the zone maps, widened over the updates undone, cover the live rows again if and only if each deleted row put back is covered by its map or the map is not built |
| SnapDBs.SnapDB.UndoOne | snapdb/core.py:1889-1919 | one undo entry leads back to the rows before its operation, derived structures included |
| SnapDBs.SnapDB.UndoneUpdate | snapdb/core.py:1897-1904 | undoing an update never meets a uniqueness error |
| SnapDBs.UndoesPush | snapdb/core.py:976-982 | an undo list that leads back still does with one more operation and its entry |
| Transactions.DerivationUnique | snapdb/core.py:706-742 | rows and set of indexes determine all owners, buckets, entry counts and range items |
| Transactions.CurrentIsDerivation | snapdb/core.py:1159-1216 | in every valid state each derived structure is exactly the function of the live rows it should be |
| Transactions.Transaction | snapdb/core.py:1857-1923 | any run of inserts, batches, updates, deletes and range searches, some refused: committed, the rows are what the operations mean one after the other; rolled back, rows, live count, buckets, range items and unique map are exactly as before; the log grows by exactly the records of the operations that went through; rolled back, sound zone maps stay sound if and only if those at the end of the operations, widened over the updates undone, cover the deleted rows that come back, which they do without range searches or with all maps built before |
| Transactions.LoggedIsMeant | snapdb/core.py:976-982 | the records logged by any operations lead from the rows before to what the operations mean, unique columns respected throughout |
| Transactions.PerformAll | snapdb/core.py:958-1285 | operations one after the other reach exactly the rows and next number they mean, and log exactly their records |
| Transactions.RollbackHidesRow | snapdb/core.py:1802-1919 | a concrete run that fails: delete a row, search the range so that the map is built without it, roll back: the row is live and the next search misses it |
| ZoneRuns.TwoRowsReopened | snapdb/core.py:744-810 | a database created, given two rows, checkpointed and loaded again: its rows, and its zone map not built yet |
| ZoneRuns.RunHidesRow | snapdb/core.py:744-1923 | that run from an empty file to the row a range search misses |
| Transactions.InsertEach | snapdb/core.py:958-982 | rows inserted one by one all go in exactly when the batch would, and reach its rows, next number, number of slabs and bytes |
| Transactions.SameReached | snapdb/core.py:992-1073 | the same rows appended to the same file, at the same next number and least number of slabs, mean the same bytes, slab counts, live flags and derived structures: a batch equals its rows one by one |
| Lookups.CreateIndex | snapdb/core.py:1771-1777 | the new hash index is exactly that of the live rows; an existing one is left alone |
| Lookups.CreateRangeIndex | snapdb/core.py:1785-1797 | the new range index is exactly that of the live rows; an unknown column is refused |
| Lookups.Find | snapdb/core.py:1830-1855 | index intersection and scan return the same list: the rows that have the value asked for in every column asked about, by number |
| Lookups.RangeFind | snapdb/core.py:1802-1828 | of the rows with an integer in the column those between the bounds come back, by <= and < on the integers, each as often as it is stored, and of those with a text by the first place where it differs: always with a range index, and without one if no slab with such a row is ruled out; the pruned scan returns the brute-force list if and only if none is |
| Wals.TornEnd | snapdb/wal.py:118-128 | a torn last line loses that record and nothing before it |
| Wals.Wal.Append | snapdb/wal.py:48-62 | the record is the last of the log; the hundredth buffered record writes all of them out, any other leaves the file as it is; what is written is the file found on opening and the records before the buffer, the first joined to an unfinished line |
| Wals.Wal.CommitTx | snapdb/wal.py:89-94 | inside a transaction everything up to the commit record is written, behind what the file held |
| Wals.Wal.RollbackTx | snapdb/wal.py:96-101 | inside a transaction everything up to the rollback record is written, behind what the file held |
| Wals.Replay | snapdb/wal.py:103-140 | yields the records before the first torn line |
| Wals.CollectCommitted | snapdb/core.py:816-827 | the parsing loop computes the committed operations |
| Wals.CommittedExactly | snapdb/core.py:816-827 | for any cut of the log of any transactions, the committed list is exactly the operations of the transactions whose commit record survived, in order |
| Wals.ReadBack | snapdb/wal.py:64-140 | records written behind a file are read back after its own if and only if it is sound: no torn line, and its last line finished; otherwise only the records before its last line |
| Wals.AfterReopening | snapdb/wal.py:46-140 | over a log with nothing committed, what is committed later is recovered if and only if the log was sound (or nothing is committed later) |
| Wals.CommitBehindTornLine | snapdb/wal.py:46-140 | a concrete log with a torn second line: the transaction committed behind it is not recovered |
| Wals.NetRecords | snapdb/core.py:836-842 | the netting loop drops, at every delete, the earlier records of the same row |
| Wals.NetSame | snapdb/core.py:830-842 | netting changes nothing: from any rows the netted list leads to the same rows as the whole list |
| Recovery.NetKeepsLive | snapdb/core.py:830-842 | netting a run that really happened drops exactly the inserts and updates of rows deleted in it |
| Recovery.ReplayFollows | snapdb/core.py:843-858 | with the first m records in the image already and no gap, replay of the rest follows the run record by record, each surviving insert getting its own number back |
| Recovery.RecoveryRestores | snapdb/core.py:830-858 | over an image holding any prefix of the log, replaying the netted log gives back exactly the rows the committed operations led to, under the same numbers and with no unique clash, if and only if the rows inserted since the image that survive are numbered without a gap from the next number of the loaded file, and every surviving row the log does not update still reads as it was flushed |
| Recovery.CrashRecovery | snapdb/core.py:812-858 | the same from the log file, cut off anywhere |
| Recovery.PlainRunsAreContiguous | snapdb/core.py:843-850 | without burnt numbers, file growth or deletes of newly inserted rows there is no gap |
| Recovery.GapShiftsRows | snapdb/core.py:836-850 | a concrete run that breaks it: insert, delete, insert comes back as row 0 instead of row 1 |
| Recovery.UncommittedUpdateStays | snapdb/core.py:383-393 | a concrete run that breaks it: an update in place inside a transaction that never commits is there after reopening |
| Recovery.RunJoin | snapdb/core.py:1882-1923 | a run goes on from where another ended, numbers burnt by a rollback in between |
| Recovery.ReplayTwice | snapdb/core.py:857-858 | replaying a log over rows that already have it changes nothing: a crash between flush and clear does no harm |
| Crash.RowWriteLoads | snapdb/core.py:348-349 | a row written after a flush disturbs neither header nor bitmaps and shows only if that flush flagged it live |
| Crash.GrowthLoads | snapdb/core.py:784-803 | units added after a flush load as well: same rows, and a next row number no lower |
| Crash.CrashLoads | snapdb/core.py:784-810 | whatever rows and units reach the file after a flush, it opens with the rows flagged by that flush, each as flushed unless written since |
| Crash.EvolvedLoads | snapdb/core.py:784-810 | a flushed file that any run of inserts, batches, updates, deletes and rollbacks evolved opens as flushed, each row as last written, with the same next number unless it grew |
| Lifecycle.RebuildUnique | snapdb/core.py:734-742 | registers every live row exactly when all differ in the unique columns, else stops at a clash |
| Lifecycle.RedoRecord | snapdb/core.py:845-856 | replaying one record does to store and unique map what the replay specification says, clash included |
| Lifecycle.Recover | snapdb/core.py:812-862 | parses, nets and replays to the specified state, then flushes and clears the log; with nothing committed the log file is left as found |
| Lifecycle.Open | snapdb/core.py:591-608 | opening loads, recovers and rebuilds: it succeeds exactly when replay and the final rows respect the unique columns, with zone maps sound; the log is cleared if anything was committed, else kept as found, a torn end included |
| Lifecycle.OpenAfterCrash | snapdb/core.py:591-608 | reopening after a crash gives exactly the committed rows if and only if the conditions of RecoveryRestores hold |
| Lifecycle.CreateDb | snapdb/core.py:583-608 | a page over 65535 bytes or under one row is refused; otherwise the database starts empty but for what a log found beside the missing file commits |
| Lifecycle.Checkpoint | snapdb/core.py:1925-1931 | the image on disk is the current state, that of an open transaction included, and the log is empty; rows, indexes and unique map still agree |
| Lifecycle.CheckpointAndReopen | snapdb/core.py:591-608 | after a checkpoint and a crash the rows there were come back, those of a transaction never committed included |
| Lifecycle.Compact | snapdb/core.py:1566-1628 | row k is now the one that had the k-th of the live row numbers, and there are no others; the same indexes are rebuilt to agree, the unique map rebuilt and the log cleared, inside a transaction too |
| Lifecycle.OldLogOverCompacted | snapdb/core.py:1613-1628 | a crash between putting the compacted file in place and clearing the log: the log replayed over the renumbered rows leaves them alone if it deletes no number below their count, inserts and keeps none from there on, and each row it updates and keeps reads as the one with its number now; if and only if, where it does not delete the row with the next number |
| Lifecycle.CompactedRowLost | snapdb/core.py:1613-1628 | for any schema and any two rows it admits: row 0 is deleted and committed, row 1 compacted to row 0, and the delete, replayed, removes that as well |
| OldLogs.OldLogHarmless | snapdb/core.py:830-858 | records of any run replayed over any rows numbered 0 to n - 1: they stay as they are under three conditions, of which the first and last are needed in any case, and all three where row n is not deleted |
| OldLogs.AlreadyNumbered | snapdb/core.py:830-858 | when the surviving rows had the numbers 0 to n - 1 already, replaying the old log over them does no harm |
| OldLogs.UndoneByChance | snapdb/core.py:830-858 | a concrete run that deletes row n itself, where an insert that breaks the second condition goes unnoticed |
| Lifecycle.RowsStayDistinct | snapdb/core.py:1626 | renumbering cannot break uniqueness, so the rebuild after compaction never fails |
| CrashRuns.RunBlocks | snapdb/core.py:1857-1923 | any list of transactions, each committed or rolled back, leads to what the committed ones mean; its log is exactly theirs, and the file evolved from the one it started on |
| CrashRuns.RunUntilCrash | snapdb/core.py:1857-1923 | from a checkpoint through any transactions into one more: what a crash leaves opens as a rewritten and grown image of the checkpoint, its committed records a legal run from there |
| CrashRuns.Reopen | snapdb/core.py:591-862 | such a wreck, its log cut anywhere in the last transaction, reopens with exactly the committed rows if and only if there is no gap and no row rewritten in place that the log does not update; with the whole log, if and only if there is no gap |
| CrashRuns.CrashAndReopen | snapdb/core.py:591-1923 | checkpoint, any transactions, crash in the middle of another, log torn or not, reopen: the committed rows come back under their numbers if and only if the same two conditions hold |
| CrashRuns.FoundAgain | snapdb/core.py:829 | what transactions log after opening is found by the next recovery if and only if opening cleared the log or the log found was sound |
| CrashRuns.RunAfterOpening | snapdb/core.py:816-862 | the same of transactions run on a database just opened |
| CrashRuns.CrashInCompact | snapdb/core.py:1566-1628 | from an empty log through any transactions into a compaction that dies before the log is cleared, and open: the compacted rows come back as they are under the conditions of OldLogOverCompacted, and only then where row n is not deleted |
| Queries.CompileFilter | snapdb/query.py:47-91 | the flat compiled conjunction accepts exactly the rows all conditions hold of |
| Queries.MergeHolds | snapdb/query.py:283-286 | merged conditions hold of a row that satisfies old and new ones and imply the new ones |
| Queries.MergePlaces | snapdb/query.py:280-288 | merged conditions keep their places, each with the condition given last, and new columns follow in order |
| Queries.Query.Filter | snapdb/query.py:274-288 | conditions overwrite column by column while the predicate accumulates: the new query accepts exactly the rows the old one accepts in which every value asked for is there and every comparison holds between the integers or texts themselves; its recorded conditions never rule one out |
| Queries.Query.Between | snapdb/query.py:311-322 | as filter, for low <= x <= high on the integers, or < where a bound is not included, and for texts by the first place where they differ |
| Queries.Build | snapdb/query.py:274-322 | any chain of builder calls accepts exactly the rows every call asks for; order, limit and offset are those of the last call for them |
| Queries.PlanSpec | snapdb/query.py:174-206 | a spec is planned with both bounds, the last given of each, when it has some on both sides, else with its first bound; the planned range contains every row the spec accepts |
| Queries.PlanRange | snapdb/query.py:152-207 | a plan is found exactly when some range-indexed column has only range operators, is that of the first such column, and contains every matching row |
| Queries.PlanEquality | snapdb/query.py:136-149 | a plan is found exactly when some equality column has a hash index, and is for the first of them |
| Queries.Candidates | snapdb/query.py:339-360 | the candidates are exactly the live rows the plan finds, each once; those of a range plan by value and then by number |
| Queries.CandidatesAreEnough | snapdb/query.py:362-372 | re-filtered candidates are the scan: in its order for a hash plan, in some order for a range plan |
| Queries.SortSorts | snapdb/query.py:384-387 | sorting gives the same entries in key order, ascending or descending |
| Queries.SortIsStable | snapdb/query.py:384-387 | entries with equal keys keep their order, descending too |
| Queries.Execute | snapdb/query.py:324-394 | entry k of the answer is entry offset + k of the matches, sorted if asked, counted from the end of the list when the offset is negative, up to the limit and no further; the plan is the first range plan there is, else the first hash plan, else none; an unsorted negative offset is refused unless it finds no live row; only a range plan makes the order differ from the scan, and then it is by value and number |
| Queries.PageOfMatches | snapdb/query.py:388-394 | a page of the matches holds distinct matches, as many as the slice of their list has |
| Queries.ExecutePage | snapdb/query.py:324-394 | any consistent query answered yields distinct matches, the right number of them, rising or falling as the integers or texts themselves do if sorted, a missing key counting as 0, and without limit and offset exactly the rows of the scan; only an unsorted negative offset is not answered |
| Queries.ReadInPages | snapdb/query.py:324-394 | slices read one after the other, at the offsets 0, limit, 2 * limit and so on, make up exactly the unlimited answer, whatever plan is used |
| Queries.SameMatches | snapdb/query.py:324-383 | two lists of the matches of one query, however it is sliced, are the same |
| Queries.Count | snapdb/query.py:400-421 | the number of live rows the query accepts, whatever plan is used and whatever order and slice were set |

## Left out

- IntRebuilds.AppendAfterDeltaRebuild: does not cover a value that would read outside the element type of the column.
- Lifecycle.OldLogOverCompacted: where the log deletes row n itself, says when replay is harmless but not only then; OldLogs.UndoneByChance is why.
- Slabs.Slab.IterRows: does not separate the encrypted scan, which decodes row by row, from the plain one, which decodes the page in one pass; both yield this list.
- Stores.Store.Insert: models the row store as an object of its own; the original keeps these fields in the database class.
- SnapDBs.SnapDB.BatchInsert: does index and undo upkeep after the last chunk instead of after each.
- SnapDBs.SnapDB.Insert: does not raise for values that cannot be encoded, which the code does after it has counted the row; such values are excluded.
- Transactions.Transaction: does not create or drop indexes inside a transaction.
- Lookups.CreateIndex: does not index values of columns outside the schema, which the original would index on insert and forget on delete.
- CrashRuns.CrashAndReopen: does not follow writes made outside transactions since the checkpoint, which the log does not know, nor bitmaps flushed in the middle of a transaction.
- Lifecycle.Checkpoint: inside an open transaction, does not say what a later commit logs or a later rollback undoes; after Lifecycle.Compact there, the undo list would speak of old row numbers.
- Lifecycle.Compact: rebuilds the unique map before the indexes instead of after them; neither can fail.
- Queries.Execute: does not let the sort or the scan be consumed lazily; results are whole lists.
- Aggregates.AggregateColumn: does not model the rounding of averages; they are exact quotients.
- Aggregates.AggregateWhere: of text columns covers counts only; their sums raise and their extremes are texts.
- TableCompaction.Compact: does not report the bytes freed, an estimate of memory use.
- TableQueries.SelectWhere: does not cover comparisons between a text and a number, which raise in the original.
- Float columns, NaN and f32 rounding; nullable columns in the row store.
- UTF-8: text is its bytes, and decoding with replacement is not modelled.
- NumPy and pandas paths, buffers and exports, except code comparison in dictionary columns.
- `select_bitmask`, `group_by`, `select`, `batch_update` and joins: loops over the same liveness and cells.
- `Query.min` and `Query.max`, which call the builtin with one scalar on a single match; `sum`, `avg` and `count_distinct`, which iterate the same matches.
- Auto-indexing, metrics, change capture, snapshots, backup, fsck, document and vector stores.
- mmap, fsync, file locks, JSON and pickle: a file is its bytes, a log its lines, each a record, blank, or torn. The sorting builtins are specified, not modelled.
- Threads: every write takes one lock, so operations are atomic steps.
