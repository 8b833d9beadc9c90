# ARIES log manager — verified model

A Dafny model of the bookkeeping half of the ARIES write-ahead-log manager
(Mohan et al., "ARIES: A Transaction Recovery Method…", ACM TODS 17(1), 1992)
in `StudentComponent/LogMgr.cpp`:

- the transaction table (transaction id to `lastLSN` and status U/C) and its
  accessors `getLastLSN` / `setLastLSN`;
- the log tail and `flushLogTail`, which forces the records up to a given LSN
  to durable storage;
- the analysis phase, which seeds both tables from the last END_CHECKPOINT and
  folds the later records into them;
- the redo phase, which starts at the smallest recLSN of the dirty-page table
  (`min_element` with `CompareSecond`) and reapplies an UPDATE/CLR only when its
  page is dirty early enough and has not yet seen it, stamping the pageLSN.

Everything is functional. Log records are one `datatype` with a variant per
record kind. The tables are maps. The phases are folds over `seq<LogRecord>`.
A page is represented only by its pageLSN.

Files:

- `types.dfy`: LSN, transaction and page ids, the null LSN and `Result`.
- `tables.dfy`: the transaction table, the dirty-page table, `GetLastLsn` and `SetLastLsn`.
- `log_records.dfy`: log records and the shape predicates `IndexedByLsn` and `Ascending`.
- `log_tail.dfy`: the log-tail flush, the flush as the code stands, and their lemmas.
- `analysis.dfy`: the analysis phase and its lemmas. `AnalysisStep` is the effect of one record
  (lines 55-71). `AnalysisFold` is the scan loop (lines 52-72).
- `redo.dfy`: the minimum recLSN, the redo phase and its lemmas. `CompareSecond` is the comparator
  handed to `min_element` (lines 168-175). `RedoStep` is the selection-and-stamp rule for one
  record (lines 90-101).

## Assumptions and departures from the code

- The null LSN is `-1`. `LogMgr.h`, which defines it, is not part of this model.
- The code finds the checkpoint and the redo start point by counting lines, so
  the model takes positions and LSNs to coincide. `master` is the position of
  the BEGIN_CHECKPOINT, the END_CHECKPOINT is at `master + 1`, and the scan
  starts at `master + 2`. Redo starts at position `min recLSN`, clamped to the
  log. `IndexedByLsn(log)` states that assumption where a lemma needs it.
- Analysis with the null LSN as master starts from empty tables and scans the
  whole log. The code has no such branch; this case follows the ARIES design.
  A master outside the log, or no END_CHECKPOINT right after it, is an error
  result. The code would parse whatever line it finds there.
- Line 70 overwrites a page's recLSN with every UPDATE/CLR. The model does the
  same, so a page ends up with the LSN of its LAST post-checkpoint write. ARIES
  keeps the FIRST dirtying LSN instead. This loses writes in redo.
  `Redo.LastWriteRecLsnSkipsEarlierUpdate` takes two updates of page 5, at LSN 0 and 1, with no
  checkpoint. Analysis leaves recLSN 1 for page 5, so the LSN-0 update fails the recLSN test of
  line 91. Redo never reapplies it, although the page has never been stamped. Because a page
  is modelled only by its pageLSN, the model cannot show the lost content itself.
- Four slips that keep the draft from compiling are read as intended.
  Line 57's `tx_table.remove` is a map erase. Line 83's `mymap` is the
  dirty-page table. Line 89 parses `recordString`, the line just read, not
  `endCheckPointString`. Lines 13 and 21 name `tx_Table` while lines 50, 57
  and 60 name `tx_table`; both are the one transaction table.
- On an empty dirty-page table, line 83 dereferences the end iterator that
  `min_element` returns, which is undefined. `Redo.Redo` returns the pages
  unchanged instead. `Redo.NothingRedoable` shows that any start point gives
  the same pages in that case, because line 91 rejects every record.
- Redo treats a page the store has never stamped as carrying the null LSN.
- Analysis treats checkpoint records after the snapshot like any other non-END
  record: their transaction id gets an entry with status U, as the code's
  `else` branch does.

## Model

| member | source | states |
|---|---|---|
| Tables.GetLastLsn | StudentComponent/LogMgr.cpp:7-14 | a transaction the table has no entry for reads the null LSN; a known one reads its recorded lastLSN |
| Tables.SetLastLsn | StudentComponent/LogMgr.cpp:16-22 | afterwards `GetLastLsn(t)` is the new LSN; the table gains at most `t`; `t`'s status and every other transaction's entry are unchanged |
| Analysis.NoRecordMeansNullLsn | StudentComponent/LogMgr.cpp:7-14 | a transaction with no log record reads the null LSN from the table that analysis rebuilds with no checkpoint |
| LogTail.FlushLogTail | StudentComponent/LogMgr.cpp:24-35 | storage receives exactly the tail records with LSN <= maxLSN, in tail order; the new tail holds exactly the records above maxLSN, in tail order; together they are the old tail as a multiset |
| LogTail.FlushLogTailAsWritten | StudentComponent/LogMgr.cpp:29-35 | the loop as it stands hands the same records to storage but returns the tail unchanged |
| LogTail.AsWrittenFlushDuplicates | StudentComponent/LogMgr.cpp:29-35 | with the loop as written, flushing a one-record tail twice with the same bound writes that record to the log twice |
| LogTail.FlushPreservesRecords | StudentComponent/LogMgr.cpp:24-35 | the flushed and remaining records together are the old tail: none lost, none duplicated |
| LogTail.FlushKeepsOrder | StudentComponent/LogMgr.cpp:24-35 | on an LSN-ascending tail, both the flushed records and the new tail are LSN-ascending |
| LogTail.FlushSplitsAscendingTail | StudentComponent/LogMgr.cpp:24-35 | on an LSN-ascending tail the flushed records are a prefix of it and the new tail is the rest |
| LogTail.FlushTwiceWritesNothing | StudentComponent/LogMgr.cpp:24-28 | after a flush to maxLSN no record with LSN <= maxLSN remains, so a second flush with the same bound writes nothing |
| Analysis.Analyze | StudentComponent/LogMgr.cpp:40-72 | the END_CHECKPOINT right after the master record seeds both tables and the scan covers the records after it; a master outside the log or not followed by END_CHECKPOINT is an error; no checkpoint means empty tables over the whole log |
| Analysis.AnalyzeLastRecord | StudentComponent/LogMgr.cpp:40-68 | over the log and master record themselves: a transaction whose last scanned record is END is absent from the rebuilt table; otherwise its lastLSN is that record's LSN, with status C exactly for COMMIT |
| Analysis.AnalysisLastRecordDecides | StudentComponent/LogMgr.cpp:52-68 | a transaction whose last scanned record is END is absent; otherwise its lastLSN is that record's LSN and its status is C exactly when that record is COMMIT |
| Analysis.AnalysisKeepsSilentTx | StudentComponent/LogMgr.cpp:50-57 | a transaction with no scanned record keeps its snapshot entry, or stays absent |
| Analysis.AnalysisDirtyPageKeys | StudentComponent/LogMgr.cpp:69-71 | the rebuilt dirty-page table holds exactly the snapshot pages plus the pages of scanned UPDATE/CLR records |
| Analysis.AnalysisRecLsnIsLastWrite | StudentComponent/LogMgr.cpp:69-71 | a page written after the checkpoint has as recLSN the LSN of its last UPDATE/CLR record |
| Analysis.AnalysisKeepsUnwrittenPage | StudentComponent/LogMgr.cpp:51-71 | a page no scanned UPDATE/CLR touches keeps its snapshot recLSN, or stays absent |
| Redo.MinRecLsn | StudentComponent/LogMgr.cpp:83 | the result is a recLSN of the non-empty dirty-page table and no entry is smaller (min_element under CompareSecond) |
| Redo.StartIndex | StudentComponent/LogMgr.cpp:84-86 | skipping `firstDirty` lines starts the scan at that position; at the start of the log when it is negative, at the end when it lies past the end |
| Redo.RedoPass | StudentComponent/LogMgr.cpp:87-104 | no pageLSN ever decreases during the redo scan |
| Redo.Redo | StudentComponent/LogMgr.cpp:80-105 | pageLSNs never decrease; a changed pageLSN is the LSN of a redoable record on that page; on a log whose positions are its LSNs the result is the scan of the whole log and reflects every redoable record |
| Redo.RedoPassCovers | StudentComponent/LogMgr.cpp:90-101 | after the scan every redoable UPDATE/CLR record has its page's pageLSN at or above its LSN |
| Redo.RedoPassOnlyRedoable | StudentComponent/LogMgr.cpp:90-101 | a pageLSN changes only to the LSN of an UPDATE/CLR on that page whose page is dirty with recLSN <= LSN |
| Redo.RedoPassFixpoint | StudentComponent/LogMgr.cpp:93-101 | a page store that already reflects every redoable record is left unchanged |
| Redo.NothingRedoable | StudentComponent/LogMgr.cpp:91 | with an empty dirty-page table redo changes no page |
| Redo.RedoIdempotent | StudentComponent/LogMgr.cpp:87-104 | a second redo pass over the same log and dirty-page table changes nothing |
| Redo.LastWriteRecLsnSkipsEarlierUpdate | StudentComponent/LogMgr.cpp:69-91 | with line 70's overwrite, two updates of one page leave the later LSN as recLSN, so the earlier update is not redoable although the page's pageLSN is below it |
| Redo.RedoStartSkipsNothing | StudentComponent/LogMgr.cpp:83-86 | on a log whose positions are its LSNs, starting at the minimum recLSN gives the same pages as scanning the whole log |

## Findings

| source | as written | input that shows it | evidently intended | confidence | as-written member | corrected member |
|---|---|---|---|---|---|---|
| StudentComponent/LogMgr.cpp:29-35 | the loop sends every tail record with LSN <= maxLSN to storage but never erases it from `logtail` | a tail holding one COMMIT with LSN 1, flushed twice with maxLSN 1: the record reaches the durable log twice | flushed records leave the tail, as the function's own comment (lines 24-28) demands | high; not executed | LogTail.FlushLogTailAsWritten | LogTail.FlushLogTail |

`LogTail.AsWrittenFlushDuplicates` exhibits the duplicate write for the as-written loop.
`LogTail.FlushTwiceWritesNothing` proves that with the corrected flush a second flush writes nothing.

## Left out

- `undo`, `abort`, `checkpoint`, `commit`, `pageFlushed`, `recover` and `write` (lines 107-159): their bodies are empty, so there is no behaviour to model.
- `setStorageEngine` (lines 161-166): it only stores the storage-engine handle.
- Storage calls `se->updateLog`, `getLog`, `get_master` and the page lookup `records[findPage(...)]`: they call a collaborator whose code is not part of this model. The model takes them as inputs: the log sequence, the master position and the pageLSN map. `FlushLogTail` returns the written records instead of appending them.
- `stringToRecordPtr` and the text encoding of records: not part of this model. Records are a datatype.
- The page-content writes in redo (empty branches, lines 94-99), redo's boolean result and storage failure: a page is modelled only by its pageLSN.
- Tables.GetLastLsn: a pure lookup. The code's `tx_Table[txnum]` also inserts a default entry for an unseen transaction, and that entry is not modelled.
- Tables.SetLastLsn: an unseen transaction's new entry gets status U. The default status of the code's `txTableEntry` is defined in `LogMgr.h`, which is not part of this model.
- Redo.Redo: the whole-log equivalence and completeness are stated only for logs whose positions equal their LSNs, the assumption the code's line counting rests on.
- The trailing empty line that `while(!ss.eof()) getline(...)` can read at the end of the log: the model scans records, not lines.
- Concurrency and the mutex discipline around the shared tables: the model is sequential.
