/** The analysis phase of ARIES: rebuild the transaction table and the
    dirty-page table from the last checkpoint and the records after it. */
module Analysis {
  import opened Types
  import opened Tables
  import opened LogRecords

  datatype AnalysisState = AnalysisState(txTable: TxTable, dirtyPages: DirtyPageTable)

  datatype AnalysisError =
    | MasterOutOfRange      // the master record points outside the log
    | NotAnEndCheckpoint    // the record after the master is no END_CHECKPOINT

  /** Effect of one post-checkpoint record on the tables. */
  function AnalysisStep(s: AnalysisState, r: LogRecord): AnalysisState
  {
    var txTable :=
      if r.End? then s.txTable - {r.txId}
      else s.txTable[r.txId := TxEntry(r.lsn, if r.Commit? then Committed else Undergoing)];
    var dirtyPages :=
      if r.IsPageRecord() then s.dirtyPages[r.pageId := r.lsn] else s.dirtyPages;
    AnalysisState(txTable, dirtyPages)
  }

  /** Apply the records of `recs` to `seed` from first to last. */
  function AnalysisFold(seed: AnalysisState, recs: seq<LogRecord>): AnalysisState
    decreases |recs|
  {
    if recs == [] then seed
    else AnalysisStep(AnalysisFold(seed, recs[..|recs| - 1]), recs[|recs| - 1])
  }

  /** `master` is the position of the last BEGIN_CHECKPOINT, or the null LSN
      when no checkpoint was taken. The END_CHECKPOINT follows it directly;
      its snapshot seeds the tables and the scan starts after it. */
  function Analyze(log: seq<LogRecord>, master: Lsn): (r: Result<AnalysisState, AnalysisError>)
    ensures master == NullLsn ==> r == Ok(AnalysisFold(AnalysisState(map[], map[]), log))
    ensures master != NullLsn ==>
      (r.Ok? <==> 0 <= master && master + 1 < |log| && log[master + 1].EndCheckpoint?)
    ensures r.Ok? && master != NullLsn ==>
      r.value == AnalysisFold(AnalysisState(log[master + 1].txTable, log[master + 1].dirtyPages),
                              log[master + 2..])
  {
    if master == NullLsn then
      Ok(AnalysisFold(AnalysisState(map[], map[]), log))
    else if !(0 <= master && master + 1 < |log|) then
      Err(MasterOutOfRange)
    else
      var endCheckpoint := log[master + 1];
      if !endCheckpoint.EndCheckpoint? then Err(NotAnEndCheckpoint)
      else
        Ok(AnalysisFold(AnalysisState(endCheckpoint.txTable, endCheckpoint.dirtyPages),
                        log[master + 2..]))
  }

  /** Position i holds the last record of transaction t in `recs`. */
  ghost predicate LastOfTx(recs: seq<LogRecord>, i: int, t: TxId) {
    0 <= i < |recs| && recs[i].txId == t &&
    forall j :: i < j < |recs| ==> recs[j].txId != t
  }

  /** Position i holds the last UPDATE/CLR record on page p in `recs`. */
  ghost predicate LastWriteOfPage(recs: seq<LogRecord>, i: int, p: PageId) {
    0 <= i < |recs| && recs[i].IsPageRecord() && recs[i].pageId == p &&
    forall j :: i < j < |recs| && recs[j].IsPageRecord() ==> recs[j].pageId != p
  }

  /** The pages that UPDATE/CLR records of `recs` touch. */
  ghost function WrittenPages(recs: seq<LogRecord>): set<PageId> {
    set i | 0 <= i < |recs| && recs[i].IsPageRecord() :: recs[i].pageId
  }

  /** A transaction's last record decides its entry: END removes it, any
      other kind leaves lastLSN at that record with status C exactly for COMMIT. */
  lemma {:induction false} AnalysisLastRecordDecides(seed: AnalysisState, recs: seq<LogRecord>, i: int, t: TxId)
    requires LastOfTx(recs, i, t)
    ensures var tt := AnalysisFold(seed, recs).txTable;
      if recs[i].End? then t !in tt
      else t in tt && tt[t].lastLsn == recs[i].lsn && (tt[t].status == Committed <==> recs[i].Commit?)
    decreases |recs|
  {
    var n := |recs| - 1;
    if i < n {
      assert LastOfTx(recs[..n], i, t);
      AnalysisLastRecordDecides(seed, recs[..n], i, t);
    }
  }

  /** A transaction with no record after the checkpoint keeps its snapshot entry. */
  lemma {:induction false} AnalysisKeepsSilentTx(seed: AnalysisState, recs: seq<LogRecord>, t: TxId)
    requires forall j :: 0 <= j < |recs| ==> recs[j].txId != t
    ensures var tt := AnalysisFold(seed, recs).txTable;
      (t in tt <==> t in seed.txTable) && (t in tt ==> tt[t] == seed.txTable[t])
    decreases |recs|
  {
    if recs != [] {
      AnalysisKeepsSilentTx(seed, recs[..|recs| - 1], t);
    }
  }

  /** The dirty-page table gains exactly the pages of UPDATE/CLR records. */
  lemma {:induction false} AnalysisDirtyPageKeys(seed: AnalysisState, recs: seq<LogRecord>)
    ensures AnalysisFold(seed, recs).dirtyPages.Keys == seed.dirtyPages.Keys + WrittenPages(recs)
    decreases |recs|
  {
    if recs != [] {
      var n := |recs| - 1;
      AnalysisDirtyPageKeys(seed, recs[..n]);
      if recs[n].IsPageRecord() {
        assert WrittenPages(recs) == WrittenPages(recs[..n]) + {recs[n].pageId};
      } else {
        assert WrittenPages(recs) == WrittenPages(recs[..n]);
      }
    }
  }

  /** Each UPDATE/CLR overwrites its page's recLSN, so a written page ends
      with the LSN of its last write, and an unwritten page keeps its recLSN. */
  lemma {:induction false} AnalysisRecLsnIsLastWrite(seed: AnalysisState, recs: seq<LogRecord>, i: int, p: PageId)
    requires LastWriteOfPage(recs, i, p)
    ensures var dpt := AnalysisFold(seed, recs).dirtyPages;
      p in dpt && dpt[p] == recs[i].lsn
    decreases |recs|
  {
    var n := |recs| - 1;
    if i < n {
      assert LastWriteOfPage(recs[..n], i, p);
      AnalysisRecLsnIsLastWrite(seed, recs[..n], i, p);
    }
  }

  lemma {:induction false} AnalysisKeepsUnwrittenPage(seed: AnalysisState, recs: seq<LogRecord>, p: PageId)
    requires p !in WrittenPages(recs)
    ensures var dpt := AnalysisFold(seed, recs).dirtyPages;
      (p in dpt <==> p in seed.dirtyPages) && (p in dpt ==> dpt[p] == seed.dirtyPages[p])
    decreases |recs|
  {
    if recs != [] {
      var n := |recs| - 1;
      assert WrittenPages(recs[..n]) <= WrittenPages(recs);
      AnalysisKeepsUnwrittenPage(seed, recs[..n], p);
    }
  }

  /** With no checkpoint, a transaction that has no log record reads the
      null LSN from the rebuilt table. */
  lemma NoRecordMeansNullLsn(log: seq<LogRecord>, t: TxId)
    requires forall j :: 0 <= j < |log| ==> log[j].txId != t
    ensures Analyze(log, NullLsn).Ok?
    ensures GetLastLsn(Analyze(log, NullLsn).value.txTable, t) == NullLsn
  {
    AnalysisKeepsSilentTx(AnalysisState(map[], map[]), log, t);
  }

  /** The records the analysis scan folds over: the whole log when there is
      no checkpoint, otherwise those after the END_CHECKPOINT. */
  function ScannedRecords(log: seq<LogRecord>, master: Lsn): seq<LogRecord>
    requires Analyze(log, master).Ok?
  {
    if master == NullLsn then log else log[master + 2..]
  }

  /** The headline of analysis over the log itself: a transaction's last
      scanned record decides its rebuilt entry. */
  lemma AnalyzeLastRecord(log: seq<LogRecord>, master: Lsn, i: int, t: TxId)
    requires Analyze(log, master).Ok?
    requires LastOfTx(ScannedRecords(log, master), i, t)
    ensures var tt := Analyze(log, master).value.txTable;
      var r := ScannedRecords(log, master)[i];
      if r.End? then t !in tt
      else t in tt && tt[t].lastLsn == r.lsn && (tt[t].status == Committed <==> r.Commit?)
  {
    if master == NullLsn {
      AnalysisLastRecordDecides(AnalysisState(map[], map[]), log, i, t);
    } else {
      AnalysisLastRecordDecides(AnalysisState(log[master + 1].txTable, log[master + 1].dirtyPages),
                                log[master + 2..], i, t);
    }
  }
}
