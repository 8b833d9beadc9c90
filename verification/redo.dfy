/** The redo phase of ARIES, with each page represented only by its pageLSN. */
module Redo {
  import opened Types
  import opened Tables
  import opened LogRecords
  import opened Analysis

  /** The pageLSN stamped on each page of the store. */
  type PageLsns = map<PageId, Lsn>

  /** The pageLSN of `p`; a page that was never written carries the null LSN. */
  function PageLsn(pages: PageLsns, p: PageId): Lsn {
    if p in pages then pages[p] else NullLsn
  }

  /** The ordering the log manager hands to min_element: by recLSN only. */
  predicate CompareSecond(left: (PageId, Lsn), right: (PageId, Lsn)) {
    left.1 < right.1
  }

  /** The smallest recLSN in the dirty-page table: where redo starts. */
  method MinRecLsn(dpt: DirtyPageTable) returns (m: Lsn)
    requires dpt != map[]
    ensures m in dpt.Values
    ensures forall p :: p in dpt ==> m <= dpt[p]
  {
    SomeKey(dpt.Keys);
    var best :| best in dpt.Keys;
    m := dpt[best];
    var rest := dpt.Keys - {best};
    while rest != {}
      invariant rest <= dpt.Keys
      invariant best in dpt && m == dpt[best]
      invariant forall p :: p in dpt && p !in rest ==> m <= dpt[p]
      decreases rest
    {
      SomeKey(rest);
      var p :| p in rest;
      if CompareSecond((p, dpt[p]), (best, m)) {
        best, m := p, dpt[p];
      }
      rest := rest - {p};
    }
  }

  lemma SomeKey(s: set<PageId>)
    requires s != {}
    ensures exists p :: p in s
  {
    if forall p :: p !in s {
      assert false;
    }
  }

  /** A record redo may reapply: an UPDATE/CLR whose page is dirty with a
      recLSN no later than the record. */
  predicate Redoable(dpt: DirtyPageTable, r: LogRecord) {
    r.IsPageRecord() && r.pageId in dpt && dpt[r.pageId] <= r.lsn
  }

  /** One record of the redo scan: reapply it when the page has not seen it yet. */
  function RedoStep(dpt: DirtyPageTable, pages: PageLsns, r: LogRecord): PageLsns
  {
    if Redoable(dpt, r) && PageLsn(pages, r.pageId) < r.lsn then pages[r.pageId := r.lsn]
    else pages
  }

  /** The redo scan over `recs`, first to last. No pageLSN ever decreases. */
  function RedoPass(dpt: DirtyPageTable, pages: PageLsns, recs: seq<LogRecord>): (after: PageLsns)
    ensures forall p :: PageLsn(pages, p) <= PageLsn(after, p)
    decreases |recs|
  {
    if recs == [] then pages
    else RedoStep(dpt, RedoPass(dpt, pages, recs[..|recs| - 1]), recs[|recs| - 1])
  }

  /** Where the scan starts: the minimum recLSN used as a position in the log. */
  function StartIndex(first: Lsn, n: nat): (i: nat)
    ensures i <= n
    ensures 0 <= first <= n ==> i == first
    ensures first < 0 ==> i == 0
    ensures n < first ==> i == n
  {
    if first < 0 then 0 else if first > n then n else first
  }

  /** The redo phase: scan from the minimum recLSN to the end of the log. */
  method Redo(log: seq<LogRecord>, dpt: DirtyPageTable, pages: PageLsns) returns (after: PageLsns)
    ensures forall p :: PageLsn(pages, p) <= PageLsn(after, p)
    ensures forall p :: PageLsn(after, p) != PageLsn(pages, p) ==>
      exists i :: 0 <= i < |log| && Redoable(dpt, log[i]) && log[i].pageId == p && log[i].lsn == PageLsn(after, p)
    ensures IndexedByLsn(log) ==> after == RedoPass(dpt, pages, log)
    ensures IndexedByLsn(log) ==>
      forall i :: 0 <= i < |log| && Redoable(dpt, log[i]) ==> log[i].lsn <= PageLsn(after, log[i].pageId)
  {
    if dpt == map[] {
      NothingRedoable(dpt, pages, log);
      return pages;
    }
    var first := MinRecLsn(dpt);
    var start := StartIndex(first, |log|);
    after := pages;
    var i := start;
    while i < |log|
      invariant start <= i <= |log|
      invariant after == RedoPass(dpt, pages, log[start..i])
    {
      assert log[start..i + 1][..i - start] == log[start..i];
      after := RedoStep(dpt, after, log[i]);
      i := i + 1;
    }
    assert log[start..i] == log[start..];
    RedoPassOnlyRedoable(dpt, pages, log[start..]);
    forall p | PageLsn(after, p) != PageLsn(pages, p)
      ensures exists i :: 0 <= i < |log| && Redoable(dpt, log[i]) && log[i].pageId == p && log[i].lsn == PageLsn(after, p)
    {
      var k :| 0 <= k < |log[start..]| && Redoable(dpt, log[start..][k]) && log[start..][k].pageId == p
        && log[start..][k].lsn == PageLsn(after, p);
      assert log[start + k] == log[start..][k];
    }
    if IndexedByLsn(log) {
      RedoStartSkipsNothing(log, dpt, pages, first);
      RedoPassCovers(dpt, pages, log);
    }
  }

  /** Every redoable record of the scan is reflected on its page afterwards. */
  lemma {:induction false} RedoPassCovers(dpt: DirtyPageTable, pages: PageLsns, recs: seq<LogRecord>)
    ensures forall i :: 0 <= i < |recs| && Redoable(dpt, recs[i]) ==>
      recs[i].lsn <= PageLsn(RedoPass(dpt, pages, recs), recs[i].pageId)
    decreases |recs|
  {
    if recs != [] {
      var n := |recs| - 1;
      RedoPassCovers(dpt, pages, recs[..n]);
      var mid := RedoPass(dpt, pages, recs[..n]);
      forall i | 0 <= i < n && Redoable(dpt, recs[i])
        ensures recs[i].lsn <= PageLsn(RedoPass(dpt, pages, recs), recs[i].pageId)
      {
        assert recs[..n][i] == recs[i];
        assert PageLsn(mid, recs[i].pageId) <= PageLsn(RedoStep(dpt, mid, recs[n]), recs[i].pageId);
      }
    }
  }

  /** A pageLSN changes only to the LSN of a redoable record on that page. */
  lemma {:induction false} RedoPassOnlyRedoable(dpt: DirtyPageTable, pages: PageLsns, recs: seq<LogRecord>)
    ensures forall p :: PageLsn(RedoPass(dpt, pages, recs), p) != PageLsn(pages, p) ==>
      exists i :: 0 <= i < |recs| && Redoable(dpt, recs[i]) && recs[i].pageId == p &&
        recs[i].lsn == PageLsn(RedoPass(dpt, pages, recs), p)
    decreases |recs|
  {
    if recs != [] {
      var n := |recs| - 1;
      RedoPassOnlyRedoable(dpt, pages, recs[..n]);
      var mid := RedoPass(dpt, pages, recs[..n]);
      var after := RedoPass(dpt, pages, recs);
      forall p | PageLsn(after, p) != PageLsn(pages, p)
        ensures exists i :: (0 <= i < |recs| && Redoable(dpt, recs[i]) && recs[i].pageId == p &&
                             recs[i].lsn == PageLsn(after, p))
      {
        if PageLsn(after, p) != PageLsn(mid, p) {
          assert recs[n].pageId == p && Redoable(dpt, recs[n]);
        } else {
          var k :| 0 <= k < n && Redoable(dpt, recs[..n][k]) && recs[..n][k].pageId == p &&
            recs[..n][k].lsn == PageLsn(mid, p);
          assert recs[k] == recs[..n][k];
        }
      }
    }
  }

  /** A page store that already reflects every redoable record is left alone. */
  lemma {:induction false} RedoPassFixpoint(dpt: DirtyPageTable, pages: PageLsns, recs: seq<LogRecord>)
    requires forall i :: 0 <= i < |recs| && Redoable(dpt, recs[i]) ==> recs[i].lsn <= PageLsn(pages, recs[i].pageId)
    ensures RedoPass(dpt, pages, recs) == pages
    decreases |recs|
  {
    if recs != [] {
      var n := |recs| - 1;
      forall i | 0 <= i < n && Redoable(dpt, recs[..n][i])
        ensures recs[..n][i].lsn <= PageLsn(pages, recs[..n][i].pageId)
      {
        assert recs[..n][i] == recs[i];
      }
      RedoPassFixpoint(dpt, pages, recs[..n]);
    }
  }

  /** With an empty dirty-page table there is nothing to redo. */
  lemma {:induction false} NothingRedoable(dpt: DirtyPageTable, pages: PageLsns, recs: seq<LogRecord>)
    requires dpt == map[]
    ensures RedoPass(dpt, pages, recs) == pages
  {
    RedoPassFixpoint(dpt, pages, recs);
  }

  /** Redo is idempotent: a second pass over the same log changes nothing. */
  lemma RedoIdempotent(dpt: DirtyPageTable, pages: PageLsns, recs: seq<LogRecord>)
    ensures RedoPass(dpt, RedoPass(dpt, pages, recs), recs) == RedoPass(dpt, pages, recs)
  {
    RedoPassCovers(dpt, pages, recs);
    RedoPassFixpoint(dpt, RedoPass(dpt, pages, recs), recs);
  }

  /** A prefix holding no redoable record does not affect the redo scan. */
  lemma {:induction false} RedoPassSkipsInert(dpt: DirtyPageTable, pages: PageLsns, pre: seq<LogRecord>, post: seq<LogRecord>)
    requires forall i :: 0 <= i < |pre| ==> !Redoable(dpt, pre[i])
    ensures RedoPass(dpt, pages, pre + post) == RedoPass(dpt, pages, post)
    decreases |post|
  {
    if post == [] {
      assert pre + post == pre;
      RedoPassFixpoint(dpt, pages, pre);
    } else {
      var n := |post| - 1;
      assert (pre + post)[..|pre + post| - 1] == pre + post[..n];
      RedoPassSkipsInert(dpt, pages, pre, post[..n]);
    }
  }

  /** Records before the minimum recLSN are never redoable, so starting the
      scan there (position = LSN) gives the same pages as scanning the whole log. */
  lemma RedoStartSkipsNothing(log: seq<LogRecord>, dpt: DirtyPageTable, pages: PageLsns, first: Lsn)
    requires IndexedByLsn(log)
    requires forall p :: p in dpt ==> first <= dpt[p]
    ensures RedoPass(dpt, pages, log[StartIndex(first, |log|)..]) == RedoPass(dpt, pages, log)
  {
    var start := StartIndex(first, |log|);
    forall i | 0 <= i < |log[..start]|
      ensures !Redoable(dpt, log[..start][i])
    {
      assert log[..start][i].lsn == i;
    }
    RedoPassSkipsInert(dpt, pages, log[..start], log[start..]);
    assert log[..start] + log[start..] == log;
  }

  /** Analysis keeps a page's LAST dirtying LSN as its recLSN, so an earlier
      update of the same page fails the recLSN test and redo never reapplies
      it, although the page has not seen it. */
  lemma LastWriteRecLsnSkipsEarlierUpdate()
    ensures var log := [Update(0, NullLsn, 1, 5, 0, "a", "b"), Update(1, 0, 1, 5, 0, "b", "c")];
      var dpt := Analyze(log, NullLsn).value.dirtyPages;
      && dpt[5] == 1
      && PageLsn(map[], 5) < log[0].lsn
      && !Redoable(dpt, log[0])
  {
  }
}
