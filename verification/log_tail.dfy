/** The log tail: records created but not yet forced to durable storage, and
    the flush that forces a prefix of them. */
module LogTail {
  import opened Types
  import opened LogRecords

  /** The records of `s` with LSN at most `maxLsn`, in their order in `s`. */
  function UpTo(s: seq<LogRecord>, maxLsn: Lsn): seq<LogRecord>
  {
    if s == [] then []
    else
      var rest := UpTo(s[..|s| - 1], maxLsn);
      if s[|s| - 1].lsn <= maxLsn then rest + [s[|s| - 1]] else rest
  }

  /** The records of `s` with LSN above `maxLsn`, in their order in `s`. */
  function Above(s: seq<LogRecord>, maxLsn: Lsn): seq<LogRecord>
  {
    if s == [] then []
    else
      var rest := Above(s[..|s| - 1], maxLsn);
      if s[|s| - 1].lsn <= maxLsn then rest else rest + [s[|s| - 1]]
  }

  /** Force every tail record with LSN <= maxLsn to storage and drop it from the
      tail. `written` is the sequence handed to storage, `remaining` the new tail. */
  method FlushLogTail(tail: seq<LogRecord>, maxLsn: Lsn)
    returns (written: seq<LogRecord>, remaining: seq<LogRecord>)
    ensures written == UpTo(tail, maxLsn)
    ensures remaining == Above(tail, maxLsn)
    ensures forall r :: r in written ==> r.lsn <= maxLsn
    ensures forall r :: r in remaining ==> maxLsn < r.lsn
    ensures multiset(written) + multiset(remaining) == multiset(tail)
  {
    written, remaining := [], [];
    var i := 0;
    while i < |tail|
      invariant 0 <= i <= |tail|
      invariant written == UpTo(tail[..i], maxLsn)
      invariant remaining == Above(tail[..i], maxLsn)
    {
      assert tail[..i + 1][..i] == tail[..i];
      if tail[i].lsn <= maxLsn {
        written := written + [tail[i]];
      } else {
        remaining := remaining + [tail[i]];
      }
      i := i + 1;
    }
    assert tail[..i] == tail;
    UpToBounded(tail, maxLsn);
    AboveBounded(tail, maxLsn);
    FlushPreservesRecords(tail, maxLsn);
  }

  /** The loop of the log manager as it stands: it hands the same records to
      storage but never removes them, so the tail comes back unchanged. */
  method FlushLogTailAsWritten(tail: seq<LogRecord>, maxLsn: Lsn)
    returns (written: seq<LogRecord>, remaining: seq<LogRecord>)
    ensures written == UpTo(tail, maxLsn)
    ensures remaining == tail
  {
    written := [];
    var i := 0;
    while i < |tail|
      invariant 0 <= i <= |tail|
      invariant written == UpTo(tail[..i], maxLsn)
    {
      assert tail[..i + 1][..i] == tail[..i];
      if tail[i].lsn <= maxLsn {
        written := written + [tail[i]];
      }
      i := i + 1;
    }
    assert tail[..i] == tail;
    remaining := tail;
  }

  /** Flushing splits the tail: no record is lost or duplicated. */
  lemma {:induction false} FlushPreservesRecords(s: seq<LogRecord>, maxLsn: Lsn)
    ensures multiset(UpTo(s, maxLsn)) + multiset(Above(s, maxLsn)) == multiset(s)
    decreases |s|
  {
    if s != [] {
      var init := s[..|s| - 1];
      FlushPreservesRecords(init, maxLsn);
      assert init + [s[|s| - 1]] == s;
    }
  }

  /** Every LSN in `s` is below `bound`. */
  ghost predicate AllBelow(s: seq<LogRecord>, bound: Lsn) {
    forall r :: r in s ==> r.lsn < bound
  }

  lemma LastAboveInit(s: seq<LogRecord>)
    requires s != [] && Ascending(s)
    ensures AllBelow(s[..|s| - 1], s[|s| - 1].lsn)
  {
  }

  lemma AppendAscending(a: seq<LogRecord>, x: LogRecord)
    requires Ascending(a) && AllBelow(a, x.lsn)
    ensures Ascending(a + [x])
  {
  }

  /** On an LSN-ascending tail both parts of a flush stay ascending. */
  lemma {:induction false} FlushKeepsOrder(tail: seq<LogRecord>, maxLsn: Lsn)
    requires Ascending(tail)
    ensures Ascending(UpTo(tail, maxLsn)) && Ascending(Above(tail, maxLsn))
    decreases |tail|
  {
    if tail != [] {
      var init := tail[..|tail| - 1];
      var last := tail[|tail| - 1];
      FlushKeepsOrder(init, maxLsn);
      LastAboveInit(tail);
      InElementsOfUpTo(init, maxLsn);
      InElementsOfAbove(init, maxLsn);
      if last.lsn <= maxLsn {
        AppendAscending(UpTo(init, maxLsn), last);
      } else {
        AppendAscending(Above(init, maxLsn), last);
      }
    }
  }

  /** On an LSN-ascending tail the flushed records are exactly a prefix and
      the remaining ones the rest. */
  lemma {:induction false} FlushSplitsAscendingTail(tail: seq<LogRecord>, maxLsn: Lsn)
    requires Ascending(tail)
    ensures UpTo(tail, maxLsn) + Above(tail, maxLsn) == tail
    decreases |tail|
  {
    if tail != [] {
      var init := tail[..|tail| - 1];
      var last := tail[|tail| - 1];
      FlushSplitsAscendingTail(init, maxLsn);
      assert init + [last] == tail;
      if last.lsn <= maxLsn {
        LastAboveInit(tail);
        InElementsOfAbove(init, maxLsn);
        AboveBounded(init, maxLsn);
        // Everything in init precedes last, so init holds nothing above maxLsn.
      }
    }
  }

  lemma {:induction false} UpToBounded(s: seq<LogRecord>, maxLsn: Lsn)
    ensures forall r :: r in UpTo(s, maxLsn) ==> r.lsn <= maxLsn
    decreases |s|
  {
    if s != [] {
      UpToBounded(s[..|s| - 1], maxLsn);
    }
  }

  lemma {:induction false} AboveBounded(s: seq<LogRecord>, maxLsn: Lsn)
    ensures forall r :: r in Above(s, maxLsn) ==> maxLsn < r.lsn
    decreases |s|
  {
    if s != [] {
      AboveBounded(s[..|s| - 1], maxLsn);
    }
  }

  lemma {:induction false} InElementsOfUpTo(s: seq<LogRecord>, maxLsn: Lsn)
    ensures forall r :: r in UpTo(s, maxLsn) ==> r in s
    decreases |s|
  {
    if s != [] {
      InElementsOfUpTo(s[..|s| - 1], maxLsn);
    }
  }

  lemma {:induction false} InElementsOfAbove(s: seq<LogRecord>, maxLsn: Lsn)
    ensures forall r :: r in Above(s, maxLsn) ==> r in s
    decreases |s|
  {
    if s != [] {
      InElementsOfAbove(s[..|s| - 1], maxLsn);
    }
  }

  /** Once flushed up to maxLsn, a second flush with the same bound hands
      nothing more to storage. */
  lemma {:induction false} FlushTwiceWritesNothing(tail: seq<LogRecord>, maxLsn: Lsn)
    ensures UpTo(Above(tail, maxLsn), maxLsn) == []
  {
    AboveBounded(tail, maxLsn);
    NothingUpTo(Above(tail, maxLsn), maxLsn);
  }

  lemma {:induction false} NothingUpTo(s: seq<LogRecord>, maxLsn: Lsn)
    requires forall r :: r in s ==> maxLsn < r.lsn
    ensures UpTo(s, maxLsn) == []
    decreases |s|
  {
    if s != [] {
      assert s[|s| - 1] in s;
      NothingUpTo(s[..|s| - 1], maxLsn);
    }
  }

  /** The code as written keeps flushed records in the tail: flushing a
      one-record tail twice with the same bound writes that record twice. */
  method AsWrittenFlushDuplicates() returns (first: seq<LogRecord>, second: seq<LogRecord>)
    ensures |first| == 1 && first == second
  {
    var r := Commit(1, NullLsn, 7);
    var tail;
    first, tail := FlushLogTailAsWritten([r], 1);
    second, tail := FlushLogTailAsWritten(tail, 1);
  }
}
