/** The two in-memory tables of ARIES: the transaction table and the
    dirty-page table, with the transaction-table accessors of the log manager. */
module Tables {
  import opened Types

  /** U (undergoing) or C (committed). */
  datatype TxStatus = Undergoing | Committed

  datatype TxEntry = TxEntry(lastLsn: Lsn, status: TxStatus)

  /** Transaction id to its most recent LSN and status. */
  type TxTable = map<TxId, TxEntry>

  /** Page id to its recLSN. */
  type DirtyPageTable = map<PageId, Lsn>

  /** The entry a transaction gets when it is first touched through the table. */
  const FreshEntry: TxEntry := TxEntry(NullLsn, Undergoing)

  /** The LSN of the most recent log record of `t`, or the null LSN when the
      table holds nothing for `t`. */
  function GetLastLsn(table: TxTable, t: TxId): (l: Lsn)
    ensures t !in table ==> l == NullLsn
    ensures t in table ==> l == table[t].lastLsn
  {
    if t in table then table[t].lastLsn else NullLsn
  }

  /** Record `l` as the most recent LSN of `t`; the status of a known
      transaction is kept, an unknown one is entered as undergoing. */
  function SetLastLsn(table: TxTable, t: TxId, l: Lsn): (r: TxTable)
    ensures GetLastLsn(r, t) == l
    ensures r.Keys == table.Keys + {t}
    ensures t in table ==> r[t].status == table[t].status
    ensures forall u :: u in table && u != t ==> r[u] == table[u]
  {
    var e := if t in table then table[t] else FreshEntry;
    table[t := e.(lastLsn := l)]
  }
}
