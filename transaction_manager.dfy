/** The transaction manager: id allocation and the registry (Begin), and
    finalizing (Commit) or undoing (Abort) a transaction's write-sets.
    Every call on the storage, index and lock layers is appended to the
    manager's ghost `trace`; the contracts say what the trace grows by. */
module Concurrency {
  import opened WriteRecords

  datatype TransactionState = Growing | Shrinking | Committed | Aborted

  class Transaction {
    const id: TxnId
    var state: TransactionState
    /** Table mutations, in the order they were applied. */
    var writeSet: seq<TableWriteRecord>
    /** Index mutations, in the order they were applied. */
    var indexWriteSet: seq<IndexWriteRecord>

    constructor (id: TxnId)
      ensures this.id == id && state == Growing
      ensures writeSet == [] && indexWriteSet == []
    {
      this.id := id;
      state := Growing;
      writeSet := [];
      indexWriteSet := [];
    }
  }

  /** How Abort ends: it returns, or the "index out of range" assertion
      fails (the process stops), or the index undo loop is still running
      when the model stops following it. */
  datatype AbortOutcome = Completed | AssertionFailure | StillLooping

  class TransactionManager {
    var nextTxnId: TxnId
    /** Registry of transactions by id. */
    var txnMap: map<TxnId, Transaction>
    /** Calls issued on the storage, index and lock layers, oldest first. */
    ghost var trace: seq<Call>

    /** Every transaction is registered under its own id. */
    ghost predicate Valid()
      reads this
    {
      forall id :: id in txnMap ==> txnMap[id].id == id
    }

    constructor ()
      ensures Valid() && nextTxnId == 0 && txnMap == map[] && trace == []
    {
      nextTxnId := 0;
      txnMap := map[];
      trace := [];
    }

    /** Without a handle, creates a transaction with the next id and bumps
        the counter; either way registers the handle under its id,
        replacing any earlier entry, and returns it. */
    method Begin(txn: Transaction?) returns (r: Transaction)
      requires Valid()
      modifies this`nextTxnId, this`txnMap
      ensures Valid()
      ensures txn != null ==> r == txn && nextTxnId == old(nextTxnId)
      ensures txn == null ==> fresh(r) && r.id == old(nextTxnId) && nextTxnId == old(nextTxnId) + 1
      ensures txn == null ==> r.state == Growing && r.writeSet == [] && r.indexWriteSet == []
      ensures txnMap == old(txnMap)[r.id := r]
    {
      if txn == null {
        r := new Transaction(nextTxnId);
        nextTxnId := nextTxnId + 1;
      } else {
        r := txn;
      }
      txnMap := txnMap[r.id := r];
    }

    /** Marks the transaction committed, finalizes its deferred deletes
        from the most recent write back, empties the table write-set and
        releases the transaction's locks. The index write-set is left alone. */
    method Commit(txn: Transaction)
      modifies txn`state, txn`writeSet, this`trace
      ensures txn.state == Committed && txn.writeSet == []
      ensures txn.indexWriteSet == old(txn.indexWriteSet)
      ensures trace == old(trace) + CommitCalls(old(txn.writeSet)) + [ReleaseLocks(txn.id)]
    {
      ghost var goal := trace + CommitCalls(txn.writeSet);
      txn.state := Committed;
      while txn.writeSet != []
        invariant txn.state == Committed
        invariant goal == trace + CommitCalls(txn.writeSet)
        decreases |txn.writeSet|
      {
        var item := Last(txn.writeSet);
        ghost var rest := CommitCalls(DropLast(txn.writeSet));
        assert trace + CommitCalls(txn.writeSet) == (trace + CommitCall(item)) + rest;
        if item.wtype == Delete {
          trace := trace + [ApplyDelete(item.table, item.rid)];
        }
        txn.writeSet := DropLast(txn.writeSet);
      }
      txn.writeSet := [];
      trace := trace + [ReleaseLocks(txn.id)];
    }

    /** The table half of Abort: undoes each table write, most recent
        first, and empties the table write-set. */
    method RollbackTableWrites(txn: Transaction)
      modifies txn`writeSet, this`trace
      ensures txn.writeSet == []
      ensures trace == old(trace) + AbortTableCalls(old(txn.writeSet))
    {
      ghost var goal := trace + AbortTableCalls(txn.writeSet);
      while txn.writeSet != []
        invariant goal == trace + AbortTableCalls(txn.writeSet)
        decreases |txn.writeSet|
      {
        var item := Last(txn.writeSet);
        ghost var rest := AbortTableCalls(DropLast(txn.writeSet));
        assert trace + AbortTableCalls(txn.writeSet) == (trace + [TableUndoCall(item)]) + rest;
        match item.wtype {
          case Delete => trace := trace + [RollbackDelete(item.table, item.rid)];
          case Insert => trace := trace + [ApplyDelete(item.table, item.rid)];
          case Update => trace := trace + [UpdateTuple(item.table, item.tuple, item.rid)];
        }
        txn.writeSet := DropLast(txn.writeSet);
      }
      txn.writeSet := [];
    }

    /** Abort as written. The index undo loop reads the back record but
        never removes it, so with a non-empty index write-set it repeats the
        same calls forever; the model follows it for `fuel` passes. */
    method Abort(txn: Transaction, catalog: Catalog, fuel: nat) returns (outcome: AbortOutcome)
      modifies txn`state, txn`writeSet, txn`indexWriteSet, this`trace
      ensures txn.state == Aborted && txn.writeSet == []
      ensures txn.indexWriteSet == old(txn.indexWriteSet)
      ensures old(txn.indexWriteSet) == [] ==>
        outcome == Completed &&
        trace == old(trace) + AbortTableCalls(old(txn.writeSet)) + [ReleaseLocks(txn.id)]
      ensures old(txn.indexWriteSet) != [] && fuel == 0 ==>
        outcome == StillLooping && trace == old(trace) + AbortTableCalls(old(txn.writeSet))
      ensures old(txn.indexWriteSet) != [] && fuel > 0 && !SlotInRange(catalog, Last(old(txn.indexWriteSet))) ==>
        outcome == AssertionFailure && trace == old(trace) + AbortTableCalls(old(txn.writeSet))
      ensures old(txn.indexWriteSet) != [] && SlotInRange(catalog, Last(old(txn.indexWriteSet))) ==>
        outcome == StillLooping &&
        trace == old(trace) + AbortTableCalls(old(txn.writeSet))
                 + Repeat(IndexUndo(catalog, Last(old(txn.indexWriteSet))).calls, fuel)
    {
      txn.state := Aborted;
      RollbackTableWrites(txn);
      ghost var afterTable := trace;
      var passes := 0;
      while txn.indexWriteSet != [] && passes < fuel
        invariant passes <= fuel
        invariant txn.state == Aborted && txn.writeSet == []
        invariant txn.indexWriteSet == old(txn.indexWriteSet)
        invariant passes > 0 ==> txn.indexWriteSet != [] && SlotInRange(catalog, Last(txn.indexWriteSet))
        invariant txn.indexWriteSet != [] && SlotInRange(catalog, Last(txn.indexWriteSet)) ==>
          trace == afterTable + Repeat(IndexUndo(catalog, Last(txn.indexWriteSet)).calls, passes)
        invariant passes == 0 ==> trace == afterTable
        decreases fuel - passes
      {
        var item := Last(txn.indexWriteSet);
        var undo := IndexUndo(catalog, item);
        if undo.IndexOutOfRange? {
          return AssertionFailure;
        }
        trace := trace + undo.calls;
        passes := passes + 1;
      }
      if txn.indexWriteSet != [] {
        return StillLooping;
      }
      txn.writeSet := [];
      txn.indexWriteSet := [];
      trace := trace + [ReleaseLocks(txn.id)];
      outcome := Completed;
    }

    /** The corrected index half of Abort: undoes each index write, most
        recent first, removing it from the index write-set, and stops at
        the first record whose index slot is out of range. */
    method RollbackIndexWritesFixed(txn: Transaction, catalog: Catalog) returns (ok: bool)
      modifies txn`indexWriteSet, this`trace
      ensures ok == !IndexUndoAllFixed(catalog, old(txn.indexWriteSet)).failed
      ensures ok ==> txn.indexWriteSet == []
      ensures trace == old(trace) + IndexUndoAllFixed(catalog, old(txn.indexWriteSet)).calls
    {
      ghost var d := IndexUndoAllFixed(catalog, txn.indexWriteSet);
      ghost var goal := trace + d.calls;
      while txn.indexWriteSet != []
        invariant goal == trace + IndexUndoAllFixed(catalog, txn.indexWriteSet).calls
        invariant d.failed == IndexUndoAllFixed(catalog, txn.indexWriteSet).failed
        decreases |txn.indexWriteSet|
      {
        var item := Last(txn.indexWriteSet);
        var undo := IndexUndoFixed(catalog, item);
        ghost var rest := IndexUndoAllFixed(catalog, DropLast(txn.indexWriteSet));
        if undo.IndexOutOfRange? {
          assert IndexUndoAllFixed(catalog, txn.indexWriteSet) == Drain([], true);
          return false;
        }
        assert IndexUndoAllFixed(catalog, txn.indexWriteSet) == Drain(undo.calls + rest.calls, rest.failed);
        assert trace + (undo.calls + rest.calls) == (trace + undo.calls) + rest.calls;
        trace := trace + undo.calls;
        txn.indexWriteSet := DropLast(txn.indexWriteSet);
      }
      ok := true;
    }

    /** Abort with the index undo loop corrected: each pass removes the
        back record, and an UPDATE is undone by re-inserting the old key.
        It always ends, and on success both write-sets are empty. */
    method AbortFixed(txn: Transaction, catalog: Catalog) returns (outcome: AbortOutcome)
      modifies txn`state, txn`writeSet, txn`indexWriteSet, this`trace
      ensures txn.state == Aborted && txn.writeSet == []
      ensures outcome != StillLooping
      ensures outcome == AssertionFailure <==> IndexUndoAllFixed(catalog, old(txn.indexWriteSet)).failed
      ensures outcome == Completed ==> txn.indexWriteSet == []
      ensures trace == old(trace) + AbortTableCalls(old(txn.writeSet))
                       + IndexUndoAllFixed(catalog, old(txn.indexWriteSet)).calls
                       + (if outcome == Completed then [ReleaseLocks(txn.id)] else [])
    {
      txn.state := Aborted;
      RollbackTableWrites(txn);
      var ok := RollbackIndexWritesFixed(txn, catalog);
      if !ok {
        return AssertionFailure;
      }
      trace := trace + [ReleaseLocks(txn.id)];
      outcome := Completed;
    }
  }
}
