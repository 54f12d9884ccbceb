/** Write records of a transaction and the calls that finalizing or undoing
    them issues on the storage, catalog and index layers.

    The storage layer (table heaps), the catalog, the indexes and the key
    projection are not modelled: a Commit or an Abort is described by the
    sequence of calls it issues on them, in order. The functions below say
    which sequence that is for a given write-set; the lemmas relate those
    sequences to independent descriptions (filter, reverse, map). */
module WriteRecords {

  type TxnId = int
  /** Identity of the table heap a table write record points at. */
  type TableId = int
  /** Catalog identifier of a table. */
  type TableOid = int
  /** Opaque tuple payload; index keys are tuples as well. */
  type Tuple = seq<int>

  /** A physical record locator: page and slot. */
  datatype Rid = Rid(pageId: int, slotNum: int)

  datatype WType = Insert | Delete | Update

  /** One table mutation done by a transaction. For an update, `tuple`
      holds the value the row had before the update. */
  datatype TableWriteRecord = TableWriteRecord(rid: Rid, wtype: WType, tuple: Tuple, table: TableId)

  /** One index mutation done by a transaction; `indexSlot` selects an
      index in the catalog's list of indexes of `tableOid`. */
  datatype IndexWriteRecord =
    IndexWriteRecord(rid: Rid, tableOid: TableOid, wtype: WType, tuple: Tuple, oldTuple: Tuple, indexSlot: nat)

  /** The catalog, seen through the two things the undo loop uses: how many
      indexes a table has, and the key an index derives from a tuple. */
  datatype Catalog = Catalog(indexCount: TableOid -> nat, keyFromTuple: (TableOid, nat, Tuple) -> Tuple)

  /** A call issued on a collaborator. */
  datatype Call =
    | ApplyDelete(table: TableId, rid: Rid)
    | RollbackDelete(table: TableId, rid: Rid)
    | UpdateTuple(table: TableId, tuple: Tuple, rid: Rid)
    | InsertEntry(tableOid: TableOid, index: nat, key: Tuple, rid: Rid)
    | DeleteEntry(tableOid: TableOid, index: nat, key: Tuple, rid: Rid)
    | ReleaseLocks(txn: TxnId)

  /** The outcome of undoing one index record: its calls, or the failed
      "index out of range" assertion. */
  datatype Undo = Calls(calls: seq<Call>) | IndexOutOfRange

  predicate IsTableCall(c: Call) {
    c.ApplyDelete? || c.RollbackDelete? || c.UpdateTuple?
  }

  function Last<T>(s: seq<T>): T
    requires s != []
  {
    s[|s| - 1]
  }

  function DropLast<T>(s: seq<T>): seq<T>
    requires s != []
  {
    s[..|s| - 1]
  }

  // ---------------------------------------------------------------------
  // Commit: finalize the table write-set

  /** The call Commit issues for one table record: only deferred deletes
      need finalizing. */
  function CommitCall(w: TableWriteRecord): seq<Call> {
    if w.wtype == Delete then [ApplyDelete(w.table, w.rid)] else []
  }

  /** The calls Commit issues while draining `ws` from the back. */
  function CommitCalls(ws: seq<TableWriteRecord>): (r: seq<Call>)
    ensures |r| <= |ws|
    ensures forall c :: c in r ==> c.ApplyDelete?
  {
    if ws == [] then [] else CommitCall(Last(ws)) + CommitCalls(DropLast(ws))
  }

  /** The DELETE records of `ws`, in append order. */
  function Deletes(ws: seq<TableWriteRecord>): seq<TableWriteRecord> {
    if ws == [] then []
    else (if ws[0].wtype == Delete then [ws[0]] else []) + Deletes(ws[1..])
  }

  function Reversed<T>(s: seq<T>): seq<T> {
    seq(|s|, k requires 0 <= k < |s| => s[|s| - 1 - k])
  }

  /** One ApplyDelete per record of `ds`, in the order of `ds`. */
  function ApplyDeletes(ds: seq<TableWriteRecord>): seq<Call> {
    seq(|ds|, k requires 0 <= k < |ds| => ApplyDelete(ds[k].table, ds[k].rid))
  }

  lemma {:induction false} DeletesSnoc(ws: seq<TableWriteRecord>, w: TableWriteRecord)
    ensures Deletes(ws + [w]) == Deletes(ws) + (if w.wtype == Delete then [w] else [])
  {
    var tail := if w.wtype == Delete then [w] else [];
    if ws == [] {
      assert [w][1..] == [];
      assert Deletes([w]) == tail + Deletes([]);
    } else {
      var head := if ws[0].wtype == Delete then [ws[0]] else [];
      assert (ws + [w])[0] == ws[0];
      assert (ws + [w])[1..] == ws[1..] + [w];
      assert Deletes(ws + [w]) == head + Deletes(ws[1..] + [w]);
      DeletesSnoc(ws[1..], w);
      assert Deletes(ws[1..] + [w]) == Deletes(ws[1..]) + tail;
      assert Deletes(ws) == head + Deletes(ws[1..]);
    }
  }

  lemma ReversedSnoc<T>(s: seq<T>, x: T)
    ensures Reversed(s + [x]) == [x] + Reversed(s)
  {
    assert forall k :: 0 <= k < |s| + 1 ==> Reversed(s + [x])[k] == ([x] + Reversed(s))[k];
  }

  lemma ApplyDeletesCons(w: TableWriteRecord, ds: seq<TableWriteRecord>)
    ensures ApplyDeletes([w] + ds) == [ApplyDelete(w.table, w.rid)] + ApplyDeletes(ds)
  {
    assert forall k :: 0 <= k < |ds| + 1 ==>
      ApplyDeletes([w] + ds)[k] == ([ApplyDelete(w.table, w.rid)] + ApplyDeletes(ds))[k];
  }

  /** Commit issues ApplyDelete exactly for the DELETE records, last
      appended first, and nothing for INSERT or UPDATE records. */
  lemma {:induction false} CommitAppliesDeletesLastFirst(ws: seq<TableWriteRecord>)
    ensures CommitCalls(ws) == ApplyDeletes(Reversed(Deletes(ws)))
  {
    if ws != [] {
      var p, w := DropLast(ws), Last(ws);
      assert ws == p + [w];
      assert CommitCalls(ws) == CommitCall(w) + CommitCalls(p);
      CommitAppliesDeletesLastFirst(p);
      DeletesSnoc(p, w);
      var d := Deletes(p);
      if w.wtype == Delete {
        assert Deletes(ws) == d + [w];
        ReversedSnoc(d, w);
        ApplyDeletesCons(w, Reversed(d));
      } else {
        assert Deletes(ws) == d;
      }
    }
  }

  // ---------------------------------------------------------------------
  // Abort: undo the table write-set

  /** The inverse of one table mutation. */
  function TableUndoCall(w: TableWriteRecord): Call {
    match w.wtype
    case Delete => RollbackDelete(w.table, w.rid)
    case Insert => ApplyDelete(w.table, w.rid)
    case Update => UpdateTuple(w.table, w.tuple, w.rid)
  }

  /** The calls Abort issues while draining the table write-set from the back. */
  function AbortTableCalls(ws: seq<TableWriteRecord>): (r: seq<Call>)
    ensures |r| == |ws|
    ensures forall c :: c in r ==> IsTableCall(c)
  {
    if ws == [] then [] else [TableUndoCall(Last(ws))] + AbortTableCalls(DropLast(ws))
  }

  /** Undo is strictly last-in first-out: the k-th call undoes the k-th
      record counted from the back. */
  lemma {:induction false} AbortTableCallsLastFirst(ws: seq<TableWriteRecord>, k: nat)
    requires k < |ws|
    ensures AbortTableCalls(ws)[k] == TableUndoCall(ws[|ws| - 1 - k])
  {
    if k > 0 {
      AbortTableCallsLastFirst(DropLast(ws), k - 1);
    }
  }

  /** A row inserted and then updated: the update is undone before the
      insert is. */
  lemma InsertThenUpdateUndoOrder(t: TableId, r: Rid, v0: Tuple, v1: Tuple)
    ensures AbortTableCalls([TableWriteRecord(r, Insert, v0, t), TableWriteRecord(r, Update, v1, t)])
            == [UpdateTuple(t, v1, r), ApplyDelete(t, r)]
  {
    var ws := [TableWriteRecord(r, Insert, v0, t), TableWriteRecord(r, Update, v1, t)];
    assert DropLast(ws) == [ws[0]];
    assert DropLast([ws[0]]) == [];
  }

  // ---------------------------------------------------------------------
  // Abort: undo the index write-set

  predicate SlotInRange(catalog: Catalog, item: IndexWriteRecord) {
    item.indexSlot < catalog.indexCount(item.tableOid)
  }

  /** The key of the record's tuple under the index it names. */
  function NewKey(catalog: Catalog, item: IndexWriteRecord): Tuple {
    catalog.keyFromTuple(item.tableOid, item.indexSlot, item.tuple)
  }

  /** The key of the record's prior tuple under the index it names. */
  function OldKey(catalog: Catalog, item: IndexWriteRecord): Tuple {
    catalog.keyFromTuple(item.tableOid, item.indexSlot, item.oldTuple)
  }

  /** One pass of the index undo loop over the back record, as written:
      for UPDATE the entry under the new key is deleted and then inserted
      again under the same new key (the old key is computed and unused). */
  function IndexUndo(catalog: Catalog, item: IndexWriteRecord): (u: Undo)
    ensures u.IndexOutOfRange? <==> !SlotInRange(catalog, item)
    ensures u.Calls? ==> forall c :: c in u.calls ==> (c.InsertEntry? || c.DeleteEntry?) && c.rid == item.rid
  {
    if !SlotInRange(catalog, item) then IndexOutOfRange
    else
      var t, x, key := item.tableOid, item.indexSlot, NewKey(catalog, item);
      match item.wtype
      case Delete => Calls([InsertEntry(t, x, key, item.rid)])
      case Insert => Calls([DeleteEntry(t, x, key, item.rid)])
      case Update => Calls([DeleteEntry(t, x, key, item.rid), InsertEntry(t, x, key, item.rid)])
  }

  /** The same pass with the UPDATE case inserting the entry under the old
      key, as the comment in the source says it should. */
  function IndexUndoFixed(catalog: Catalog, item: IndexWriteRecord): (u: Undo)
    ensures u.IndexOutOfRange? <==> !SlotInRange(catalog, item)
    ensures u.Calls? ==> forall c :: c in u.calls ==> (c.InsertEntry? || c.DeleteEntry?) && c.rid == item.rid
  {
    if !SlotInRange(catalog, item) then IndexOutOfRange
    else
      var t, x, key := item.tableOid, item.indexSlot, NewKey(catalog, item);
      match item.wtype
      case Delete => Calls([InsertEntry(t, x, key, item.rid)])
      case Insert => Calls([DeleteEntry(t, x, key, item.rid)])
      case Update => Calls([DeleteEntry(t, x, key, item.rid), InsertEntry(t, x, OldKey(catalog, item), item.rid)])
  }

  function Repeat<T>(s: seq<T>, n: nat): (r: seq<T>)
    ensures |r| == |s| * n
  {
    if n == 0 then [] else Repeat(s, n - 1) + s
  }

  /** Calls issued by draining `ws` from the back with the corrected pass,
      and whether the drain stopped at a record whose slot is out of range. */
  datatype Drain = Drain(calls: seq<Call>, failed: bool)

  function IndexUndoAllFixed(catalog: Catalog, ws: seq<IndexWriteRecord>): (d: Drain)
    ensures forall c :: c in d.calls ==> c.InsertEntry? || c.DeleteEntry?
  {
    if ws == [] then Drain([], false)
    else
      match IndexUndoFixed(catalog, Last(ws))
      case IndexOutOfRange => Drain([], true)
      case Calls(calls) =>
        var rest := IndexUndoAllFixed(catalog, DropLast(ws));
        Drain(calls + rest.calls, rest.failed)
  }

  /** The corrected drain stops at the fatal assertion exactly when some
      record of the write-set names an index slot its table does not have. */
  lemma {:induction false} IndexUndoAllFixedFailsIffOutOfRange(catalog: Catalog, ws: seq<IndexWriteRecord>)
    ensures IndexUndoAllFixed(catalog, ws).failed <==> exists k :: 0 <= k < |ws| && !SlotInRange(catalog, ws[k])
  {
    if ws != [] {
      IndexUndoAllFixedFailsIffOutOfRange(catalog, DropLast(ws));
      assert forall k :: 0 <= k < |ws| - 1 ==> DropLast(ws)[k] == ws[k];
      if !SlotInRange(catalog, Last(ws)) {
        assert !SlotInRange(catalog, ws[|ws| - 1]);
      }
    }
  }

  // ---------------------------------------------------------------------
  // What the index calls do to an index, read as a set of entries

  datatype Entry = Entry(tableOid: TableOid, index: nat, key: Tuple, rid: Rid)

  /** An index as a set of entries: InsertEntry adds one, DeleteEntry
      removes one, other calls leave it alone. */
  function ApplyToIndex(entries: set<Entry>, calls: seq<Call>): set<Entry>
    decreases |calls|
  {
    if calls == [] then entries
    else
      var c := calls[0];
      var next :=
        match c
        case InsertEntry(t, x, key, rid) => entries + {Entry(t, x, key, rid)}
        case DeleteEntry(t, x, key, rid) => entries - {Entry(t, x, key, rid)}
        case _ => entries;
      ApplyToIndex(next, calls[1..])
  }

  function NewEntry(catalog: Catalog, item: IndexWriteRecord): Entry {
    Entry(item.tableOid, item.indexSlot, NewKey(catalog, item), item.rid)
  }

  function OldEntry(catalog: Catalog, item: IndexWriteRecord): Entry {
    Entry(item.tableOid, item.indexSlot, OldKey(catalog, item), item.rid)
  }

  /** As written, undoing an UPDATE leaves the entry for the new key in the
      index and never puts back the entry for the old key. */
  lemma IndexUndoUpdateKeepsNewKey(catalog: Catalog, item: IndexWriteRecord, entries: set<Entry>)
    requires item.wtype == Update && SlotInRange(catalog, item)
    ensures ApplyToIndex(entries, IndexUndo(catalog, item).calls) == entries + {NewEntry(catalog, item)}
    ensures NewEntry(catalog, item) in ApplyToIndex(entries, IndexUndo(catalog, item).calls)
    ensures OldEntry(catalog, item) !in entries && OldKey(catalog, item) != NewKey(catalog, item)
            ==> OldEntry(catalog, item) !in ApplyToIndex(entries, IndexUndo(catalog, item).calls)
  {
    var calls := IndexUndo(catalog, item).calls;
    var e := NewEntry(catalog, item);
    assert calls == [DeleteEntry(e.tableOid, e.index, e.key, e.rid), InsertEntry(e.tableOid, e.index, e.key, e.rid)];
    assert ApplyToIndex(entries, calls) == ApplyToIndex(entries - {e}, calls[1..]);
    assert calls[1..][1..] == [];
    assert ApplyToIndex(entries - {e}, calls[1..]) == entries - {e} + {e};
  }

  /** With the corrected pass each kind of record is undone by its inverse,
      and no other entry of the index changes: a deleted entry is back, an
      inserted entry is gone, and an updated row is indexed under its old
      key instead of its new key. */
  lemma IndexUndoFixedInverts(catalog: Catalog, item: IndexWriteRecord, entries: set<Entry>)
    requires SlotInRange(catalog, item)
    ensures var after := ApplyToIndex(entries, IndexUndoFixed(catalog, item).calls);
            && (item.wtype == Delete ==> after == entries + {NewEntry(catalog, item)})
            && (item.wtype == Insert ==> after == entries - {NewEntry(catalog, item)})
            && (item.wtype == Update ==> after == entries - {NewEntry(catalog, item)} + {OldEntry(catalog, item)})
            && (item.wtype == Update && OldKey(catalog, item) != NewKey(catalog, item)
                ==> NewEntry(catalog, item) !in after && OldEntry(catalog, item) in after)
  {
    var calls := IndexUndoFixed(catalog, item).calls;
    var n, o := NewEntry(catalog, item), OldEntry(catalog, item);
    match item.wtype
    case Delete =>
      assert calls[1..] == [];
      assert ApplyToIndex(entries, calls) == entries + {n};
    case Insert =>
      assert calls[1..] == [];
      assert ApplyToIndex(entries, calls) == entries - {n};
    case Update =>
      assert calls == [DeleteEntry(n.tableOid, n.index, n.key, n.rid), InsertEntry(o.tableOid, o.index, o.key, o.rid)];
      assert ApplyToIndex(entries, calls) == ApplyToIndex(entries - {n}, calls[1..]);
      assert calls[1..][1..] == [];
      assert ApplyToIndex(entries - {n}, calls[1..]) == entries - {n} + {o};
  }

  /** As written, DELETE and INSERT records are undone exactly as by the
      corrected pass: a deleted entry is inserted back under its key, an
      inserted entry is deleted, and no other entry changes. Only UPDATE
      differs. */
  lemma IndexUndoAgreesOffUpdate(catalog: Catalog, item: IndexWriteRecord, entries: set<Entry>)
    ensures item.wtype != Update ==> IndexUndo(catalog, item) == IndexUndoFixed(catalog, item)
    ensures SlotInRange(catalog, item) && item.wtype == Delete ==>
              ApplyToIndex(entries, IndexUndo(catalog, item).calls) == entries + {NewEntry(catalog, item)}
    ensures SlotInRange(catalog, item) && item.wtype == Insert ==>
              ApplyToIndex(entries, IndexUndo(catalog, item).calls) == entries - {NewEntry(catalog, item)}
  {
    if SlotInRange(catalog, item) {
      IndexUndoFixedInverts(catalog, item, entries);
    }
  }

  // ---------------------------------------------------------------------
  // The corrected drain, pass by pass

  /** The calls of one corrected pass, or none when it fails. */
  function PassCalls(catalog: Catalog, item: IndexWriteRecord): seq<Call> {
    match IndexUndoFixed(catalog, item)
    case Calls(calls) => calls
    case IndexOutOfRange => []
  }

  /** The calls of each record's corrected pass, most recent record first. */
  function NewestFirstPasses(catalog: Catalog, ws: seq<IndexWriteRecord>): seq<seq<Call>> {
    seq(|ws|, k requires 0 <= k < |ws| => PassCalls(catalog, ws[|ws| - 1 - k]))
  }

  function Flatten(ss: seq<seq<Call>>): seq<Call> {
    if ss == [] then [] else ss[0] + Flatten(ss[1..])
  }

  /** A drain that does not fail issues each record's inverse in turn, from
      the most recent record back to the oldest. */
  lemma {:induction false} IndexUndoAllFixedNewestFirst(catalog: Catalog, ws: seq<IndexWriteRecord>)
    ensures !IndexUndoAllFixed(catalog, ws).failed ==>
              IndexUndoAllFixed(catalog, ws).calls == Flatten(NewestFirstPasses(catalog, ws))
  {
    if ws != [] && !IndexUndoAllFixed(catalog, ws).failed {
      var p, w := DropLast(ws), Last(ws);
      var passes := NewestFirstPasses(catalog, ws);
      assert IndexUndoFixed(catalog, w).Calls?;
      assert IndexUndoAllFixed(catalog, ws).calls == PassCalls(catalog, w) + IndexUndoAllFixed(catalog, p).calls;
      assert !IndexUndoAllFixed(catalog, p).failed;
      IndexUndoAllFixedNewestFirst(catalog, p);
      assert passes[0] == PassCalls(catalog, w);
      assert passes[1..] == NewestFirstPasses(catalog, p);
      assert Flatten(passes) == passes[0] + Flatten(passes[1..]);
    }
  }
}
