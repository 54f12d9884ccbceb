# BusTub transaction manager and primer matrix library, modelled in Dafny

This project models two parts of the BusTub teaching database.

**The transaction manager** (`module Concurrency`, with the write-record
vocabulary in `module WriteRecords`):

- `Begin` hands out transaction ids from a counter and registers a
  transaction in the id → transaction registry.
- `Commit` finalizes the deferred deletes of the table write-set, newest
  first, and then releases the transaction's locks.
- `Abort` undoes the table write-set, newest first. As written, its index
  loop then repeats the undo of the back index record without ever removing
  it, and so never reaches the lock release (see "## Findings").
- `AbortFixed` is the corrected version: it undoes the index write-set
  newest first, re-inserting the old key for an UPDATE, and then releases
  the locks.

The table heaps, the catalog, the indexes and the lock manager are not
modelled as code. Each call on them is appended to a ghost `trace` of the
`TransactionManager` object. Each method's contract says exactly which
calls it appends, in which order. Those call sequences are given by
specification functions over the write-sets (`CommitCalls`,
`AbortTableCalls`, `IndexUndo`, `IndexUndoAllFixed`). Lemmas relate these
functions to independent descriptions:

- a filter of the DELETE records;
- a reversal;
- position-by-position last-in first-out;
- an index read as a set of entries, on which each undo call acts.

**The primer matrix library** (`module Primer`) is a row-major integer
matrix: a flat array plus an array of row offsets that stands in for the
row pointers. The module has the element accessors, a bulk import, and
addition, multiplication and the simplified GEMM `A * B + C`. Each of the
three operations returns null on mismatched dimensions, and both
directions of that condition are stated. The element-wise result is
stated against `Elem` and the reference `DotProduct`.

The code computes sizes and offsets with `*`, as the source does. The
contracts, invariants and `Valid()` state them through the recursive
`Product` instead, and the lemma `ProductIsMultiplication` bridges the two
where the code uses `*`.

## Model

| member | source | states |
|---|---|---|
| Concurrency.Transaction.constructor | src/concurrency/transaction_manager.cpp:30 | a new transaction has the given id, is GROWING, and has empty table and index write-sets |
| Concurrency.TransactionManager.constructor | src/concurrency/transaction_manager.cpp:23 | the registry starts empty, the id counter at 0, and no calls have been issued |
| Concurrency.TransactionManager.Begin | src/concurrency/transaction_manager.cpp:25-39 | without a handle: a fresh transaction with the current counter value as id, the counter advances by one, GROWING with empty write-sets; with a handle: that handle, counter unchanged; either way the registry is the old one with the returned transaction stored under its id, and every registry entry stays keyed by its own id |
| Concurrency.TransactionManager.Commit | src/concurrency/transaction_manager.cpp:41-65 | the state becomes COMMITTED, the table write-set ends empty, the index write-set is untouched, and the calls issued are exactly CommitCalls of the old table write-set followed by ReleaseLocks |
| WriteRecords.CommitCalls | src/concurrency/transaction_manager.cpp:46-54 | draining the table write-set issues at most one call per record, and every call issued is an ApplyDelete |
| WriteRecords.CommitAppliesDeletesLastFirst | src/concurrency/transaction_manager.cpp:46-54 | Commit's calls are exactly one ApplyDelete per DELETE record, in reverse order of the write-set; INSERT and UPDATE records issue nothing |
| Concurrency.TransactionManager.RollbackTableWrites | src/concurrency/transaction_manager.cpp:70-84 | the table write-set ends empty and the calls issued are exactly AbortTableCalls of the old table write-set |
| WriteRecords.AbortTableCalls | src/concurrency/transaction_manager.cpp:71-83 | the table undo issues exactly one call per record, and each is a table-heap call (RollbackDelete, ApplyDelete or UpdateTuple) |
| WriteRecords.AbortTableCallsLastFirst | src/concurrency/transaction_manager.cpp:71-83 | the k-th call of the table undo is the inverse of the k-th record counted from the back: DELETE by RollbackDelete, INSERT by ApplyDelete, UPDATE by UpdateTuple with the saved tuple |
| WriteRecords.InsertThenUpdateUndoOrder | src/concurrency/transaction_manager.cpp:71-83 | a row inserted and then updated is first restored to its saved tuple and only then deleted |
| WriteRecords.IndexUndo | src/concurrency/transaction_manager.cpp:89-106 | one pass of the index loop as written fails the "index out of range" assertion exactly when the record's slot is not below its table's index count; otherwise it issues only InsertEntry/DeleteEntry calls on the record's rid (what those calls do is stated by IndexUndoAgreesOffUpdate and IndexUndoUpdateKeepsNewKey) |
| WriteRecords.IndexUndoAgreesOffUpdate | src/concurrency/transaction_manager.cpp:97-100 | as written, DELETE and INSERT records are undone exactly as by the corrected pass: the index becomes the old one plus the deleted record's new-key entry, or minus the inserted record's entry, and nothing else changes |
| WriteRecords.IndexUndoUpdateKeepsNewKey | src/concurrency/transaction_manager.cpp:101-106 | as written, undoing an UPDATE leaves the index as it was plus the entry under the new key; an old-key entry that differs and was absent stays absent |
| Concurrency.TransactionManager.Abort | src/concurrency/transaction_manager.cpp:67-119 | as written: ABORTED with an empty table write-set whose undo calls are issued; with no index records the locks are released; otherwise the index loop fails the assertion on an out-of-range back record, or repeats that record's undo calls on every pass without removing the record and never reaches ReleaseLocks |
| WriteRecords.Repeat | src/concurrency/transaction_manager.cpp:87-107 | n passes of the unchanging loop body issue n copies of its calls, of length n times one pass |
| WriteRecords.IndexUndoFixed | src/concurrency/transaction_manager.cpp:89-106 | the corrected pass fails exactly on an out-of-range slot and otherwise issues only InsertEntry/DeleteEntry calls on the record's rid |
| WriteRecords.IndexUndoFixedInverts | src/concurrency/transaction_manager.cpp:97-106 | undoing with the corrected pass inverts the record on the index and changes nothing else: the index becomes exactly the old one plus the deleted entry, minus the inserted entry, or minus the new-key entry plus the old-key entry for an UPDATE (so with different keys the row is indexed under its old key only) |
| WriteRecords.IndexUndoAllFixed | src/concurrency/transaction_manager.cpp:87-107 | the corrected drain issues only index entry calls |
| WriteRecords.IndexUndoAllFixedNewestFirst | src/concurrency/transaction_manager.cpp:87-107 | a corrected drain that does not fail issues, in turn, each record's corrected undo calls, from the most recent record back to the oldest |
| WriteRecords.IndexUndoAllFixedFailsIffOutOfRange | src/concurrency/transaction_manager.cpp:94 | the corrected drain stops at the assertion if and only if some record of the index write-set has an out-of-range slot |
| Concurrency.TransactionManager.RollbackIndexWritesFixed | src/concurrency/transaction_manager.cpp:86-107 | the corrected index loop succeeds exactly when the drain does not fail; on success the index write-set is empty; the calls issued are exactly those of IndexUndoAllFixed |
| Concurrency.TransactionManager.AbortFixed | src/concurrency/transaction_manager.cpp:67-119 | with the corrected index loop Abort always ends: it fails the assertion exactly when some index record is out of range, otherwise both write-sets end empty and ReleaseLocks is issued after all undo calls |
| Primer.ProductIsMultiplication | src/include/primer/p0_starter.h:29 | the recursive Product used for sizes and offsets in every contract and invariant is the product r*c |
| Primer.RowMajorInRange | src/include/primer/p0_starter.h:93 | the row-major index i*cols+j of a cell inside a rows-by-cols matrix lies inside the flat array of rows*cols elements |
| Primer.RowMajorDistinct | src/include/primer/p0_starter.h:71 | two different cells with in-range columns have different row-major indices, so rows laid out through the row pointers do not overlap |
| Primer.RowMatrix.constructor | src/include/primer/p0_starter.h:68-73 | a fresh flat array of r*c elements and a fresh array of row pointers with row i starting at i*c |
| Primer.RowMatrix.GetRows | src/include/primer/p0_starter.h:76 | returns the row count |
| Primer.RowMatrix.GetColumns | src/include/primer/p0_starter.h:79 | returns the column count |
| Primer.RowMatrix.GetElem | src/include/primer/p0_starter.h:82 | reading through row pointer i at column j yields the flat array's element at row-major index i*cols+j |
| Primer.RowMatrix.SetElem | src/include/primer/p0_starter.h:85-87 | cell (i, j) becomes val and every other cell keeps its value |
| Primer.RowMatrix.MatImport | src/include/primer/p0_starter.h:90-96 | the flat array becomes the first rows*cols elements of arr, so cell (i, j) holds arr[i*cols+j] |
| Primer.AddMatrices | src/include/primer/p0_starter.h:116-135 | null exactly when the row or column counts differ; otherwise a fresh matrix of the same dimensions whose every cell is the sum of the two input cells |
| Primer.FillSumRow | src/include/primer/p0_starter.h:130-132 | one pass of the outer loop fills row i with the sums and leaves every other row unchanged |
| Primer.RowTimesColumn | src/include/primer/p0_starter.h:152-155 | the accumulator loop yields the dot product of row i of mat1 and column j of mat2 |
| Primer.FillProductRow | src/include/primer/p0_starter.h:151-157 | one pass of the outer loop fills row i with the dot products and leaves every other row unchanged |
| Primer.MultiplyMatrices | src/include/primer/p0_starter.h:139-160 | null exactly when mat1's column count differs from mat2's row count; otherwise a fresh mat1.rows-by-mat2.cols matrix whose cell (i, j) is the dot product of row i and column j |
| Primer.GemmMatrices | src/include/primer/p0_starter.h:164-173 | null exactly when A*B or the addition of C has mismatched dimensions; otherwise a fresh matrix whose cell (i, j) is the dot product of row i of A and column j of B plus C(i, j) |

## Left out

- The global transaction latch (`RLock` in `Begin`, `RUnlock` in `Commit` and `Abort`, and `BlockAllTransactions`/`ResumeTransactions`) is not modelled. It only serialises threads, and the model is sequential.
- The `enable_logging` branches are not modelled; they are empty.
- Table heaps, the catalog lookup of table metadata and index lists, `KeyFromTuple`, the indexes and `ReleaseLocks` are not modelled as code. Their calls are recorded in the ghost trace. The catalog is reduced to two functions: the index count of a table and the key projection. Every record of one abort is assumed to share the same catalog, while in the source each record carries its own catalog pointer.
- The `txn` argument that the source passes to every storage and index call is not part of the recorded calls.
- Allocation and freeing with `new`/`delete` and pointer ownership are not modelled. The static `txn_map` becomes a field of the manager.
- `TransactionManager.constructor` starts the id counter at 0. The header that declares `next_txn_id_` is not part of this model.
- `Begin` does not model 32-bit wrap-around of the id counter; ids are unbounded integers.
- `index_` of an index write record is taken as a natural number. In C++ a negative `index_` is converted to a huge unsigned value in the comparison `index_list_.size() > item.index_`, so the assertion fires, the same outcome as an out-of-range slot.
- `Abort`: the loop at transaction_manager.cpp:87-107 never ends on a non-empty index write-set. The model follows it for `fuel` passes and reports `StillLooping` after them.
- The matrix element type is `int`; other instantiations of the template are not modelled. Overflow of 32-bit `int` arithmetic is not modelled: neither in the elements (sums and products) nor in the size `r*c` and the offsets `i*c` and `i*cols + j`, which the model computes over unbounded natural numbers.
- Matrix dimensions are natural numbers; negative dimensions are not modelled.
- `Primer.RowMatrix.GetElem`, `SetElem` and `MatImport` perform no bounds checks in the source, and an out-of-range access is undefined behaviour there. The model requires in-range indices, and for `MatImport` an array of at least rows*cols elements.
- The abstract base class `Matrix` and the derived `RowMatrix` are one class, because the model uses no traits. The destructors are not modelled.
- The row pointers `data_` are modelled as offsets into the flat array, held in the `rowStart` array.
- The inner loops (`FillSumRow` for addition, `RowTimesColumn` for multiplication) and the middle loop of multiplication (`FillProductRow`) are separate methods. Each runs exactly the statements of the matching loop in the source.
- `GemmMatrices` passes its `unique_ptr` arguments on by value without `std::move`, which does not compile once the template is instantiated. The model reads these calls as moves. Because ownership is not modelled, nothing else depends on this reading.
- What an undo does to the table heap itself is not modelled; only the calls it issues are. The effect of undo calls on an index is modelled, as a set of entries.

## Findings

| source | as written | input that shows it | evidently intended | confidence | as-written member | corrected member |
|---|---|---|---|---|---|---|
| src/concurrency/transaction_manager.cpp:87-107 | the index undo loop reads the back record but never pops it, so it repeats the same undo forever | an index write-set with one record whose slot is in range | `index_write_set->pop_back()` at the end of each pass, as the table loop does at line 82 | high, not executed | Concurrency.TransactionManager.Abort | Concurrency.TransactionManager.AbortFixed |
| src/concurrency/transaction_manager.cpp:103-105 | on UPDATE the entry under the new key is deleted and then inserted again under the new key; old_key is computed and unused | an UPDATE index record whose old and new tuples project to different keys, with the old-key entry absent from the index | insert the entry under old_key, as the comment at line 102 says | high, not executed | WriteRecords.IndexUndoUpdateKeepsNewKey | WriteRecords.IndexUndoFixedInverts |
