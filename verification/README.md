# SQLGo in Dafny

A Dafny model of the core of SQLGo, a small SQL database written in Go and C, with proofs of what
that core promises. `dafny verify dfyconfig.toml` checks everything.

- **Pages** (`bytes`, `page`, `page_ops`). A page is an array of 4096 bytes with a header, slots
  that grow up and cells that grow down. Every accessor and every loop of `ops.c` works on the
  array in place; what a page means is the sequence of cells its bytes hold.
- **The B-tree** (`tree*`, `btree`, `btree_run`, `cursor`). Trees of views specify what the pages
  hold; class `BTree` descends, inserts, splits and deletes over page objects, class `Cursor` walks
  them with an explicit stack, and each method is proved against the trees.
- **The pager** (`lru`, `eviction`, `pager`, `pager_run`). Class `LruCache` keeps a map and a
  list, class `Pager` a file, a cache and a free list. The cache is invisible over any run, and a
  flush makes a run durable.
- **Transactions** (`rollback`, `rollback_exact`, `transaction`, `transaction_run`).
  Copy-on-first-write savepoints, over any run and with duplicate names, and exactly when a
  rollback shows what was saved.
- **The SQL front end** (`lexer`, `syntax`, `printing*`, `parser`, `compound_order`, `precedence`,
  `sentences`). Class `Parser` is the precedence-descent parser for expressions and SELECT over a
  mutable position. A printer with minimal parentheses is its reference: parsing undoes it, however
  the optional words are spelled. How tightly the operators bind, and which part of a sentence goes
  where, is also stated of the tokens themselves. Class `Lexer` undoes QUOTE.
- **Tables** (`row`, `layout`, `values`, `table_index`, `table_row`, `table`, `table_run`, `scan`).
  The row codec and the stored formats byte by byte, the texts and coercions of values, the row
  that a statement makes, the table engine with its secondary indexes, and scans in id order.
- **Queries** (`like`, `group_key`, `groupby`). LIKE and GLOB against segmentations; GROUP BY, its
  keys, and the aggregates.

## What the proofs found

Where the code falls short of what one would expect, the model follows the code and the exact
condition is proved.

- A key that a leaf split promoted to a separator stays in the leaf on its right but is never
  found by Get (`Trees.LookupExact`); inserting such a key again, or splitting a leaf that is not
  its parent's rightmost child, leaves the tree out of order, and nothing else does
  (`TreeInsert.InsertExact`).
- Halving a leaf by count is safe for cells of up to 206 bytes and not beyond
  (`TreeSplit.HalvingBound`, `TreeSplit.CrampedLeaf`).
- An overwrite in place harms the page exactly when the new bytes reach another live cell
  (`Pages.RewriteExact`).
- A walk yields the cells of the tree exactly when no leaf is empty or there are no cells; at an
  empty leaf it yields a separator instead, a second copy of a cell (`Cursors.WalkExact`,
  `TreeCursor.AtShows`).
- Rollback clears the dirty mark, so a page put back differs from its file copy unless the file
  already held the saved bytes, and the next eviction loses it (`RollbackExact.PutBackIsLost`). A
  read keeps every snapshot exactly when what it pushes out may leave
  (`Transactions.GetKeepsExact`), and a rollback shows what was saved exactly when what it pushes
  out is safe (`RollbackExact.ShowsExact`).
- Nothing in the repository calls SavePage, so a rollback by itself has nothing to put back,
  although the README of the repository lists transactions.
- A primary key given as 0 is taken as absent (`Tables.KeyColumnIsId`), and an UPDATE of the key
  column leaves the row under its old id (`Tables.PutKeepsKeys`); REPLACE leaves stale index
  entries exactly when an indexed text changed (`Tables.TableEngine.InsertWithConflict`); negative
  ids sort last (`TableIndex.RowKeyOrder`).
- Group keys are compared by their texts: exactly the values that spell alike fall together, and
  beyond those exactly the keys with a NUL in a text can be confused (`GroupKeys.GroupKeyExact`,
  `GroupKeys.GroupKeyCollides`).
- SUM forgets real numbers and texts as soon as one integer is among the values
  (`Grouping.SumForgets`).
- ORDER BY, LIMIT and OFFSET behind a set operation go to the innermost right side that has not
  passed their place (`CompoundOrder.ParseSpelledSelect`). LIKE reads its escape character behind
  MATCH (`Parsers.Parser.ParseLike`). NOT EXISTS is one node only where NOT is not read first
  (`Parsers.ParsePrintedExpr`).
- A hexadecimal number with a digit E is taken for a floating-point number, and so refused where
  that cannot be read (`Syntax.HexExact`, `Syntax.HexWithE`).
- LIKE folds the pattern but not the escape, so a letter does not work as one
  (`Wildcards.EscapeExact`).

## Model

| member | source | states |
|---|---|---|
| Bytes.DecodeEncodeBE | internal/storage/ops.c:59-75 | Decoding gives back every number that fits the width, for 2, 4 and 8 bytes alike. |
| Bytes.EncodeUint64BE | internal/storage/ops.c:59-68 | The eight shifted stores write the eight low-order bytes, most significant first, and nothing behind them. |
| Bytes.KeyCmpIsLess | internal/storage/ops.c:47-57 | The sign of the memcmp-then-length comparison is the lexicographic order: less, equal or greater exactly when the keys are. |
| Bytes.KeyCmpTotalOrder | internal/storage/ops.c:47-57 | The comparison is antisymmetric, zero only on equal keys, and transitive. |
| Bytes.BigEndianOrder | internal/storage/table.go:33-37 | Fixed-width big-endian encoding embeds the unsigned order of numbers into the key order, both ways. |
| Pages.CellRoundTrip | internal/storage/ops.c:5-41 | A cell decodes to itself from any offset of any buffer that holds its bytes, and decoding tells where it ends. |
| Layouts.CellLayout | internal/storage/ops.c:5-41 | The bytes of a cell: left pointer, the two lengths, key, value, at their offsets. |
| Layouts.PageLayout | internal/storage/pager.go:48-109 | Where a page keeps its type, its counts, its pointer, and each cell. |
| Pages.LiveCellsFit | internal/storage/pager.go:84-90 | In a well-formed page the live cells, being disjoint, together fit between the content offset and the end of the page. |
| Pages.RewriteExact | internal/storage/btree.go:559-568 | An overwrite in place leaves a well-formed page with exactly that cell replaced if and only if the new bytes fit the page and touch no other live cell. |
| Pages.NoGrowthHasRoom | internal/storage/btree.go:559-568 | A cell that does not grow always has that room. |
| Pages.InsertedView | internal/storage/btree.go:543-557 | Bytes with the slots moved up and the cell put below the content offset are a well-formed page with the cell inserted at that place. |
| Pages.RemovedView | internal/storage/btree.go:570-575 | Bytes with the slots moved down are a well-formed page without that cell. |
| PageOps.LowerBoundSorted | internal/storage/ops.c:89-116 | On sorted cells the lower bound splits the smaller keys from the larger ones, and the key is present exactly at the bound. |
| PageOps.PageBinarySearch | internal/storage/ops.c:89-116 | The lo/hi loop over slots returns that lower bound, and found exactly when a cell has the key. |
| PageOps.Page.constructor | internal/storage/pager.go:334-362 | A new page is zeroed, clean and unpinned. |
| PageOps.Page.BinarySearch | internal/storage/ops.c:89-116 | The same over the bytes of a valid page. |
| PageOps.Page.ShiftUp | internal/storage/ops.c:143-165 | The in-place loop moves slots from..to up by one and leaves every other byte alone. |
| PageOps.Page.ShiftDown | internal/storage/ops.c:143-165 | The in-place loop moves slots from+1..to+1 down by one and leaves every other byte alone. |
| PageOps.Page.FreeSpace | internal/storage/ops.c:118-129 | The free space is what lies between the slot array and the content offset, and 0 if they meet. |
| PageOps.Page.InsertCellAt | internal/storage/btree.go:543-557 | With room for the cell and its slot the page stays well-formed and holds the old cells with this one inserted at idx; without, ErrPageFull and not one byte changes. |
| PageOps.Page.InsertCell | internal/storage/btree.go:527-541 | The same at the end of the slot array. |
| PageOps.Page.RewriteCell | internal/storage/btree.go:559-568 | Succeeds exactly when the bytes stay inside the page; the result is a valid page with that cell replaced exactly when there was room at its offset; a cell that does not grow always works. |
| PageOps.Page.RemoveCellAt | internal/storage/btree.go:570-575 | The page stays well-formed and loses exactly that cell. |
| PageOps.Page.ClearPage | internal/storage/btree.go:516-525 | The page is left valid and without cells, with its type and rightmost pointer. |
| PageOps.Page.CollectCells | internal/storage/btree.go:489-500 | The loop returns the live cells in slot order. |
| Trees.OrderedFlatten | internal/storage/btree.go:428-487 | The cells of an ordered tree, read left to right, are strictly sorted and inside its range. |
| Trees.LookupExact | internal/storage/btree.go:66-104 | Get returns a value exactly when the tree holds that pair and the key is no separator of an internal page: a promoted key is in the tree and is not found. |
| TreeInsert.UpsertSorted | internal/storage/btree.go:502-514 | Inserting a cell in order, or replacing the one with its key, keeps the cells sorted and adds nothing else. |
| TreeInsert.InsertExact | internal/storage/btree.go:144-211 | Below the root, the result is ordered if and only if the key is no separator and the leaf reached does not split unless it is its parent's rightmost child; the cells are then the old ones with this one inserted or replaced in order. |
| TreeInsert.MisplacedSeparator | internal/storage/btree.go:187-193 | The converse at one page: appending the separator of a child that is not rightmost always destroys the order. |
| TreeInsert.SeparatorHit | internal/storage/btree.go:153-172 | The converse for a key equal to a separator: it is inserted to the left of itself and the tree is no longer ordered. |
| TreeInsert.InsertLands | internal/storage/btree.go:144-211 | Ordered or not, an insertion always leaves a cell with the key in the tree. |
| TreeSplit.HalvingBound | internal/storage/btree.go:217-246 | Halving an overflowing leaf by count never hits ErrPageFull for cells of at most b bytes if and only if b is at most 206. |
| TreeSplit.CrampedLeaf | internal/storage/btree.go:217-246 | The witness: a full leaf of cells of at most 207 bytes and a 207-byte cell whose split has a half that does not fit. |
| TreeDelete.DeleteExact | internal/storage/btree.go:289-337 | Deleting a key that is no separator keeps order and shape and removes exactly the cell with that key. |
| TreeRun.SmallFits | internal/storage/btree.go:144-211 | With cells of at most 206 bytes, a new key that is no separator can be inserted unless the parent of the split leaf is full. |
| TreeRun.InsertKeepsGood | internal/storage/btree.go:106-142 | An order-keeping insertion keeps shape, order, distinct page ids, small cells and non-empty leaves, and upserts the pair. |
| TreeRun.AppendStep | internal/storage/btree.go:106-142 | A key beyond all others can be inserted, descends along the right edge, meets no separator, and appends its pair. |
| TreeRun.AscendingRun | internal/storage/btree.go:106-246 | Every run of insertions with strictly ascending keys and cells of at most 206 bytes, up to the first internal-page overflow: the tree stays ordered with no empty leaf, a full walk yields exactly the inserted pairs in order, and Get finds exactly those whose key no split promoted. |
| BTreeRun.InsertAscending | internal/storage/btree.go:106-246 | The same of the code, end to end: looping Insert over page objects and then draining a cursor gives exactly the inserted pairs in order, in a well-formed ordered tree where Get finds exactly those whose key is no separator. |
| TreeCursor.StopsFlatten | internal/storage/btree.go:428-487 | The stops of a walk that are cells are exactly the cells of the tree, in order, for any tree. |
| TreeCursor.AtIsStop | internal/storage/btree.go:384-426 | The stack at stop p is a root-to-page path whose top frame is the p-th cell, or the pointer to an empty leaf. |
| TreeCursor.AtShows | internal/storage/btree.go:416-426 | The cell under the top frame is what the walk shows: at an empty leaf a separator, which is a second copy of a cell. |
| TreeCursor.StepAt | internal/storage/btree.go:428-487 | One step from stop p is along the leaf, or leaves the page with p + 1 stops done. |
| TreeCursor.StepDown | internal/storage/btree.go:428-487 | From a finished child that is not the last, the leftmost path of the next child is the next stop. |
| TreeCursor.StepUp | internal/storage/btree.go:428-487 | From a finished last child, its parent is finished too, or the walk is over. |
| TreeCursor.CursorStepsExact | internal/storage/btree.go:372-487 | The cursor takes exactly as many steps as there are cells if and only if no leaf is empty or there are no cells; without empty leaves stop i is cell i. |
| BTrees.BTree.Get | internal/storage/btree.go:62-64 | On pages that hold an ordered tree, Get returns what the lookup on the tree returns, without error. |
| BTrees.BTree.Search | internal/storage/btree.go:66-104 | The descent loop terminates at a leaf with the lookup's answer, by the height of the tree. |
| BTrees.BTree.SearchPage | internal/storage/btree.go:66-104 | One turn: the value under the key at a leaf, else the child pointer at the lower bound, left on equality. |
| BTrees.BTree.InsertLeaf | internal/storage/btree.go:196-215 | The pages afterwards hold the rewritten or split leaf that the insertion on trees gives; a page is allocated exactly when it splits. |
| BTrees.BTree.InsertInto | internal/storage/btree.go:144-194 | The pages afterwards hold the resulting subtree, the overflow reported is its separator and new page, and no page outside the subtree changes. |
| BTrees.BTree.AddToParent | internal/storage/btree.go:172-193 | The parent page becomes the node with the separator appended and the pointers redirected. |
| BTrees.BTree.Insert | internal/storage/btree.go:106-142 | The pages hold the tree that the insertion gives, under a new root if the old one split; where the insertion keeps the order this is an ordered tree with the pair put in place. |
| BTrees.BTree.InsertTopLive | internal/storage/btree.go:106-142 | A key that keeps the order keeps the whole tree well-formed and ordered, root growth included, and upserts its pair. |
| BTrees.BTree.CreateRoot | internal/storage/btree.go:107-118 | The first insertion allocates an empty root leaf. |
| BTrees.BTree.GrowRoot | internal/storage/btree.go:123-140 | The new root page holds the separator between the two halves of the old root. |
| BTrees.BTree.SplitLeaf | internal/storage/btree.go:217-246 | The page and a newly allocated one hold the first and second half of the old cells with the new one inserted; the separator is the first cell on the right, which keeps it. |
| BTrees.BTree.SplitStored | internal/storage/btree.go:217-246 | Writing the two halves to the old and the new page is the split of the tree. |
| BTrees.BTree.WriteHalves | internal/storage/btree.go:225-244 | Only the split page and the newly allocated page change, and they hold the first and the second part of the cells. |
| BTrees.BTree.FillPage | internal/storage/btree.go:235-244 | Cells that together fit an empty page all go in, in order. |
| BTrees.BTree.InsertSorted | internal/storage/btree.go:502-514 | The loop inserts a new key before the first larger one, which is in order. |
| BTrees.BTree.Delete | internal/storage/btree.go:285-287 | For a key that is no separator: reports whether it was there, removes exactly its cell, allocates nothing. |
| BTrees.BTree.DeleteFrom | internal/storage/btree.go:289-337 | The pages afterwards hold the subtree without the key, and no page outside it changes. |
| Cursors.Cursor.constructor | internal/storage/btree.go:372-382 | A new cursor stands at stop 0, or at the end when there is no root. |
| Cursors.Cursor.Rewind | internal/storage/btree.go:384-412 | The stack is the leftmost path; an empty first leaf ends the walk at once. |
| Cursors.Cursor.Current | internal/storage/btree.go:416-426 | Current is what the walk shows at its stop: the leaf cell, or at an empty leaf the separator that points to it. |
| Cursors.Cursor.Advance | internal/storage/btree.go:428-487 | Advance goes from stop p to stop p + 1, or past the end after the last one, and then stays there. |
| Cursors.CountCells | internal/storage/table.go:338-356 | Count returns the number of steps, which is the number of cells exactly when no leaf is empty or there are no cells. |
| Cursors.CollectCells | internal/storage/table.go:168-209 | Draining a cursor yields exactly what the walk shows, stop by stop. |
| Cursors.WalkExact | internal/storage/btree.go:372-487 | That is exactly the cells of the tree, each once, left to right, if and only if no leaf is empty or there are no cells. |
| Lru.RecentMeaning | internal/storage/pager.go:174-234 | The reference list is the distinct referenced ids, ordered by last reference, latest first. |
| Lru.CutTouch | internal/storage/pager.go:174-215 | One more reference to a cache of the cap most recent ids leaves the cap most recent ids. |
| Lru.PutIsReference | internal/storage/pager.go:186-215 | Without pins, put on such a list is one more reference. |
| Lru.PutOrderIds | internal/storage/pager.go:186-215 | With or without pins, put never duplicates an id, adds only its own and drops at most the last, unpinned one. |
| Lru.Residency | internal/storage/pager.go:174-234 | An id is still cached if and only if fewer than cap other distinct ids were referenced since. |
| Evictions.MovedIsRecent | internal/storage/pager.go:186-215 | After any pages are read, with any capacity and any list to begin with, the list is the pages by last use, then the old list, cut to the room there is. |
| Evictions.StaysExact | internal/storage/pager.go:186-215 | A page not read again stays cached if and only if fewer pages than there is room for are ahead of it or read. |
| Evictions.PutStaysExact | internal/storage/pager.go:186-215 | A page that was read stays cached if and only if fewer pages than there is room for are read after it. |
| Lru.LruCache.Get | internal/storage/pager.go:174-184 | A hit returns the page and moves the id to the front; a miss changes nothing; map and list stay in bijection and the list stays the most recent ids. |
| Lru.LruCache.Put | internal/storage/pager.go:186-215 | The map and list after a hit, an insertion, an eviction and a pinned last page; they stay in bijection, and without a pin the list stays the most recent ids. |
| Lru.LruCache.Remove | internal/storage/pager.go:227-234 | The id leaves both map and list. |
| Pagers.EvictExact | internal/storage/pager.go:355-360 | Evicting a page is invisible if and only if the page was settled (clean implies equal to the file); no other page is affected. |
| Pagers.PutKeeps | internal/storage/pager.go:334-394 | Whatever page is brought in, every other settled page reads as before and stays settled. |
| Pagers.ReadInTransparent | internal/storage/pager.go:334-362 | Reading a page in from the file, with an eviction, changes no page. |
| Pagers.GetTransparent | internal/storage/pager.go:334-362 | GetPage, hit or miss, changes no page when every page is settled. |
| Pagers.WriteBackExact | internal/storage/pager.go:441-463 | Writing back the listed pages changes no page and cleans exactly the listed ones. |
| Pagers.FlushedFile | internal/storage/pager.go:441-463 | After the flush loop the file holds every settled page as it read before. |
| Pagers.HeaderRoundTrip | internal/storage/pager.go:125-150 | A header decodes to itself whatever pads its page. |
| Layouts.HeaderLayout | internal/storage/pager.go:115-150 | The bytes of the file header: the magic and the six numbers at their offsets. |
| Pagers.Pager.Create | internal/storage/pager.go:291-314 | A new database file is a header page and an empty schema leaf, with every page settled. |
| Pagers.Pager.Open | internal/storage/pager.go:316-330 | Opening starts from the file alone: nothing cached, every page settled. |
| Pagers.Pager.GetPage | internal/storage/pager.go:334-362 | Returns the page with its logical contents, moves it to the front of the list and writes a dirty victim back first; an unreadable page changes nothing. |
| Pagers.Pager.AllocatePage | internal/storage/pager.go:364-394 | The last freed id, or the next new one, with a clean zeroed page; the victim, if dirty, is written back. |
| Pagers.Pager.FreePage | internal/storage/pager.go:396-401 | The id joins the free list and only its cached copy is dropped. |
| Pagers.Pager.WritePage | internal/storage/pager.go:431-439 | The file holds the page at its place, holes before it zero, and the page is clean. |
| Pagers.Pager.FlushAll | internal/storage/pager.go:441-463 | The header is written, then each dirty cached page in list order, which is the write-back the lemmas speak of. |
| PagerRun.CacheIsInvisible | internal/storage/pager.go:334-463 | Over any run of page reads, writes, allocations, frees and flushes, every page reads as in a plain map without cache or file. |
| PagerRun.FlushedRunIsDurable | internal/storage/pager.go:441-463 | A run that ends with a flush leaves the header and every page of that plain map in the file, for an empty cache to read. |
| Transactions.SaveKeeps | internal/storage/transaction.go:38-50 | Copy-on-first-write into the transaction and every savepoint keeps all snapshots restorable. |
| Transactions.ChangeKeeps | internal/storage/transaction.go:38-50 | Pages saved everywhere may then change freely without losing a snapshot. |
| Transactions.MarkKeeps | internal/storage/transaction.go:52-63 | A new savepoint restores the present state, and the outer ones still restore theirs. |
| Transactions.ReleaseKeeps | internal/storage/transaction.go:65-75 | Dropping a savepoint and those inside it loses no outer snapshot. |
| Transactions.RollbackKeeps | internal/storage/transaction.go:77-102 | Putting a savepoint's pages back shows its snapshot, keeps it open with nothing saved, and keeps the outer ones. |
| Transactions.KeepsExact | internal/storage/transaction.go:38-134 | When one page changes, every snapshot can still be restored if and only if that page is still what each snapshot needs. |
| Transactions.GetKeepsExact | internal/storage/pager.go:334-362 | Reading a page keeps every snapshot if and only if the page it pushes out is settled, or is saved or unknown in every snapshot and readable again. |
| Rollbacks.RestorableRestores | internal/storage/transaction.go:91-98 | A rollback shows every saved page and changes no other, in whatever order the map is walked, when the saved pages have room together and each page that reading them can push out is settled, or is put back itself and can be read again; each page put back is settled afterwards exactly when the file holds its saved bytes. |
| Rollbacks.RestorableWhen | internal/storage/transaction.go:91-98 | That is so whenever all saved pages are cached, and whenever every page is settled and the capacity suffices. |
| RollbackExact.ShowsExact | internal/storage/transaction.go:91-98 | For pages with their place in the file and any order of the walk: a rollback shows every saved page and changes no other if and only if the pages it leaves alone and can push out are settled, and the pages it puts back too early to stay cached are in the file as saved. |
| RollbackExact.RoomForAll | internal/storage/transaction.go:91-98 | When the saved pages have room together this is so, in whatever order the map is walked, if and only if they are restorable in that sense. |
| RollbackExact.FirstIsLost | internal/storage/transaction.go:91-98 | Without that room, a rollback whose first page differs in the file always loses it. |
| RollbackExact.PutBackIsLost | internal/storage/transaction.go:91-98 | The witness for clearing Dirty: a page is put back, shown, and lost by the next read. |
| Transactions.PutBackKeepsOuter | internal/storage/transaction.go:77-102 | Because inner saved sets nest in outer ones, putting back an inner one loses no outer snapshot. |
| Transactions.Transaction.SavePage | internal/storage/transaction.go:38-50 | The page's bytes are kept exactly where no copy was kept yet. |
| Transactions.Transaction.Write | internal/storage/btree.go:543-557 | Every snapshot is kept if and only if the written page is still what each needs; so it is after SavePage. |
| Transactions.Transaction.Fetch | internal/storage/pager.go:334-362 | Returns the page as it reads, in any state; every snapshot is kept if and only if the page pushed out may leave. |
| Transactions.Transaction.Savepoint | internal/storage/transaction.go:52-63 | Opens a savepoint whose snapshot is the present state; refused when not active. |
| Transactions.Transaction.FindSavepoint | internal/storage/transaction.go:65-91 | The loop finds the innermost savepoint of that name, or none. |
| Transactions.Transaction.ReleaseSavepoint | internal/storage/transaction.go:65-75 | Drops the innermost savepoint of the name and all inside it, or fails and changes nothing. |
| Transactions.Transaction.RollbackToSavepoint | internal/storage/transaction.go:77-102 | In any state, puts back the pages saved by the innermost savepoint of that name, in some order, and keeps only it, empty, and the outer ones; when they are restorable the store shows its snapshot and every outer one is kept. |
| Transactions.Transaction.Rollback | internal/storage/transaction.go:116-134 | In any state of an active transaction, puts back every page saved since it began, in some order; when they are restorable the store shows the beginning. |
| Transactions.Transaction.Commit | internal/storage/transaction.go:104-114 | Ends the transaction with every settled page in the file as it read. |
| TransactionRun.NextExact | internal/storage/transaction.go:38-134 | One step keeps every snapshot if and only if what its read pushes out may leave. |
| TransactionRun.RunKeeps | internal/storage/transaction.go:38-134 | In every state of every run of reads, saved writes, savepoints, releases and restorable rollbacks whose reads are careful, duplicate names included, overlaying the copies of savepoint j (or of the transaction) gives the snapshot taken there, and inner saved sets nest in outer. |
| TransactionRun.RunKeepsExact | internal/storage/transaction.go:38-134 | And only in those runs: all snapshots can be restored throughout if and only if every read is careful. |
| TransactionRun.RollbackShowsSnapshot | internal/storage/transaction.go:77-102 | A rollback in such a run shows exactly the snapshot taken when the innermost savepoint of that name was set. |
| TransactionRun.RollbackShowsBase | internal/storage/transaction.go:116-134 | Rolling everything back in such a run shows the store as the transaction began. |
| TransactionRun.ShowsSnapshotExact | internal/storage/transaction.go:77-102 | For pages with their place in the file, a rollback shows the snapshot if and only if the pages it leaves alone, and those it puts back too early to stay cached, are safe. |
| Parsers.ParsePrintedExpr | internal/engine/parser/parser.go:1283-1952 | For every printable tree, printed with only the parentheses that precedence and left associativity require, whichever way its names, truth values and IS are spelled, in front of any token that ends an expression: parsing returns that tree and stops exactly behind it. |
| Parsers.ParsePrintedSelect | internal/engine/parser/parser.go:257-536 | The same for a whole SELECT, nested queries, joins, compounds and ordering included, with or without ALL, AS, INNER, OUTER and ASC. |
| Precedence.ParseWritten | internal/engine/parser/parser.go:1283-1652 | Any expression of names, operators, signs and the parentheses it needs, in which every left operand binds at least as tightly as its operator and every right one more tightly, by the classes listed one by one with NOT between AND and the comparisons, is read as it is written. |
| Precedence.ParseTwoOperators | internal/engine/parser/parser.go:1283-1629 | For every two infix operators: x o1 y o2 z groups to the right when o2 is of a tighter class than o1, and to the left otherwise. |
| Precedence.ParseNotBefore | internal/engine/parser/parser.go:1319-1329 | NOT takes a comparison or anything tighter with it, and leaves AND and OR outside. |
| Sentences.ParseBetween | internal/engine/parser/parser.go:1515-1527 | BETWEEN keeps its operand, its lower bound and its upper bound apart. |
| Sentences.ParseNotLike | internal/engine/parser/parser.go:1448-1463 | NOT LIKE keeps its operand, its pattern and its escape apart. |
| Sentences.ParseGlobbed | internal/engine/parser/parser.go:1508-1514 | GLOB keeps its operand and its pattern apart. |
| Sentences.ParseNotIn | internal/engine/parser/parser.go:1413-1447 | NOT IN keeps its operand and the items of its list, in order. |
| Sentences.ParseIsNotNull | internal/engine/parser/parser.go:1660-1671 | IS NOT NULL is the negated test for NULL. |
| Sentences.ParseIsName | internal/engine/parser/parser.go:1660-1682 | IS with a name compares for equality, IS NOT for inequality. |
| Sentences.ParseCaseWhen | internal/engine/parser/parser.go:1915-1952 | CASE keeps what it compares, the condition, the result and the ELSE apart. |
| Sentences.ParseCastAs | internal/engine/parser/parser.go:1772-1792 | CAST keeps its operand and its type. |
| Sentences.ParseCall | internal/engine/parser/parser.go:1879-1913 | A call with DISTINCT keeps its name and its arguments, in order. |
| Sentences.ParseQualified | internal/engine/parser/parser.go:1835-1848 | A qualified column keeps its table and its name apart. |
| Sentences.ParseFullSelect | internal/engine/parser/parser.go:257-536 | In a SELECT with every clause, columns, aliases, tables, joins, conditions, groupings, orderings with their directions, limit and offset each end up where they belong. |
| Sentences.ParseUnionAll | internal/engine/parser/parser.go:317-329 | UNION, INTERSECT and EXCEPT keep the query on the left and, with ALL, the one on the right. |
| Sentences.ParseEqualsNotExists | internal/engine/parser/parser.go:1807-1829 | Behind an operator NOT EXISTS is one node. |
| CompoundOrder.ParseSpelledSelect | internal/engine/parser/parser.go:257-381 | For any SELECT, whatever the order of the ORDER BY, LIMIT and OFFSET clauses in its compounds: parsing its tokens gives the SELECT whose clauses have moved to the innermost right side that has not passed them, so it comes back if and only if no clause has to move. |
| CompoundOrder.SettleExact | internal/engine/parser/parser.go:317-381 | Moving the clauses so keeps the tokens, gives a printable SELECT, and changes nothing if and only if the SELECT was printable. |
| Parsers.Parser.Advance | internal/engine/parser/parser.go:43-49 | Moves one token on, except that it stays on EOF; so the position never passes the end. |
| Parsers.Parser.ExpectIdent | internal/engine/parser/parser.go:59-82 | Accepts exactly the listed keywords and identifiers as names. |
| Parsers.Parser.ParseExpr | internal/engine/parser/parser.go:1283-1285 | Terminates on every token list, never steps back or past the end, moves on success, and returns the tree printed ahead. |
| Parsers.Parser.ParseLevel | internal/engine/parser/parser.go:1287-1317 | For each of the eight binary levels: the loop terminates, builds the left-associative chain, and stops at the first token of a lower level. |
| Parsers.Parser.ParseNot | internal/engine/parser/parser.go:1319-1329 | Prefix NOT over the comparison level, with termination, progress and round trip. |
| Parsers.Parser.ParseComparison | internal/engine/parser/parser.go:1331-1533 | Comparisons and tests, each possibly negated, in any order and number, with termination, progress and round trip. |
| Parsers.Parser.ParseCompared | internal/engine/parser/parser.go:1336-1533 | One turn of that loop; a NOT that no test follows makes the AND of what was read and the negation of the comparison behind it. |
| Parsers.Parser.ParseIs | internal/engine/parser/parser.go:1346-1379 | IS [NOT] NULL gives a test for NULL, TRUE and FALSE the comparison with 1 and 0, any other operand the comparison by = or != of the left operand with the one printed there. |
| Parsers.Parser.ParseLike | internal/engine/parser/parser.go:1492-1507 | LIKE with the optional escape read behind a MATCH token, with termination, progress and round trip. |
| Parsers.Parser.ParseIn | internal/engine/parser/parser.go:1380-1412 | IN over a list or a SELECT, with termination, progress and round trip. |
| Parsers.Parser.ParseUnary | internal/engine/parser/parser.go:1631-1652 | One sign, minus or tilde, over a postfix expression, which keeps that sign; a plus sign leaves no trace. Termination, progress and round trip. |
| Parsers.Parser.ParsePostfix | internal/engine/parser/parser.go:1654-1686 | The IS suffixes that bind tighter than any operator, with termination, progress and round trip. |
| Parsers.Parser.ParsePrimary | internal/engine/parser/parser.go:1688-1868 | Every primary form, with termination, progress and round trip. |
| Parsers.Parser.ParseNotPrimary | internal/engine/parser/parser.go:1807-1829 | Inside an operand, NOT EXISTS is one node, with round trip, and any other NOT an operator over a primary expression. |
| Parsers.Parser.ParseIsPostfix | internal/engine/parser/parser.go:1660-1682 | One suffix: a test for NULL, or a comparison by = or != of the left operand with the primary expression behind it; round trip. |
| Parsers.Parser.ParseCase | internal/engine/parser/parser.go:1915-1952 | CASE with and without base and ELSE, with termination, progress and round trip. |
| Parsers.Parser.ParseFuncCall | internal/engine/parser/parser.go:1879-1913 | Calls with *, DISTINCT, and any list of arguments, with termination, progress and round trip. |
| Parsers.Parser.ParseTypeName | internal/engine/parser/parser.go:1012-1059 | Terminates without error on every token list and never steps back; which name is returned in every case, UNSIGNED as INTEGER and no name at all as TEXT. |
| Parsers.Parser.ParseSelect | internal/engine/parser/parser.go:257-381 | Terminates on every token list, never passes the end, moves on success, and returns the query printed ahead. |
| Parsers.Parser.ParseColumns | internal/engine/parser/parser.go:471-501 | The column list with aliases, with termination, progress and round trip. |
| Parsers.Parser.ParseTableRefs | internal/engine/parser/parser.go:503-536 | The table list with aliases, with termination and round trip. |
| Parsers.Parser.ParseJoins | internal/engine/parser/parser.go:383-469 | Every join form with ON or USING, with termination and round trip. |
| Parsers.Parser.ParseJoinKind | internal/engine/parser/parser.go:386-422 | The words of a join, JOIN alone standing for an inner one and OUTER for nothing. |
| Parsers.Parser.ParseDirection | internal/engine/parser/parser.go:341-362 | Descending exactly behind DESC; ASC or DESC is passed; NULLS FIRST and NULLS LAST, and what a NULLS alone does. |
| Parsers.Parser.ParseCompound | internal/engine/parser/parser.go:317-329 | The right side of a set operation takes every clause it has not passed, with termination and round trip. |
| Printing.ChainTokens | internal/engine/parser/parser.go:1287-1317 | An expression at a loop level prints as its base followed by the tails of its left-associative chain. |
| Printing.PrintStarts | internal/engine/parser/parser.go:1631-1868 | A printed operand never begins with a token that its level would take for an operator of its own. |
| Printing.TailStarts | internal/engine/parser/parser.go:1283-1652 | The first token behind a left operand belongs to exactly the level of the whole. |
| Syntax.DecimalPrints | internal/engine/parser/parser.go:1691-1715 | Every non-negative integer a literal can hold is printable in decimal. |
| Syntax.DecimalExact | internal/engine/parser/parser.go:1691-1715 | A decimal number is an integer below 2^63, and a floating-point number, if it can be one, from there on. |
| Syntax.HexExact | internal/engine/parser/parser.go:1691-1715 | A number behind 0x is read in base 16 if and only if it is below 2^63 and has no digit E. |
| Lexers.LexQuoted | internal/engine/executor/eval.go:969-978 | For every text and every rest, lexing QUOTE of the text before the rest reads one string token with that text and stops at the rest, if and only if the rest does not begin with a single quote. |
| Lexers.ScanDoubled | internal/engine/parser/lexer.go:439-481 | The same for the scanning function, and for any quote without escapes. |
| Lexers.ScanIsDoubled | internal/engine/parser/lexer.go:439-481 | Conversely, whatever such a token was read from is the quoted form of its value. |
| Lexers.ScanEscaped | internal/engine/parser/lexer.go:439-481 | Between double quotes, any text reads back from its backslash-escaped form. |
| Lexers.LexEscape | internal/engine/parser/lexer.go:455-475 | Among ordinary characters between double quotes, the escapes n, t and r give a newline, a tab and a carriage return, a backslash and a quote themselves, and before any other character the backslash stays. |
| Lexers.Lexer.Advance | internal/engine/parser/lexer.go:398-411 | Line and column are always one more than the newlines, and the characters since the last newline, before the position; at the end of the input nothing moves and 0 is returned. |
| Lexers.Lexer.ReadString | internal/engine/parser/lexer.go:439-481 | The loop returns what the scanning function returns, with the place of the opening quote, or fails at the end of the input. |
| Lexers.Lexer.ReadQuotedIdent | internal/engine/parser/lexer.go:525-539 | Returns the text up to the first closing quote, or fails exactly when there is none. |
| Wildcards.SqlLikeMatch | internal/engine/executor/eval.go:410-451 | True exactly when the escape-tokenised pattern has a segmentation of the string into pieces that fit its elements. |
| Wildcards.LikeFirst | internal/engine/executor/eval.go:414-449 | What LIKE does with the first character of a pattern: the percent sign takes any run, the underscore one character, the escape makes the next character ordinary unless it is the last, any other character takes itself. |
| Wildcards.LikeEscaped | internal/engine/executor/eval.go:414-449 | A text with its wildcards and escapes escaped matches itself and nothing else; a text without any needs no escapes. |
| Wildcards.EvalLike | internal/engine/executor/eval.go:377-408 | LIKE and NOT LIKE with NULL operands, the default escape, and the folding of text and pattern. |
| Wildcards.EscapeExact | internal/engine/executor/eval.go:388-400 | An escaped text matches exactly the texts that fold alike if and only if the escape is no letter, since the pattern is folded and the escape is not. |
| Wildcards.GlobMatchRunes | internal/engine/executor/eval.go:475-535 | True exactly when the pattern, with classes as the code reads them, has such a segmentation; terminates by pattern length. |
| Wildcards.GlobFirst | internal/engine/executor/eval.go:475-535 | What GLOB does with the first character of a pattern: the star takes any run, the question mark one character, any other character but a bracket itself. |
| Wildcards.GlobClass | internal/engine/executor/eval.go:494-525 | A class of characters and ranges takes one character that one of them covers, or behind ^ none. |
| Wildcards.MatchClass | internal/engine/executor/eval.go:494-525 | The class loop decides membership in the listed ranges, negated or not, and returns the pattern behind the closing bracket, if any. |
| Rows.RowRoundTrip | internal/storage/row.go:124-222 | Every row with fewer than 65536 columns and values under 2^32 bytes decodes to itself, whatever bytes follow. |
| Rows.PrefixFails | internal/storage/row.go:146-171 | No proper prefix of an encoded row decodes. |
| Rows.EncodedInjective | internal/storage/row.go:124-144 | Rows with the same encoding are the same row. |
| Layouts.RowLayout | internal/storage/row.go:124-144 | A stored row begins with the number of its columns in two bytes; column follows column. |
| Layouts.ColumnLayout | internal/storage/row.go:130-200 | A stored column: its type as 0 to 4, its length in four bytes, the bytes of the value, two's complement for integers. |
| Rows.EncodeRow | internal/storage/row.go:124-144 | The two loops build the encoding the lemmas speak of, for any row. |
| Rows.DecodeRow | internal/storage/row.go:146-171 | The offset loop decodes it, or fails as the decoding function does, on any bytes. |
| Values.ParseFormat | internal/storage/row.go:39-53 | An integer reads back from its spelling, so different integers spell differently. |
| Values.FormatShape | internal/storage/row.go:39-53 | An integer is spelled with a minus for the negative ones alone, and without leading zeros. |
| Values.ParseIntExact | internal/storage/row.go:231-240 | Exactly which texts are read as an integer: digits of a number in range, with or without a sign. |
| Values.StringExact | internal/storage/row.go:39-53 | Exactly which values, reals aside, have the same text: equal ones, blobs of one length, and a text that is the spelling of the other value. |
| Values.CoerceValue | internal/storage/row.go:224-267 | What comes out belongs to the column type, exactly what belongs is left alone, and exactly a text that spells no number is refused, by a numeric column; which number a number or a text becomes, and which text a value. |
| Values.IntegerThroughText | internal/storage/row.go:224-267 | An integer stored as text and coerced back is the same integer. |
| Values.CoerceBounded | internal/storage/row.go:224-267 | Coercion makes no storable value too long to store. |
| TableIndex.RowKeyRoundTrip | internal/storage/table.go:33-37 | A row id is recovered from its key. |
| TableIndex.RowKeyOrder | internal/storage/table.go:33-37 | Row keys compare as the unsigned forms of the ids, so negative ids come last. |
| TableIndex.IndexKeyInjective | internal/storage/table.go:156-161 | An index key determines both the indexed text and the row. |
| TableIndex.ExactIndex | internal/storage/table.go:156-161 | An index with an entry for every row and no stale entry is exactly the image of the table under indexKey. |
| TableIndex.PutIndexed | internal/storage/table.go:135-152 | Storing a row with its entry keeps the index complete, and makes a stale entry if and only if a replaced row had another text. |
| TableIndex.RemoveIndexed | internal/storage/table.go:229-268 | Removing a row with its entry keeps the index complete and free of stale entries. |
| TableIndex.MoveIndexed | internal/storage/table.go:316-332 | Dropping the old entry and adding the new one keeps the index complete and free of stale entries. |
| TableIndex.LeftIndexed | internal/storage/table.go:316-332 | Leaving the index alone when a row changes is right if and only if the indexed text is the same. |
| TableRows.BuiltExact | internal/storage/table.go:48-89 | A row is built exactly when the values match in number and each has a column that takes it; every column then holds the coerced value of the last name that denotes it, or its default as a text, or NULL. |
| TableRows.SameName | internal/storage/table.go:66-68 | Names are the same letter by letter, case aside. |
| TableRows.PlaceRow | internal/storage/table.go:90-103 | A row goes under the integer it brings as its primary key, if that is not 0, or under the next automatic id, which its key then holds; the counter is moved past the id and wraps. |
| TableRows.KeyColumnIsId | internal/storage/table.go:90-103 | The stored primary key is always the id of the row; what was given is kept if and only if it is an integer other than 0, or the next automatic id is 0. |
| TableRows.IdsStayBelow | internal/storage/table.go:90-103 | The next automatic id stays above every id up to the largest one, so an automatic id is never taken. |
| TableRows.PutKeepsKeys | internal/storage/table.go:302-336 | While every key column holds the id of its row, storing a row keeps that if and only if its own key column holds its id. |
| Tables.TableEngine.InsertWithConflict | internal/storage/table.go:43-154 | Exactly when the row is refused, and with which error; every column of the row stored; in every conflict mode the table afterwards and the counters; every index stays complete, and gains a stale entry if and only if REPLACE changed an indexed text. |
| Tables.TableEngine.GetByID | internal/storage/table.go:211-227 | Returns the stored row, decoded, or nothing. |
| Tables.TableEngine.Delete | internal/storage/table.go:229-268 | The row and its entries go; a missing row changes nothing. |
| Tables.TableEngine.Update | internal/storage/table.go:270-336 | Refused without effect if and only if the row is missing or a name denotes no column, a value is not taken or a NULL not allowed; else every named column holds its coerced value and every other what it held, whatever order the map is walked in; no stale entry is left. |
| Tables.TableEngine.ApplyUpdates | internal/storage/table.go:302-315 | The loop over the update map gives the same row in any order. |
| TableRun.RunStatements | internal/storage/table.go:43-336 | Over any run of statements, accepted or refused, every row keeps its entries; without REPLACE every index is exactly the image of the table under indexKey; and while no UPDATE names the key column it holds the row id. |
| TableRun.CleanIsExact | internal/storage/table.go:156-161 | An index is exactly that image if and only if it has no stale entry. |
| Scans.Scan | internal/storage/table.go:168-209 | Scan returns, decoded, exactly the rows a walk shows; without empty leaves those are the stored rows in strictly increasing unsigned id order. |
| Scans.SortedIds | internal/storage/table.go:33-37 | Sorted row keys mean strictly increasing ids. |
| Grouping.GroupsMeaning | internal/engine/executor/executor.go:779-802 | Each group is the order-preserving filter of the rows by its key, keys are distinct, no group is empty, and every row has a group. |
| Grouping.GroupsAppear | internal/engine/executor/executor.go:779-802 | The groups come in the order in which their keys first appear. |
| Grouping.GroupsConserve | internal/engine/executor/executor.go:779-802 | Whatever is counted or added up per row, the groups together give what all rows give. |
| Grouping.GroupBy | internal/engine/executor/executor.go:779-802 | The loop with its index map returns those groups in order of first appearance, under the joined texts of the GROUP BY values, or fails exactly when one cannot be evaluated. |
| GroupKeys.JoinInjective | internal/engine/executor/executor.go:783-795 | Joined key texts of equal number, one side free of NULs, are equal if and only if the texts are. |
| GroupKeys.JoinExact | internal/engine/executor/executor.go:783-795 | A key of two texts or more is joined like another key if and only if one of its texts holds a NUL. |
| GroupKeys.GroupKeyExact | internal/engine/executor/executor.go:783-795 | Rows whose texts hold no NUL share a group if and only if their values spell alike one by one; so NULL and the text NULL do, and any two blobs of one length. |
| GroupKeys.GroupKeyCollides | internal/engine/executor/executor.go:783-795 | Values of two expressions or more share a group with values that do not spell alike if and only if one of their texts holds a NUL. |
| Grouping.FoldMeaning | internal/engine/executor/executor.go:594-707 | SUM over integers is the sum modulo 2^64 and NULL without a value; MIN and MAX are a value of the column that none passes. |
| Grouping.SumForgets | internal/engine/executor/executor.go:642-652 | SUM is the sum of the integers alone, real numbers and texts forgotten, if and only if there is an integer among the values, or nothing but NULLs. |
| Grouping.SumOfReals | internal/engine/executor/executor.go:603-606 | Without an integer, but with a value, SUM is the last of the partial sums that begin at 0 and add one value after another. |
| Grouping.CountIsPlaces | internal/engine/executor/executor.go:600-602 | COUNT is the number of values that are not NULL, modulo 2^64. |
| Grouping.SumIsFold | internal/engine/executor/executor.go:642-652 | Over integers and NULLs SUM is the sum the other laws speak of. |
| Grouping.Reaggregate | internal/engine/executor/executor.go:709-826 | SUM, MIN or MAX over the groups' own results is the aggregate of all rows, SUM modulo 2^64. |
| Grouping.CountsAdd | internal/engine/executor/executor.go:709-826 | The SUM of the groups' COUNTs is the COUNT of all rows if and only if there are rows; with an argument never NULL that is COUNT(*). |
| Grouping.SimpleAgg.Accumulate | internal/engine/executor/executor.go:594-640 | The running fields summarise exactly the values seen so far; a NULL changes nothing. |
| Grouping.SimpleAgg.Result | internal/engine/executor/executor.go:642-707 | The result is the aggregate of the values seen. |
| Grouping.AggregateRows | internal/engine/executor/executor.go:727-757 | The accumulation loop returns the aggregate of the argument over the rows; for SUM over values without an integer, the last of their partial sums. |

## Left out

Operations and cases of the source that the model does not have:

- `splitInternal`, which loses the old rightmost child: insertions are modelled up to the first
  internal page that overflows.
- Deleting a key found in an internal page, which removes another leaf's cell instead: deletion is
  modelled for keys that are no separators.
- Updates that grow a cell, in the tree: the bytes of one overwrite are modelled for any size
  (`Pages.RewriteExact`), whole insertions for values that do not grow.
- Splitting a leaf that holds no cell because all were removed, yet has no room, since removal
  reclaims no content space; the source then leaves that leaf empty.
- Statements other than SELECT, with DDL, CTEs and EXPLAIN, and the dispatch between them; their
  parsing ignores some errors.
- Tokenising apart from quoted strings and identifiers; whitespace, comments, numbers, operators.
- Joins and name resolution, views, HAVING, ORDER BY, LIMIT and DISTINCT at execution; the
  projection of group rows.
- The aggregates other than COUNT, SUM, MIN and MAX, and MIN and MAX of anything but integers and
  NULL, whose comparison mixes texts and numbers. The DISTINCT of an aggregate, which the source
  ignores.
- The arithmetic and the spelling of floating-point numbers, which are parameters.
- The scalar functions other than QUOTE, and the evaluation of expressions.
- The schema manager and its JSON; the column set, the indexes and the root pages of a table are
  fixed. Rows stored before an ALTER TABLE ADD COLUMN, which are extended when read.
- The network server, the client, the CLI.
- Concurrency: locks, atomics, the background flush of MarkDirty, and the page buffer `walBuf`,
  which nothing fills. I/O errors and short reads: the file is a sequence of whole pages.
- Integer widths of lengths: rows with 65536 columns, statements with values of 2^32 bytes, and
  cells whose length fields wrap, are excluded. Ids, sums and counters wrap as in the source.
- Case folding beyond ASCII letters, and Unicode decoding: text is a sequence of characters.

Where a contract is weaker than the source, or leans on a parameter:

- BTrees.BTree.Insert: works on a page table that never evicts, which is the pager as long as its
  working set stays cached (`Lru.Residency` says how long that is); it does not model a page
  object that was evicted while the tree still holds it.
- BTrees.BTree.Delete: for keys that are no separators, on the same page table.
- Tables.TableEngine.InsertWithConflict: the trees of table and indexes are ordered maps here, so
  promoted keys, which a tree does not find, are not seen as duplicates by the source but are by
  the model.
- Tables.TableEngine.Update: the same; column names arrive in lower case, as the executor gives
  them.
- Tables.TableEngine.Delete: the same.
- Cursors.Cursor.Current: says nothing of the stop at an empty leaf behind a rightmost pointer,
  where the source decodes the stale slot behind the slot array; the model returns an error there.
- Cursors.CollectCells: so it is for trees where no walk stops there, and likewise Scans.Scan.
- Scans.Scan: over a tree that already holds the encoded rows.
- Transactions.Transaction.Write: saving the page first is the caller's part, as nothing in the
  source calls SavePage.
- Transactions.Transaction.Rollback: shows the beginning when the saved pages are restorable, which
  is sufficient in every state. The exact condition is proved for pages that have their place in
  the file (`RollbackExact.ShowsExact`); for pages created since the file last grew, whether one
  can be read again depends on what else was evicted before it, and only the sufficient condition
  is proved.
- Transactions.Transaction.RollbackToSavepoint: the same.
- TransactionRun.RunKeeps: pages are created and freed outside the runs; rollbacks in them are
  restorable.
- Lexers.LexQuoted: QUOTE of a text; of other values it is the value's own spelling.
- Parsers.ParsePrintedExpr: token texts are free except where the parser reads them; `<>` and `!=`
  are one token type and so one operator here. Trees the parser cannot produce have no printed
  form: negative literals, an empty CASE, NOT EXISTS as a single node where a NOT is read first (at
  the head of an expression, behind OR, AND or an opening parenthesis), a call whose first argument
  is the sign `*` beside others. Parentheses stand where they are needed; a spelling writes equal
  parts of a tree alike. How a number's text is judged a float, and how integers are spelt, are
  parameters; decimal spelling is proved to do (`Syntax.DecimalPrints`).
- CompoundOrder.ParseSpelledSelect: the order of clauses is free along the compounds of one SELECT;
  the queries nested in its expressions are printable ones.
- Parsers.Parser.ParseIs: an operand behind IS that begins with TRUE or FALSE is read as that word
  alone, and no tree prints so; what the words give is stated.
- Parsers.Parser.ParseUnary: a plus sign has no printed form; the contract says what it does.
- Parsers.Parser.ParseTypeName: the length in parentheses behind a type is skipped, and where it
  ends is not stated.
- Precedence.ParseWritten: the operands are names, texts and NULL.
- Rows.ValueRoundTrip: a real number is its eight bytes; no arithmetic on it is modelled.
- Grouping.GroupBy: evaluating the GROUP BY expressions of a row is a parameter.
- GroupKeys.GroupKeyExact: real numbers are left out, as their spelling is a parameter.
- Grouping.AggregateRows: MIN and MAX over integers and NULL; fewer than 2^64 rows.
- Wildcards.EvalLike: works on the texts of its operands; letters fold in ASCII.
- The loop `descend to the leftmost leaf`, which the source writes twice, and the IN, LIKE, GLOB
  and BETWEEN branches, which it writes once plain and once behind NOT, are one method each.
