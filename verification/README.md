# Csql: storage, log, parser and joins

Csql keeps each table in one file of 4096-byte pages: a B+ tree whose leaves hold the rows, whose pages are linked by
index to their parent and, for leaves, to both neighbours, and whose discarded pages form a free list. Every change of a
row is written to an undo log, read backwards when a transaction aborts. This project models those layers, and some
independent algorithms beside them, and proves what they are for.

## How the project is built

- `Sequences`, `Tuples`, `Encoding`, `IoManager`: facts about slices, values, tuples as std::map lists them, and the bytes that are written for them.
- `Pages`, `TreeInvariant`: pages, the byte accounting with its thresholds (3840, 1920, a counted leaf header of 21 bytes
  against a real one of 25), and the invariant of a table file. It has five parts: the search tree (uniform depth,
  sorted pages, separators, parent links), the leaf chain, the free list, the stored table, and how full every page is.
- `TreeSearch`, `TreeInsert`, `InsertSound`, `TreeDelete`, `DeleteSound`, `DeleteInternal`: what each step of searching,
  inserting and deleting does to the invariant. A half-done split or an underfull page is an intermediate invariant of its
  own. Both borrows are proved as a merge followed by a split elsewhere.
- `Storage` (module `BTreeStorage`): the class with the pages, root, page counter and free list head of one table, and its
  methods, branch by branch. Ghost fields hold levels and key sets, the chain, the free list, and the table.
- `TreeFacts`: what the invariant means for a whole file. `BackLink`: the back link of storage.cpp:178. `PageImage`,
  `TreeImage`: the byte layout of a page, that reading inverts writing, and that pages of a sound tree can be written.
- `UndoLog`, `LogManager`: entries, the log files, appending and backward reading. `UndoReplay`: what entries promise, why
  replaying them restores the tables, for whole runs, and when the restored rows can be written. `TableFiles`: the tables
  and the log as all connections share them, and what statements do to them; its invariant says that every running
  transaction can be undone at any time. `TableImage`: that the leaves of these tables can be written.
- `Database`: one connection, with its own transaction, cached pages and table metadata. It works on what it sees, which is
  the file only while it is in step with it. `StaleCache`, `StaleInternal`: what it writes otherwise.
- `ExpressionParser`, `LruCache`, `PageCache`, `WaitsFor`, `Join`, `BPlusKeys`: independent of each other. `Options`: values
  that may be missing.

Where the source departs from its own intent the model follows the source, except where the list at the end says otherwise:
a leaf whose slots were just reassigned is counted with the 21-byte header and one just read with the 25-byte header;
internal pages split above 1920 bytes; `InternalBPlusNode::save` does not write the type byte; `addBNodeKey` never
overwrites a key; `joinEntity` applies the condition of a cross join too; `put` of a present key leaves a stale node; an
empty string literal ends the parse; boolean literals are keywords, which do not continue an expression.

Properties that do not hold as they might be wished, each with an input that shows it and the exact condition:

- The back link of storage.cpp:178: `BackLink.BackLinkBreaks`, `BackLink.BackLinkIff`.
- An abort of an UPDATE that assigned a column absent from its row puts a null back, which no page can hold, so it throws with
  the row taken out: `TableFiles.NullPutBack`, `UndoReplay.AbortWritableIff`, `Database.Database.Abort`. So does an UPDATE
  with a value of another type: `TableFiles.StringIntoNumber`, `Database.Database.Update`.
- Every connection has its own page cache and metadata, which nobody invalidates (database_controller.h:34-45, storage.h:49-57).
  Interleaved transactions keep each other's rows as long as every connection is in step with the files when it acts:
  no page and no metadata that it holds was written by another one since. `StaleCache` shows that this is needed, page by page:
  a leaf written from the cache keeps the file sound with exactly the change of this connection if and only if the whole leaf,
  links included, and the metadata are what the file has (and a row that is inserted belongs there):
  `StaleCache.LeafInsertIff`, `StaleCache.LeafRemoveIff`, `StaleCache.LeafAbortIff`; for pages above the leaves,
  `StaleInternal.InternalWriteIff`. With stale rows a committed row is lost (`StaleCache.LostRow`), with a stale link a whole leaf
  (`StaleCache.LostLeaf`, `StaleCache.SkippedLeaf`), and stale metadata make a later split overwrite a page of the tree
  (`StaleCache.TakenTwice`) or hide rows (`StaleCache.HiddenRow`). `abort` does not save the header of the table file;
  after one that changes the root, the page counter or the free list, no other connection is in step until the next statement.
- A page cache with as many pages in use as it holds: `PageCache.ManyPages`, `PageCache.LikeFlatIff`.
- The type byte of an internal page (`PageImage.SaveAndRead`), parsing with an end token (`ExpressionParser.EmptyTextEndsParse`,
  `ExpressionParser.ParseInvertsWriting`), stale nodes (`LruCache.PutExactIff`), the cross join (`Join.JoinsAgree`), cycle search
  on acyclic graphs (`WaitsFor.DiamondIsNoTree`, `WaitsFor.LockManager.HasCycle`).

## Model

| member | source | states |
|---|---|---|
| BTreeStorage.LowerBound | src/core/storage/page/slotted_page.cpp:152-167 | the binary search from a start index returns the last index whose key is at most the key sought, or -1; every key up to it is at most the key, every later one greater |
| BTreeStorage.IndexOfChild | src/core/storage/page/b_plus_node/internal_b_plus_node.cpp:63-67 | the slot returned is the one whose window contains the key: its separator is at most the key, the next one greater, and slot 0 catches everything smaller |
| BTreeStorage.Storage.constructor | src/core/storage/storage.cpp:118-125 | an empty file is a sound tree that stores the empty table |
| BTreeStorage.Storage.FindLeaf | src/core/storage/storage.cpp:266-275 | the descent terminates, and ends in the one leaf whose key range contains the key |
| BTreeStorage.Storage.SearchBtree | src/core/storage/storage.cpp:277-285 | a point lookup hits exactly if the table holds the key, and then stands on that key's row |
| BTreeStorage.Storage.BeginLeaf | src/core/storage/storage.cpp:291-308 | the descent along first children ends at the leftmost leaf below a page: its first row, or the end if it is empty |
| BTreeStorage.Storage.NextLeaf | src/core/storage/storage.cpp:314-325 | the row reached is the one with the least key above the current one in the whole table; the end is reached exactly behind the greatest key |
| BTreeStorage.Storage.Scan | src/core/storage/storage.cpp:287-325 | a beginLeaf/nextLeaf loop terminates and lists exactly the rows of the table, in strictly increasing key order |
| BTreeStorage.Storage.PopFreePage | src/core/storage/storage.cpp:90-105 | the page handed out is the head of the free list, which loses exactly that page, or the next new index; no other page changes |
| BTreeStorage.Storage.AddPageIntoFreeZone | src/core/storage/storage.cpp:107-115 | freeing a tree page keeps the free list acyclic, without repetition and complete, with this page in front |
| BTreeStorage.Storage.SplitLeaf | src/core/storage/storage.cpp:385-401 | a leaf that is too full becomes two half-full ones with the same rows, the chain is relinked on both sides, and exactly the parent's slot for the pair is missing |
| BTreeStorage.Storage.SplitInternal | src/core/storage/storage.cpp:403-420 | the same for an internal page; the children moved to the left half name it as their parent |
| BTreeStorage.Storage.NewRoot | src/core/storage/storage.cpp:362-372 | a split root gets a new root above its two halves, and the tree is sound |
| BTreeStorage.Storage.InsertBtree | src/core/storage/storage.cpp:359-383 | however far the splits cascade, including a new root, the tree ends sound and the table is unchanged; internal pages split above 1920 bytes |
| BTreeStorage.Storage.AddTuple | src/core/storage/page/b_plus_node/leaf_b_plus_node.cpp:46-52 | the row goes to its place in key order |
| BTreeStorage.Storage.SetBTree | src/core/storage/storage.cpp:118-133 | inserting an absent key adds exactly that row to the table and keeps the whole invariant: uniform depth, order, parent links, leaf chain, free list, fill |
| BTreeStorage.Storage.RemoveFromLeaf | src/core/storage/storage.cpp:422-439 | the stored row comes out, and the separator that named its key is refreshed unless the leaf hangs in slot 0 |
| BTreeStorage.Storage.BorrowKeyFromRightLeaf | src/core/storage/page/b_plus_node/leaf_b_plus_node.cpp:64-78 | the first row of the next leaf moves over, and its separator becomes the next leaf's new first key; only the parent's refresh is still due |
| BTreeStorage.Storage.BorrowKeyFromLeftLeaf | src/core/storage/page/b_plus_node/leaf_b_plus_node.cpp:80-92 | the last row of the previous leaf moves over and becomes the separator |
| BTreeStorage.Storage.MergeNextLeaf | src/core/storage/storage.cpp:191-195 | this leaf takes over the rows and the link of the next one, which goes to the free list; the leaf behind links back |
| BTreeStorage.Storage.MergeIntoPrevLeaf | src/core/storage/storage.cpp:196-202 | the previous leaf takes over this one, which goes to the free list (with the back link that line 178 intends) |
| BTreeStorage.Storage.RepairLeaf | src/core/storage/storage.cpp:167-202 | an underfull leaf below an internal page always finds a sibling under its own parent, and one of the four repairs applies |
| BTreeStorage.Storage.UpdateParentIndexOfChild | src/core/storage/storage.cpp:220-233 | exactly the named range of children gets the new parent link |
| BTreeStorage.Storage.BorrowKeyFromRightInternal | src/core/storage/page/b_plus_node/internal_b_plus_node.cpp:73-83 | the first child of the right sibling moves over together with the rotated separators, and names its new parent |
| BTreeStorage.Storage.BorrowKeyFromLeftInternal | src/core/storage/page/b_plus_node/internal_b_plus_node.cpp:85-98 | the last child of the left sibling moves over; the empty key that its entry gets is never read |
| BTreeStorage.Storage.MergeNextInternal | src/core/storage/storage.cpp:243-247 | the page takes over all children of its right sibling, each of which names it as parent, and the sibling is freed |
| BTreeStorage.Storage.MergeIntoPrevInternal | src/core/storage/storage.cpp:248-254 | the left sibling takes over all children of the page, and the page is freed |
| BTreeStorage.Storage.RepairInternal | src/core/storage/storage.cpp:203-255 | an underfull internal page other than the root always has a sibling, and one of the four repairs applies |
| BTreeStorage.Storage.RemoveFromInternal | src/core/storage/storage.cpp:441-448 | on the way up the separator in which the removed key could stand is refreshed to the least key below its slot |
| BTreeStorage.Storage.RemoveUp | src/core/storage/storage.cpp:148-263 | the upward recursion terminates, and after any mix of borrow, merge, separator refresh and root collapse the tree is sound |
| BTreeStorage.Storage.RemoveBtree | src/core/storage/storage.cpp:135-264 | deleting a present key removes exactly that key from the table, returns its row, and keeps the whole invariant |
| TreeInvariant.ChildrenOrdered | src/core/storage/page/b_plus_node/internal_b_plus_node.cpp:63-71 | the key sets below two slots of an internal page lie apart, in slot order |
| TreeInvariant.RouteUnique | src/core/storage/page/b_plus_node/internal_b_plus_node.cpp:63-67 | a key is routed to one slot only |
| TreeInvariant.RouteFinds | src/core/storage/page/b_plus_node/internal_b_plus_node.cpp:63-71 | and that slot is the one below which the key is stored, if it is stored at all |
| TreeSearch.Convex | src/core/storage/storage.cpp:266-285 | a key between two keys of a page, stored anywhere in the tree, is stored below that page |
| TreeSearch.ScanIsTable | src/core/storage/storage.cpp:287-325 | the rows of the leaf chain, concatenated, are exactly the rows of the table, in strictly increasing key order |
| TreeSearch.FirstLeafStartsChain | src/core/storage/storage.cpp:291-308 | the leftmost leaf below the root is the first leaf of the chain |
| TreeInsert.LeafHalfSplit | src/core/storage/storage.cpp:385-401 | cutting a leaf leaves a sound tree except for the one slot that the parent still lacks |
| TreeInsert.InternalHalfSplit | src/core/storage/storage.cpp:403-420 | the same for an internal page whose children were moved |
| TreeInsert.SplitSlot | src/core/storage/page/b_plus_node/internal_b_plus_node.cpp:56-61 | the slot that setChild finds by the separator is the one that pointed to the page being split |
| TreeInsert.GrowParent | src/core/storage/page/b_plus_node/internal_b_plus_node.cpp:56-61 | setChild completes a half-done split: with the new slot in the parent the search tree is sound again |
| TreeInsert.GrowRoot | src/core/storage/storage.cpp:362-372 | a new root above the two halves makes the tree sound, one level higher |
| TreeInsert.LeafSplitChain | src/core/storage/storage.cpp:388-399 | relinking after a split inserts the new leaf in front of the old one in the chain |
| Pages.SplitLeafFits | src/core/storage/page/b_plus_node/leaf_b_plus_node.cpp:54-62 | with rows of at most 248 bytes, both halves of a split leaf stay within 3840 counted bytes, and each has at least eight rows |
| Pages.InternalThreshold | src/core/storage/storage.cpp:378 | with one integer key an internal page splits exactly from 28 children on, and counts as underfull exactly below that |
| TreeDelete.RemoveKeyTree | src/core/storage/storage.cpp:422-439 | taking a key out of its leaf keeps order, depth and links |
| TreeDelete.RefreshSeparator | src/core/storage/storage.cpp:429-437 | replacing a separator by any key that is above the keys to its left and at most those to its right keeps the tree sound |
| TreeDelete.MergeTree | src/core/storage/page/b_plus_node/internal_b_plus_node.cpp:100-107 | moving everything of one sibling into the other and dropping its slot keeps the tree sound, for leaves and for internal pages |
| TreeDelete.CollapseTree | src/core/storage/storage.cpp:153-160 | the only child of a root becomes the root of a sound tree, one level lower |
| TreeDelete.ShiftLeafTree | src/core/storage/page/b_plus_node/leaf_b_plus_node.cpp:64-92 | cutting the joined rows of two leaves anywhere else, with the separator between, keeps the tree sound: both borrows are such cuts |
| TreeDelete.ShiftInternalTree | src/core/storage/page/b_plus_node/internal_b_plus_node.cpp:73-98 | the same for two internal pages, their joined children and the separator that comes down |
| TreeDelete.MergeLeafChain | src/core/storage/page/b_plus_node/leaf_b_plus_node.cpp:94-111 | a merge takes exactly the dead leaf out of the chain, which stays ordered |
| TreeFacts.PageConservation | src/core/storage/storage.cpp:90-115 | every page index in 1..nPage-1 is reached from the root by exactly one path, or stands on the acyclic free list exactly once, never both; no other index is either |
| TreeFacts.HeightIsLogarithmic | src/core/storage/storage.cpp:204-254 | a tree of height h stores at least 14^h rows |
| TreeFacts.LeafFitsPage | src/core/storage/storage.cpp:128-202 | the real 25-byte header and the directory of every leaf end before its tuples begin, and every leaf but the root holds at least seven rows, so get_btree_key finds one |
| TreeFacts.InternalFitsPage | src/core/storage/storage.cpp:378 | every internal page has 14 to 54 children, a root 2 to 54, and fits its page |
| TreeFacts.ParentLinksMirrorSlots | src/core/storage/storage.cpp:220-254 | the root has parent 0; every other page names as its parent the one page that has a slot for it, and has exactly one |
| TreeFacts.ChainIsInOrder | src/core/storage/storage.cpp:287-325 | prevLeaf is the inverse of nextLeaf, and all keys of a leaf are below all keys of the next one |
| BackLink.BackLinkIff | src/core/storage/storage.cpp:173-202 | in any sound tree, when removing a row takes the branch that merges a leaf into the previous one, the line as written keeps the sibling links if and only if there is no leaf behind |
| BackLink.BackLinkBreaks | src/core/storage/storage.cpp:173-202 | a sound tree of 31 pages in which that branch is taken with a leaf behind |
| Tuples.PutGet | src/core/util/types.h:38 | assigning a field of a std::map tuple changes that field and no other |
| Tuples.SortedUnique | src/core/util/types.h:38 | two tuples with the same fields are the same tuple |
| Tuples.NameLessIff | src/core/util/types.h:38 | std::map lists names in the order of their bytes: one name is less than another if and only if it is a proper prefix of it or has the smaller byte at the first place where they differ |
| Encoding.LittleEndianRoundTrip | src/core/storage/io_manager/io_manager.h:42-66 | reading the bytes of a fixed-width number gives the number back |
| Encoding.LittleEndianDigits | src/core/storage/io_manager/io_manager.h:42-66 | byte i of a fixed-width number is its digit i to the base 256, counted from the least significant one |
| Encoding.ValueBytes | src/core/storage/io_manager/io_manager.cpp:52-97 | an integer is written as its two's complement, a string as its length and bytes, a truth value as 1 or 0 |
| PageImage.FieldsSize | src/core/util/helpers.cpp:96-125 | the fields that are written, in whatever order the columns stand, take as many bytes as sizeOfTuple counts |
| Encoding.EncodedKeySize | src/core/util/b_plus_key.cpp:54-71 | getRawSize is the number of bytes that writing the key takes |
| IoManager.IOManager.WriteBytes | src/core/storage/io_manager/io_manager.h:42-45 | exactly the bytes at the offset are overwritten, and the offset advances by their number |
| IoManager.IOManager.WriteString | src/core/storage/io_manager/io_manager.cpp:52-57 | a string is its length and its bytes |
| IoManager.IOManager.WriteValue | src/core/storage/io_manager/io_manager.cpp:59-97 | a value is written as a type exactly if it has that type, in the layout of the type; otherwise nothing is written and std::get throws; the null type writes nothing |
| IoManager.IOManager.WriteElement | src/core/storage/io_manager/io_manager.cpp:40-50 | a key element is its type and its value |
| IoManager.IOManager.WriteKey | src/core/storage/io_manager/io_manager.cpp:86-93 | a key is its size and its elements |
| IoManager.IOManager.ReadString | src/core/storage/io_manager/io_manager.cpp:117-122 | reads back the string that was written at the offset |
| IoManager.IOManager.ReadValue | src/core/storage/io_manager/io_manager.cpp:124-170 | reads back the value that was written at the offset, given its type |
| IoManager.IOManager.ReadElement | src/core/storage/io_manager/io_manager.cpp:99-114 | reads back a key element of any of the three types |
| IoManager.IOManager.ReadKey | src/core/storage/io_manager/io_manager.cpp:156-166 | reads back the key that was written at the offset |
| PageImage.AssemblePieces | src/core/storage/page/slotted_page.cpp:93-118 | reading the fields of a slot in column order, then key and child, rebuilds the tuple exactly |
| PageImage.FieldOrder | src/core/storage/page/slotted_page.cpp:120-131 | the fields of a slot are written in the order of the table's columns, not of their names |
| PageImage.PieceOrder | src/core/storage/page/slotted_page.cpp:132-137 | behind the fields the key is written, and last the child |
| PageImage.CellBytes | src/core/storage/page/slotted_page.cpp:138 | the bytes written for a slot are as many as sizeOfTuple says, whatever the order of the columns |
| PageImage.ConformsIff | src/core/storage/page/slotted_page.cpp:120-139 | of the tuples for which a page has room, exactly those can be written in which every field has the type of its column, so none is null |
| PageImage.WriteKeeps | src/core/storage/page/slotted_page.cpp:82-85 | writing a slot touches neither the header and directory nor the slots written before |
| PageImage.SlottedPage.ReassignData | src/core/storage/page/slotted_page.cpp:207-220 | every slot begins where the one before begins less the size of its tuple; free space is counted with a 21-byte leaf header |
| PageImage.SlottedPage.WriteTuple | src/core/storage/page/slotted_page.cpp:120-139 | it succeeds exactly if every field has the type of its column; then exactly the bytes of the slot are overwritten, with the image of its tuple |
| PageImage.SlottedPage.Save | src/core/storage/page/b_plus_node/leaf_b_plus_node.cpp:39-44 | the buffer holds an image of the page; a leaf writes its type byte, an internal node keeps whatever byte the buffer has and takes its type from it |
| PageImage.HeaderLayout | src/core/storage/page/slotted_page.cpp:73-82 | where each number stands: for a leaf prevLeaf at byte 1 and nextLeaf at byte 5, then parent, begin and end of the free space, number of slots, and the slots |
| PageImage.SlottedPage.ReadTuple | src/core/storage/page/slotted_page.cpp:93-118 | reads back the tuple of a slot |
| PageImage.SlottedPage.Refresh | src/core/storage/page/slotted_page.cpp:50-71 | reads back links, directory and tuples of any image, and computes the free space anew |
| PageImage.SaveAndRead | src/core/storage/page/b_plus_node/internal_b_plus_node.cpp:30-33 | a page saved and read into another page object comes back with the same links, slots and tuples; the type byte of an internal node is right if and only if the buffer had it before |
| PageImage.FreePage.Refresh | src/core/storage/page/free_page.cpp:16-24 | a free page comes back with its link |
| TreeImage.SizesAgree | src/core/util/helpers.cpp:117-125 | the sizes with which the tree counts are the sizes that pages write, for rows and for internal entries |
| TreeImage.LeafHasImage | src/core/storage/page/slotted_page.cpp:73-86 | every leaf of a sound tree whose rows have the types of their columns can be written: its directory stays clear of its tuples |
| TreeImage.InternalHasImage | src/core/storage/page/slotted_page.cpp:73-86 | so can every internal page |
| TableImage.LeafImageIff | src/core/storage/page/slotted_page.cpp:73-86 | and it can be written if and only if all its rows have the types of their columns |
| TableImage.RowSetIff | src/core/storage/storage.cpp:118-133 | setBTree of a row into a table of typed rows: the leaf that gets the row can be written if and only if the row has the types of its columns, which is when SetRow succeeds; every other leaf can be written |
| TableImage.LeavesAreWritable | src/core/storage/page/slotted_page.cpp:73-86 | between any two operations every leaf of every table can be written |
| BPlusKeys.Less | src/core/util/b_plus_key.cpp:26-38 | operator< holds if and only if at the first place where the keys differ the left one has the smaller integer, or the string that is a proper prefix or has the smaller byte at the first place where the strings differ |
| BPlusKeys.LessOrEqual | src/core/util/b_plus_key.cpp:40-52 | operator<= holds if and only if that is so or the keys are equal |
| BPlusKeys.OneInteger | src/core/util/b_plus_key.cpp:26-38 | keys of one integer are ordered as these integers, the order in which the tree has its keys |
| BPlusKeys.TotalOrder | src/core/util/b_plus_key.cpp:11-52 | for keys of one index exactly one of less, equal and greater holds |
| BPlusKeys.Transitive | src/core/util/b_plus_key.cpp:26-38 | and the order is transitive |
| UndoLog.EncodedEntrySize | src/core/storage/log/log_manager.cpp:20-34 | calcRawSize is the number of bytes of an entry's image |
| UndoLog.EntryPieces | src/core/storage/log/undo_entry.cpp:52-69 | where each part of an entry's image stands: transaction, code of the operation, table name, the offset at which the before image ends, before image, after image |
| UndoLog.FieldLayout | src/core/storage/log/undo_entry.cpp:71-78 | a field of an image is its name, the code of the type of its value, and the value |
| UndoLog.UndoEntry.Save | src/core/storage/log/undo_entry.cpp:52-69 | the buffer becomes the image of the entry: header, the end of the before image filled in last, both images |
| UndoLog.UndoEntry.Refresh | src/core/storage/log/undo_entry.cpp:25-36 | reading an image gives the entry back, every field and both images |
| UndoLog.UndoEntry.ReadTuple | src/core/storage/log/undo_entry.cpp:38-50 | reads exactly the fields up to the end offset |
| LogManager.LogManager.GetCurrentFileIndex | src/core/storage/log/log_manager.cpp:73-96 | counts the files on first use, opens a new one behind a full one, and never changes what is logged |
| LogManager.LogManager.AppendUndoEntry | src/core/storage/log/log_manager.cpp:18-42 | the log grows by exactly this entry, over any number of files |
| LogManager.LogManager.EachUndoEntry | src/core/storage/log/log_manager.cpp:44-71 | the entries visited are those of the transaction, newest first, up to its last BEGIN, across all files |
| LogManager.ReadsBackwards | src/core/storage/log/log_manager.cpp:44-71 | whatever others append in between, these are exactly the entries that the transaction appended since its BEGIN, reversed |
| UndoReplay.UndoneChange | src/core/storage/database/transaction_handle.cpp:34-60 | undoing the entry of an insert, delete or update gives that row its old value up to absent and null fields, and touches no other row; whether the row can then be written says UndoneTyped |
| UndoReplay.SameUndoAll | src/core/storage/database/transaction_handle.cpp:29-65 | replaying a list of entries from tables that agree on its rows up to nulls succeeds alike, ends alike, and leaves all other rows as they are |
| UndoReplay.AbortRestores | src/core/storage/database/transaction_handle.cpp:29-65 | in any run of changes to the files, interleaved as they may be, in which nobody else changes its rows: replaying the entries of a transaction newest first finds every row that it removes, gives its rows their old values and keeps all others |
| UndoReplay.AbortErasesTransaction | src/core/storage/database/transaction_handle.cpp:29-65 | after that the files hold, up to absent and null fields, what they hold after a run in which the other transactions made the same changes and this one none |
| UndoReplay.LoggedKeeps | src/core/storage/database/transaction_handle.cpp:29-65 | a logged change of the files by one running transaction keeps every running transaction undoable |
| UndoReplay.AbortKeeps | src/core/storage/database/transaction_handle.cpp:16-21 | undoing one running transaction gives its rows their old values, leaves the rows of others, and keeps every other running transaction undoable |
| UndoReplay.AbortOfShared | src/core/storage/database/transaction_handle.cpp:29-65 | for any run in which others change the rows of a transaction too: undoing the transaction gives every column of a row that it has only updated the value from before its own first update of that column, so later updates of it by others are lost, and leaves every other column as others have made it |
| UndoReplay.RestoredTyped | src/core/storage/database/transaction_handle.cpp:38-44 | putting an image back gives a row that can be written if and only if the image has no null |
| UndoReplay.UndoneTyped | src/core/storage/database/transaction_handle.cpp:34-60 | undoing one entry leaves tables that can be written if and only if it is no UPDATE or its before image has no null |
| UndoReplay.UndoTypedIff | src/core/storage/database/transaction_handle.cpp:29-65 | every page that the replay of a list of entries writes can be written if and only if no UPDATE among them has a null in its before image |
| UndoReplay.NullsAreAbsent | src/core/storage/database/update.cpp:47-58 | that is so if and only if all columns that the UPDATE assigned were there |
| UndoReplay.AbortWritableIff | src/core/storage/database/transaction_handle.cpp:29-65 | for whole runs: every page that an abort writes can be written if and only if every UPDATE of the transaction found all the columns that it assigned |
| UndoReplay.FittingRowIsSmall | src/core/util/helpers.cpp:117-125 | a row that is small with all columns present is small with any of them absent |
| TableFiles.TableFiles.constructor | src/core/storage/storage.h:98-113 | files that hold sound tables with rows of the right types are valid, with no transaction running |
| TableFiles.TableFiles.ValidateInsert | src/core/storage/database/insert_tuple.cpp:82-120 | a row may be inserted exactly if every required column is given, the key is an integer, and the table does not have it |
| TableFiles.TableFiles.SelectedKeys | src/core/storage/database/delete_tuple.cpp:19-35 | the scan collects a key if and only if the table has it and the WHERE condition holds for its row, each key once |
| TableFiles.TableFiles.UpdateRow | src/core/storage/database/update.cpp:41-64 | one row is replaced by the row with the assignments made in order (AssignedInOrder), exactly if the new values have the types of their columns; otherwise writePage throws with the row taken out; every running transaction stays undoable |
| TableFiles.BuildImages | src/core/storage/database/update.cpp:47-58 | every assigned column gets the value of its expression on a row in which the columns assigned before have their new values and all others, its own among them, the old ones; columns not assigned keep theirs; the images hold the key column and exactly the updated columns, with the values before and after |
| TableFiles.UpdatedInOrder | src/core/storage/database/update.cpp:52-56 | the same of the function that the statement contracts name, for any assignments to different columns |
| TableFiles.ImagesDone | src/core/storage/database/update.cpp:47-60 | the finished images describe the change, and fit the log |
| TableFiles.ImagesNoNulls | src/core/storage/database/update.cpp:47-58 | the before image has no null if and only if the row had all updated columns |
| TableFiles.NullPutBack | src/core/storage/database/update.cpp:47-58 | a row inserted without a nullable column, an UPDATE of that column, and undoing it: the restored row cannot be written |
| TableFiles.StringIntoNumber | src/core/storage/database/update.cpp:41-64 | an UPDATE of an integer column with a string: all that update asks for holds, and the new row cannot be written |
| TableFiles.TableFiles.UndoEntry | src/core/storage/database/transaction_handle.cpp:30-64 | the visitor finds what it removes and makes exactly the change that undoes its entry, or throws, exactly if it puts back a null |
| TableFiles.TableFiles.Undo | src/core/storage/database/transaction_handle.cpp:29-65 | all entries of the transaction are undone, newest first, exactly if none puts back a null |
| Database.StaysUpToDate | src/core/storage/storage.cpp:20-54 | behind an operation of its own a connection holds what the file holds, whatever pages it has read, given that it has cached what UsesAreCached says |
| Database.UsesAreCached | src/core/storage/storage.cpp:20-54 | any run of writePage and readPage on a cache that has room and is in step with the file leaves in it exactly the pages that it held and those that were used, as they are in the file then: CachedAfter, derived from the steps of the cache |
| Database.Database.constructor | src/core/storage/database/database.h:36-38 | a new connection has nothing cached: it sees a table as it is exactly if the header of the file was saved since the last change of it |
| Database.Database.BeginTransaction | src/core/storage/database/transaction_handle.cpp:9-13 | the transaction runs from its BEGIN entry on; one that was running is left behind; tables and the transactions of other connections are untouched |
| Database.Database.Commit | src/core/storage/database/transaction_handle.cpp:23-27 | the transaction ends with its changes in place |
| Database.Database.Look | src/core/storage/storage.cpp:37-54 | what a connection sees of a table with which it is in step is the file |
| Database.Database.DoInsert | src/core/storage/database/insert_tuple.cpp:50-79 | for a connection in step with the table: succeeds exactly if validateInsert does; then exactly that row is added to the file, otherwise nothing changes; the connection stays in step, and every running transaction undoable |
| Database.Database.DeleteTuples | src/core/storage/database/delete_tuple.cpp:10-57 | for a connection in step: behind it the table is exactly the old rows for which the WHERE condition does not hold, unchanged; every running transaction stays undoable |
| Database.Database.Update | src/core/storage/database/update.cpp:11-71 | for a connection in step: behind it every row for which the WHERE condition does not hold is unchanged, and every other one has the assignments made in order, each on what those before have left; exactly if all new values have the types of their columns; the transaction can be aborted afterwards exactly if it could be before and every selected row had all updated columns |
| Database.Database.Abort | src/core/storage/database/transaction_handle.cpp:16-21 | for a connection in step with the tables that its transaction has changed: exactly if every UPDATE of the transaction found the columns that it assigned, every row that it changed has, up to absent and null fields, the value it had before; every other row is unchanged; the transactions of other connections stay undoable; the headers are not saved |
| StaleCache.LeafInsertIff | src/core/storage/storage.cpp:118-133 | a connection inserts a row into a leaf that it has cached, writes the leaf and saves the metadata that it holds: the next connection that opens the file finds a sound file with the old table and exactly this row more if and only if nobody else has written that leaf (rows or links) or the metadata since, and the search for the key in the file ends in that leaf |
| StaleCache.LeafRemoveIff | src/core/storage/storage.cpp:135-264 | the same for the leaf write of a removal without borrow or merge: a sound file with exactly this row less if and only if nobody else has written that leaf or the metadata since |
| StaleCache.LeafAbortIff | src/core/storage/database/transaction_handle.cpp:30-41 | an abort that removes its transaction's row from the leaf that it has cached, and saves no metadata: a sound file with exactly this row less if and only if the leaf in the file is still the one that the insertion wrote |
| StaleInternal.InternalWriteIff | src/core/storage/storage.cpp:135-264 | a connection writes an internal page back, as removeBtree does above the leaf, and saves the metadata that it holds: the file is sound with the same table if and only if nobody else has written the metadata since, the page in the file has the same parent and the same children in order, and the separators written part the keys in the file |
| StaleCache.LostRow | src/core/storage/storage.cpp:20-54 | two connections, a row inserted and committed by one, an insert and an abort by the other from its stale leaf: the committed row is gone already after the insert |
| StaleCache.LostLeaf | src/core/storage/storage.cpp:20-54 | a leaf cached with its present rows but the link from before its neighbour was split: an insertion into it takes the new leaf out of every later scan |
| StaleCache.SkippedLeaf | src/core/storage/storage.cpp:385-401 | in every sound file: behind a leaf written with its link past the next leaf, no leaf leads to that one |
| StaleCache.TakenTwice | src/core/storage/storage.cpp:90-105 | with a saved page counter that is too small, and no free page, popFreePage takes a page of the tree for a new one |
| StaleCache.HiddenRow | src/core/storage/storage.cpp:266-275 | with a saved root that is a page of the tree but not its root, some row of the table is found by no search |
| ExpressionParser.MinimalIsWellFormed | src/core/controller/tokenizer/expression_parser.cpp:226-247 | writing an expression with as few parentheses as the grammar allows gives a proper writing of that expression |
| ExpressionParser.GrammarIff | src/core/controller/tokenizer/expression_parser.cpp:226-247 | the proper writings are those of the grammar with the operators listed level by level: products of *, /, % over primaries; sums of + and - over products; comparisons over sums; NOT over comparisons; AND and OR, on one level, over these; all from left to right |
| ExpressionParser.ParenthesesNeeded | src/core/controller/tokenizer/expression_parser.cpp:226-247 | the minimal writing puts an operand in parentheses if and only if the grammar does not allow it there without |
| ExpressionParser.PopWaiting | src/core/controller/tokenizer/expression_parser.cpp:76-93 | executing the operators that an expression left on the stack, by any of the three loops, yields its tree and nothing else |
| ExpressionParser.Reads | src/core/controller/tokenizer/expression_parser.cpp:95-195 | reading a written expression consumes exactly its tokens and leaves its operands and operators on the two stacks |
| ExpressionParser.ParseInvertsWriting | src/core/controller/tokenizer/expression_parser.cpp:72-205 | an expression of that grammar, followed by the end token, a keyword or punctuation other than parentheses, is read back as its tree, up to exactly that token, if and only if none of the tokens at which the loop looks has the text of the end token |
| ExpressionParser.ParseInvertsPrinting | src/core/controller/tokenizer/expression_parser.cpp:72-205 | in particular when it is written with the fewest parentheses |
| ExpressionParser.ThreeOperands | src/core/controller/tokenizer/expression_parser.cpp:183-191 | a op1 b op2 c, for any operands and operators: b goes to op2 if that is of a tighter one of the listed levels, otherwise to op1 |
| ExpressionParser.NotTwoOperands | src/core/controller/tokenizer/expression_parser.cpp:138-191 | NOT a op b: NOT takes a alone in front of AND and OR, and a op b in front of all other operators |
| ExpressionParser.NothingFails | src/core/controller/tokenizer/expression_parser.cpp:196-203 | no tokens in front of the end are no expression |
| ExpressionParser.UnopenedFails | src/core/controller/tokenizer/expression_parser.cpp:125-136 | an expression and a closing parenthesis that nothing opens are rejected |
| ExpressionParser.SideBySideFails | src/core/controller/tokenizer/expression_parser.cpp:196-203 | two operands side by side are rejected |
| ExpressionParser.MissingOperand | src/core/controller/tokenizer/expression_parser.cpp:76-93 | a parenthesis that nothing closes, and an operator without right operand, take the top of an empty stack |
| ExpressionParser.EmptyTextEndsParse | src/core/controller/tokenizer/expression_parser.cpp:72-205 | with the default end token an empty string literal breaks the expression off |
| ExpressionParser.ExpressionParser.PopOperators | src/core/controller/tokenizer/expression_parser.cpp:127-199 | the loops over the operator stack |
| ExpressionParser.ExpressionParser.Parse | src/core/controller/tokenizer/expression_parser.cpp:72-205 | the loop over the two stacks computes the specified outcome for every token list, errors and empty stacks included |
| LruCache.LinkedList.Push | src/core/storage/lru_cache/linked_list.h:36-43 | a new node becomes the last one, both link directions stay consistent |
| LruCache.LinkedList.Pop | src/core/storage/lru_cache/linked_list.h:45-50 | the first node leaves the list, with its key and value |
| LruCache.LinkedList.PushToEnd | src/core/storage/lru_cache/linked_list.h:52-60 | a node moves to the end, the others keep their order |
| LruCache.LRUCache.Get | src/core/storage/lru_cache/lru_cache.h:36-43 | a present key gives its value and its entry becomes the last; an absent one changes nothing |
| LruCache.LRUCache.Put | src/core/storage/lru_cache/lru_cache.h:25-34 | the entry is appended; a full cache first drops its first entry, forgets that key and returns that value |
| LruCache.RenewedExact | src/core/storage/lru_cache/lru_cache.h:36-43 | a get leaves no stale node either |
| LruCache.PutExactIff | src/core/storage/lru_cache/lru_cache.h:25-34 | a put leaves no stale node if and only if the key is absent or the dropped entry was its own |
| LruCache.OrderOfLastUse | src/core/storage/lru_cache/lru_cache.h:25-43 | over any run of gets and of puts of absent keys the specified list is ordered by last use and never exceeds maxSize |
| LruCache.Run | src/core/storage/lru_cache/lru_cache.h:25-43 | over any such run of the cache itself: the list holds every key of lookup exactly once, in order of last use; it never exceeds maxSize; every get returns the value of its key, and a full put returns exactly the value of the key that was used least recently |
| LruCache.ExactSize | src/core/storage/lru_cache/lru_cache.h:49-51 | without stale nodes the list is as long as lookup |
| LruCache.StepIsNext | src/core/storage/lru_cache/lru_cache.h:25-43 | the steps of such a run are what get and put do |
| PageCache.CachedFile.WritePage | src/core/storage/storage.cpp:20-29 | the page is saved and cached; what goes to the disk is this page or, from a full cache, the one given up, under its own index |
| PageCache.CachedFile.ReadPage | src/core/storage/storage.cpp:37-54 | a cached page is refreshed from its own image; another one is read from disk, and the page that a full cache gives up gets its index and goes to the disk; it fails exactly for a page that is neither cached nor on disk |
| PageCache.Run | src/core/storage/storage.cpp:20-54 | any run of saves, unsaved changes and reads, whatever the size of the cache, does to file, cache and page objects exactly what the specification says, and returns its loads |
| PageCache.FewPages | src/core/storage/storage.cpp:20-54 | with fewer pages than the cache holds, any such run reads what was last saved, loses unsaved changes, and leaves on disk what a flat page store would |
| PageCache.ManyPages | src/core/storage/storage.cpp:20-29 | with as many pages as the cache holds or more, there is a run that leaves an old image on disk |
| PageCache.LikeFlatIff | src/core/storage/storage.cpp:20-54 | so, for every cache size of at least 1: all runs on a set of pages, from an empty cache, are like runs on a flat page store if and only if the set is smaller than the cache |
| PageCache.FullReadOverwrites | src/core/storage/storage.cpp:37-54 | reading a second page through a cache for one page writes the first page over it |
| WaitsFor.LockManager.HasCycle | src/core/controller/concurrency/lock_manager.cpp:235-256 | false exactly if what can be reached from t is a tree with root t; no edge changes |
| WaitsFor.CycleIsNoTree | src/core/controller/concurrency/lock_manager.cpp:235-256 | so a cycle that can be reached is never missed |
| WaitsFor.DiamondIsNoTree | src/core/controller/concurrency/lock_manager.cpp:246-252 | but an acyclic graph with two ways to a vertex is reported too |
| WaitsFor.LockManager.RunCycleDetection | src/core/controller/concurrency/lock_manager.cpp:258-266 | erases the edges of the first vertex whose reachable part is no tree; it erases nothing if and only if every vertex is the root of a tree, and the graph then is acyclic and unchanged |
| WaitsFor.LockManager.RepeatCycleDetection | src/core/controller/concurrency/lock_manager.h:105-113 | repeating it removes edges each time until every vertex is the root of a tree, and so the graph acyclic; no edge is lost if and only if that is so from the start |
| WaitsFor.LockManager.AddEdge | src/core/controller/concurrency/lock_manager.cpp:209-212 | the edges are those before and this one; no vertex but its source is new |
| WaitsFor.LockManager.RemoveAllEdge | src/core/controller/concurrency/lock_manager.cpp:219-227 | removes the vertex and exactly the edges at it |
| Join.AddToJoinedTuple | src/core/util/helpers.cpp:221-226 | the fields of the joined row stay as they are, every other field is added, and of fields of the same name the first one counts |
| Join.RemoveFromJoinedTuple | src/core/util/helpers.cpp:234-241 | removes the fields by name |
| Join.AddRemove | src/core/util/helpers.cpp:221-241 | removing what was added gives the row back if and only if none of the fields was there before |
| Join.MatchesByRight | src/core/storage/database/select.cpp:117-136 | the matches may as well be collected right row by right row |
| Join.SelectJoin | src/core/storage/database/select.cpp:76-136 | every joined row occurs exactly as often as there are pairs of rows that match and give it; in a left join once more for every left row that matches no right row and gives it with the null row of the right table, in a right join for every right row that matches no left row; in a cross join all pairs match |
| Join.JoinEntity | src/core/util/helpers.cpp:243-283 | the in-place join: the same counts, with its condition also for cross; every left row and the null row come back unchanged |
| Join.JoinCount | src/core/storage/database/select.cpp:76-136 | these counts, for the multiset by which the two joins are compared |
| Join.JoinsAgree | src/core/util/helpers.cpp:243-283 | the two agree for inner, left and right joins, and for a cross join if and only if the condition holds for every pair |

## Left out

- BTreeStorage.Storage.RemoveBtree: requires the key to be present; for an absent key the source removes the largest key at most the argument that is in the same leaf (storage.cpp:423), or throws if there is none. All callers in the model pass keys that they have just found.
- BTreeStorage.Storage.SetBTree: requires the key to be absent, which addTuple asserts, and a row of at most 248 encoded bytes, the bound under which two halves of a leaf always fit.
- BTreeStorage.Storage.MergeIntoPrevLeaf: has the back link that storage.cpp:178 intends (`aNode->pageIndex`), not the one it writes.
- Tree keys are one integer column. Composite and string keys are modelled only for comparison and encoding; separators replaced in place keep slot offsets right only if all keys have the same size.
- Page objects of the tree are values written to and read from a page map. Two shared pointers to the same cached page object are modelled in `PageCache`, not in the tree.
- BTreeStorage.Storage.RemoveFromLeaf: requires the key to be in the leaf, as RemoveBtree does.
- BTreeStorage.Storage.RepairLeaf: with the back link that storage.cpp:178 intends; `BackLink.BackLinkIff` says when the one written is right.
- Database.Database.DoInsert: requires tuples of the table's columns, converted to their types as insert_tuple.cpp:32-33 does, that stay within 248 bytes with every column present, and that no other running transaction has changed the row. `lockRow` does not ensure the latter; lock modes and waiting are not modelled. `UndoReplay.AbortOfShared` says what an abort does to shared rows.
- Database.Database.DeleteTuples: requires that no other running transaction has changed the rows, for the same reason.
- Database.Database.Update: columns other than the key column, each set once, with total expressions that give values of a size that fits.
- Database.Database.Abort: what the pages hold after it has thrown is not said; nor after an Update that has thrown.
- Database.Database.BeginTransaction: the transaction counter is a parameter. The loop of the server (sql_server.cpp:55-61), which commits after every statement that found no transaction running, is not part of this model.
- Splits, borrows and merges by a connection whose cache is stale, and the first row of a table; `StaleCache` and `StaleInternal` are about writes of one page. Which pages a connection reads besides those that it writes is left open: any set.
- StaleCache.LeafRemoveIff: is about the leaf; the pages above it, which removeBtree writes back too, are the subject of `StaleInternal.InternalWriteIff`, one by one.
- Conversion of statement text to values, auto increment, the foreign key check, and secondary indexes.
- LogManager.LogManager.EachUndoEntry: returns the entries visited instead of calling back; the callback does not touch the log. The files of one database are a sequence of byte sequences; `countFile` is per database, and entries are shorter than 2^31 bytes.
- Input and output failures, crash recovery, and the order in which streams reach the disk.
- UndoReplay.SameUndoAll: floats are eight opaque bytes throughout.
- ExpressionParser.ExpressionParser.Parse: without functions, IN, BETWEEN and LIKE; literals stay tokens, so numbers that std::stoi rejects are not errors.
- PageCache.CachedFile.ReadPage: which class an uncached page gets from its type byte is not modelled.
- LRUCache flush and clear.
- The lock tables; of the lock manager only the waits-for graph is modelled.
- Join.JoinEntity: requires the target table name to be new to the left rows and the null row; `Join.AddRemove` says what happens otherwise. FULL joins are empty in the source.
- BPlusKeys.Less: integer and string elements only.
- WHERE, GROUP BY, ORDER BY and aggregates of SELECT, and everything about sockets, sessions and output.
