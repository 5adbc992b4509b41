# Storage layer of a small SQLite-like database, in Dafny

This project models the storage layer of a small database written in Go.
It covers the `store` package and the two page-padding helpers of `db/util.go`:

- **Row codec** (`store/record.go`). A row is a list of text fields, stored as an int32 field count followed by length-prefixed fields.
- **Slotted page** (`store/btree.go`). Each page is 4096 bytes:
  - a 9-byte header;
  - a little-endian uint16 offset table;
  - cells packed down from the end of the page.
  The header holds the page type, the cell count, the start of the cell area, and NextLeaf (on a leaf) or LeftChild (on any other page).
- **Pager** (`store/pager.go`):
  - a file of pages numbered from 1;
  - an allocation counter that never hands out page 1;
  - a row log that `AppendRow` and `ReadAllRows` keep on a single page.
- **B+Tree operations** that run over the pager:
  - `InsertRow` and `InsertIntoLeafPage`;
  - `SearchRow`;
  - `DeleteRow`.
- **Padding helpers**: `padToPage` and `trimPadding`.

The model follows the code rather than a textbook B+Tree:

- Leaf cells stay in arrival order.
- A leaf split does not carry the old NextLeaf over.
- Every split answers with a freshly allocated one-cell "mini root", and the parent copies that page's cell.
- A promoted cell that lands at position 0 overwrites the parent's LeftChild.
- The right half of an internal split takes its LeftChild from its own first cell.
- Delete removes every matching cell and never rebalances.

The header comment at `store/btree.go:11-17` shows a 2-byte next-page field, with cells from byte 7. The code writes a 4-byte field at bytes 5-8 and starts the offset table at byte 9, for both page types. The model follows the code.

Layout of the model:

- `bytes.dfy` (`Bytes`): Go bytes, little-endian integers and Go's byte-wise string order.
- `errors.dfy` (`Errors`): the error values and `Result`/`Option`.
- `record.dfy` (`Record`), `page.dfy` (`PageCodec`), `pager.dfy` (`Paging`), `search.dfy` (`Search`), `delete.dfy` (`Delete`), `insert.dfy` (`Insert`) and `util.dfy` (`Padding`): one module per source file.

The state:

- The database file is a byte sequence. The pager's state is the value `Disk(file, nextPage)`.
- `Paging.Pager` is a class whose methods update that file and counter in place.
- Each tree operation is:
  - a method on the pager that does what the Go function does, step by step;
  - a function of the `Disk` that the method is proved to follow.
- The properties are lemmas about those functions.

Go panics are not errors, but they end the operation. A panic is modelled as an `Err` whose error satisfies `IsPanic()`, with the writes made before it kept. The panics modelled are:

- `make` with a negative length;
- a slice out of range;
- `Cells[0]` of a page without cells;
- `ToBytesMust` on a page that does not fit.

## Model

| member | source | states |
|---|---|---|
| Record.EncodeRow | store/record.go:9-19 | EncodeRow never fails. Its bytes are the int32 LE count, then for each field an int32 LE length and the bytes. The length is 4 + Σ(4 + len(field)). |
| Record.DecodeRow | store/record.go:22-41 | DecodeRow follows ParseRow. Fewer than 4 bytes is a short-buffer error. A negative count panics in `make`. On success it returns exactly `count` fields. |
| Record.RowBytesLength | store/record.go:11-17 | The encoding of a row is 4 + Σ(4 + len(field)) bytes long. |
| Record.DecodeEncodeRow | store/record.go:9-41 | DecodeRow(EncodeRow(r)) == r for every row whose count and field lengths fit in an int32, the empty row included. |
| Record.ParseRowBytesWithJunk | store/record.go:22-40 | Bytes after the last declared field are ignored: decoding EncodeRow(r) followed by anything gives r. |
| Record.ParseFieldsOfEncoding | store/record.go:29-39 | The field loop reads every field back from its encoding, whatever follows. |
| Record.ParseFieldsHead | store/record.go:30-37 | A field that the loop accepts has a 4-byte length prefix, and a length that the remaining bytes can hold. So a missing prefix or a declared length past the end is a failure. |
| Record.ParseFieldsIsPrefix | store/record.go:29-39 | What the field loop accepts starts with the encoding of the fields it returns. |
| Record.ParseRowIsPrefix | store/record.go:22-41 | Whatever DecodeRow accepts starts with the encoding of the row it returns. |
| Record.ParseRowIff | store/record.go:22-41 | DecodeRow returns `row` exactly when the data starts with EncodeRow(row) and the row is representable. This covers both directions of the round trip. |
| PageCodec.ExtractKeyOfRow | store/btree.go:68-74 | ExtractKey gives the first field of an encoded row. The zero-field row is an invalid row. |
| PageCodec.IndexOfZero | store/btree.go:86 | bytes.IndexByte(data, 0) returns the first NUL, or reports that there is none. |
| PageCodec.DecodeInternalCellIff | store/btree.go:85-93 | DecodeInternalCell returns (key, child) exactly when the data starts with a NUL-free key, a NUL and the child's 4 LE bytes. Trailing bytes are ignored. A cell with no NUL, or with fewer than 4 bytes after it, fails. |
| PageCodec.DecodeEncodeInternalCell | store/btree.go:77-93 | Decoding an encoded internal cell gives back (key, child) if and only if the key holds no NUL byte. |
| PageCodec.ToBytes | store/btree.go:96-134 | ToBytes succeeds iff the cells fit: none, or 9 + 2n + Σ len ≤ 4096. It then returns the image and the new Offsets. Otherwise it fails with an overflow and keeps the offsets computed before the overflowing cell. |
| PageCodec.PlaceCells | store/btree.go:102-116 | The first loop places cell i directly below the cells before it. It stops at the first cell that would reach into the header or the offset table. |
| PageCodec.FinishPage | store/btree.go:118-131 | After the loop, the start of the cell area goes to bytes 3-4 and the uint32 field to bytes 5-8. The offset table follows from byte 9. |
| PageCodec.ImageLayout | store/btree.go:97-131 | The image is 4096 bytes laid out as: type at byte 0; count at 1-2; start of the cell area at 3-4 (4096 with no cells); NextLeaf on a leaf or LeftChild otherwise at 5-8; offset table from 9; cells packed to the end. |
| PageCodec.CellOffsetsDescend | store/btree.go:102-116 | The offsets ToBytes computes never increase, and decrease strictly past every non-empty cell. |
| PageCodec.PageOf | store/btree.go:137-169 | Input that is not 4096 bytes is rejected. Otherwise the only failures are panics. The type tag is not checked: an unknown type gets NextLeaf = LeftChild = 0. There are as many cells as offsets, and the table fits in the page. |
| PageCodec.PageFromBytes | store/btree.go:137-169 | PageFromBytes follows PageOf. |
| PageCodec.ReadTable | store/btree.go:142-146 | The table loop panics exactly when the table runs past the page. Otherwise it reads the n LE uint16 entries. |
| PageCodec.SliceCells | store/btree.go:147-156 | The cell loop panics exactly when some cell's bounds are out of range. Otherwise it slices each cell from its offset to the previous cell's offset. |
| PageCodec.PageOfImage | store/btree.go:96-169 | PageFromBytes(ToBytes(p)) gives the same type, the stored cells and the offsets. NextLeaf comes back on a leaf and LeftChild on an internal page; the other field reads as 0. |
| PageCodec.LaidOutPage | store/btree.go:137-169 | Any 4096-byte buffer with that layout decodes to those cells and that header field. |
| PageCodec.EmptyPageRoundTrip | store/btree.go:52-65 | A fresh leaf or internal page fits, and survives the round trip unchanged. |
| Paging.PageAt | store/pager.go:54-65 | ReadPage succeeds exactly for a page number ≥ 1 that the file holds in full. It returns the 4096 bytes at (n-1)·4096. |
| Paging.ReadAfterWrite | store/pager.go:54-77 | After a successful WritePage, that page reads back as the data, and every other readable page reads as before. |
| Paging.Pager.Open | store/pager.go:19-52 | An empty file gets a zeroed page 1. The counter starts at ceil(size/4096) + 1, and at 2 for an empty file. |
| Paging.InitialPageCountCovers | store/pager.go:30-50 | The initial page count is at least 1. The counter starts past every byte of the file. |
| Paging.OpenBounded | store/pager.go:19-52 | A freshly opened pager has no page at or past its counter. |
| Paging.Pager.ReadPage | store/pager.go:54-65 | The method follows PageAt: page numbers below 1 are rejected, and a short read is an error. |
| Paging.Pager.WritePage | store/pager.go:67-77 | Data that is not 4096 bytes is rejected. A negative offset is an error. Otherwise the file grows as needed, the page is written, and the counter does not move. |
| Paging.Pager.AllocatePage | store/pager.go:134-141 | It hands out the counter, never below 2, and moves the counter past it. |
| Paging.NextAllocation | store/pager.go:134-141 | The page handed out is at least 2, and at least the counter. |
| Paging.AllocationsIncrease | store/pager.go:134-141 | Successive allocations are consecutive page numbers, so they strictly increase. A fresh counter gives page 2 first. |
| Paging.AllocateFresh | store/pager.go:134-141 | In a state where the file holds no page at or past the counter, an allocated page cannot be read yet, and that state is kept. |
| Paging.ReadableBelow | store/pager.go:54-65 | In such a state, every readable page lies below the counter. |
| Paging.StoreBounded | store/pager.go:67-77 | A write below the counter keeps the state so, and never shrinks the file. |
| Paging.Pager.AppendRow | store/pager.go:83-109 | AppendRow follows AppendOutcome. An unreadable or all-zero page starts from an empty log. The counter is unchanged. |
| Paging.EntriesEnd | store/pager.go:90-98 | The walk over the existing entries ends past 4 bytes per entry, or fails with an offset overflow. |
| Paging.Patched | store/pager.go:90-106 | The page after the entry is added is 4096 bytes. The only failures are the overflow of the walk and a full page. |
| Paging.PatchPage | store/pager.go:89-106 | The method's loop and its three writes follow Patched. |
| Paging.PutEntry | store/pager.go:104-106 | The three writes: the row's length, its bytes, then the count plus one. |
| Paging.AppendedPage | store/pager.go:104-106 | After the writes, the count is one more, the earlier entries are unchanged, and the new entry (u32 length and bytes) sits right after them. |
| Paging.SmallCount | store/pager.go:106 | uint32(count+1) does not wrap once the walk has succeeded. |
| Paging.AppendFailureWritesNothing | store/pager.go:92-102 | A failed AppendRow, whether from an overflow of the walk or a full page, leaves the file unchanged. |
| Paging.RowsAfterAppend | store/pager.go:104-130 | A page that keeps the old entries and adds one after them reads as the old rows plus the new one. |
| Paging.AppendedRows | store/pager.go:83-130 | On the page itself, ReadAllRows after the append gives the old rows followed by the new row. |
| Paging.AppendedLog | store/pager.go:83-132 | After a successful AppendRow, the log page is readable and not all zeros, and holds the old rows plus the new one. |
| Paging.AppendThenReadAll | store/pager.go:83-132 | ReadAllRows after a successful AppendRow returns the rows before it followed by the new row. |
| Paging.AppendAllLog | store/pager.go:83-132 | A run of successful AppendRow calls leaves the old rows followed by exactly the appended rows, in order. |
| Paging.AppendAllThenReadAll | store/pager.go:83-132 | ReadAllRows after a run of successful appends returns the earlier rows followed by exactly the appended rows, in append order. |
| Paging.Pager.ReadAllRows | store/pager.go:111-132 | The method returns the page's rows, or the read error. |
| Paging.CollectRows | store/pager.go:116-131 | The loop collects exactly the rows of the page, in order. |
| Paging.RowsFrom | store/pager.go:119-130 | The walk returns at most `count` rows. |
| Paging.RowsNext | store/pager.go:119-130 | The walk stops silently at a truncated length prefix or at an entry running past the page. Otherwise it reads one row and continues after it. |
| Padding.Pad | db/util.go:5-9 | The result is exactly 4096 bytes: the first min(len, 4096) bytes of the data, then zeros. |
| Padding.PadToPage | db/util.go:5-9 | The copy into a fresh zeroed buffer gives Pad(data). |
| Padding.TrimPadding | db/util.go:11-17 | The loop returns a prefix with only zeros after it, which is empty or ends in a nonzero byte. This is Trim(data). |
| Padding.TrimShape | db/util.go:11-17 | Trim keeps a prefix, drops only zeros, and what it keeps is empty or ends in a nonzero byte. |
| Padding.TrimUnique | db/util.go:11-17 | These three properties determine the result. |
| Padding.TrimIdempotent | db/util.go:11-17 | Trimming twice is trimming once. |
| Padding.TrimZeros | db/util.go:11-17 | An all-zero buffer trims to nothing. |
| Padding.TrimPad | db/util.go:5-17 | trimPadding(padToPage(d)) == d when d fits in a page and does not end in a zero byte. |
| Search.ReadNode | store/btree_search.go:10-17 | ReadPage then PageFromBytes, with either error passed on. |
| Search.NodeAfterWrite | store/btree.go:96-169 | A page that fits, once written, reads back with the same type and stored cells, and keeps the header field of its type. |
| Search.ChildPage | store/btree_search.go:33-44 | The loop over an internal page starts from LeftChild. It skips undecodable cells, stops at the first key above the search key, and otherwise moves to the cell's child. |
| Search.RouteByBelow | store/btree_search.go:34-44 | The chosen child is LeftChild when the first decodable key is already above the search key. Otherwise it is the child of the last leading separator whose key is ≤ the search key. |
| Search.BelowBounds | store/btree_search.go:34-44 | The separators counted are exactly the leading ones whose keys are ≤ the search key. |
| Search.BelowAscending | store/btree_search.go:34-44 | With ascending separator keys, every separator after the chosen one has a key above the search key. |
| Search.FindInLeaf | store/btree_search.go:20-30 | A leaf scan returns a cell of the page whose key is the search key. It reports the key missing or panics, and nothing else. |
| Search.FindCell | store/btree_search.go:21-30 | The method's loop follows FindInLeaf. |
| Search.FindInLeafFirst | store/btree_search.go:20-30 | The scan returns the first cell in stored order with the key, provided every cell before it has another key or no key. It reports not found exactly when every cell has another key or no key, and no cell's key extraction panics. |
| Search.SearchFrom | store/btree_search.go:5-50 | Whatever SearchRow returns has the search key as its first field. |
| Search.SearchRow | store/btree_search.go:5-50 | SearchRow follows SearchFrom, including the root page ≤ 0 and unknown page type errors. It declares no `modifies`, so it only reads. |
| Search.SearchMoreFuel | store/btree_search.go:32-45 | A search that did not run out of depth answers the same with any larger depth bound. |
| Delete.FilterCells | store/btree_delete.go:16-28 | The leaf loop follows Survivors. |
| Delete.SurvivorsPanic | store/btree_delete.go:18-22 | A panic while extracting a key ends the scan. |
| Delete.SurvivorsInOrder | store/btree_delete.go:16-28 | The kept cells are cells of the page, in their original order. |
| Delete.SurvivorsKeep | store/btree_delete.go:18-28 | Every kept cell has a key, and not the deleted one, so cells without a key are dropped. |
| Delete.SurvivorsComplete | store/btree_delete.go:18-28 | Every cell with a key other than the deleted one is kept. |
| Delete.SurvivorsAreFilter | store/btree_delete.go:16-28 | The kept cells are exactly Filter(cells, key): every cell with a key other than the deleted one, each copy of it, in page order, and nothing else. |
| Delete.FilterCounts | store/btree_delete.go:18-27 | Filter keeps as many copies of a cell with another key as the page holds, and no copy of any other cell. |
| Delete.SurvivorsFound | store/btree_delete.go:16-28 | `found` holds exactly when some cell has the key, so every match is removed, not just the first. |
| Delete.KeptNotFound | store/btree_delete.go:18-28 | A scan of the kept cells for the key reports it missing. |
| Delete.DeleteFrom | store/btree_delete.go:5-54 | DeleteRow returns 0 or the root page number, and the root page on success. |
| Delete.DeleteRow | store/btree_delete.go:5-54 | The method follows DeleteFrom and never allocates. |
| Delete.DeleteFailureWritesNothing | store/btree_delete.go:29-35 | A failed delete, including "not found", leaves the file unchanged. |
| Delete.DeleteDescends | store/btree_delete.go:38-52 | On a page other than a leaf, the outcome is the delete in the chosen child, answered with this page's number. |
| Delete.DeleteKeepsInternalPages | store/btree_delete.go:38-52 | Internal pages are never rewritten, merged or shrunk. |
| Delete.DeleteFromLeaf | store/btree_delete.go:15-35 | A successful leaf delete rewrites the same page as a leaf with the same NextLeaf. It holds exactly Filter(cells, key): every copy of every cell with another key, in page order. A search there then reports the key missing. |
| Delete.KeptPage | store/btree_delete.go:32-34 | The rewritten leaf stores all surviving cells: the count does not wrap. |
| Insert.Must | store/btree_insert.go:214-220 | ToBytesMust returns the image exactly when the page fits, and panics otherwise. The image reads back with the same type and stored cells. |
| Insert.ToBytesMust | store/btree_insert.go:214-220 | The method follows Must. |
| Insert.FirstChild | store/btree_insert.go:203-212 | A nonzero result is the child of the page's first cell, which decodes. Otherwise the result is 0. |
| Insert.InsertLeaf | store/btree_insert.go:5-54 | Errors leave the pager untouched. Success sets SelfChanged. Without a split nothing is allocated. A split allocates exactly one page, answers with it, and NewPage is non-empty. |
| Insert.InsertIntoLeafPage | store/btree_insert.go:5-54 | The method follows InsertLeaf on the pager's state. |
| Insert.LeafInsertInPlace | store/btree_insert.go:18-27 | A row that fits goes at the end of the cells, unsorted. The page keeps its number and NextLeaf, nothing is allocated, and other pages read as before. |
| Insert.LeafSplit | store/btree_insert.go:30-53 | The halves split old cells + [row] at len/2, with nothing lost or repeated. The left half stays on the page and is chained to the right half on a fresh page. The right half's NextLeaf is 0: the old one is not carried over. |
| Insert.NewRoot | store/btree_insert.go:85-92 | The new root allocates one page and answers with it. A panic leaves the file unwritten. |
| Insert.WriteNewRoot | store/btree_insert.go:85-92 | The method follows NewRoot. Sorting the one-cell page changes nothing. |
| Insert.NewRootShape | store/btree_insert.go:85-92 | The new page reads as an internal page with one cell and LeftChild = the page that split. It is the last page allocated, and older pages read as before. |
| Insert.InsertIntoLeafRoot | store/btree_insert.go:70-93 | The leaf-root case of InsertRow follows LeafRoot. |
| Insert.RouteStrict | store/btree_insert.go:96-110 | The descent chooses the same child as the search rule, but fails on the first separator that does not decode. |
| Insert.InsertChild | store/btree_insert.go:101-110 | The loop follows RouteStrict. |
| Insert.InsertRejects | store/btree_insert.go:56-58 | A root page ≤ 0, or an undecodable separator on the way down, fails before any write. |
| Insert.ChildKeptPage | store/btree_insert.go:112-118 | When the child answers with its own page number, the parent is not rewritten and its page number is returned. |
| Insert.PromotionOf | store/btree_insert.go:120-144 | The promoted separator is the first key of a leaf with that page as child, or the first cell of any other page. A page without cells panics. |
| Insert.PromoteKeyAndChild | store/btree_insert.go:222-260 | It succeeds only on a readable page with cells. A page of unknown type is an error. |
| Insert.ExtractPromoteKeyAndChild | store/btree_insert.go:222-260 | The method follows PromoteKeyAndChild. |
| Insert.PromotionsCompared | store/btree_insert.go:133-144 | On a leaf the two promotion routines agree. On an internal page they give the same key, but the child is the cell's child versus LeftChild. On an empty page the inline copy panics. |
| Insert.MiniRootPromotions | store/btree_insert.go:120-144 | On a mini root, InsertRow copies the cell (key, right page). ExtractPromoteKeyAndChild would give (key, the page that split). |
| Insert.InsertPosition | store/btree_insert.go:149-156 | The position loop follows InsertPos over the cells' keys. An undecodable cell reads as the empty key. |
| Insert.InsertPosBounds | store/btree_insert.go:149-156 | Every key before the position is ≤ the promoted key, and the key at the position is above it. |
| Insert.InsertKeepsSorted | store/btree_insert.go:149-161 | Inserting a new key at that position keeps increasing keys increasing. |
| Insert.SplicedKeys | store/btree_insert.go:146-161 | After the shift, the parent's keys are the old keys with the promoted key at its position. |
| Insert.SplicedSorted | store/btree_insert.go:146-161 | A parent with increasing keys keeps them increasing after taking in a new promoted key. |
| Insert.SplicedChildren | store/btree_insert.go:157-162 | The promoted child joins the cells' children. Away from position 0 LeftChild is kept. At position 0 LeftChild is overwritten, and the old LeftChild is no longer pointed at unless a cell names it. |
| Insert.AddPromoted | store/btree_insert.go:146-200 | The method follows AddToRoot. |
| Insert.AddToRootInPlace | store/btree_insert.go:164-168 | A parent that still fits is rewritten in place and its page number returned. Nothing is allocated, and other pages read as before. |
| Insert.SplitInternal | store/btree_insert.go:171-200 | The method follows SplitRoot. |
| Insert.SplitHalves | store/btree_insert.go:172-188 | The left half, the middle cell and the right half make up the cells in order. The middle cell is in neither half, so its child page number is dropped. |
| Insert.SplitRootShape | store/btree_insert.go:171-200 | The left half stays at the parent's page with the old LeftChild. The right half goes to the fresh page with LeftChild from its own first cell. The answer is the next page: a mini root over the two, keyed by the middle key. Other older pages read as before. |
| Insert.AbsorbChild | store/btree_insert.go:112-200 | The method follows Absorb. |
| Insert.InsertRow | store/btree_insert.go:55-201 | The method follows InsertFrom on the pager's state. |
| Insert.StoreReads | store/btree_insert.go:164-168 | A page that fits, written at a page number ≥ 1, reads back with its type, cells and the header field of its type. |
| Insert.StoreKeeps | store/pager.go:67-77 | A write to one page leaves every other readable page reading as before. |
| Insert.NewRootAnswer | store/btree_insert.go:85-92 | The new-root step answers with the page that split, or with the mini root it allocated. |
| Insert.LeafRootAnswer | store/btree_insert.go:70-93 | The leaf case answers with its own page, or with the mini root allocated over it. |
| Insert.SplitRootAnswer | store/btree_insert.go:171-200 | An internal split answers with the mini root allocated over the parent's page. |
| Insert.AbsorbAnswer | store/btree_insert.go:112-200 | Taking in a child's answer gives the parent's own page, or the mini root allocated over it. |
| Insert.NewRootGrows | store/btree_insert.go:85-92 | The new root is written only at the page just allocated. The counter and the file do not shrink. |
| Insert.InsertLeafGrows | store/btree_insert.go:5-54 | InsertIntoLeafPage writes only its own page and the page it allocates. |
| Insert.LeafRootGrows | store/btree_insert.go:70-93 | The leaf case writes only its own page and the pages it allocates. |
| Insert.SplitRootGrows | store/btree_insert.go:171-200 | An internal split writes only the parent's page and the pages it allocates. |
| Insert.AbsorbGrows | store/btree_insert.go:112-200 | Taking in a child's answer writes only the parent's page and the pages it allocates. |
| Insert.InternalStep | store/btree_insert.go:96-200 | One level of descent keeps the state bounded if the recursive call below it does. |
| Insert.InsertAnswer | store/btree_insert.go:55-201 | InsertRow answers with its own page or with the mini root it just allocated over it, which is the last page allocated. The parent copies that mini root's cell, so the leaf branch of the promotion never runs. |
| Insert.InsertBounded | store/btree_insert.go:55-201 | InsertRow writes only pages it read or allocated. In a state where the file holds no page at or past the counter, that stays so, and neither the counter nor the file shrinks. |

## Left out

- File I/O is modelled as a byte sequence: `os.OpenFile`, `Stat`, `ReadAt`/`WriteAt`, `Sync` and `Close`. A write past the end zero-fills the gap. Durability, I/O failures and sparse files are not modelled.
- Console output (`fmt.Printf` in `OpenPager`, `fmt.Println` in `ExtractPromoteKeyAndChild`) has no effect on results and is left out.
- Crash atomicity and concurrent access are left out: the code has neither locking nor logging.
- Error messages and `%w` wrapping are not modelled: each error is one `Errors.Error` value.
- Recursion depth: `InsertRow`, `SearchRow` and `DeleteRow` recurse without a bound. The model gives them a `fuel` parameter, and running out is the error `DepthExceeded`. A corrupt tree whose child page numbers form a cycle, on which the Go code never returns, is not modelled.
- Ignored `WritePage` results in the insert and split paths: the model keeps the file unchanged on failure and carries on, as the code does.
- The nil slice from `data, _ := ToBytes()` on an overflow is modelled as the empty sequence, which `WritePage` then rejects.
- `Page.Offsets`, as updated by `ToBytes`, is returned by `PageCodec.ToBytes` but not kept in the pages the tree operations build. No operation reads it back.
- Aliasing of slices: the shallow copy `test := *page` and `append` on shared backing arrays are not modelled. The model works on values, which gives the same results here.
- The in-place shift of `root.Cells` with `copy` is modelled as a sequence splice.
- `sortInternalCells` (`store/util.go`) is not part of this model. Its only call sorts a one-cell page, which it leaves unchanged.
- `store/btree_debug.go`, `db/table.go`, `db/executor.go`, `db/database.go`, `main.go` and the tests are not part of this model.
- Insert.ToBytesMust: the panic on a page that does not fit is an error outcome that ends the insert, with earlier writes kept. It is not a precondition: whether a split page fits depends on the whole tree, so a precondition would exclude inputs that the code accepts.
- Insert.InsertAnswer: it does not state that every inserted key stays searchable, because the code does not guarantee it. The LeftChild overwrite at position 0 can leave a page unreachable (Insert.SplicedChildren).
- Search.SearchFrom: the contract covers what a found cell looks like, not that a key that was inserted is found, for the same reason.
- Insert.SplicedSorted: it needs the promoted key to be new to the parent and free of NUL bytes. Nothing in the code enforces either, and Insert.SplicedKeys states what happens in general.
