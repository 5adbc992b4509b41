/** store/pager.go: the database file as a byte sequence, pages of PageSize
    bytes numbered from 1, the page allocator, and the row log that AppendRow
    and ReadAllRows keep on a single page. */
module Paging {
  import opened Bytes
  import opened Errors

  /** Where page n starts in the file. */
  function Offset(pageNum: int): int {
    (pageNum - 1) * PageSize
  }

  // ---------------------------------------------------------------------------
  // The file

  /** ReadPage: page numbers start at 1, and a page the file does not hold in
      full is a short read (ReadAt reports io.EOF). */
  function PageAt(file: seq<byte>, pageNum: int): (r: Result<seq<byte>>)
    ensures r.Ok? <==> 1 <= pageNum && pageNum * PageSize <= |file|
    ensures r.Ok? ==> r.value == file[Offset(pageNum)..Offset(pageNum) + PageSize]
  {
    if pageNum < 1 then Err(InvalidPageNumber)
    else if Offset(pageNum) + PageSize > |file| then Err(ShortRead)
    else Ok(file[Offset(pageNum)..Offset(pageNum) + PageSize])
  }

  /** os.File.WriteAt at a non-negative offset: the file grows to hold the data,
      and any gap before it reads as zeros. */
  function WriteAt(file: seq<byte>, off: nat, data: seq<byte>): (r: seq<byte>)
    ensures |r| == if off + |data| <= |file| then |file| else off + |data|
  {
    var grown := if off + |data| <= |file| then file else file + Zeros(off + |data| - |file|);
    Splice(grown, off, data)
  }

  /** WritePage: the outcome and the file after it. Only a page-sized buffer is
      written, and a page number below 1 gives a negative file offset. */
  function PageWrite(file: seq<byte>, pageNum: int, data: seq<byte>): (seq<byte>, Result<()>) {
    if |data| != PageSize then (file, Err(SizeMismatch))
    else if Offset(pageNum) < 0 then (file, Err(NegativeOffset))
    else (WriteAt(file, Offset(pageNum), data), Ok(()))
  }

  /** A page that could be read before a write to another page reads the same
      after it; the page written reads back as the data. */
  lemma ReadAfterWrite(file: seq<byte>, pageNum: int, data: seq<byte>, other: int)
    requires PageWrite(file, pageNum, data).1.Ok?
    ensures PageAt(PageWrite(file, pageNum, data).0, pageNum) == Ok(data)
    ensures other != pageNum && PageAt(file, other).Ok?
        ==> PageAt(PageWrite(file, pageNum, data).0, other) == PageAt(file, other)
  {
    var off := Offset(pageNum);
    var grown := if off + |data| <= |file| then file else file + Zeros(off + |data| - |file|);
    SpliceInside(grown, off, data);
    if other != pageNum && PageAt(file, other).Ok? {
      var o := Offset(other);
      assert o + PageSize <= off || off + PageSize <= o;
      SpliceOutside(grown, off, data, o, o + PageSize);
      assert grown[o..o + PageSize] == file[o..o + PageSize];
    }
  }

  /** The number of pages of a file of the given size, a partial last page
      included; an empty file is given one page. */
  function InitialPageCount(size: nat): nat {
    var count := size / PageSize + (if size % PageSize != 0 then 1 else 0);
    if count == 0 then 1 else count
  }

  /** OpenPager's allocator starts past every byte of the file and never at
      page 1, and the page before it is not past the end of the file. */
  lemma InitialPageCountCovers(size: nat)
    ensures 1 <= InitialPageCount(size)
    ensures size <= Offset(InitialPageCount(size) + 1)
    ensures size == 0 || Offset(InitialPageCount(size)) < size
  {
    var q, r := size / PageSize, size % PageSize;
    assert size == q * PageSize + r;
  }

  // ---------------------------------------------------------------------------
  // The row log on one page: a uint32 count, then each row as a uint32 length
  // followed by its bytes.

  /** AppendRow's walk over k entries from `offset`: where they end, or the
      error of a length prefix that would start past the page. */
  function EntriesEnd(page: seq<byte>, k: nat, offset: int): (r: Result<int>)
    requires |page| == PageSize && offset >= 0
    ensures r.Ok? ==> r.value >= offset + 4 * k
    ensures r.Err? ==> r.error == OffsetOverflow
    decreases k
  {
    if k == 0 then Ok(offset)
    else if offset + 4 > PageSize then Err(OffsetOverflow)
    else EntriesEnd(page, k - 1, offset + 4 + U32At(page, offset))
  }

  /** ReadAllRows' walk: up to k entries from `offset`, stopping quietly at a
      length prefix or an entry that runs past the page. */
  function RowsFrom(page: seq<byte>, k: nat, offset: int): (rows: seq<seq<byte>>)
    requires |page| == PageSize && offset >= 0
    ensures |rows| <= k
    decreases k
  {
    if k == 0 || offset + 4 > PageSize then []
    else
      var len := U32At(page, offset);
      if offset + 4 + len > PageSize then []
      else [page[offset + 4..offset + 4 + len]] + RowsFrom(page, k - 1, offset + 4 + len)
  }

  /** The rows ReadAllRows returns for a page. */
  function PageRows(page: seq<byte>): seq<seq<byte>>
    requires |page| == PageSize
  {
    RowsFrom(page, U32At(page, 0), 4)
  }

  /** ReadAllRows: the rows of the page, or the error of reading it. */
  function AllRows(file: seq<byte>, pageNum: int): Result<seq<seq<byte>>> {
    match PageAt(file, pageNum)
    case Err(e) => Err(e)
    case Ok(page) => Ok(PageRows(page))
  }

  /** The page AppendRow starts from: the page as read, or a zeroed page when
      it cannot be read or is all zeros. */
  function LogPage(file: seq<byte>, pageNum: int): (page: seq<byte>)
    ensures |page| == PageSize
  {
    match PageAt(file, pageNum)
    case Err(_) => Zeros(PageSize)
    case Ok(page) => if page == Zeros(PageSize) then Zeros(PageSize) else page
  }

  /** The rows already in the log AppendRow extends. */
  function LogRows(file: seq<byte>, pageNum: int): seq<seq<byte>> {
    PageRows(LogPage(file, pageNum))
  }

  /** The page after AppendRow's three writes: the row's length and bytes at
      the end of the entries, then the count increased by one. */
  function Appended(page: seq<byte>, count: u32, offset: nat, row: seq<byte>): (r: seq<byte>)
    requires |page| == PageSize && offset + 4 + |row| <= PageSize
    ensures |r| == PageSize
  {
    var withLength := Splice(page, offset, LE32(ToU32(|row|)));
    var withRow := Splice(withLength, offset + 4, row);
    Splice(withRow, 0, LE32(ToU32(count + 1)))
  }

  /** AppendRow's work on the page it read: the page with the new entry, or
      the error of walking the entries off the page or of a row that does not
      fit after them. */
  function Patched(page: seq<byte>, row: seq<byte>): (r: Result<seq<byte>>)
    requires |page| == PageSize
    ensures r.Ok? ==> |r.value| == PageSize
    ensures r.Err? ==> r.error == OffsetOverflow || r.error == PageFull
  {
    var count := U32At(page, 0);
    match EntriesEnd(page, count, 4)
    case Err(e) => Err(e)
    case Ok(offset) =>
      if offset + 4 + |row| > PageSize then Err(PageFull)
      else Ok(Appended(page, count, offset, row))
  }

  /** AppendRow: the file afterwards and the outcome. A failure on the page
      leaves the file untouched; otherwise the patched page is written back. */
  function AppendOutcome(file: seq<byte>, pageNum: int, row: seq<byte>): (seq<byte>, Result<()>) {
    match Patched(LogPage(file, pageNum), row)
    case Err(e) => (file, Err(e))
    case Ok(np) => PageWrite(file, pageNum, np)
  }

  /** A failed AppendRow leaves the file as it was. */
  lemma AppendFailureWritesNothing(file: seq<byte>, pageNum: int, row: seq<byte>)
    requires AppendOutcome(file, pageNum, row).1.Err?
    ensures AppendOutcome(file, pageNum, row).0 == file
  {
  }

  /** Entries that end inside the page read back the same from any page that
      agrees on their bytes. */
  lemma {:induction false} RowsFromFrame(p: seq<byte>, q: seq<byte>, k: nat, offset: nat, end: int)
    requires |p| == PageSize && |q| == PageSize
    requires EntriesEnd(p, k, offset) == Ok(end) && end <= PageSize
    requires Agree(p, q, offset, end)
    ensures EntriesEnd(q, k, offset) == Ok(end)
    ensures RowsFrom(p, k, offset) == RowsFrom(q, k, offset)
    decreases k
  {
    if k > 0 {
      FrameHead(p, q, k, offset, end);
      RowsFromFrame(p, q, k - 1, offset + 4 + U32At(p, offset), end);
    }
  }

  /** The first of those entries: the same row on both pages, and the rest of
      the entries agreeing after it. */
  lemma FrameHead(p: seq<byte>, q: seq<byte>, k: nat, offset: nat, end: int)
    requires |p| == PageSize && |q| == PageSize && k > 0
    requires EntriesEnd(p, k, offset) == Ok(end) && end <= PageSize
    requires Agree(p, q, offset, end)
    ensures var next := offset + 4 + U32At(p, offset);
      && next <= end
      && EntriesEnd(p, k - 1, next) == Ok(end) && Agree(p, q, next, end)
      && EntriesEnd(q, k, offset) == EntriesEnd(q, k - 1, next)
      && RowsFrom(p, k, offset) == [p[offset + 4..next]] + RowsFrom(p, k - 1, next)
      && RowsFrom(q, k, offset) == [p[offset + 4..next]] + RowsFrom(q, k - 1, next)
  {
    var next := offset + 4 + U32At(p, offset);
    EntryStep(p, k, offset);
    AgreeU32(p, q, offset, offset, end);
    EntryStep(q, k, offset);
    AgreeWithin(p, q, offset, end, offset + 4, next);
    AgreeSlice(p, q, offset + 4, next);
    AgreeWithin(p, q, offset, end, next, end);
  }

  /** One entry of both walks, when its length prefix is inside the page. */
  lemma EntryStep(p: seq<byte>, k: nat, offset: nat)
    requires |p| == PageSize && k > 0 && offset + 4 <= PageSize
    ensures var next := offset + 4 + U32At(p, offset);
      && EntriesEnd(p, k, offset) == EntriesEnd(p, k - 1, next)
      && (next <= PageSize ==> RowsFrom(p, k, offset) == [p[offset + 4..next]] + RowsFrom(p, k - 1, next))
  {
  }

  /** One more entry right after k entries that end inside the page is read as
      one more row. */
  lemma {:induction false} RowsFromSnoc(p: seq<byte>, k: nat, offset: nat, end: nat)
    requires |p| == PageSize && EntriesEnd(p, k, offset) == Ok(end)
    requires end + 4 <= PageSize && end + 4 + U32At(p, end) <= PageSize
    ensures RowsFrom(p, k + 1, offset) == RowsFrom(p, k, offset) + [p[end + 4..end + 4 + U32At(p, end)]]
    decreases k
  {
    if k > 0 {
      var next := offset + 4 + U32At(p, offset);
      assert EntriesEnd(p, k, offset) == EntriesEnd(p, k - 1, next);
      RowsFromSnoc(p, k - 1, next, end);
    }
  }

  /** A successful AppendRow adds its row after the rows already in the log,
      which stay as they were; when the page could be read before, those are
      the rows ReadAllRows returned. */
  lemma AppendThenReadAll(file: seq<byte>, pageNum: int, row: seq<byte>)
    requires AppendOutcome(file, pageNum, row).1.Ok?
    ensures AllRows(AppendOutcome(file, pageNum, row).0, pageNum) == Ok(LogRows(file, pageNum) + [row])
    ensures PageAt(file, pageNum).Ok? ==> AllRows(file, pageNum) == Ok(LogRows(file, pageNum))
  {
    AppendedLog(file, pageNum, row);
  }

  /** After a successful AppendRow the log page can be read, is no longer all
      zeros, and holds one more row. */
  lemma AppendedLog(file: seq<byte>, pageNum: int, row: seq<byte>)
    requires AppendOutcome(file, pageNum, row).1.Ok?
    ensures var file' := AppendOutcome(file, pageNum, row).0;
      && PageAt(file', pageNum).Ok? && PageAt(file', pageNum).value != Zeros(PageSize)
      && LogPage(file', pageNum) == PageAt(file', pageNum).value
      && AllRows(file', pageNum) == Ok(LogRows(file', pageNum))
      && LogRows(file', pageNum) == LogRows(file, pageNum) + [row]
  {
    var page := LogPage(file, pageNum);
    var count := U32At(page, 0);
    var end := EntriesEnd(page, count, 4).value;
    var np := Appended(page, count, end, row);
    assert AppendOutcome(file, pageNum, row) == PageWrite(file, pageNum, np);
    ReadAfterWrite(file, pageNum, np, pageNum);
    AppendedPage(page, count, end, row);
    AppendedRows(page, end, row);
  }

  /** AppendRow of each row in turn, stopping at the first failure. */
  function AppendAll(file: seq<byte>, pageNum: int, rows: seq<seq<byte>>): (seq<byte>, Result<()>)
    decreases |rows|
  {
    if rows == [] then (file, Ok(()))
    else
      var (file', r) := AppendOutcome(file, pageNum, rows[0]);
      if r.Err? then (file', r) else AppendAll(file', pageNum, rows[1..])
  }

  lemma AppendAllStep(file: seq<byte>, pageNum: int, rows: seq<seq<byte>>)
    requires AppendAll(file, pageNum, rows).1.Ok? && rows != []
    ensures AppendOutcome(file, pageNum, rows[0]).1.Ok?
    ensures AppendAll(file, pageNum, rows) == AppendAll(AppendOutcome(file, pageNum, rows[0]).0, pageNum, rows[1..])
  {
  }

  /** A run of successful AppendRow calls reads back as the rows already in
      the log followed by exactly the appended rows, in order. */
  lemma AppendAllThenReadAll(file: seq<byte>, pageNum: int, rows: seq<seq<byte>>)
    requires AppendAll(file, pageNum, rows).1.Ok? && rows != []
    ensures AllRows(AppendAll(file, pageNum, rows).0, pageNum) == Ok(LogRows(file, pageNum) + rows)
  {
    AppendAllLog(file, pageNum, rows);
  }

  /** The log after a run of successful AppendRow calls, by induction on the run. */
  lemma {:induction false} AppendAllLog(file: seq<byte>, pageNum: int, rows: seq<seq<byte>>)
    requires AppendAll(file, pageNum, rows).1.Ok?
    ensures var file' := AppendAll(file, pageNum, rows).0;
      && LogRows(file', pageNum) == LogRows(file, pageNum) + rows
      && (rows != [] ==> AllRows(file', pageNum) == Ok(LogRows(file', pageNum)))
    decreases |rows|
  {
    if rows != [] {
      var file' := AppendOutcome(file, pageNum, rows[0]).0;
      AppendAllStep(file, pageNum, rows);
      AppendedLog(file, pageNum, rows[0]);
      AppendAllLog(file', pageNum, rows[1..]);
      var before := LogRows(file, pageNum);
      if |rows| == 1 {
        assert rows[1..] == [];
      }
      assert before + [rows[0]] + rows[1..] == before + rows;
    }
  }

  /** On the page itself: the rows after AppendRow's writes are the rows before
      and the new one. */
  lemma AppendedRows(page: seq<byte>, end: nat, row: seq<byte>)
    requires |page| == PageSize && EntriesEnd(page, U32At(page, 0), 4) == Ok(end)
    requires end + 4 + |row| <= PageSize
    ensures PageRows(Appended(page, U32At(page, 0), end, row)) == PageRows(page) + [row]
  {
    AppendedPage(page, U32At(page, 0), end, row);
    RowsAfterAppend(page, Appended(page, U32At(page, 0), end, row), end, row);
  }

  /** Any page that keeps the entries, holds one more entry right after them
      and counts it, reads as the old rows and the new one. */
  lemma RowsAfterAppend(page: seq<byte>, np: seq<byte>, end: nat, row: seq<byte>)
    requires |page| == PageSize && |np| == PageSize
    requires EntriesEnd(page, U32At(page, 0), 4) == Ok(end) && end + 4 + |row| <= PageSize
    requires U32At(np, 0) == U32At(page, 0) + 1 && Agree(page, np, 4, end)
    requires U32At(np, end) == |row| && np[end + 4..end + 4 + |row|] == row
    ensures PageRows(np) == PageRows(page) + [row]
  {
    var count := U32At(page, 0);
    RowsFromFrame(page, np, count, 4, end);
    RowsFromSnoc(np, count, 4, end);
    var old_rows := RowsFrom(page, count, 4);
    assert PageRows(page) == old_rows;
    assert PageRows(np) == RowsFrom(np, count + 1, 4) == old_rows + [row];
  }

  /** What the three writes of AppendRow leave on the page. */
  lemma AppendedPage(page: seq<byte>, count: u32, end: nat, row: seq<byte>)
    requires |page| == PageSize && 4 <= end && end + 4 + |row| <= PageSize
    requires EntriesEnd(page, count, 4) == Ok(end)
    ensures var np := Appended(page, count, end, row);
      && U32At(np, 0) == count + 1
      && Agree(page, np, 4, end)
      && U32At(np, end) == |row|
      && np[end + 4..end + 4 + |row|] == row
  {
    var withLength := Splice(page, end, LE32(ToU32(|row|)));
    var withRow := Splice(withLength, end + 4, row);
    var np := Appended(page, count, end, row);
    SmallCount(page, count, end);
    LE32Small(|row|);
    SpliceInside(withRow, 0, LE32(count + 1));
    U32OfLE32(count + 1, np, 0);
    SpliceInside(page, end, LE32(|row|));
    SpliceOutside(withLength, end + 4, row, end, end + 4);
    SpliceOutside(withRow, 0, LE32(count + 1), end, end + 4);
    U32OfLE32(|row|, np, end);
    SpliceAgree(page, end, LE32(|row|), 4, end);
    SpliceAgree(withLength, end + 4, row, 4, end);
    SpliceAgree(withRow, 0, LE32(count + 1), 4, end);
    AgreeTrans(page, withLength, withRow, 4, end);
    AgreeTrans(page, withRow, np, 4, end);
    SpliceInside(withLength, end + 4, row);
    SpliceOutside(withRow, 0, LE32(count + 1), end + 4, end + 4 + |row|);
  }

  /** The walk AppendRow finished covered at least four bytes per entry, so the
      count is far below 2^32 - 1 and uint32(count + 1) does not wrap. */
  lemma SmallCount(page: seq<byte>, count: u32, end: nat)
    requires |page| == PageSize && EntriesEnd(page, count, 4) == Ok(end) && end <= PageSize
    ensures ToU32(count + 1) == count + 1
  {
  }

  lemma LE32Small(x: nat)
    requires x < 0x1_0000_0000
    ensures ToU32(x) == x
  {
  }

  // ---------------------------------------------------------------------------
  // The allocator

  /** The page AllocatePage hands out: the counter, but never below page 2. */
  function NextAllocation(nextPage: int): (page: int)
    ensures page >= 2 && page >= nextPage
    ensures nextPage >= 2 ==> page == nextPage
  {
    if nextPage < 2 then 2 else nextPage
  }

  /** The pager's state as a value: the file and the allocation counter. */
  datatype Disk = Disk(file: seq<byte>, nextPage: int)

  /** A WritePage whose error the caller ignores. */
  function Store(d: Disk, pageNum: int, data: seq<byte>): Disk {
    Disk(PageWrite(d.file, pageNum, data).0, d.nextPage)
  }

  /** The state after AllocatePage. */
  function Allocated(d: Disk): (d': Disk)
    ensures d'.file == d.file && d'.nextPage > d.nextPage
  {
    Disk(d.file, NextAllocation(d.nextPage) + 1)
  }

  /** The file holds no page at or past the allocation counter, so every page
      AllocatePage hands out is one the file does not hold yet. */
  predicate Bounded(d: Disk) {
    |d.file| <= Offset(d.nextPage)
  }

  /** OpenPager starts in a bounded state. */
  lemma OpenBounded(existing: seq<byte>)
    ensures Bounded(Disk(if |existing| == 0 then Zeros(PageSize) else existing, InitialPageCount(|existing|) + 1))
  {
    InitialPageCountCovers(|existing|);
  }

  /** A page that can be read lies below the counter. */
  lemma ReadableBelow(d: Disk, pageNum: int)
    requires Bounded(d) && PageAt(d.file, pageNum).Ok?
    ensures pageNum < d.nextPage
  {
  }

  /** The page AllocatePage hands out cannot be read before it is written, and
      the state after allocating stays bounded. */
  lemma AllocateFresh(d: Disk)
    requires Bounded(d)
    ensures PageAt(d.file, NextAllocation(d.nextPage)).Err?
    ensures Bounded(Allocated(d))
  {
  }

  /** Writing below the counter keeps the state bounded; no write shrinks the
      file or moves the counter. */
  lemma StoreBounded(d: Disk, pageNum: int, data: seq<byte>)
    requires Bounded(d) && pageNum < d.nextPage
    ensures Bounded(Store(d, pageNum, data))
    ensures |Store(d, pageNum, data).file| >= |d.file| && Store(d, pageNum, data).nextPage == d.nextPage
  {
  }

  /** Successive allocations hand out consecutive page numbers, so no page
      number is handed out twice; the first one from a fresh counter is 2. */
  lemma AllocationsIncrease(d: Disk)
    ensures NextAllocation(Allocated(d).nextPage) == NextAllocation(d.nextPage) + 1
    ensures d.nextPage <= 2 ==> NextAllocation(d.nextPage) == 2
  {
  }

  // ---------------------------------------------------------------------------
  // The pager object

  /** store.Pager: the open database file and the next page number to hand out. */
  class Pager {
    var file: seq<byte>
    var nextPage: int

    function State(): Disk
      reads this
    {
      Disk(file, nextPage)
    }

    /** OpenPager on a file with the given contents: an empty file gets a
        zeroed page 1, and allocation starts after the last page, counting a
        partial one. */
    constructor Open(existing: seq<byte>)
      ensures file == (if |existing| == 0 then Zeros(PageSize) else existing)
      ensures nextPage == InitialPageCount(|existing|) + 1
    {
      var pageCount := |existing| / PageSize;
      if |existing| % PageSize != 0 {
        pageCount := pageCount + 1;
      }
      file := existing;
      if pageCount == 0 {
        pageCount := 1;
        file := Zeros(PageSize);
      }
      nextPage := pageCount + 1;
    }

    method ReadPage(pageNum: int) returns (r: Result<seq<byte>>)
      ensures r == PageAt(file, pageNum)
    {
      if pageNum < 1 {
        return Err(InvalidPageNumber);
      }
      var offset := (pageNum - 1) * PageSize;
      if offset + PageSize > |file| {
        return Err(ShortRead);
      }
      r := Ok(file[offset..offset + PageSize]);
    }

    method WritePage(pageNum: int, data: seq<byte>) returns (r: Result<()>)
      modifies this
      ensures (file, r) == PageWrite(old(file), pageNum, data)
      ensures nextPage == old(nextPage)
    {
      if |data| != PageSize {
        return Err(SizeMismatch);
      }
      var offset := (pageNum - 1) * PageSize;
      if offset < 0 {
        return Err(NegativeOffset);
      }
      file := WriteAt(file, offset, data);
      r := Ok(());
    }

    method AllocatePage() returns (page: int)
      modifies this
      ensures page == NextAllocation(old(nextPage))
      ensures State() == Allocated(old(State()))
    {
      if nextPage < 2 {
        nextPage := 2;
      }
      page := nextPage;
      nextPage := nextPage + 1;
    }

    method AppendRow(pageNum: int, row: seq<byte>) returns (r: Result<()>)
      modifies this
      ensures (file, r) == AppendOutcome(old(file), pageNum, row)
      ensures nextPage == old(nextPage)
    {
      var read := ReadPage(pageNum);
      var page: seq<byte>;
      if read.Err? || read.value == Zeros(PageSize) {
        // PutUint32(page, 0) on the fresh zeroed page leaves it as it is
        page := Zeros(PageSize);
      } else {
        page := read.value;
      }
      var patched := PatchPage(page, row);
      if patched.Err? {
        return Err(patched.error);
      }
      r := WritePage(pageNum, patched.value);
    }

    method ReadAllRows(pageNum: int) returns (r: Result<seq<seq<byte>>>)
      ensures r == AllRows(file, pageNum)
    {
      var read := ReadPage(pageNum);
      if read.Err? {
        return Err(read.error);
      }
      var rows := CollectRows(read.value);
      r := Ok(rows);
    }
  }

  /** ReadAllRows' loop over the entries of a page it has read. */
  method CollectRows(page: seq<byte>) returns (rows: seq<seq<byte>>)
    requires |page| == PageSize
    ensures rows == PageRows(page)
  {
    var count := U32At(page, 0);
    rows := [];
    var offset := 4;
    var i := 0;
    while i < count
      invariant 0 <= i <= count && offset >= 0
      invariant rows + RowsFrom(page, count - i, offset) == PageRows(page)
    {
      RowsNext(page, count - i, offset);
      if offset + 4 > PageSize {
        break;
      }
      var rowLen := U32At(page, offset);
      if offset + 4 + rowLen > PageSize {
        break;
      }
      var entry := page[offset + 4..offset + 4 + rowLen];
      Reassociate(rows, entry, RowsFrom(page, count - i - 1, offset + 4 + rowLen));
      rows := rows + [entry];
      offset := offset + 4 + rowLen;
      i := i + 1;
    }
    Reassociate(rows, [], []);
  }

  /** How ReadAllRows' walk continues from `offset`: it stops, or reads one
      row and goes on after it. */
  lemma RowsNext(page: seq<byte>, k: nat, offset: nat)
    requires |page| == PageSize && k > 0
    ensures offset + 4 > PageSize ==> RowsFrom(page, k, offset) == []
    ensures offset + 4 <= PageSize ==>
      var next := offset + 4 + U32At(page, offset);
      if next > PageSize then RowsFrom(page, k, offset) == []
      else RowsFrom(page, k, offset) == [page[offset + 4..next]] + RowsFrom(page, k - 1, next)
  {
  }

  lemma Reassociate(rows: seq<seq<byte>>, entry: seq<byte>, rest: seq<seq<byte>>)
    ensures rows + ([entry] + rest) == rows + [entry] + rest
    ensures rows + [] == rows
  {
  }

  /** AppendRow's walk over the entries of the page it read, and its three
      writes into that page. */
  method PatchPage(page: seq<byte>, row: seq<byte>) returns (r: Result<seq<byte>>)
    requires |page| == PageSize
    ensures r == Patched(page, row)
  {
    var existing := new byte[PageSize](i requires 0 <= i < PageSize => page[i]);
    assert existing[..] == page;
    var count := U32At(existing[..], 0);
    var offset := 4;
    var i := 0;
    while i < count
      invariant 0 <= i <= count && offset >= 4 && existing[..] == page
      invariant EntriesEnd(page, count, 4) == EntriesEnd(page, count - i, offset)
    {
      if offset + 4 > PageSize {
        return Err(OffsetOverflow);
      }
      var rowLen := U32At(existing[..], offset);
      offset := offset + 4 + rowLen;
      i := i + 1;
    }
    if offset + 4 + |row| > PageSize {
      return Err(PageFull);
    }
    PutEntry(existing, page, count, offset, row);
    r := Ok(existing[..]);
  }

  /** AppendRow's three writes into its page buffer. */
  method PutEntry(buf: array<byte>, ghost page: seq<byte>, count: u32, offset: nat, row: seq<byte>)
    requires buf[..] == page && |page| == PageSize && offset + 4 + |row| <= PageSize
    modifies buf
    ensures buf[..] == Appended(page, count, offset, row)
  {
    CopyInto(buf, offset, LE32(ToU32(|row|)));
    CopyInto(buf, offset + 4, row);
    CopyInto(buf, 0, LE32(ToU32(count + 1)));
  }
}
