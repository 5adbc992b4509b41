/** The slotted page of store/btree.go. A page is 4096 bytes: a 9-byte header
    (type, uint16 cell count, uint16 start of the cell area, and a uint32 that is
    NextLeaf on a leaf and LeftChild on any other page), then the uint16 offset
    table, free space, and the cells packed downwards from the end of the page:
    cell 0 ends at byte 4096 and each later cell sits directly below the one
    before it. */
module PageCodec {
  import opened Bytes
  import opened Errors
  import opened Record

  const PageLeaf: byte := 0x0D
  const PageInternal: byte := 0x05

  /** The size of the header; the offset table starts here. */
  const HeaderSize: int := 9

  datatype Page = Page(typ: byte, cells: seq<seq<byte>>, offsets: seq<u16>, nextLeaf: u32, leftChild: u32)

  function NewLeafPage(): Page {
    Page(PageLeaf, [], [], 0, 0)
  }

  function NewInternalPage(): Page {
    Page(PageInternal, [], [], 0, 0)
  }

  // ---------------------------------------------------------------------------
  // Keys and internal cells

  /** ExtractKey: the first field of a record. A record DecodeRow rejects, or one
      without fields, is an invalid row; a panic inside DecodeRow stays a panic. */
  function ExtractKey(record: seq<byte>): Result<seq<byte>> {
    match ParseRow(record)
    case Err(e) => if e.IsPanic() then Err(e) else Err(InvalidRow)
    case Ok(fields) => if |fields| == 0 then Err(InvalidRow) else Ok(fields[0])
  }

  /** The key of an encoded row is its first field; the empty row has none. */
  lemma ExtractKeyOfRow(row: Row)
    requires Representable(row)
    ensures row != [] ==> ExtractKey(RowBytes(row)) == Ok(row[0])
    ensures row == [] ==> ExtractKey(RowBytes(row)) == Err(InvalidRow)
  {
    DecodeEncodeRow(row);
  }

  /** A separator of an internal page: a key and the page to its right. */
  datatype Separator = Separator(key: seq<byte>, child: u32)

  /** EncodeInternalCell: the key, a NUL byte, and the child as a uint32. */
  function EncodeInternalCell(key: seq<byte>, child: u32): seq<byte> {
    key + [0] + LE32(child)
  }

  /** bytes.IndexByte(s, 0). */
  function IndexOfZero(s: seq<byte>): (r: Option<nat>)
    ensures r.Some? ==> r.value < |s| && s[r.value] == 0 && 0 !in s[..r.value]
    ensures r.None? ==> 0 !in s
  {
    if s == [] then None
    else if s[0] == 0 then Some(0)
    else
      match IndexOfZero(s[1..])
      case None => None
      case Some(i) => Some(i + 1)
  }

  /** DecodeInternalCell: the key is everything before the first NUL and the
      child the four bytes after it; anything after those is ignored. */
  function DecodeInternalCell(data: seq<byte>): Result<Separator> {
    match IndexOfZero(data)
    case None => Err(InvalidInternalCell)
    case Some(z) =>
      if z + 5 > |data| then Err(InvalidInternalCell)
      else Ok(Separator(data[..z], U32At(data, z + 1)))
  }

  /** DecodeInternalCell accepts exactly the buffers that start with the encoding
      of a NUL-free key and a child, and returns that key and child. */
  lemma DecodeInternalCellIff(data: seq<byte>, s: Separator)
    ensures DecodeInternalCell(data) == Ok(s)
        <==> 0 !in s.key && EncodeInternalCell(s.key, s.child) <= data
  {
    var z := |s.key|;
    if DecodeInternalCell(data) == Ok(s) {
      LE32OfU32(data, z + 1);
      assert data[..z + 5] == s.key + [0] + data[z + 1..z + 5];
    }
    if 0 !in s.key && EncodeInternalCell(s.key, s.child) <= data {
      var enc := EncodeInternalCell(s.key, s.child);
      assert data[..z] == s.key && data[z] == 0;
      FirstZeroAt(data, z);
      assert data[z + 1..z + 5] == enc[z + 1..z + 5] == LE32(s.child);
      U32OfLE32(s.child, data, z + 1);
    }
  }

  lemma FirstZeroAt(s: seq<byte>, z: nat)
    requires z < |s| && s[z] == 0 && 0 !in s[..z]
    ensures IndexOfZero(s) == Some(z)
  {
    assert s[z] in s;
  }

  /** The round trip of the internal cell codec, which holds exactly for keys
      without a NUL byte. */
  lemma DecodeEncodeInternalCell(key: seq<byte>, child: u32)
    ensures DecodeInternalCell(EncodeInternalCell(key, child)) == Ok(Separator(key, child))
        <==> 0 !in key
  {
    DecodeInternalCellIff(EncodeInternalCell(key, child), Separator(key, child));
  }

  // ---------------------------------------------------------------------------
  // The page image written by ToBytes

  /** ToBytes stores uint16(len(Cells)) cells: the count wraps at 65536. */
  function CellCount(p: Page): u16 {
    |p.cells| % 0x1_0000
  }

  /** The cells ToBytes writes. */
  function Stored(p: Page): seq<seq<byte>> {
    p.cells[..CellCount(p)]
  }

  /** The header's uint32: NextLeaf on a leaf, LeftChild on every other type. */
  function Special(p: Page): u32 {
    if p.typ == PageLeaf then p.nextLeaf else p.leftChild
  }

  /** The total length of the first i cells. */
  function Used(cs: seq<seq<byte>>, i: nat): nat
    requires i <= |cs|
  {
    if i == 0 then 0 else Used(cs, i - 1) + |cs[i - 1]|
  }

  /** Where ToBytes places each of the first n cells: below all the cells before it. */
  function CellOffsets(cs: seq<seq<byte>>, n: nat): (offs: seq<int>)
    requires n <= |cs|
    ensures |offs| == n
  {
    seq(n, j requires 0 <= j < n => PageSize - Used(cs, j + 1))
  }

  /** ToBytes succeeds: there are no cells, or the header, the offset table and
      the cells together take at most a page. */
  predicate CellsFit(cs: seq<seq<byte>>, n: nat)
    requires n <= |cs|
  {
    n == 0 || HeaderSize + 2 * n + Used(cs, n) <= PageSize
  }

  predicate Fits(p: Page) {
    CellsFit(p.cells, CellCount(p))
  }

  /** The offset table: the first i offsets as little-endian uint16s. */
  function Table(offs: seq<int>, i: nat): (t: seq<byte>)
    requires i <= |offs|
    ensures |t| == 2 * i
  {
    if i == 0 then [] else Table(offs, i - 1) + LE16(ToU16(offs[i - 1]))
  }

  /** The cell area holding the first i cells: cell 0 at the end of the page. */
  function Packed(cs: seq<seq<byte>>, i: nat): (b: seq<byte>)
    requires i <= |cs|
    ensures |b| == Used(cs, i)
  {
    if i == 0 then [] else cs[i - 1] + Packed(cs, i - 1)
  }

  /** `data, _ := p.ToBytes()`: the image, or Go's nil slice when the cells do
      not fit. */
  function Encoded(p: Page): (data: seq<byte>)
    ensures |data| == PageSize <==> Fits(p)
  {
    if Fits(p) then ImageLayout(p); Image(p) else []
  }

  /** The bytes ToBytes returns for a page that fits. */
  function Image(p: Page): seq<byte>
    requires Fits(p)
  {
    var n := CellCount(p);
    var start := PageSize - Used(p.cells, n);
    [p.typ] + LE16(n) + LE16(start) + LE32(Special(p)) + Table(CellOffsets(p.cells, n), n)
      + Zeros(start - HeaderSize - 2 * n) + Packed(p.cells, n)
  }

  /** ToBytes gave up at cell |offsets|: the offsets computed before it are kept,
      and that cell is the first one to reach into the header or the table. */
  predicate Overflowed(cs: seq<seq<byte>>, n: nat, offsets: seq<int>)
    requires n <= |cs|
  {
    && |offsets| < n
    && (forall j :: 0 <= j < |offsets| ==> offsets[j] == PageSize - Used(cs, j + 1) >= HeaderSize + 2 * n)
    && PageSize - Used(cs, |offsets| + 1) < HeaderSize + 2 * n
  }

  lemma {:induction false} UsedMonotone(cs: seq<seq<byte>>, i: nat, j: nat)
    requires i <= j <= |cs|
    ensures Used(cs, i) <= Used(cs, j)
    decreases j
  {
    if i < j {
      UsedMonotone(cs, i, j - 1);
    }
  }

  /** Entry k of the table holds offset k, low byte first. */
  lemma {:induction false} TableAt(offs: seq<int>, i: nat, k: nat)
    requires k < i <= |offs|
    ensures Table(offs, i)[2 * k] == ToU16(offs[k]) % 0x100
    ensures Table(offs, i)[2 * k + 1] == ToU16(offs[k]) / 0x100
  {
    if k < i - 1 {
      TableAt(offs, i - 1, k);
    }
  }

  /** Cell k sits in the cell area below the cells before it. */
  lemma {:induction false} PackedCell(cs: seq<seq<byte>>, i: nat, k: nat)
    requires k < i <= |cs|
    ensures Used(cs, k + 1) <= Used(cs, i)
    ensures Packed(cs, i)[Used(cs, i) - Used(cs, k + 1)..Used(cs, i) - Used(cs, k)] == cs[k]
  {
    var last, rest := cs[i - 1], Packed(cs, i - 1);
    assert Packed(cs, i) == last + rest;
    if k < i - 1 {
      PackedCell(cs, i - 1, k);
      var lo := Used(cs, i - 1) - Used(cs, k + 1);
      var hi := Used(cs, i - 1) - Used(cs, k);
      ConcatSlice(last, rest, lo, hi);
    } else {
      assert (last + rest)[..|last|] == last;
    }
  }

  lemma ConcatSlice(a: seq<byte>, b: seq<byte>, lo: int, hi: int)
    requires 0 <= lo <= hi <= |b|
    ensures (a + b)[|a| + lo..|a| + hi] == b[lo..hi]
  {
    assert forall j :: 0 <= j < hi - lo ==> (a + b)[|a| + lo..|a| + hi][j] == b[lo..hi][j];
  }

  // ---------------------------------------------------------------------------
  // The buffer while ToBytes fills it

  /** After i cells: the type and count, zeros, then the cells placed so far. */
  function CellArea(prefix: seq<byte>, cs: seq<seq<byte>>, i: nat): seq<byte>
    requires |prefix| == 3 && i <= |cs| && Used(cs, i) <= PageSize - 3
  {
    prefix + Zeros(PageSize - 3 - Used(cs, i)) + Packed(cs, i)
  }

  /** After i table entries: the full header, the entries, zeros, the cells. */
  function TableArea(header: seq<byte>, offsets: seq<int>, i: nat, free: nat, cells: seq<byte>): seq<byte>
    requires |header| == HeaderSize && i <= |offsets|
  {
    header + Table(offsets, i) + Zeros(2 * (|offsets| - i) + free) + cells
  }

  lemma StartArea(typ: byte, n: u16, cs: seq<seq<byte>>)
    ensures Splice(Splice(Zeros(PageSize), 0, [typ]), 1, LE16(n)) == CellArea([typ] + LE16(n), cs, 0)
  {
    var s := Splice(Zeros(PageSize), 0, [typ]);
    assert s == [typ] + Zeros(PageSize - 1);
    assert Splice(s, 1, LE16(n)) == [typ] + LE16(n) + Zeros(PageSize - 3);
  }

  /** One turn of ToBytes' first loop: cell i goes right below the cells before it. */
  lemma PlaceStep(prefix: seq<byte>, cs: seq<seq<byte>>, i: nat)
    requires |prefix| == 3 && i < |cs| && Used(cs, i + 1) <= PageSize - 3
    ensures Splice(CellArea(prefix, cs, i), PageSize - Used(cs, i + 1), cs[i]) == CellArea(prefix, cs, i + 1)
  {
    var z := PageSize - 3 - Used(cs, i);
    var s := CellArea(prefix, cs, i);
    var at := PageSize - Used(cs, i + 1);
    assert s[..at] == prefix + Zeros(z - |cs[i]|);
    assert s[at + |cs[i]|..] == Packed(cs, i);
  }

  /** The two header writes after the first loop. */
  lemma HeaderArea(prefix: seq<byte>, offset: int, special: u32, offsets: seq<int>, cells: seq<byte>)
    requires |prefix| == 3 && HeaderSize + 2 * |offsets| <= offset <= PageSize
    ensures var s := prefix + Zeros(offset - 3) + cells;
      Splice(Splice(s, 3, LE16(offset)), 5, LE32(special))
        == TableArea(prefix + LE16(offset) + LE32(special), offsets, 0, offset - HeaderSize - 2 * |offsets|, cells)
  {
    var s := prefix + Zeros(offset - 3) + cells;
    var s1 := Splice(s, 3, LE16(offset));
    assert s1 == prefix + LE16(offset) + Zeros(offset - 5) + cells;
    assert s1[9..] == Zeros(offset - 9) + cells;
  }

  /** One turn of ToBytes' last loop: entry i of the offset table. */
  lemma TableStep(header: seq<byte>, offsets: seq<int>, i: nat, free: nat, cells: seq<byte>)
    requires |header| == HeaderSize && i < |offsets| && 0 <= offsets[i] < 0x1_0000
    ensures Splice(TableArea(header, offsets, i, free, cells), HeaderSize + 2 * i, LE16(offsets[i]))
        == TableArea(header, offsets, i + 1, free, cells)
  {
    var s := TableArea(header, offsets, i, free, cells);
    var z := 2 * (|offsets| - i) + free;
    assert ToU16(offsets[i]) == offsets[i];
    assert s[..HeaderSize + 2 * i] == header + Table(offsets, i);
    assert s[HeaderSize + 2 * i + 2..] == Zeros(z - 2) + cells;
  }

  /** Page.ToBytes. The second result is the new value of the receiver's
      Offsets: all cell offsets on success, and those computed before the
      overflowing cell on failure. */
  method ToBytes(p: Page) returns (r: Result<seq<byte>>, offsets: seq<u16>)
    ensures Fits(p) ==> r == Ok(Image(p)) && offsets == CellOffsets(p.cells, CellCount(p))
    ensures !Fits(p) ==> r == Err(PageOverflow) && Overflowed(p.cells, CellCount(p), offsets)
  {
    var n := |p.cells| % 0x1_0000;
    var buf := StartPage(p.typ, n, p.cells);
    var fits, offset;
    fits, offset, offsets := PlaceCells(buf, [p.typ] + LE16(n), p.cells, n);
    if !fits {
      return Err(PageOverflow), offsets;
    }
    var special := if p.typ == PageLeaf then p.nextLeaf else p.leftChild;
    FinishPage(buf, [p.typ] + LE16(n), offset, special, offsets, Packed(p.cells, n));
    return Ok(buf[..]), offsets;
  }

  /** A zeroed page buffer with the type and the cell count written. */
  method StartPage(typ: byte, n: u16, ghost cs: seq<seq<byte>>) returns (buf: array<byte>)
    ensures fresh(buf) && buf.Length == PageSize
    ensures buf[..] == CellArea([typ] + LE16(n), cs, 0)
  {
    buf := new byte[PageSize](_ => 0);
    assert buf[..] == Zeros(PageSize);
    CopyInto(buf, 0, [typ]);
    CopyInto(buf, 1, LE16(n));
    StartArea(typ, n, cs);
  }

  /** ToBytes' first loop: each cell is copied below the previous one, until one
      would reach into the header or the offset table. */
  method PlaceCells(buf: array<byte>, ghost prefix: seq<byte>, cs: seq<seq<byte>>, n: nat)
      returns (fits: bool, offset: int, offsets: seq<u16>)
    requires buf.Length == PageSize && |prefix| == 3 && n <= |cs| && n < 0x1_0000
    requires buf[..] == CellArea(prefix, cs, 0)
    modifies buf
    ensures fits <==> CellsFit(cs, n)
    ensures fits ==> && offset == PageSize - Used(cs, n)
                     && offsets == CellOffsets(cs, n)
                     && buf[..] == CellArea(prefix, cs, n)
    ensures !fits ==> Overflowed(cs, n, offsets)
  {
    offset := PageSize;
    offsets := [];
    var i := 0;
    while i < n
      invariant 0 <= i <= n
      invariant offset == PageSize - Used(cs, i)
      invariant 0 < i ==> HeaderSize + 2 * n <= offset
      invariant offsets == CellOffsets(cs, i)
      invariant buf[..] == CellArea(prefix, cs, i)
    {
      var cell := cs[i];
      offset := offset - |cell|;
      if offset < HeaderSize + n * 2 {
        OverflowAt(cs, n, offsets, i);
        return false, offset, offsets;
      }
      PlaceCell(buf, prefix, cs, i, offset);
      offsets := offsets + [offset];
      i := i + 1;
    }
    return true, offset, offsets;
  }

  /** Copies cell i right below the cells before it. */
  method PlaceCell(buf: array<byte>, ghost prefix: seq<byte>, cs: seq<seq<byte>>, i: nat, offset: int)
    requires buf.Length == PageSize && |prefix| == 3 && i < |cs| && Used(cs, i + 1) <= PageSize - 3
    requires offset == PageSize - Used(cs, i + 1)
    requires buf[..] == CellArea(prefix, cs, i)
    modifies buf
    ensures buf[..] == CellArea(prefix, cs, i + 1)
  {
    CopyInto(buf, offset, cs[i]);
    PlaceStep(prefix, cs, i);
  }

  lemma OverflowAt(cs: seq<seq<byte>>, n: nat, offsets: seq<int>, i: nat)
    requires i < n <= |cs| && offsets == CellOffsets(cs, i)
    requires i > 0 ==> HeaderSize + 2 * n <= PageSize - Used(cs, i)
    requires PageSize - Used(cs, i + 1) < HeaderSize + 2 * n
    ensures Overflowed(cs, n, offsets) && !CellsFit(cs, n)
  {
    UsedMonotone(cs, i + 1, n);
    assert |offsets| == i;
    forall j | 0 <= j < i
      ensures offsets[j] == PageSize - Used(cs, j + 1) >= HeaderSize + 2 * n
    {
      UsedMonotone(cs, j + 1, i);
    }
  }

  /** The rest of ToBytes once the cells are placed: the start of the cell area
      and the uint32 field go into the header, then the offset table follows. */
  method FinishPage(buf: array<byte>, ghost prefix: seq<byte>, offset: int, special: u32,
                    offsets: seq<u16>, ghost cells: seq<byte>)
    requires buf.Length == PageSize && |prefix| == 3
    requires HeaderSize + 2 * |offsets| <= offset <= PageSize
    requires buf[..] == prefix + Zeros(offset - 3) + cells
    modifies buf
    ensures buf[..] == prefix + LE16(offset) + LE32(special) + Table(offsets, |offsets|)
                     + Zeros(offset - HeaderSize - 2 * |offsets|) + cells
  {
    CopyInto(buf, 3, LE16(offset));
    CopyInto(buf, 5, LE32(special));
    HeaderArea(prefix, offset, special, offsets, cells);
    var free := offset - HeaderSize - 2 * |offsets|;
    var i := 0;
    while i < |offsets|
      invariant 0 <= i <= |offsets|
      invariant buf[..] == TableArea(prefix + LE16(offset) + LE32(special), offsets, i, free, cells)
    {
      WriteEntry(buf, prefix + LE16(offset) + LE32(special), offsets, i, free, cells);
      i := i + 1;
    }
  }

  /** Writes entry i of the offset table. */
  method WriteEntry(buf: array<byte>, ghost header: seq<byte>, offsets: seq<u16>, i: nat, ghost free: nat,
                    ghost cells: seq<byte>)
    requires buf.Length == PageSize && |header| == HeaderSize && i < |offsets|
    requires buf[..] == TableArea(header, offsets, i, free, cells)
    modifies buf
    ensures buf[..] == TableArea(header, offsets, i + 1, free, cells)
  {
    CopyInto(buf, HeaderSize + 2 * i, LE16(offsets[i]));
    TableStep(header, offsets, i, free, cells);
  }

  // ---------------------------------------------------------------------------
  // Reading a page back: PageFromBytes

  /** The first n entries of the offset table. */
  function Entries(data: seq<byte>, n: nat): (offs: seq<u16>)
    requires HeaderSize + 2 * n <= |data|
    ensures |offs| == n
  {
    seq(n, k requires 0 <= k < n => U16At(data, HeaderSize + 2 * k))
  }

  /** Where PageFromBytes ends cell i: at the end of the page for cell 0, and
      where cell i - 1 starts for the others. */
  function CellEnd(offs: seq<int>, i: nat): int
    requires i < |offs|
  {
    if i == 0 then PageSize else offs[i - 1]
  }

  /** PageFromBytes can take data[off:end] for cell i. */
  predicate InBounds(offs: seq<int>, i: nat)
    requires i < |offs|
  {
    0 <= offs[i] <= CellEnd(offs, i) <= PageSize
  }

  /** Cell i as PageFromBytes slices it out. */
  function CellAt(data: seq<byte>, offs: seq<int>, i: nat): seq<byte>
    requires |data| == PageSize && i < |offs| && InBounds(offs, i)
  {
    data[offs[i]..CellEnd(offs, i)]
  }

  /** No slice PageFromBytes takes is out of bounds. */
  predicate Sliceable(offs: seq<int>) {
    forall i :: 0 <= i < |offs| ==> InBounds(offs, i)
  }

  function CellsAt(data: seq<byte>, offs: seq<int>): (cells: seq<seq<byte>>)
    requires |data| == PageSize && Sliceable(offs)
    ensures |cells| == |offs|
  {
    seq(|offs|, i requires 0 <= i < |offs| => CellAt(data, offs, i))
  }

  /** What PageFromBytes returns. A table that runs past the end of the page,
      and a cell whose bounds are out of order, panic. The uint32 field goes to
      NextLeaf on a leaf and to LeftChild on an internal page; on a page of any
      other type both stay zero. */
  function PageOf(data: seq<byte>): (r: Result<Page>)
    ensures r.Ok? ==> |r.value.cells| == |r.value.offsets| && HeaderSize + 2 * |r.value.cells| <= PageSize
    ensures r.Err? ==> r.error == InvalidPageSize || r.error.IsPanic()
    ensures |data| != PageSize ==> r == Err(InvalidPageSize)
    ensures r.Ok? ==> r.value.typ == data[0]
    ensures r.Ok? && data[0] != PageLeaf && data[0] != PageInternal ==> r.value.nextLeaf == 0 && r.value.leftChild == 0
  {
    if |data| != PageSize then Err(InvalidPageSize)
    else
      var n := U16At(data, 1);
      if HeaderSize + 2 * n > PageSize then Err(PanicIndexOutOfRange)
      else
        var offs := Entries(data, n);
        if !Sliceable(offs) then Err(PanicSliceBounds)
        else
          var special := U32At(data, 5);
          Ok(Page(data[0], CellsAt(data, offs), offs,
                  if data[0] == PageLeaf then special else 0,
                  if data[0] == PageInternal then special else 0))
  }

  /** PageFromBytes: the table is read, then every cell is sliced out, and the
      header's uint32 goes to the field the type calls for. */
  method PageFromBytes(data: seq<byte>) returns (r: Result<Page>)
    ensures r == PageOf(data)
  {
    if |data| != PageSize {
      return Err(InvalidPageSize);
    }
    var typ := data[0];
    var n := U16At(data, 1);
    var offsets := ReadTable(data, n);
    if offsets.None? {
      return Err(PanicIndexOutOfRange);
    }
    var cells := SliceCells(data, offsets.value);
    if cells.None? {
      return Err(PanicSliceBounds);
    }
    var special := U32At(data, 5);
    var page := Page(typ, cells.value, offsets.value, 0, 0);
    if typ == PageLeaf {
      page := page.(nextLeaf := special);
    } else if typ == PageInternal {
      page := page.(leftChild := special);
    }
    return Ok(page);
  }

  /** PageFromBytes' first loop; None is the panic of a read past the page. */
  method ReadTable(data: seq<byte>, n: u16) returns (offs: Option<seq<u16>>)
    requires |data| == PageSize
    ensures offs.None? <==> HeaderSize + 2 * n > PageSize
    ensures offs.Some? ==> HeaderSize + 2 * n <= PageSize && offs.value == Entries(data, n)
  {
    var offsets := new u16[n];
    var i := 0;
    while i < n
      invariant 0 <= i <= n && HeaderSize + 2 * i <= PageSize
      invariant forall k :: 0 <= k < i ==> offsets[k] == U16At(data, HeaderSize + 2 * k)
    {
      if HeaderSize + 2 * i + 2 > PageSize {
        return None;
      }
      offsets[i] := U16At(data, HeaderSize + 2 * i);
      i := i + 1;
    }
    assert offsets[..] == Entries(data, n);
    return Some(offsets[..]);
  }

  /** PageFromBytes' second loop; None is the panic of a slice out of bounds. */
  method SliceCells(data: seq<byte>, offs: seq<u16>) returns (cells: Option<seq<seq<byte>>>)
    requires |data| == PageSize
    ensures cells.None? <==> !Sliceable(offs)
    ensures cells.Some? ==> Sliceable(offs) && cells.value == CellsAt(data, offs)
  {
    var slices := new seq<byte>[|offs|];
    var i := 0;
    while i < |offs|
      invariant 0 <= i <= |offs|
      invariant forall k :: 0 <= k < i ==> InBounds(offs, k) && slices[k] == CellAt(data, offs, k)
    {
      var end := if i == 0 then PageSize else offs[i - 1];
      if offs[i] > end || end > PageSize {
        assert !InBounds(offs, i);
        return None;
      }
      slices[i] := data[offs[i]..end];
      i := i + 1;
    }
    assert slices[..] == CellsAt(data, offs);
    return Some(slices[..]);
  }

  // ---------------------------------------------------------------------------
  // What the page image holds, and reading it back

  /** The layout of a page that ToBytes writes: the type at byte 0, the cell
      count at 1-2, the start of the cell area at 3-4 (the end of the page when
      there are no cells), NextLeaf or LeftChild at 5-8, the offset table from
      byte 9, and the cells from the start of the cell area to the end. */
  lemma ImageLayout(p: Page)
    requires Fits(p)
    ensures var img, n := Image(p), CellCount(p);
      var start := PageSize - Used(p.cells, n);
      && |img| == PageSize
      && HeaderSize + 2 * n <= start <= PageSize
      && (n == 0 ==> start == PageSize)
      && img[..HeaderSize] == [p.typ] + LE16(n) + LE16(start) + LE32(Special(p))
      && img[HeaderSize..HeaderSize + 2 * n] == Table(CellOffsets(p.cells, n), n)
      && img[start..] == Packed(p.cells, n)
  {
    var n := CellCount(p);
    var start := PageSize - Used(p.cells, n);
    var head := [p.typ] + LE16(n) + LE16(start) + LE32(Special(p));
    Areas(head, Table(CellOffsets(p.cells, n), n), Zeros(start - HeaderSize - 2 * n), Packed(p.cells, n));
  }

  /** The fields of a header, wherever it sits. */
  lemma HeaderFields(img: seq<byte>, typ: byte, n: u16, start: u16, special: u32)
    requires HeaderSize <= |img| && img[..HeaderSize] == [typ] + LE16(n) + LE16(start) + LE32(special)
    ensures img[0] == typ && img[1..3] == LE16(n) && img[3..5] == LE16(start) && img[5..HeaderSize] == LE32(special)
  {
    var head := img[..HeaderSize];
    assert img[1..3] == head[1..3];
    assert img[3..5] == head[3..5];
    assert img[5..HeaderSize] == head[5..HeaderSize];
  }

  /** The header, the table, the free space and the cells, one after the other. */
  lemma Areas(head: seq<byte>, table: seq<byte>, free: seq<byte>, cells: seq<byte>)
    requires |head| == HeaderSize
    ensures var img := head + table + free + cells;
      && img[..HeaderSize] == head
      && img[HeaderSize..HeaderSize + |table|] == table
      && img[HeaderSize + |table| + |free|..] == cells
  {
  }

  /** Every cell offset of a fitting page is past the table and within the page. */
  lemma OffsetInPage(cs: seq<seq<byte>>, n: nat, k: nat)
    requires k < n <= |cs| && CellsFit(cs, n)
    ensures HeaderSize + 2 * n <= PageSize - Used(cs, k + 1) <= PageSize - Used(cs, k) <= PageSize
  {
    UsedMonotone(cs, k + 1, n);
    UsedMonotone(cs, k, k + 1);
  }

  /** A table of offsets within the page reads back entry by entry. */
  lemma TableEntries(img: seq<byte>, offs: seq<int>)
    requires HeaderSize + 2 * |offs| <= |img|
    requires img[HeaderSize..HeaderSize + 2 * |offs|] == Table(offs, |offs|)
    requires forall k :: 0 <= k < |offs| ==> 0 <= offs[k] < 0x1_0000
    ensures Entries(img, |offs|) == offs
  {
    var entries := Entries(img, |offs|);
    forall k | 0 <= k < |offs|
      ensures entries[k] == offs[k]
    {
      TableEntry(img, offs, k);
    }
  }

  lemma TableEntry(img: seq<byte>, offs: seq<int>, k: nat)
    requires HeaderSize + 2 * |offs| <= |img| && k < |offs| && 0 <= offs[k] < 0x1_0000
    requires img[HeaderSize..HeaderSize + 2 * |offs|] == Table(offs, |offs|)
    ensures U16At(img, HeaderSize + 2 * k) == offs[k]
  {
    var t := img[HeaderSize..HeaderSize + 2 * |offs|];
    assert img[HeaderSize + 2 * k] == t[2 * k] && img[HeaderSize + 2 * k + 1] == t[2 * k + 1];
    TableAt(offs, |offs|, k);
    LowHigh(offs[k]);
  }

  /** Cells packed at the end of a page slice back out at their offsets. */
  lemma PackedCells(img: seq<byte>, cs: seq<seq<byte>>, n: nat)
    requires |img| == PageSize && n <= |cs| && CellsFit(cs, n)
    requires img[PageSize - Used(cs, n)..] == Packed(cs, n)
    ensures forall k :: 0 <= k < n ==> InBounds(CellOffsets(cs, n), k) && CellAt(img, CellOffsets(cs, n), k) == cs[k]
  {
    forall k | 0 <= k < n
      ensures InBounds(CellOffsets(cs, n), k) && CellAt(img, CellOffsets(cs, n), k) == cs[k]
    {
      CellBounds(cs, n, k);
      PackedCellAt(img, cs, n, k);
    }
  }

  /** Slices that are all in bounds and equal to given cells make up CellsAt. */
  lemma CellsAtIntro(img: seq<byte>, offs: seq<int>, cells: seq<seq<byte>>)
    requires |img| == PageSize && |offs| == |cells|
    requires forall k :: 0 <= k < |offs| ==> InBounds(offs, k) && CellAt(img, offs, k) == cells[k]
    ensures Sliceable(offs) && CellsAt(img, offs) == cells
  {
  }

  /** Cell k of a written page starts at its offset and ends where cell k - 1 starts. */
  lemma CellBounds(cs: seq<seq<byte>>, n: nat, k: nat)
    requires k < n <= |cs|
    ensures CellOffsets(cs, n)[k] == PageSize - Used(cs, k + 1)
    ensures CellEnd(CellOffsets(cs, n), k) == PageSize - Used(cs, k)
  {
    if k > 0 {
      assert CellOffsets(cs, n)[k - 1] == PageSize - Used(cs, k);
    }
  }

  lemma PackedCellAt(img: seq<byte>, cs: seq<seq<byte>>, n: nat, k: nat)
    requires |img| == PageSize && k < n <= |cs| && CellsFit(cs, n)
    requires img[PageSize - Used(cs, n)..] == Packed(cs, n)
    ensures 0 <= PageSize - Used(cs, k + 1) <= PageSize - Used(cs, k) <= PageSize
    ensures img[PageSize - Used(cs, k + 1)..PageSize - Used(cs, k)] == cs[k]
  {
    var start := PageSize - Used(cs, n);
    OffsetInPage(cs, n, k);
    PackedCell(cs, n, k);
    Subslice(img, start, PageSize, Used(cs, n) - Used(cs, k + 1), Used(cs, n) - Used(cs, k));
  }

  /** PageFromBytes(ToBytes(p)): the type, the stored cells and the offsets come
      back; the uint32 field comes back as NextLeaf on a leaf and as LeftChild on
      an internal page, and the other field reads as zero. */
  lemma PageOfImage(p: Page)
    requires Fits(p)
    ensures PageOf(Image(p)).Ok?
    ensures var q := PageOf(Image(p)).value;
      && q.typ == p.typ
      && q.cells == Stored(p)
      && q.offsets == CellOffsets(p.cells, CellCount(p))
      && q.nextLeaf == (if p.typ == PageLeaf then p.nextLeaf else 0)
      && q.leftChild == (if p.typ == PageInternal then p.leftChild else 0)
  {
    ImageLayout(p);
    LaidOutPage(Image(p), p.typ, p.cells, CellCount(p), Special(p));
  }

  /** Any page-sized buffer laid out as ToBytes lays out a page reads back as
      that page. */
  lemma LaidOutPage(img: seq<byte>, typ: byte, cs: seq<seq<byte>>, n: u16, special: u32)
    requires |img| == PageSize && n <= |cs| && CellsFit(cs, n)
    requires HeaderSize + 2 * n <= PageSize - Used(cs, n)
    requires img[..HeaderSize] == [typ] + LE16(n) + LE16(PageSize - Used(cs, n)) + LE32(special)
    requires img[HeaderSize..HeaderSize + 2 * n] == Table(CellOffsets(cs, n), n)
    requires img[PageSize - Used(cs, n)..] == Packed(cs, n)
    ensures PageOf(img).Ok?
    ensures var q := PageOf(img).value;
      && q.typ == typ && q.cells == cs[..n] && q.offsets == CellOffsets(cs, n)
      && q.nextLeaf == (if typ == PageLeaf then special else 0)
      && q.leftChild == (if typ == PageInternal then special else 0)
  {
    var offs := CellOffsets(cs, n);
    HeaderFields(img, typ, n, PageSize - Used(cs, n), special);
    U16OfLE16(n, img, 1);
    U32OfLE32(special, img, 5);
    forall k | 0 <= k < n
      ensures 0 <= offs[k] < 0x1_0000
    {
      OffsetInPage(cs, n, k);
    }
    TableEntries(img, offs);
    PackedCells(img, cs, n);
    CellsAtIntro(img, offs, cs[..n]);
  }

  /** A fresh leaf or internal page survives the round trip unchanged. */
  lemma EmptyPageRoundTrip(p: Page)
    requires p == NewLeafPage() || p == NewInternalPage()
    ensures Fits(p) && PageOf(Image(p)) == Ok(p)
  {
    PageOfImage(p);
  }

  /** The offsets ToBytes computes never increase, and strictly decrease past
      every non-empty cell. */
  lemma CellOffsetsDescend(cs: seq<seq<byte>>, n: nat, j: nat, k: nat)
    requires j < k < n <= |cs|
    ensures CellOffsets(cs, n)[k] <= CellOffsets(cs, n)[j]
    ensures |cs[k]| > 0 ==> CellOffsets(cs, n)[k] < CellOffsets(cs, n)[j]
  {
    UsedMonotone(cs, j + 1, k);
  }
}
