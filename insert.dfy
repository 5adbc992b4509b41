/** store/btree_insert.go: InsertRow, InsertIntoLeafPage and their helpers.
    The tree is the code's own, not a textbook B+Tree: a leaf takes the row at
    the end of its cells, a full page is split in two at len/2, and every split
    answers with a freshly allocated one-cell internal page (a "mini root") whose
    cell the parent then copies. */
module Insert {
  import opened Bytes
  import opened Errors
  import opened PageCodec
  import opened Paging
  import opened Search

  /** store.InsertResult; NewPage is nil unless the leaf split. */
  datatype InsertResult = InsertResult(selfChanged: bool, split: bool, newPage: Option<Page>, newPageNo: int)

  // ---------------------------------------------------------------------------
  // Pages read back

  /** The page at `pageNum` reads back as `p`: same type and cells, and the
      uint32 field that p's type keeps. */
  predicate Reads(file: seq<byte>, pageNum: int, p: Page) {
    var q := Node(file, pageNum);
    && q.Ok? && q.value.typ == p.typ && q.value.cells == p.cells
    && q.value.nextLeaf == (if p.typ == PageLeaf then p.nextLeaf else 0)
    && q.value.leftChild == (if p.typ == PageInternal then p.leftChild else 0)
  }

  /** A page that fits, written where a page can be written, reads back. */
  lemma StoreReads(d: Disk, pageNum: int, p: Page)
    requires Fits(p) && pageNum >= 1 && |p.cells| < 0x1_0000
    ensures Reads(Store(d, pageNum, Image(p)).file, pageNum, p)
  {
    ImageWritable(d.file, pageNum, p);
    NodeAfterWrite(d.file, pageNum, p);
    StoredAll(p);
  }

  lemma ImageWritable(file: seq<byte>, pageNum: int, p: Page)
    requires Fits(p) && pageNum >= 1
    ensures PageWrite(file, pageNum, Image(p)).1.Ok?
  {
    ImageLayout(p);
  }

  lemma StoredAll(p: Page)
    requires |p.cells| < 0x1_0000
    ensures Stored(p) == p.cells
  {
  }

  /** A write to one page leaves what another page reads as. */
  lemma StoreKeeps(d: Disk, pageNum: int, data: seq<byte>, other: int, p: Page)
    requires Reads(d.file, other, p) && other != pageNum
    ensures Reads(Store(d, pageNum, data).file, other, p)
  {
    if PageWrite(d.file, pageNum, data).1.Ok? {
      ReadAfterWrite(d.file, pageNum, data, other);
    }
  }

  // ---------------------------------------------------------------------------
  // ToBytesMust and extractChildFromFirstCell

  /** ToBytesMust: the image of a page that fits; otherwise ToBytes' error
      becomes a panic. */
  function Must(p: Page): (r: Result<seq<byte>>)
    ensures r.Ok? <==> Fits(p)
    ensures r.Err? ==> r.error == PanicPageOverflow
    ensures r.Ok? ==> r.value == Image(p) && |r.value| == PageSize
    ensures r.Ok? ==> PageOf(r.value).Ok? && PageOf(r.value).value.typ == p.typ && PageOf(r.value).value.cells == Stored(p)
  {
    if Fits(p) then
      ImageLayout(p);
      PageOfImage(p);
      Ok(Image(p))
    else Err(PanicPageOverflow)
  }

  method ToBytesMust(p: Page) returns (r: Result<seq<byte>>)
    ensures r == Must(p)
  {
    var data, _ := ToBytes(p);
    if data.Err? {
      return Err(PanicPageOverflow);
    }
    r := data;
  }

  /** extractChildFromFirstCell: the child of the first cell, 0 when there are
      no cells or the first does not decode. */
  function FirstChild(cells: seq<seq<byte>>): (child: u32)
    ensures child != 0 ==> cells != [] && DecodeInternalCell(cells[0]).Ok? && DecodeInternalCell(cells[0]).value.child == child
  {
    if cells == [] then 0
    else
      match DecodeInternalCell(cells[0])
      case Err(_) => 0
      case Ok(s) => s.child
  }

  // ---------------------------------------------------------------------------
  // InsertIntoLeafPage

  /** The left half of a split leaf: the first len/2 cells, chained to the right
      half's page. */
  function LeftLeaf(cells: seq<seq<byte>>, rightPage: int): Page {
    NewLeafPage().(cells := cells[..|cells| / 2], nextLeaf := ToU32(rightPage))
  }

  /** The right half of a split leaf: the remaining cells, and NextLeaf 0. */
  function RightLeaf(cells: seq<seq<byte>>): Page {
    NewLeafPage().(cells := cells[|cells| / 2..])
  }

  /** InsertIntoLeafPage on the pager state `d`: the state afterwards and the
      result. The row goes at the end of the cells; when the page no longer
      fits, the cells are split in two at len/2 and the right half goes to a
      newly allocated page. */
  function InsertLeaf(d: Disk, pageNo: int, row: seq<byte>): (out: (Disk, Result<InsertResult>))
    ensures out.1.Err? ==> out.0 == d
    ensures out.1.Ok? ==> out.1.value.selfChanged
    ensures out.1.Ok? && !out.1.value.split ==> out.1.value.newPage == None && out.0.nextPage == d.nextPage
    ensures out.1.Ok? && out.1.value.split ==>
      && out.1.value.newPage.Some? && out.1.value.newPage.value.cells != []
      && out.1.value.newPageNo == NextAllocation(d.nextPage)
      && out.0.nextPage == out.1.value.newPageNo + 1
  {
    match Node(d.file, pageNo)
    case Err(e) => (d, Err(e))
    case Ok(page) =>
      if page.typ != PageLeaf then (d, Err(NotLeafPage))
      else
        var grown := page.(cells := page.cells + [row]);
        if Fits(grown) then (Store(d, pageNo, Image(grown)), Ok(InsertResult(true, false, None, 0)))
        else
          var rightPage := NextAllocation(d.nextPage);
          var left := LeftLeaf(grown.cells, rightPage);
          var right := RightLeaf(grown.cells);
          var d' := Store(Store(Allocated(d), pageNo, Encoded(left)), rightPage, Encoded(right));
          (d', Ok(InsertResult(true, true, Some(right), rightPage)))
  }

  method InsertIntoLeafPage(pager: Pager, pageNo: int, row: seq<byte>) returns (r: Result<InsertResult>)
    modifies pager
    ensures (pager.State(), r) == InsertLeaf(old(pager.State()), pageNo, row)
  {
    var read := ReadNode(pager, pageNo);
    if read.Err? {
      return Err(read.error);
    }
    var page := read.value;
    if page.typ != PageLeaf {
      return Err(NotLeafPage);
    }
    page := page.(cells := page.cells + [row]);
    // The trial ToBytes and the one that produces the written bytes see the
    // same page, so one call serves for both.
    var data, _ := ToBytes(page);
    if data.Ok? {
      var _ := pager.WritePage(pageNo, data.value);
      return Ok(InsertResult(true, false, None, 0));
    }
    var mid := |page.cells| / 2;
    var left := NewLeafPage().(cells := page.cells[..mid]);
    var right := NewLeafPage().(cells := page.cells[mid..]);
    var rightPage := pager.AllocatePage();
    left := left.(nextLeaf := ToU32(rightPage));
    var dataL, _ := ToBytes(left);
    var dataR, _ := ToBytes(right);
    var _ := pager.WritePage(pageNo, if dataL.Ok? then dataL.value else []);
    var _ := pager.WritePage(rightPage, if dataR.Ok? then dataR.value else []);
    return Ok(InsertResult(true, true, Some(right), rightPage));
  }

  // ---------------------------------------------------------------------------
  // The new root every split answers with

  /** The one-cell internal page InsertRow builds after a split: LeftChild is
      the page that split and the cell sends `key` and above to `child`. */
  function MiniRoot(leftPage: int, key: seq<byte>, child: u32): Page {
    NewInternalPage().(leftChild := ToU32(leftPage), cells := [EncodeInternalCell(key, child)])
  }

  /** Allocate a page and write the mini root there (ToBytesMust panics on a
      key too long for one page), answering with the new page number. */
  function NewRoot(d: Disk, leftPage: int, key: seq<byte>, child: u32): (out: (Disk, Result<int>))
    ensures out.0.nextPage == NextAllocation(d.nextPage) + 1
    ensures out.1.Ok? ==> out.1.value == NextAllocation(d.nextPage)
    ensures out.1.Err? ==> out.1.error == PanicPageOverflow && out.0.file == d.file
  {
    var pageNo := NextAllocation(d.nextPage);
    var d1 := Allocated(d);
    match Must(MiniRoot(leftPage, key, child))
    case Err(e) => (d1, Err(e))
    case Ok(data) => (Store(d1, pageNo, data), Ok(pageNo))
  }

  method WriteNewRoot(pager: Pager, leftPage: int, key: seq<byte>, child: u32) returns (r: Result<int>)
    modifies pager
    ensures (pager.State(), r) == NewRoot(old(pager.State()), leftPage, key, child)
  {
    var root := NewInternalPage();
    root := root.(leftChild := ToU32(leftPage));
    root := root.(cells := root.cells + [EncodeInternalCell(key, child)]);
    // sortInternalCells(newRoot) sorts a single cell: nothing moves.
    assert root == MiniRoot(leftPage, key, child);
    var pageNo := pager.AllocatePage();
    var data := ToBytesMust(root);
    if data.Err? {
      return Err(data.error);
    }
    var _ := pager.WritePage(pageNo, data.value);
    return Ok(pageNo);
  }

  /** The case of a leaf root: insert there, and after a split build a mini root
      over the two halves, keyed by the right half's first key. */
  function LeafRoot(d: Disk, rootPage: int, row: seq<byte>): (out: (Disk, Result<int>))
  {
    var (d1, res) := InsertLeaf(d, rootPage, row);
    if res.Err? then (d1, Err(res.error))
    else if !res.value.split then (d1, Ok(rootPage))
    else
      match ExtractKey(res.value.newPage.value.cells[0])
      case Err(e) => (d1, Err(e))
      case Ok(key) => NewRoot(d1, rootPage, key, ToU32(res.value.newPageNo))
  }

  method InsertIntoLeafRoot(pager: Pager, rootPage: int, row: seq<byte>) returns (r: Result<int>)
    modifies pager
    ensures (pager.State(), r) == LeafRoot(old(pager.State()), rootPage, row)
  {
    var res := InsertIntoLeafPage(pager, rootPage, row);
    if res.Err? {
      return Err(res.error);
    }
    if !res.value.split {
      return Ok(rootPage);
    }
    var key := ExtractKey(res.value.newPage.value.cells[0]);
    if key.Err? {
      return Err(key.error);
    }
    r := WriteNewRoot(pager, rootPage, key.value, ToU32(res.value.newPageNo));
  }

  // ---------------------------------------------------------------------------
  // Descent

  /** InsertRow's walk over an internal page: the same rule as the search, but
      a cell that does not decode ends the insert with an error. */
  function RouteStrict(cells: seq<seq<byte>>, key: seq<byte>, child: int): (r: Result<int>)
    ensures r.Ok? ==> r.value == Route(cells, key, child)
    ensures r.Err? ==> r.error == InvalidInternalCell
    ensures r.Err? ==> exists i :: 0 <= i < |cells| && DecodeInternalCell(cells[i]).Err?
    decreases |cells|
  {
    if cells == [] then Ok(child)
    else
      match DecodeInternalCell(cells[0])
      case Err(e) => Err(e)
      case Ok(s) =>
        if Less(key, s.key) then Ok(child)
        else
          var r := RouteStrict(cells[1..], key, s.child);
          assert r.Err? ==> DecodeInternalCell(cells[1..][0]).Err? || exists i :: 1 <= i < |cells| && DecodeInternalCell(cells[i]).Err? by {
            if r.Err? {
              var i :| 0 <= i < |cells[1..]| && DecodeInternalCell(cells[1..][i]).Err?;
              assert cells[1..][i] == cells[i + 1];
            }
          }
          r
  }

  method InsertChild(cells: seq<seq<byte>>, key: seq<byte>, leftChild: u32) returns (r: Result<int>)
    ensures r == RouteStrict(cells, key, leftChild)
  {
    var insertPage := leftChild as int;
    var i := 0;
    while i < |cells|
      invariant 0 <= i <= |cells|
      invariant RouteStrict(cells[i..], key, insertPage) == RouteStrict(cells, key, leftChild)
    {
      assert cells[i..][1..] == cells[i + 1..];
      var s := DecodeInternalCell(cells[i]);
      if s.Err? {
        return Err(s.error);
      }
      if Less(key, s.value.key) {
        break;
      }
      insertPage := s.value.child;
      i := i + 1;
    }
    r := Ok(insertPage);
  }

  // ---------------------------------------------------------------------------
  // Taking in a child's split

  /** The separator the parent copies from the page its child answered with:
      the first key of a leaf with that page as child, or the first cell of any
      other page as it stands. Cells[0] of a page without cells panics. */
  function Promotion(file: seq<byte>, pageNo: int): (r: Result<Separator>)
  {
    match Node(file, pageNo)
    case Err(e) => Err(e)
    case Ok(page) =>
      if page.cells == [] then Err(PanicIndexOutOfRange)
      else if page.typ == PageLeaf then
        match ExtractKey(page.cells[0])
        case Err(e) => Err(e)
        case Ok(key) => Ok(Separator(key, ToU32(pageNo)))
      else DecodeInternalCell(page.cells[0])
  }

  method PromotionOf(pager: Pager, pageNo: int) returns (r: Result<Separator>)
    ensures r == Promotion(pager.file, pageNo)
  {
    var read := ReadNode(pager, pageNo);
    if read.Err? {
      return Err(read.error);
    }
    var page := read.value;
    if page.cells == [] {
      return Err(PanicIndexOutOfRange);
    }
    if page.typ == PageLeaf {
      var key := ExtractKey(page.cells[0]);
      if key.Err? {
        return Err(key.error);
      }
      return Ok(Separator(key.value, ToU32(pageNo)));
    }
    r := DecodeInternalCell(page.cells[0]);
  }

  /** ExtractPromoteKeyAndChild: the first key of the page with, for an
      internal page, its LeftChild and, for a leaf, its own page number. Pages
      without cells and pages of any other type are errors. */
  function PromoteKeyAndChild(file: seq<byte>, pageNo: int): (r: Result<Separator>)
    ensures r.Ok? ==> Node(file, pageNo).Ok? && Node(file, pageNo).value.cells != []
    ensures Node(file, pageNo).Ok? && Node(file, pageNo).value.typ != PageLeaf && Node(file, pageNo).value.typ != PageInternal
        ==> r == Err(UnknownPageType)
  {
    match Node(file, pageNo)
    case Err(e) => Err(e)
    case Ok(page) =>
      if page.typ == PageInternal then
        if page.cells == [] then Err(EmptyPromotionPage)
        else
          match DecodeInternalCell(page.cells[0])
          case Err(e) => Err(e)
          case Ok(s) => Ok(Separator(s.key, page.leftChild))
      else if page.typ == PageLeaf then
        if page.cells == [] then Err(EmptyPromotionPage)
        else
          match ExtractKey(page.cells[0])
          case Err(e) => Err(e)
          case Ok(key) => Ok(Separator(key, ToU32(pageNo)))
      else Err(UnknownPageType)
  }

  method ExtractPromoteKeyAndChild(pager: Pager, pageNo: int) returns (r: Result<Separator>)
    ensures r == PromoteKeyAndChild(pager.file, pageNo)
  {
    var read := ReadNode(pager, pageNo);
    if read.Err? {
      return Err(read.error);
    }
    var page := read.value;
    if page.typ == PageInternal {
      if page.cells == [] {
        return Err(EmptyPromotionPage);
      }
      var s := DecodeInternalCell(page.cells[0]);
      if s.Err? {
        return Err(s.error);
      }
      return Ok(Separator(s.value.key, page.leftChild));
    }
    if page.typ == PageLeaf {
      if page.cells == [] {
        return Err(EmptyPromotionPage);
      }
      var key := ExtractKey(page.cells[0]);
      if key.Err? {
        return Err(key.error);
      }
      return Ok(Separator(key.value, ToU32(pageNo)));
    }
    return Err(UnknownPageType);
  }

  /** The two ways of reading a promotion agree on a leaf; on an internal page
      they promote the same key but InsertRow's inline copy takes the first
      cell's child where ExtractPromoteKeyAndChild takes LeftChild. On a page
      without cells the inline copy panics. */
  lemma PromotionsCompared(file: seq<byte>, pageNo: int)
    requires Node(file, pageNo).Ok?
    ensures var page := Node(file, pageNo).value;
      && (page.typ == PageLeaf ==> Promotion(file, pageNo) == PromoteKeyAndChild(file, pageNo)
                                   || (page.cells == [] && Promotion(file, pageNo) == Err(PanicIndexOutOfRange)))
      && (page.typ == PageInternal && page.cells != [] && DecodeInternalCell(page.cells[0]).Ok? ==>
            && Promotion(file, pageNo).Ok? && PromoteKeyAndChild(file, pageNo).Ok?
            && Promotion(file, pageNo).value.key == PromoteKeyAndChild(file, pageNo).value.key
            && Promotion(file, pageNo).value.child == DecodeInternalCell(page.cells[0]).value.child
            && PromoteKeyAndChild(file, pageNo).value.child == page.leftChild)
      && (page.cells == [] ==> Promotion(file, pageNo) == Err(PanicIndexOutOfRange)
                               && PromoteKeyAndChild(file, pageNo).Err?)
  {
  }

  /** The key the position loop sees for a cell: its key, or "" when it does
      not decode (the error is discarded and the key is the zero string). */
  function KeyOf(cell: seq<byte>): seq<byte> {
    match DecodeInternalCell(cell)
    case Err(_) => []
    case Ok(s) => s.key
  }

  function Keys(cells: seq<seq<byte>>): (keys: seq<seq<byte>>)
    ensures |keys| == |cells| && forall i :: 0 <= i < |cells| ==> keys[i] == KeyOf(cells[i])
  {
    seq(|cells|, i requires 0 <= i < |cells| => KeyOf(cells[i]))
  }

  /** Where the promoted cell goes: after the leading keys that are not above
      the promoted key. */
  function InsertPos(keys: seq<seq<byte>>, key: seq<byte>): (pos: nat)
    ensures pos <= |keys|
    decreases |keys|
  {
    if keys == [] || Less(key, keys[0]) then 0 else 1 + InsertPos(keys[1..], key)
  }

  method InsertPosition(cells: seq<seq<byte>>, key: seq<byte>) returns (pos: nat)
    ensures pos == InsertPos(Keys(cells), key)
  {
    pos := 0;
    while pos < |cells|
      invariant pos <= |cells|
      invariant pos + InsertPos(Keys(cells)[pos..], key) == InsertPos(Keys(cells), key)
    {
      assert Keys(cells)[pos..][1..] == Keys(cells)[pos + 1..];
      var keyI := KeyOf(cells[pos]);
      if Less(key, keyI) {
        break;
      }
      pos := pos + 1;
    }
  }

  /** The parent with the promoted cell inserted at its position; at position
      0 LeftChild is overwritten with the promoted child. */
  function Spliced(root: Page, sep: Separator): Page {
    var pos := InsertPos(Keys(root.cells), sep.key);
    root.(cells := root.cells[..pos] + [EncodeInternalCell(sep.key, sep.child)] + root.cells[pos..],
          leftChild := if pos == 0 then sep.child else root.leftChild)
  }

  /** The parent split in two around its middle cell, whose key goes up: the
      left half stays at rootPage with the old LeftChild, the right half goes
      to a new page with the child of its own first cell as LeftChild, and a
      mini root over the two is allocated after it. */
  function SplitRoot(d: Disk, rootPage: int, root: Page): (out: (Disk, Result<int>))
    requires |root.cells| > 0
  {
    match DecodeInternalCell(root.cells[|root.cells| / 2])
    case Err(e) => (d, Err(e))
    case Ok(promoted) =>
      var rightPage := NextAllocation(d.nextPage);
      var d1 := Allocated(d);
      match Must(LeftInternal(root))
      case Err(e) => (d1, Err(e))
      case Ok(dataL) =>
        var d2 := Store(d1, rootPage, dataL);
        match Must(RightInternal(root))
        case Err(e) => (d2, Err(e))
        case Ok(dataR) => NewRoot(Store(d2, rightPage, dataR), rootPage, promoted.key, ToU32(rightPage))
  }

  /** The left half of a split internal page: the cells before the middle one,
      under the old LeftChild. */
  function LeftInternal(root: Page): Page {
    NewInternalPage().(leftChild := root.leftChild, cells := root.cells[..|root.cells| / 2])
  }

  /** The right half: the cells after the middle one, under the child of its
      own first cell. */
  function RightInternal(root: Page): Page
    requires |root.cells| > 0
  {
    var cells := root.cells[|root.cells| / 2 + 1..];
    NewInternalPage().(cells := cells, leftChild := FirstChild(cells))
  }

  method SplitInternal(pager: Pager, rootPage: int, root: Page) returns (r: Result<int>)
    requires |root.cells| > 0
    modifies pager
    ensures (pager.State(), r) == SplitRoot(old(pager.State()), rootPage, root)
  {
    var mid := |root.cells| / 2;
    var promoted := DecodeInternalCell(root.cells[mid]);
    if promoted.Err? {
      return Err(promoted.error);
    }
    var rest := root.cells[..mid] + root.cells[mid + 1..];
    assert rest[..mid] == root.cells[..mid] && rest[mid..] == root.cells[mid + 1..];
    var left := NewInternalPage().(leftChild := root.leftChild, cells := rest[..mid]);
    var right := NewInternalPage().(cells := rest[mid..]);
    var rightPage := pager.AllocatePage();
    right := right.(leftChild := FirstChild(right.cells));
    assert left == LeftInternal(root) && right == RightInternal(root);
    var dataL := ToBytesMust(left);
    if dataL.Err? {
      return Err(dataL.error);
    }
    var _ := pager.WritePage(rootPage, dataL.value);
    var dataR := ToBytesMust(right);
    if dataR.Err? {
      return Err(dataR.error);
    }
    var _ := pager.WritePage(rightPage, dataR.value);
    r := WriteNewRoot(pager, rootPage, promoted.value.key, ToU32(rightPage));
  }

  /** The parent takes in the promoted cell: rewritten in place when it still
      fits, split otherwise. */
  function AddToRoot(d: Disk, rootPage: int, root: Page, sep: Separator): (out: (Disk, Result<int>))
  {
    var grown := Spliced(root, sep);
    if Fits(grown) then (Store(d, rootPage, Image(grown)), Ok(rootPage))
    else SplitRoot(d, rootPage, grown)
  }

  method AddPromoted(pager: Pager, rootPage: int, root: Page, sep: Separator) returns (r: Result<int>)
    modifies pager
    ensures (pager.State(), r) == AddToRoot(old(pager.State()), rootPage, root, sep)
  {
    var pos := InsertPosition(root.cells, sep.key);
    var grown := root.(cells := root.cells[..pos] + [EncodeInternalCell(sep.key, sep.child)] + root.cells[pos..]);
    if pos == 0 {
      grown := grown.(leftChild := sep.child);
    }
    var data, _ := ToBytes(grown);
    if data.Ok? {
      var _ := pager.WritePage(rootPage, data.value);
      return Ok(rootPage);
    }
    r := SplitInternal(pager, rootPage, grown);
  }

  /** What the parent does with its child's answer: pass an error on, stay put
      when the child kept its page number, and otherwise copy the promoted
      cell from the page the child answered with. */
  function Absorb(d: Disk, rootPage: int, root: Page, insertPage: int, answer: Result<int>): (out: (Disk, Result<int>))
  {
    match answer
    case Err(e) => (d, Err(e))
    case Ok(newChildPage) =>
      if newChildPage == insertPage then (d, Ok(rootPage))
      else
        match Promotion(d.file, newChildPage)
        case Err(e) => (d, Err(e))
        case Ok(sep) => AddToRoot(d, rootPage, root, sep)
  }

  method AbsorbChild(pager: Pager, rootPage: int, root: Page, insertPage: int, answer: Result<int>) returns (r: Result<int>)
    modifies pager
    ensures (pager.State(), r) == Absorb(old(pager.State()), rootPage, root, insertPage, answer)
  {
    if answer.Err? {
      return Err(answer.error);
    }
    if answer.value == insertPage {
      return Ok(rootPage);
    }
    var sep := PromotionOf(pager, answer.value);
    if sep.Err? {
      return Err(sep.error);
    }
    r := AddPromoted(pager, rootPage, root, sep.value);
  }

  // ---------------------------------------------------------------------------
  // InsertRow

  /** InsertRow, with `fuel` bounding how many internal pages it may pass
      through (the source recurses without a bound). The answer is the page
      number the caller should now treat as this subtree's root. */
  function InsertFrom(d: Disk, rootPage: int, row: seq<byte>, fuel: nat): (out: (Disk, Result<int>))
    decreases fuel
  {
    if rootPage <= 0 then (d, Err(InvalidRootPage))
    else
      match Node(d.file, rootPage)
      case Err(e) => (d, Err(e))
      case Ok(root) =>
        if root.typ == PageLeaf then LeafRoot(d, rootPage, row)
        else
          match ExtractKey(row)
          case Err(e) => (d, Err(e))
          case Ok(rowKey) =>
            match RouteStrict(root.cells, rowKey, root.leftChild)
            case Err(e) => (d, Err(e))
            case Ok(insertPage) =>
              if fuel == 0 then (d, Err(DepthExceeded))
              else
                var (d1, answer) := InsertFrom(d, insertPage, row, fuel - 1);
                Absorb(d1, rootPage, root, insertPage, answer)
  }

  method InsertRow(pager: Pager, rootPage: int, row: seq<byte>, fuel: nat) returns (r: Result<int>)
    modifies pager
    ensures (pager.State(), r) == InsertFrom(old(pager.State()), rootPage, row, fuel)
    decreases fuel
  {
    if rootPage <= 0 {
      return Err(InvalidRootPage);
    }
    var read := ReadNode(pager, rootPage);
    if read.Err? {
      return Err(read.error);
    }
    var root := read.value;
    if root.typ == PageLeaf {
      r := InsertIntoLeafRoot(pager, rootPage, row);
      return;
    }
    var rowKey := ExtractKey(row);
    if rowKey.Err? {
      return Err(rowKey.error);
    }
    var insertPage := InsertChild(root.cells, rowKey.value, root.leftChild);
    if insertPage.Err? {
      return Err(insertPage.error);
    }
    if fuel == 0 {
      return Err(DepthExceeded);
    }
    var f: nat := fuel - 1;
    var answer := InsertRow(pager, insertPage.value, row, f);
    r := AbsorbChild(pager, rootPage, root, insertPage.value, answer);
  }

  /** The error cases of InsertRow that come before any write: a root page
      number below 1, and a separator that does not decode on the way down.
      Both leave the pager as it was. */
  lemma InsertRejects(d: Disk, rootPage: int, row: seq<byte>, fuel: nat)
    ensures rootPage <= 0 ==> InsertFrom(d, rootPage, row, fuel) == (d, Err(InvalidRootPage))
    ensures rootPage > 0 && Node(d.file, rootPage).Ok? && Node(d.file, rootPage).value.typ != PageLeaf
            && ExtractKey(row).Ok?
            && RouteStrict(Node(d.file, rootPage).value.cells, ExtractKey(row).value, Node(d.file, rootPage).value.leftChild).Err?
        ==> InsertFrom(d, rootPage, row, fuel) == (d, Err(InvalidInternalCell))
  {
  }

  /** When the child answers with the page it was asked to insert into, the
      parent is not rewritten and InsertRow answers with the parent's page. */
  lemma ChildKeptPage(d: Disk, rootPage: int, row: seq<byte>, f: nat)
    requires rootPage > 0 && Node(d.file, rootPage).Ok? && Node(d.file, rootPage).value.typ != PageLeaf
    requires ExtractKey(row).Ok?
    requires var root := Node(d.file, rootPage).value;
      var route := RouteStrict(root.cells, ExtractKey(row).value, root.leftChild);
      route.Ok? && InsertFrom(d, route.value, row, f).1 == Ok(route.value)
    ensures var root := Node(d.file, rootPage).value;
      var insertPage := RouteStrict(root.cells, ExtractKey(row).value, root.leftChild).value;
      InsertFrom(d, rootPage, row, f + 1) == (InsertFrom(d, insertPage, row, f).0, Ok(rootPage))
  {
  }

  // ---------------------------------------------------------------------------
  // Leaves

  /** A row that fits goes at the end of the leaf's cells, after every cell
      already there whatever its key; the leaf keeps its page and NextLeaf,
      nothing is allocated, and every other page reads as before. */
  lemma LeafInsertInPlace(d: Disk, pageNo: int, row: seq<byte>, other: int, q: Page)
    requires Node(d.file, pageNo).Ok? && Node(d.file, pageNo).value.typ == PageLeaf
    requires InsertLeaf(d, pageNo, row).1.Ok? && !InsertLeaf(d, pageNo, row).1.value.split
    ensures var page := Node(d.file, pageNo).value;
      var d' := InsertLeaf(d, pageNo, row).0;
      && Reads(d'.file, pageNo, page.(cells := page.cells + [row]))
      && d'.nextPage == d.nextPage
      && (other != pageNo && Reads(d.file, other, q) ==> Reads(d'.file, other, q))
  {
    var page := Node(d.file, pageNo).value;
    var grown := page.(cells := page.cells + [row]);
    StoreReads(d, pageNo, grown);
    if other != pageNo && Reads(d.file, other, q) {
      StoreKeeps(d, pageNo, Image(grown), other, q);
    }
  }

  /** A leaf split: the old cells and the row, divided at len/2 with nothing
      lost or repeated. The first half stays on the page, chained to the
      second, which goes to a page the file did not hold; the old NextLeaf is
      not carried over. Each half reads back when it fits in a page. */
  lemma LeafSplit(d: Disk, pageNo: int, row: seq<byte>)
    requires Bounded(d)
    requires Node(d.file, pageNo).Ok? && Node(d.file, pageNo).value.typ == PageLeaf
    requires InsertLeaf(d, pageNo, row).1.Ok? && InsertLeaf(d, pageNo, row).1.value.split
    ensures var cells := Node(d.file, pageNo).value.cells + [row];
      var (d', res) := InsertLeaf(d, pageNo, row);
      var rightPage := res.value.newPageNo;
      && LeftLeaf(cells, rightPage).cells + RightLeaf(cells).cells == cells
      && res.value.newPage == Some(RightLeaf(cells))
      && PageAt(d.file, rightPage).Err? && rightPage != pageNo
      && (Fits(LeftLeaf(cells, rightPage)) ==> Reads(d'.file, pageNo, LeftLeaf(cells, rightPage)))
      && (Fits(RightLeaf(cells)) ==> Reads(d'.file, rightPage, RightLeaf(cells)))
  {
    var cells := Node(d.file, pageNo).value.cells + [row];
    var rightPage := NextAllocation(d.nextPage);
    var left, right := LeftLeaf(cells, rightPage), RightLeaf(cells);
    AllocateFresh(d);
    ReadableBelow(d, pageNo);
    assert cells == cells[..|cells| / 2] + cells[|cells| / 2..];
    var d1 := Allocated(d);
    var d2 := Store(d1, pageNo, Encoded(left));
    if Fits(left) {
      StoreReads(d1, pageNo, left);
      StoreKeeps(d2, rightPage, Encoded(right), pageNo, left);
    }
    if Fits(right) {
      StoreReads(d2, rightPage, right);
    }
  }

  // ---------------------------------------------------------------------------
  // Mini roots

  /** The page a split answers with: an internal page with one cell whose
      LeftChild is the page that split. */
  predicate IsMiniRoot(file: seq<byte>, pageNo: int, leftPage: int) {
    && Node(file, pageNo).Ok? && Node(file, pageNo).value.typ == PageInternal
    && |Node(file, pageNo).value.cells| == 1 && Node(file, pageNo).value.leftChild == ToU32(leftPage)
  }

  /** NewRoot writes the mini root on the page it allocates, past every page
      below the old counter, which all read as before. */
  lemma NewRootShape(d: Disk, leftPage: int, key: seq<byte>, child: u32, other: int, q: Page)
    requires NewRoot(d, leftPage, key, child).1.Ok?
    ensures var (d', r) := NewRoot(d, leftPage, key, child);
      && Reads(d'.file, r.value, MiniRoot(leftPage, key, child))
      && IsMiniRoot(d'.file, r.value, leftPage)
      && r.value == d'.nextPage - 1
      && (other < d.nextPage && Reads(d.file, other, q) ==> Reads(d'.file, other, q))
  {
    var n := NextAllocation(d.nextPage);
    var root := MiniRoot(leftPage, key, child);
    var d1 := Allocated(d);
    StoreReads(d1, n, root);
    if other < d.nextPage && Reads(d.file, other, q) {
      StoreKeeps(d1, n, Image(root), other, q);
    }
  }

  /** What InsertRow answers: its own page number, or the mini root it has just
      allocated over that page (the last page allocated). Since a child never
      answers with a leaf, the leaf case of the promotion never runs: the
      parent always copies the mini root's cell. */
  lemma InsertAnswer(d: Disk, rootPage: int, row: seq<byte>, fuel: nat)
    requires InsertFrom(d, rootPage, row, fuel).1.Ok?
    ensures var (d', r) := InsertFrom(d, rootPage, row, fuel);
      || r.value == rootPage
      || (&& IsMiniRoot(d'.file, r.value, rootPage) && r.value == d'.nextPage - 1
          && Promotion(d'.file, r.value) == DecodeInternalCell(Node(d'.file, r.value).value.cells[0]))
  {
    var root := Node(d.file, rootPage).value;
    if root.typ == PageLeaf {
      LeafRootAnswer(d, rootPage, row);
    } else {
      var rowKey := ExtractKey(row).value;
      var insertPage := RouteStrict(root.cells, rowKey, root.leftChild).value;
      var (d1, answer) := InsertFrom(d, insertPage, row, fuel - 1);
      AbsorbAnswer(d1, rootPage, root, insertPage, answer);
    }
  }

  /** Shared by every case that ends in a mini root. */
  predicate Answer(out: (Disk, Result<int>), rootPage: int) {
    out.1.Ok? ==>
      || out.1.value == rootPage
      || (&& IsMiniRoot(out.0.file, out.1.value, rootPage) && out.1.value == out.0.nextPage - 1
          && Promotion(out.0.file, out.1.value) == DecodeInternalCell(Node(out.0.file, out.1.value).value.cells[0]))
  }

  lemma NewRootAnswer(d: Disk, leftPage: int, key: seq<byte>, child: u32)
    ensures Answer(NewRoot(d, leftPage, key, child), leftPage)
  {
    if NewRoot(d, leftPage, key, child).1.Ok? {
      NewRootShape(d, leftPage, key, child, 0, NewLeafPage());
    }
  }

  lemma LeafRootAnswer(d: Disk, rootPage: int, row: seq<byte>)
    ensures Answer(LeafRoot(d, rootPage, row), rootPage)
  {
    var (d1, res) := InsertLeaf(d, rootPage, row);
    if res.Ok? && res.value.split && ExtractKey(res.value.newPage.value.cells[0]).Ok? {
      NewRootAnswer(d1, rootPage, ExtractKey(res.value.newPage.value.cells[0]).value, ToU32(res.value.newPageNo));
    }
  }

  lemma AbsorbAnswer(d: Disk, rootPage: int, root: Page, insertPage: int, answer: Result<int>)
    ensures Answer(Absorb(d, rootPage, root, insertPage, answer), rootPage)
  {
    if answer.Ok? && answer.value != insertPage && Promotion(d.file, answer.value).Ok? {
      var grown := Spliced(root, Promotion(d.file, answer.value).value);
      if !Fits(grown) {
        SplitRootAnswer(d, rootPage, grown);
      }
    }
  }

  lemma SplitRootAnswer(d: Disk, rootPage: int, root: Page)
    requires |root.cells| > 0
    ensures Answer(SplitRoot(d, rootPage, root), rootPage)
  {
    var promoted := DecodeInternalCell(root.cells[|root.cells| / 2]);
    if promoted.Ok? && Fits(LeftInternal(root)) && Fits(RightInternal(root)) {
      var rightPage := NextAllocation(d.nextPage);
      var d2 := Store(Allocated(d), rootPage, Image(LeftInternal(root)));
      NewRootAnswer(Store(d2, rightPage, Image(RightInternal(root))), rootPage, promoted.value.key, ToU32(rightPage));
    }
  }

  // ---------------------------------------------------------------------------
  // The allocator stays ahead of the file

  /** d' follows d: still bounded, the counter and the file never shrink. */
  predicate Grows(d: Disk, d': Disk) {
    Bounded(d') && d'.nextPage >= d.nextPage && |d'.file| >= |d.file|
  }

  /** InsertRow only writes pages it has read or allocated, so a state in which
      every allocated page is new to the file stays that way, and the counter
      never goes back. */
  lemma {:induction false} InsertBounded(d: Disk, rootPage: int, row: seq<byte>, fuel: nat)
    requires Bounded(d)
    ensures Grows(d, InsertFrom(d, rootPage, row, fuel).0)
    decreases fuel
  {
    if rootPage > 0 && Node(d.file, rootPage).Ok? {
      var root := Node(d.file, rootPage).value;
      ReadableBelow(d, rootPage);
      if root.typ == PageLeaf {
        LeafRootGrows(d, rootPage, row);
      } else if ExtractKey(row).Ok? && RouteStrict(root.cells, ExtractKey(row).value, root.leftChild).Ok? && fuel > 0 {
        var key := ExtractKey(row).value;
        var insertPage := RouteStrict(root.cells, key, root.leftChild).value;
        var f: nat := fuel - 1;
        InsertBounded(d, insertPage, row, f);
        InternalStep(d, rootPage, root, key, insertPage, row, f);
      }
    }
  }

  /** InsertRow on an internal page whose descent succeeds: the child's
      insert, then the parent taking in its answer. */
  lemma InternalStep(d: Disk, rootPage: int, root: Page, key: seq<byte>, insertPage: int, row: seq<byte>, f: nat)
    requires rootPage > 0 && Node(d.file, rootPage) == Ok(root) && root.typ != PageLeaf
    requires ExtractKey(row) == Ok(key)
    requires RouteStrict(root.cells, key, root.leftChild) == Ok(insertPage)
    requires Bounded(d) && rootPage < d.nextPage && Grows(d, InsertFrom(d, insertPage, row, f).0)
    ensures Grows(d, InsertFrom(d, rootPage, row, f + 1).0)
  {
    var below := InsertFrom(d, insertPage, row, f);
    assert InsertFrom(d, rootPage, row, f + 1) == Absorb(below.0, rootPage, root, insertPage, below.1);
    AbsorbGrows(below.0, rootPage, root, insertPage, below.1);
  }

  lemma InsertLeafGrows(d: Disk, pageNo: int, row: seq<byte>)
    requires Bounded(d)
    ensures Grows(d, InsertLeaf(d, pageNo, row).0)
  {
    if Node(d.file, pageNo).Ok? && Node(d.file, pageNo).value.typ == PageLeaf {
      ReadableBelow(d, pageNo);
      var page := Node(d.file, pageNo).value;
      var grown := page.(cells := page.cells + [row]);
      if Fits(grown) {
        StoreBounded(d, pageNo, Image(grown));
      } else {
        var rightPage := NextAllocation(d.nextPage);
        AllocateFresh(d);
        var d1 := Allocated(d);
        StoreBounded(d1, pageNo, Encoded(LeftLeaf(grown.cells, rightPage)));
        StoreBounded(Store(d1, pageNo, Encoded(LeftLeaf(grown.cells, rightPage))), rightPage, Encoded(RightLeaf(grown.cells)));
      }
    }
  }

  lemma NewRootGrows(d: Disk, leftPage: int, key: seq<byte>, child: u32)
    requires Bounded(d)
    ensures Grows(d, NewRoot(d, leftPage, key, child).0)
  {
    AllocateFresh(d);
    if Fits(MiniRoot(leftPage, key, child)) {
      StoreBounded(Allocated(d), NextAllocation(d.nextPage), Image(MiniRoot(leftPage, key, child)));
    }
  }

  lemma LeafRootGrows(d: Disk, rootPage: int, row: seq<byte>)
    requires Bounded(d)
    ensures Grows(d, LeafRoot(d, rootPage, row).0)
  {
    InsertLeafGrows(d, rootPage, row);
    var (d1, res) := InsertLeaf(d, rootPage, row);
    if res.Ok? && res.value.split && ExtractKey(res.value.newPage.value.cells[0]).Ok? {
      NewRootGrows(d1, rootPage, ExtractKey(res.value.newPage.value.cells[0]).value, ToU32(res.value.newPageNo));
    }
  }

  lemma AbsorbGrows(d: Disk, rootPage: int, root: Page, insertPage: int, answer: Result<int>)
    requires Bounded(d) && rootPage < d.nextPage
    ensures Grows(d, Absorb(d, rootPage, root, insertPage, answer).0)
  {
    if answer.Ok? && answer.value != insertPage && Promotion(d.file, answer.value).Ok? {
      var grown := Spliced(root, Promotion(d.file, answer.value).value);
      if Fits(grown) {
        StoreBounded(d, rootPage, Image(grown));
      } else {
        SplitRootGrows(d, rootPage, grown);
      }
    }
  }

  lemma SplitRootGrows(d: Disk, rootPage: int, root: Page)
    requires Bounded(d) && rootPage < d.nextPage && |root.cells| > 0
    ensures Grows(d, SplitRoot(d, rootPage, root).0)
  {
    var promoted := DecodeInternalCell(root.cells[|root.cells| / 2]);
    if promoted.Ok? {
      var rightPage := NextAllocation(d.nextPage);
      AllocateFresh(d);
      var d1 := Allocated(d);
      if Fits(LeftInternal(root)) {
        StoreBounded(d1, rootPage, Image(LeftInternal(root)));
        var d2 := Store(d1, rootPage, Image(LeftInternal(root)));
        if Fits(RightInternal(root)) {
          StoreBounded(d2, rightPage, Image(RightInternal(root)));
          NewRootGrows(Store(d2, rightPage, Image(RightInternal(root))), rootPage, promoted.value.key, ToU32(rightPage));
        }
      }
    }
  }

  // ---------------------------------------------------------------------------
  // Where the promoted cell goes

  /** The position is the number of leading keys that are not above the
      promoted key: every key before it is at or below the key, and the key at
      it (if any) is above. */
  lemma {:induction false} InsertPosBounds(keys: seq<seq<byte>>, key: seq<byte>)
    ensures forall i :: 0 <= i < InsertPos(keys, key) ==> !Less(key, keys[i])
    ensures InsertPos(keys, key) < |keys| ==> Less(key, keys[InsertPos(keys, key)])
    decreases |keys|
  {
    if keys != [] && !Less(key, keys[0]) {
      InsertPosBounds(keys[1..], key);
      assert forall i :: 1 <= i < |keys| ==> keys[i] == keys[1..][i - 1];
    }
  }

  /** Keys in strictly increasing byte order. */
  predicate Increasing(keys: seq<seq<byte>>) {
    forall i, j :: 0 <= i < j < |keys| ==> Less(keys[i], keys[j])
  }

  /** Increasing keys with a key between the front and the back inserted. */
  lemma IncreasingJoin(a: seq<seq<byte>>, key: seq<byte>, b: seq<seq<byte>>)
    requires Increasing(a + b)
    requires forall i :: 0 <= i < |a| ==> Less(a[i], key)
    requires forall j :: 0 <= j < |b| ==> Less(key, b[j])
    ensures Increasing(a + [key] + b)
  {
    var s, t := a + [key] + b, a + b;
    forall i, j | 0 <= i < j < |s|
      ensures Less(s[i], s[j])
    {
      if j < |a| {
        assert s[i] == t[i] && s[j] == t[j];
      } else if i < |a| && j == |a| {
        assert s[i] == a[i];
      } else if i < |a| {
        assert s[i] == t[i] && s[j] == t[j - 1];
      } else if i == |a| {
        assert s[j] == b[j - |a| - 1];
      } else {
        assert s[i] == t[i - 1] && s[j] == t[j - 1];
      }
    }
  }

  /** Inserting a new key at its position keeps increasing keys increasing. */
  lemma InsertKeepsSorted(keys: seq<seq<byte>>, key: seq<byte>)
    requires Increasing(keys) && key !in keys
    ensures var pos := InsertPos(keys, key);
      Increasing(keys[..pos] + [key] + keys[pos..])
  {
    var pos := InsertPos(keys, key);
    var front, back := keys[..pos], keys[pos..];
    InsertPosBounds(keys, key);
    assert front + back == keys;
    forall i | 0 <= i < |front|
      ensures Less(front[i], key)
    {
      LessTotal(keys[i], key);
    }
    forall j | 0 <= j < |back|
      ensures Less(key, back[j])
    {
      if j > 0 {
        LessTransitive(key, keys[pos], keys[pos + j]);
      }
    }
    IncreasingJoin(front, key, back);
  }

  lemma KeysSplice(a: seq<seq<byte>>, c: seq<byte>, b: seq<seq<byte>>)
    ensures Keys(a + [c] + b) == Keys(a) + [KeyOf(c)] + Keys(b)
  {
    var l, r := Keys(a + [c] + b), Keys(a) + [KeyOf(c)] + Keys(b);
    assert |l| == |r|;
    forall i | 0 <= i < |l|
      ensures l[i] == r[i]
    {
      if i < |a| {
        assert (a + [c] + b)[i] == a[i];
      } else if i > |a| {
        assert (a + [c] + b)[i] == b[i - |a| - 1];
      }
    }
  }

  lemma KeysSlices(cells: seq<seq<byte>>, pos: nat)
    requires pos <= |cells|
    ensures Keys(cells[..pos]) == Keys(cells)[..pos] && Keys(cells[pos..]) == Keys(cells)[pos..]
  {
  }

  /** The spliced page's keys are the old keys with the promoted key at its
      position, when the key is one a cell can carry. */
  lemma SplicedKeys(root: Page, sep: Separator)
    requires 0 !in sep.key
    ensures var keys := Keys(root.cells);
      var pos := InsertPos(keys, sep.key);
      Keys(Spliced(root, sep).cells) == keys[..pos] + [sep.key] + keys[pos..]
  {
    var pos := InsertPos(Keys(root.cells), sep.key);
    var cell := EncodeInternalCell(sep.key, sep.child);
    DecodeEncodeInternalCell(sep.key, sep.child);
    KeysSplice(root.cells[..pos], cell, root.cells[pos..]);
    KeysSlices(root.cells, pos);
  }

  /** A parent whose separator keys increase still has increasing keys after
      taking in a promoted key it did not hold. */
  lemma SplicedSorted(root: Page, sep: Separator)
    requires 0 !in sep.key && Increasing(Keys(root.cells)) && sep.key !in Keys(root.cells)
    ensures Increasing(Keys(Spliced(root, sep).cells))
  {
    SplicedKeys(root, sep);
    InsertKeepsSorted(Keys(root.cells), sep.key);
  }

  // ---------------------------------------------------------------------------
  // Which pages the parent points at

  /** The children named by the cells that decode. */
  function CellChildren(cells: seq<seq<byte>>): set<u32> {
    set s | s in Decoded(cells) :: s.child
  }

  /** Every page an internal page points at: LeftChild and its cells' children. */
  function Children(p: Page): set<u32> {
    {p.leftChild} + CellChildren(p.cells)
  }

  lemma {:induction false} DecodedAppend(a: seq<seq<byte>>, b: seq<seq<byte>>)
    ensures Decoded(a + b) == Decoded(a) + Decoded(b)
    decreases |a|
  {
    if a != [] {
      assert (a + b)[0] == a[0] && (a + b)[1..] == a[1..] + b;
      DecodedAppend(a[1..], b);
      match DecodeInternalCell(a[0])
      case Err(_) =>
      case Ok(s) => assert [s] + Decoded(a[1..]) + Decoded(b) == [s] + (Decoded(a[1..]) + Decoded(b));
    } else {
      assert a + b == b;
    }
  }

  /** A cell that decodes, put between two runs of cells, adds its child. */
  lemma CellChildrenSplice(a: seq<seq<byte>>, c: seq<byte>, b: seq<seq<byte>>, s: Separator)
    requires DecodeInternalCell(c) == Ok(s)
    ensures CellChildren(a + [c] + b) == CellChildren(a + b) + {s.child}
  {
    assert Decoded([c]) == [s];
    DecodedAppend(a + [c], b);
    DecodedAppend(a, [c]);
    DecodedAppend(a, b);
    var l, r := Decoded(a + [c] + b), Decoded(a + b);
    assert l == Decoded(a) + [s] + Decoded(b) && r == Decoded(a) + Decoded(b);
    assert forall x :: x in l <==> x in r || x == s;
  }

  /** The promoted cell adds its child to the cells' children. Away from
      position 0 LeftChild stays, so the parent points at what it pointed at
      before and the promoted child. At position 0 LeftChild is overwritten
      with the promoted child: the old LeftChild is no longer pointed at unless
      some cell also names it. */
  lemma SplicedChildren(root: Page, sep: Separator)
    requires 0 !in sep.key
    ensures var pos := InsertPos(Keys(root.cells), sep.key);
      var g := Spliced(root, sep);
      && CellChildren(g.cells) == CellChildren(root.cells) + {sep.child}
      && (pos > 0 ==> Children(g) == Children(root) + {sep.child})
      && (pos == 0 ==> Children(g) == CellChildren(root.cells) + {sep.child})
      && (pos == 0 && root.leftChild != sep.child && root.leftChild !in CellChildren(root.cells)
          ==> root.leftChild !in Children(g))
  {
    var pos := InsertPos(Keys(root.cells), sep.key);
    var cell := EncodeInternalCell(sep.key, sep.child);
    DecodeEncodeInternalCell(sep.key, sep.child);
    CellChildrenSplice(root.cells[..pos], cell, root.cells[pos..], sep);
    assert root.cells[..pos] + root.cells[pos..] == root.cells;
  }

  // ---------------------------------------------------------------------------
  // The parent rewritten or split

  /** A promoted cell that still fits is written over the parent's page: the
      answer is the parent's own page number, the page reads as the spliced
      page, nothing is allocated and every other page reads as before. */
  lemma AddToRootInPlace(d: Disk, rootPage: int, root: Page, sep: Separator, other: int, q: Page)
    requires rootPage >= 1 && Fits(Spliced(root, sep)) && |Spliced(root, sep).cells| < 0x1_0000
    ensures var (d', r) := AddToRoot(d, rootPage, root, sep);
      && r == Ok(rootPage) && d'.nextPage == d.nextPage
      && Reads(d'.file, rootPage, Spliced(root, sep))
      && (other != rootPage && Reads(d.file, other, q) ==> Reads(d'.file, other, q))
  {
    var grown := Spliced(root, sep);
    StoreReads(d, rootPage, grown);
    if other != rootPage && Reads(d.file, other, q) {
      StoreKeeps(d, rootPage, Image(grown), other, q);
    }
  }

  /** The halves of a parent split: the cells before the middle one, the middle
      one (whose key goes up), and the cells after it, in order. */
  lemma SplitHalves(root: Page)
    requires |root.cells| > 0
    ensures var mid := |root.cells| / 2;
      LeftInternal(root).cells + [root.cells[mid]] + RightInternal(root).cells == root.cells
  {
    var mid := |root.cells| / 2;
    assert root.cells == root.cells[..mid] + [root.cells[mid]] + root.cells[mid + 1..];
  }

  /** A successful parent split: the left half stays on the parent's page under
      the old LeftChild, the right half goes to the freshly allocated page, and
      the answer is the page right after it, a mini root over the two keyed by
      the middle cell's key. Pages below the old counter other than the
      parent's read as before. */
  lemma SplitRootShape(d: Disk, rootPage: int, root: Page, other: int, q: Page)
    requires 1 <= rootPage < d.nextPage && 0 < |root.cells| < 0x1_0000
    requires SplitRoot(d, rootPage, root).1.Ok?
    ensures var (d', r) := SplitRoot(d, rootPage, root);
      var rightPage := NextAllocation(d.nextPage);
      var promoted := DecodeInternalCell(root.cells[|root.cells| / 2]);
      && promoted.Ok?
      && Reads(d'.file, rootPage, LeftInternal(root))
      && Reads(d'.file, rightPage, RightInternal(root))
      && r.value == rightPage + 1 && d'.nextPage == rightPage + 2
      && Reads(d'.file, r.value, MiniRoot(rootPage, promoted.value.key, ToU32(rightPage)))
      && (other < d.nextPage && other != rootPage && Reads(d.file, other, q) ==> Reads(d'.file, other, q))
  {
    var promoted := DecodeInternalCell(root.cells[|root.cells| / 2]).value;
    var rightPage := NextAllocation(d.nextPage);
    var left, right := LeftInternal(root), RightInternal(root);
    var d1 := Allocated(d);
    var d2 := Store(d1, rootPage, Image(left));
    var d3 := Store(d2, rightPage, Image(right));
    StoreReads(d1, rootPage, left);
    StoreReads(d2, rightPage, right);
    StoreKeeps(d2, rightPage, Image(right), rootPage, left);
    NewRootShape(d3, rootPage, promoted.key, ToU32(rightPage), rootPage, left);
    NewRootShape(d3, rootPage, promoted.key, ToU32(rightPage), rightPage, right);
    if other < d.nextPage && other != rootPage && Reads(d.file, other, q) {
      StoreKeeps(d1, rootPage, Image(left), other, q);
      StoreKeeps(d2, rightPage, Image(right), other, q);
      NewRootShape(d3, rootPage, promoted.key, ToU32(rightPage), other, q);
    }
  }

  /** The page a split answers with is read back by both promotion routines:
      InsertRow's copies the mini root's one cell, ExtractPromoteKeyAndChild
      pairs the same key with the page that split. */
  lemma MiniRootPromotions(file: seq<byte>, pageNo: int, leftPage: int, key: seq<byte>, child: u32)
    requires Reads(file, pageNo, MiniRoot(leftPage, key, child)) && 0 !in key
    ensures Promotion(file, pageNo) == Ok(Separator(key, child))
    ensures PromoteKeyAndChild(file, pageNo) == Ok(Separator(key, ToU32(leftPage)))
  {
    DecodeEncodeInternalCell(key, child);
  }
}
