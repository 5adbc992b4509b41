/** store/btree_search.go: SearchRow, and the two pieces the other tree
    operations share with it: reading a page through the pager into a Page,
    and the rule that picks the child to descend into on an internal page. */
module Search {
  import opened Bytes
  import opened Errors
  import opened PageCodec
  import opened Paging

  // ---------------------------------------------------------------------------
  // Reading a page

  /** ReadPage followed by PageFromBytes. */
  function Node(file: seq<byte>, pageNum: int): Result<Page> {
    match PageAt(file, pageNum)
    case Err(e) => Err(e)
    case Ok(raw) => PageOf(raw)
  }

  method ReadNode(pager: Pager, pageNum: int) returns (r: Result<Page>)
    ensures r == Node(pager.file, pageNum)
  {
    var raw := pager.ReadPage(pageNum);
    if raw.Err? {
      return Err(raw.error);
    }
    r := PageFromBytes(raw.value);
  }

  /** A page that ToBytes could lay out reads back, after a successful write,
      as a page of the same type with the same cells and the uint32 field its
      type keeps. */
  lemma NodeAfterWrite(file: seq<byte>, pageNum: int, p: Page)
    requires Fits(p) && PageWrite(file, pageNum, Image(p)).1.Ok?
    ensures var q := Node(PageWrite(file, pageNum, Image(p)).0, pageNum);
      && q.Ok? && q.value.typ == p.typ && q.value.cells == Stored(p)
      && q.value.nextLeaf == (if p.typ == PageLeaf then p.nextLeaf else 0)
      && q.value.leftChild == (if p.typ == PageInternal then p.leftChild else 0)
  {
    ImageLayout(p);
    ReadAfterWrite(file, pageNum, Image(p), pageNum);
    PageOfImage(p);
  }

  // ---------------------------------------------------------------------------
  // Descending through an internal page

  /** The loop SearchRow and DeleteRow run over an internal page: starting from
      LeftChild, every separator whose key is not above the key moves the
      choice to its child; the first key above it ends the loop, and cells
      that do not decode are skipped. */
  function Route(cells: seq<seq<byte>>, key: seq<byte>, child: int): int
    decreases |cells|
  {
    if cells == [] then child
    else
      match DecodeInternalCell(cells[0])
      case Err(_) => Route(cells[1..], key, child)
      case Ok(s) => if Less(key, s.key) then child else Route(cells[1..], key, s.child)
  }

  method ChildPage(cells: seq<seq<byte>>, key: seq<byte>, leftChild: u32) returns (childPage: int)
    ensures childPage == Route(cells, key, leftChild)
  {
    childPage := leftChild;
    var i := 0;
    while i < |cells|
      invariant 0 <= i <= |cells|
      invariant Route(cells[i..], key, childPage) == Route(cells, key, leftChild)
    {
      assert cells[i..][1..] == cells[i + 1..];
      var s := DecodeInternalCell(cells[i]);
      if s.Err? {
        i := i + 1;
        continue;
      }
      if Less(key, s.value.key) {
        break;
      }
      childPage := s.value.child;
      i := i + 1;
    }
  }

  /** The separators that decode, in page order. */
  function Decoded(cells: seq<seq<byte>>): (seps: seq<Separator>)
    ensures |seps| <= |cells|
    decreases |cells|
  {
    if cells == [] then []
    else
      match DecodeInternalCell(cells[0])
      case Err(_) => Decoded(cells[1..])
      case Ok(s) => [s] + Decoded(cells[1..])
  }

  /** How many separators come before the first whose key is above `key`. */
  function Below(seps: seq<Separator>, key: seq<byte>): (n: nat)
    ensures n <= |seps|
    decreases |seps|
  {
    if seps == [] || Less(key, seps[0].key) then 0 else 1 + Below(seps[1..], key)
  }

  /** The descent as a statement about the decodable separators: the child of
      the last of the leading separators whose keys are not above `key`, or
      the starting child when the first key is already above it. */
  lemma {:induction false} RouteByBelow(cells: seq<seq<byte>>, key: seq<byte>, child: int)
    ensures var seps := Decoded(cells);
      var n := Below(seps, key);
      Route(cells, key, child) == if n == 0 then child else seps[n - 1].child
    decreases |cells|
  {
    if cells != [] {
      RouteByBelow(cells[1..], key, child);
      match DecodeInternalCell(cells[0])
      case Err(_) =>
      case Ok(s) =>
        if !Less(key, s.key) {
          RouteByBelow(cells[1..], key, s.child);
        }
    }
  }

  /** Below counts exactly the leading separators not above the key. */
  lemma {:induction false} BelowBounds(seps: seq<Separator>, key: seq<byte>)
    ensures forall i :: 0 <= i < Below(seps, key) ==> !Less(key, seps[i].key)
    ensures Below(seps, key) < |seps| ==> Less(key, seps[Below(seps, key)].key)
    decreases |seps|
  {
    if seps != [] && !Less(key, seps[0].key) {
      BelowBounds(seps[1..], key);
      assert forall i :: 1 <= i < Below(seps, key) ==> seps[i] == seps[1..][i - 1];
    }
  }

  /** Separator keys in strictly increasing byte order. */
  predicate Ascending(seps: seq<Separator>) {
    forall i, j :: 0 <= i < j < |seps| ==> Less(seps[i].key, seps[j].key)
  }

  /** On ascending separators the descent is the textbook one: every separator
      at or after the chosen position has a key above `key`, so the chosen
      child belongs to the last separator whose key is not above it. */
  lemma BelowAscending(seps: seq<Separator>, key: seq<byte>)
    requires Ascending(seps)
    ensures forall i :: 0 <= i < Below(seps, key) ==> !Less(key, seps[i].key)
    ensures forall i :: Below(seps, key) <= i < |seps| ==> Less(key, seps[i].key)
  {
    BelowBounds(seps, key);
    var n := Below(seps, key);
    forall i | n < i < |seps|
      ensures Less(key, seps[i].key)
    {
      LessTransitive(key, seps[n].key, seps[i].key);
    }
  }

  // ---------------------------------------------------------------------------
  // SearchRow

  /** ExtractKey's outcome does not stop the leaf scan: the cell has another
      key, or no key at all (but DecodeRow did not panic). */
  predicate Passes(cell: seq<byte>, key: seq<byte>) {
    match ExtractKey(cell)
    case Err(e) => !e.IsPanic()
    case Ok(k) => k != key
  }

  /** The scan of a leaf: the first cell whose key is `key`; cells without a
      key are skipped, and a panic inside DecodeRow ends the search. */
  function FindInLeaf(cells: seq<seq<byte>>, key: seq<byte>): (r: Result<seq<byte>>)
    ensures r.Ok? ==> r.value in cells && ExtractKey(r.value) == Ok(key)
    ensures r.Err? ==> r.error == KeyNotFound || r.error.IsPanic()
    decreases |cells|
  {
    if cells == [] then Err(KeyNotFound)
    else
      match ExtractKey(cells[0])
      case Err(e) => if e.IsPanic() then Err(e) else FindInLeaf(cells[1..], key)
      case Ok(k) => if k == key then Ok(cells[0]) else FindInLeaf(cells[1..], key)
  }

  method FindCell(cells: seq<seq<byte>>, key: seq<byte>) returns (r: Result<seq<byte>>)
    ensures r == FindInLeaf(cells, key)
  {
    var i := 0;
    while i < |cells|
      invariant 0 <= i <= |cells|
      invariant FindInLeaf(cells[i..], key) == FindInLeaf(cells, key)
    {
      assert cells[i..][1..] == cells[i + 1..];
      var cellKey := ExtractKey(cells[i]);
      if cellKey.Err? {
        if cellKey.error.IsPanic() {
          return Err(cellKey.error);
        }
        i := i + 1;
        continue;
      }
      if cellKey.value == key {
        return Ok(cells[i]);
      }
      i := i + 1;
    }
    return Err(KeyNotFound);
  }

  /** The scan returns the first cell with the key, provided every cell before
      it lets the scan pass, and reports the key missing exactly when every
      cell does. */
  lemma {:induction false} FindInLeafFirst(cells: seq<seq<byte>>, key: seq<byte>)
    ensures FindInLeaf(cells, key) == Err(KeyNotFound)
        <==> forall j :: 0 <= j < |cells| ==> Passes(cells[j], key)
    ensures forall i :: (0 <= i < |cells| && ExtractKey(cells[i]) == Ok(key)
                         && forall j :: 0 <= j < i ==> Passes(cells[j], key))
                        ==> FindInLeaf(cells, key) == Ok(cells[i])
    decreases |cells|
  {
    if cells != [] {
      FindInLeafFirst(cells[1..], key);
      assert forall j :: 1 <= j < |cells| ==> cells[j] == cells[1..][j - 1];
    }
  }

  /** SearchRow, with `fuel` bounding how many internal pages it may pass
      through (the source recurses without a bound, and a cycle of child
      page numbers would not end). */
  function SearchFrom(file: seq<byte>, rootPage: int, key: seq<byte>, fuel: nat): (r: Result<seq<byte>>)
    ensures r.Ok? ==> ExtractKey(r.value) == Ok(key)
    decreases fuel
  {
    if rootPage <= 0 then Err(InvalidRootPage)
    else
      match Node(file, rootPage)
      case Err(e) => Err(e)
      case Ok(page) =>
        if page.typ == PageLeaf then FindInLeaf(page.cells, key)
        else if page.typ == PageInternal then
          if fuel == 0 then Err(DepthExceeded)
          else SearchFrom(file, Route(page.cells, key, page.leftChild), key, fuel - 1)
        else Err(InvalidPageType)
  }

  /** SearchRow only reads the pager: nothing in its signature may change. */
  method SearchRow(pager: Pager, rootPage: int, key: seq<byte>, fuel: nat) returns (r: Result<seq<byte>>)
    ensures r == SearchFrom(pager.file, rootPage, key, fuel)
    decreases fuel
  {
    if rootPage <= 0 {
      return Err(InvalidRootPage);
    }
    var page := ReadNode(pager, rootPage);
    if page.Err? {
      return Err(page.error);
    }
    var p := page.value;
    if p.typ == PageLeaf {
      r := FindCell(p.cells, key);
    } else if p.typ == PageInternal {
      var childPage := ChildPage(p.cells, key, p.leftChild);
      if fuel == 0 {
        return Err(DepthExceeded);
      }
      r := SearchRow(pager, childPage, key, fuel - 1);
    } else {
      r := Err(InvalidPageType);
    }
  }

  /** A search that reaches a leaf page answers exactly as a scan of that page;
      more fuel never changes a search that did not run out of it. */
  lemma {:induction false} SearchMoreFuel(file: seq<byte>, rootPage: int, key: seq<byte>, fuel: nat, more: nat)
    requires fuel <= more && SearchFrom(file, rootPage, key, fuel) != Err(DepthExceeded)
    ensures SearchFrom(file, rootPage, key, more) == SearchFrom(file, rootPage, key, fuel)
    decreases fuel
  {
    if rootPage > 0 && Node(file, rootPage).Ok? {
      var page := Node(file, rootPage).value;
      if page.typ == PageInternal && fuel > 0 {
        SearchMoreFuel(file, Route(page.cells, key, page.leftChild), key, fuel - 1, more - 1);
      }
    }
  }
}
