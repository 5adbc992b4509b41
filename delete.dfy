/** store/btree_delete.go: DeleteRow. On a leaf every cell with the key goes,
    together with every cell whose key cannot be extracted; on any other page
    the search rule picks a child and the delete continues there. Nothing is
    merged, rebalanced or allocated, and internal pages are never rewritten. */
module Delete {
  import opened Bytes
  import opened Errors
  import opened PageCodec
  import opened Paging
  import opened Search

  /** The outcome of DeleteRow's scan of a leaf: the cells it keeps, and
      whether any cell had the key. */
  datatype Filtered = Filtered(kept: seq<seq<byte>>, found: bool)

  /** The scan, cell by cell in page order; a panic inside DecodeRow ends it. */
  function Survivors(cells: seq<seq<byte>>, key: seq<byte>): Result<Filtered>
    decreases |cells|
  {
    if cells == [] then Ok(Filtered([], false))
    else
      var last := cells[|cells| - 1];
      match Survivors(cells[..|cells| - 1], key)
      case Err(e) => Err(e)
      case Ok(f) =>
        match ExtractKey(last)
        case Err(e) => if e.IsPanic() then Err(e) else Ok(f)
        case Ok(k) => if k == key then Ok(f.(found := true)) else Ok(f.(kept := f.kept + [last]))
  }

  method FilterCells(cells: seq<seq<byte>>, key: seq<byte>) returns (r: Result<Filtered>)
    ensures r == Survivors(cells, key)
  {
    var found := false;
    var newCells := [];
    var i := 0;
    while i < |cells|
      invariant 0 <= i <= |cells|
      invariant Survivors(cells[..i], key) == Ok(Filtered(newCells, found))
    {
      assert cells[..i + 1][..i] == cells[..i];
      var cellKey := ExtractKey(cells[i]);
      if cellKey.Err? {
        if cellKey.error.IsPanic() {
          SurvivorsPanic(cells, key, i + 1);
          return Err(cellKey.error);
        }
        i := i + 1;
        continue;
      }
      if cellKey.value == key {
        found := true;
        i := i + 1;
        continue;
      }
      newCells := newCells + [cells[i]];
      i := i + 1;
    }
    assert cells[..i] == cells;
    r := Ok(Filtered(newCells, found));
  }

  /** A panic in the scan of a prefix is the outcome of the whole scan. */
  lemma {:induction false} SurvivorsPanic(cells: seq<seq<byte>>, key: seq<byte>, i: nat)
    requires i <= |cells| && Survivors(cells[..i], key).Err?
    ensures Survivors(cells, key) == Survivors(cells[..i], key)
    decreases |cells|
  {
    if i < |cells| {
      var front := cells[..|cells| - 1];
      assert front[..i] == cells[..i];
      SurvivorsPanic(front, key, i);
    } else {
      assert cells[..i] == cells;
    }
  }

  /** a is b with some elements left out, the rest in the same order. */
  predicate Subsequence(a: seq<seq<byte>>, b: seq<seq<byte>>)
    decreases |b|
  {
    if a == [] then true
    else if b == [] then false
    else
      || (a[|a| - 1] == b[|b| - 1] && Subsequence(a[..|a| - 1], b[..|b| - 1]))
      || Subsequence(a, b[..|b| - 1])
  }

  lemma {:induction false} SubsequenceSnoc(a: seq<seq<byte>>, b: seq<seq<byte>>, x: seq<byte>)
    requires Subsequence(a, b)
    ensures Subsequence(a, b + [x]) && Subsequence(a + [x], b + [x])
  {
    assert (b + [x])[..|b|] == b;
    assert (a + [x])[..|a|] == a;
  }

  /** A cell the leaf scan keeps: it has a key, and not the one deleted. */
  predicate Keeps(cell: seq<byte>, key: seq<byte>) {
    ExtractKey(cell).Ok? && ExtractKey(cell).value != key
  }

  /** The kept cells are cells of the page, in their page order. */
  lemma {:induction false} SurvivorsInOrder(cells: seq<seq<byte>>, key: seq<byte>)
    requires Survivors(cells, key).Ok?
    ensures Subsequence(Survivors(cells, key).value.kept, cells)
    decreases |cells|
  {
    if cells != [] {
      var front, last := cells[..|cells| - 1], cells[|cells| - 1];
      SurvivorsInOrder(front, key);
      assert cells == front + [last];
      SubsequenceSnoc(Survivors(front, key).value.kept, front, last);
    }
  }

  /** Every kept cell has a key, and not the deleted one. */
  lemma {:induction false} SurvivorsKeep(cells: seq<seq<byte>>, key: seq<byte>)
    requires Survivors(cells, key).Ok?
    ensures forall c :: c in Survivors(cells, key).value.kept ==> Keeps(c, key)
    decreases |cells|
  {
    if cells != [] {
      SurvivorsKeep(cells[..|cells| - 1], key);
    }
  }

  /** Every cell with a key other than the deleted one is kept. */
  lemma {:induction false} SurvivorsComplete(cells: seq<seq<byte>>, key: seq<byte>)
    requires Survivors(cells, key).Ok?
    ensures forall i :: 0 <= i < |cells| && Keeps(cells[i], key) ==> cells[i] in Survivors(cells, key).value.kept
    decreases |cells|
  {
    if cells != [] {
      var front := cells[..|cells| - 1];
      SurvivorsComplete(front, key);
      assert forall i :: 0 <= i < |front| ==> cells[i] == front[i];
    }
  }

  /** The cells a delete of `key` should leave, stated from the front of the
      page independently of the scan: every cell that Keeps, each copy of it,
      in page order. */
  function Filter(cells: seq<seq<byte>>, key: seq<byte>): seq<seq<byte>>
    decreases |cells|
  {
    if cells == [] then []
    else (if Keeps(cells[0], key) then [cells[0]] else []) + Filter(cells[1..], key)
  }

  lemma {:induction false} FilterSnoc(cells: seq<seq<byte>>, x: seq<byte>, key: seq<byte>)
    ensures Filter(cells + [x], key) == Filter(cells, key) + (if Keeps(x, key) then [x] else [])
    decreases |cells|
  {
    if cells == [] {
      assert [x][1..] == [];
    } else {
      assert (cells + [x])[1..] == cells[1..] + [x];
      FilterSnoc(cells[1..], x, key);
    }
  }

  /** The scan keeps exactly the filtered cells: every copy of every cell with
      another key, in page order, and nothing else. */
  lemma {:induction false} SurvivorsAreFilter(cells: seq<seq<byte>>, key: seq<byte>)
    requires Survivors(cells, key).Ok?
    ensures Survivors(cells, key).value.kept == Filter(cells, key)
    decreases |cells|
  {
    if cells != [] {
      var front, last := cells[..|cells| - 1], cells[|cells| - 1];
      SurvivorsAreFilter(front, key);
      assert cells == front + [last];
      FilterSnoc(front, last, key);
    }
  }

  /** Filtering keeps each copy of a cell with another key and drops every
      copy of the rest. */
  lemma {:induction false} FilterCounts(cells: seq<seq<byte>>, key: seq<byte>, c: seq<byte>)
    ensures multiset(Filter(cells, key))[c] == if Keeps(c, key) then multiset(cells)[c] else 0
    decreases |cells|
  {
    if cells != [] {
      FilterCounts(cells[1..], key, c);
      assert cells == [cells[0]] + cells[1..];
    }
  }

  /** `found` says whether some cell had the key. */
  lemma {:induction false} SurvivorsFound(cells: seq<seq<byte>>, key: seq<byte>)
    requires Survivors(cells, key).Ok?
    ensures Survivors(cells, key).value.found <==> exists i :: 0 <= i < |cells| && ExtractKey(cells[i]) == Ok(key)
    decreases |cells|
  {
    if cells != [] {
      var front := cells[..|cells| - 1];
      SurvivorsFound(front, key);
      assert forall i :: 0 <= i < |front| ==> cells[i] == front[i];
      if exists i :: 0 <= i < |cells| && ExtractKey(cells[i]) == Ok(key) {
        var i :| 0 <= i < |cells| && ExtractKey(cells[i]) == Ok(key);
        if i < |front| {
          assert ExtractKey(front[i]) == Ok(key);
        }
      }
    }
  }

  /** After the scan, the kept cells hold no cell a search for the key would
      stop at. */
  lemma KeptNotFound(cells: seq<seq<byte>>, key: seq<byte>)
    requires Survivors(cells, key).Ok?
    ensures FindInLeaf(Survivors(cells, key).value.kept, key) == Err(KeyNotFound)
  {
    var kept := Survivors(cells, key).value.kept;
    SurvivorsKeep(cells, key);
    FindInLeafFirst(kept, key);
    forall j | 0 <= j < |kept|
      ensures Passes(kept[j], key)
    {
      assert kept[j] in kept;
    }
  }

  /** DeleteRow, with `fuel` bounding the descent (the source recurses without
      a bound). The result is the file afterwards, the page number returned,
      and the error: the number is 0 when the page cannot be read or has no
      such key, and the root itself otherwise, even when the write or the
      descent failed. */
  function DeleteFrom(file: seq<byte>, rootPage: int, key: seq<byte>, fuel: nat): (r: (seq<byte>, int, Result<()>))
    ensures r.1 == 0 || r.1 == rootPage
    ensures r.2.Ok? ==> r.1 == rootPage
    decreases fuel
  {
    match Node(file, rootPage)
    case Err(e) => (file, 0, Err(e))
    case Ok(page) =>
      if page.typ == PageLeaf then
        match Survivors(page.cells, key)
        case Err(e) => (file, 0, Err(e))
        case Ok(f) =>
          if !f.found then (file, 0, Err(NotFound))
          else
            var (file', err) := PageWrite(file, rootPage, Encoded(page.(cells := f.kept)));
            (file', rootPage, err)
      else if fuel == 0 then (file, rootPage, Err(DepthExceeded))
      else
        var below := DeleteFrom(file, Route(page.cells, key, page.leftChild), key, fuel - 1);
        (below.0, rootPage, below.2)
  }

  method DeleteRow(pager: Pager, rootPage: int, key: seq<byte>, fuel: nat) returns (page: int, r: Result<()>)
    modifies pager
    ensures (pager.file, page, r) == DeleteFrom(old(pager.file), rootPage, key, fuel)
    ensures pager.nextPage == old(pager.nextPage)
    decreases fuel
  {
    var read := ReadNode(pager, rootPage);
    if read.Err? {
      return 0, Err(read.error);
    }
    var p := read.value;
    if p.typ == PageLeaf {
      var filtered := FilterCells(p.cells, key);
      if filtered.Err? {
        return 0, Err(filtered.error);
      }
      if !filtered.value.found {
        return 0, Err(NotFound);
      }
      p := p.(cells := filtered.value.kept);
      var data, _ := ToBytes(p);
      r := pager.WritePage(rootPage, if data.Ok? then data.value else []);
      return rootPage, r;
    }
    var childPage := ChildPage(p.cells, key, p.leftChild);
    if fuel == 0 {
      return rootPage, Err(DepthExceeded);
    }
    var _, err := DeleteRow(pager, childPage, key, fuel - 1);
    return rootPage, err;
  }

  /** A delete that fails writes nothing: the only write is the last step, and
      the one way it can fail (a page that no longer fits) writes nothing. */
  lemma {:induction false} DeleteFailureWritesNothing(file: seq<byte>, rootPage: int, key: seq<byte>, fuel: nat)
    requires DeleteFrom(file, rootPage, key, fuel).2.Err?
    ensures DeleteFrom(file, rootPage, key, fuel).0 == file
    decreases fuel
  {
    match Node(file, rootPage)
    case Err(_) =>
    case Ok(page) =>
      if page.typ != PageLeaf && fuel > 0 {
        var child := Route(page.cells, key, page.leftChild);
        var f: nat := fuel - 1;
        DeleteDescends(file, rootPage, key, f, page);
        DeleteFailureWritesNothing(file, child, key, f);
      }
  }

  /** On a page other than a leaf, the delete is the delete in the chosen
      child, answered with this page's number. */
  lemma DeleteDescends(file: seq<byte>, rootPage: int, key: seq<byte>, f: nat, page: Page)
    requires Node(file, rootPage) == Ok(page) && page.typ != PageLeaf
    ensures var below := DeleteFrom(file, Route(page.cells, key, page.leftChild), key, f);
      DeleteFrom(file, rootPage, key, f + 1) == (below.0, rootPage, below.2)
  {
  }

  /** Internal pages are never rewritten: every page that reads as anything but
      a leaf before the delete holds the same bytes after it. */
  lemma {:induction false} DeleteKeepsInternalPages(file: seq<byte>, rootPage: int, key: seq<byte>, fuel: nat, other: int)
    requires Node(file, other).Ok? && Node(file, other).value.typ != PageLeaf
    ensures PageAt(DeleteFrom(file, rootPage, key, fuel).0, other) == PageAt(file, other)
    decreases fuel
  {
    match Node(file, rootPage)
    case Err(_) =>
    case Ok(page) =>
      if page.typ == PageLeaf {
        if Survivors(page.cells, key).Ok? && Survivors(page.cells, key).value.found {
          var data := Encoded(page.(cells := Survivors(page.cells, key).value.kept));
          if PageWrite(file, rootPage, data).1.Ok? {
            ReadAfterWrite(file, rootPage, data, other);
          }
        }
      } else if fuel > 0 {
        var f: nat := fuel - 1;
        DeleteKeepsInternalPages(file, Route(page.cells, key, page.leftChild), key, f, other);
      }
  }

  /** A successful delete on a leaf leaves a leaf with the same NextLeaf
      holding exactly the cells the scan kept, in order, none of them with the
      key: a search on that page then reports the key missing. */
  lemma DeleteFromLeaf(file: seq<byte>, rootPage: int, key: seq<byte>, fuel: nat, searchFuel: nat)
    requires Node(file, rootPage).Ok? && Node(file, rootPage).value.typ == PageLeaf
    requires DeleteFrom(file, rootPage, key, fuel).2.Ok?
    ensures var page := Node(file, rootPage).value;
      var file' := DeleteFrom(file, rootPage, key, fuel).0;
      && Survivors(page.cells, key).Ok?
      && Node(file', rootPage).Ok?
      && Node(file', rootPage).value.typ == PageLeaf
      && Node(file', rootPage).value.nextLeaf == page.nextLeaf
      && Node(file', rootPage).value.cells == Survivors(page.cells, key).value.kept
      && Node(file', rootPage).value.cells == Filter(page.cells, key)
      && SearchFrom(file', rootPage, key, searchFuel) == Err(KeyNotFound)
  {
    SurvivorsAreFilter(Node(file, rootPage).value.cells, key);
    var page := Node(file, rootPage).value;
    var f := Survivors(page.cells, key).value;
    var p := page.(cells := f.kept);
    assert PageWrite(file, rootPage, Encoded(p)).1.Ok?;
    KeptPage(page, key);
    NodeAfterWrite(file, rootPage, p);
    KeptNotFound(page.cells, key);
  }

  /** The leaf as DeleteRow writes it back: the count does not wrap, so the
      cells written are all the kept cells. */
  lemma KeptPage(page: Page, key: seq<byte>)
    requires HeaderSize + 2 * |page.cells| <= PageSize && Survivors(page.cells, key).Ok?
    ensures Stored(page.(cells := Survivors(page.cells, key).value.kept)) == Survivors(page.cells, key).value.kept
  {
    SurvivorsInOrder(page.cells, key);
    SubsequenceLength(Survivors(page.cells, key).value.kept, page.cells);
  }

  lemma {:induction false} SubsequenceLength(a: seq<seq<byte>>, b: seq<seq<byte>>)
    requires Subsequence(a, b)
    ensures |a| <= |b|
    decreases |b|
  {
    if a != [] {
      if a[|a| - 1] == b[|b| - 1] && Subsequence(a[..|a| - 1], b[..|b| - 1]) {
        SubsequenceLength(a[..|a| - 1], b[..|b| - 1]);
      } else {
        SubsequenceLength(a, b[..|b| - 1]);
      }
    }
  }
}
