/** Outcomes of the storage layer's operations.
    Go returns `(value, error)` pairs and sometimes panics; here every failure is
    an `Error`, and a runtime panic is one of the `Panic…` variants. A panic stops
    the whole operation (nothing in the storage layer recovers from one), so the
    model returns it as a failure together with whatever was written before it. */
module Errors {

  datatype Error =
    // record codec
    | ShortBuffer               // binary.Read / io.ReadFull ran out of bytes
    | InvalidRow                // ExtractKey: undecodable or zero-field record
    | InvalidInternalCell       // DecodeInternalCell: no NUL, or fewer than 4 bytes after it
    // page codec
    | PageOverflow              // Page.ToBytes: cells do not fit
    | InvalidPageSize           // PageFromBytes: input is not PageSize bytes
    // pager
    | InvalidPageNumber         // ReadPage: page number below 1
    | ShortRead                 // ReadAt hit the end of the file
    | SizeMismatch              // WritePage: data is not PageSize bytes
    | NegativeOffset            // WriteAt at a negative file offset
    | OffsetOverflow            // AppendRow: walking the entries ran off the page
    | PageFull                  // AppendRow: the new entry does not fit
    // B+Tree
    | InvalidRootPage           // InsertRow / SearchRow: rootPage <= 0
    | NotLeafPage               // InsertIntoLeafPage on a non-leaf page
    | InvalidPageType           // SearchRow on a page that is neither leaf nor internal
    | KeyNotFound               // SearchRow: no cell with the key
    | NotFound                  // DeleteRow: no cell with the key
    | EmptyPromotionPage        // ExtractPromoteKeyAndChild on a page without cells
    | UnknownPageType           // ExtractPromoteKeyAndChild on an unknown page type
    | DepthExceeded             // the recursion bound of the model ran out
    // runtime panics
    | PanicNegativeLength       // make() with a negative length
    | PanicSliceBounds          // slice bounds out of range
    | PanicIndexOutOfRange      // index out of range: Cells[0] of no cells, a Uint16 read past the end
    | PanicPageOverflow         // ToBytesMust on a page that does not fit
  {
    predicate IsPanic() {
      PanicNegativeLength? || PanicSliceBounds? || PanicIndexOutOfRange? || PanicPageOverflow?
    }
  }

  datatype Option<+T> = None | Some(value: T)

  datatype Result<+T> = Ok(value: T) | Err(error: Error) {
    predicate IsFailure() {
      Err?
    }

    function PropagateFailure<U>(): Result<U>
      requires Err?
    {
      Err(error)
    }

    function Extract(): T
      requires Ok?
    {
      value
    }
  }
}
