/** The row codec of store/record.go: a row is a list of text fields, written as
    an int32 little-endian field count followed, per field, by an int32
    little-endian byte length and the bytes themselves. */
module Record {
  import opened Bytes
  import opened Errors

  type Row = seq<seq<byte>>

  /** The bytes EncodeRow writes for one field: int32(len) then the data. */
  function FieldBytes(f: seq<byte>): seq<byte> {
    LE32(ToU32(|f|)) + f
  }

  function FieldsBytes(row: Row): seq<byte> {
    if row == [] then [] else FieldBytes(row[0]) + FieldsBytes(row[1..])
  }

  /** The encoding of a whole row. */
  function RowBytes(row: Row): seq<byte> {
    LE32(ToU32(|row|)) + FieldsBytes(row)
  }

  /** 4 + the sum over the fields of 4 + len(field). */
  function EncodedSize(row: Row): nat {
    if row == [] then 4 else 4 + |row[0]| + EncodedSize(row[1..])
  }

  /** A row whose count and field lengths survive the int32 conversion, so that
      DecodeRow reads them back as non-negative numbers. */
  predicate Representable(row: Row) {
    |row| < 0x8000_0000 && forall i :: 0 <= i < |row| ==> |row[i]| < 0x8000_0000
  }

  /** DecodeRow's loop: read `k` fields from the bytes left in the buffer. */
  function ParseFields(rest: seq<byte>, k: nat): Result<Row>
    decreases k
  {
    if k == 0 then Ok([])
    else if |rest| < 4 then Err(ShortBuffer)
    else
      var size := I32At(rest, 0);
      if size < 0 then Err(PanicNegativeLength)
      else if |rest| - 4 < size then Err(ShortBuffer)
      else Prepend([rest[4..4 + size]], ParseFields(rest[4 + size..], k - 1))
  }

  /** What DecodeRow returns for `data`. */
  function ParseRow(data: seq<byte>): Result<Row> {
    if |data| < 4 then Err(ShortBuffer)
    else
      var count := I32At(data, 0);
      if count < 0 then Err(PanicNegativeLength) else ParseFields(data[4..], count)
  }

  function Prepend(done: Row, r: Result<Row>): Result<Row> {
    match r
    case Ok(rest) => Ok(done + rest)
    case Err(e) => Err(e)
  }

  lemma {:induction false} FieldsBytesSnoc(row: Row, f: seq<byte>)
    ensures FieldsBytes(row + [f]) == FieldsBytes(row) + FieldBytes(f)
  {
    if row != [] {
      assert (row + [f])[1..] == row[1..] + [f];
      FieldsBytesSnoc(row[1..], f);
    } else {
      assert [f][1..] == [];
    }
  }

  /** EncodeRow: always succeeds, with the layout described above. */
  method EncodeRow(row: Row) returns (r: Result<seq<byte>>)
    ensures r.Ok?
    ensures r.value == RowBytes(row)
    ensures |r.value| == EncodedSize(row)
  {
    var buf := LE32(ToU32(|row|));
    var i := 0;
    while i < |row|
      invariant 0 <= i <= |row|
      invariant buf == LE32(ToU32(|row|)) + FieldsBytes(row[..i])
    {
      var data := row[i];
      buf := buf + LE32(ToU32(|data|));
      buf := buf + data;
      FieldsBytesSnoc(row[..i], data);
      assert row[..i + 1] == row[..i] + [data];
      i := i + 1;
    }
    assert row[..i] == row;
    RowBytesLength(row);
    return Ok(buf);
  }

  /** DecodeRow: reads the count, then each field, consuming a buffer from the front. */
  method DecodeRow(data: seq<byte>) returns (r: Result<Row>)
    ensures r == ParseRow(data)
    ensures |data| < 4 ==> r == Err(ShortBuffer)
    ensures |data| >= 4 && I32At(data, 0) < 0 ==> r == Err(PanicNegativeLength)
    ensures r.Ok? ==> |data| >= 4 && |r.value| == I32At(data, 0)
  {
    var buf := data;
    if |buf| < 4 {
      return Err(ShortBuffer);
    }
    var count := I32At(buf, 0);
    buf := buf[4..];
    if count < 0 {
      return Err(PanicNegativeLength);
    }
    var row: Row := [];
    var i := 0;
    PrependNothing(ParseFields(buf, count));
    while i < count
      invariant 0 <= i <= count
      invariant |row| == i
      invariant ParseRow(data) == Prepend(row, ParseFields(buf, count - i))
    {
      ghost var before := buf;
      if |buf| < 4 {
        return Err(ShortBuffer);
      }
      var size := I32At(buf, 0);
      buf := buf[4..];
      if size < 0 {
        return Err(PanicNegativeLength);
      }
      if |buf| < size {
        return Err(ShortBuffer);
      }
      var field := buf[..size];
      buf := buf[size..];
      ghost var tail := ParseFields(buf, count - i - 1);
      assert field == before[4..4 + size] && buf == before[4 + size..];
      assert ParseFields(before, count - i) == Prepend([field], tail);
      PrependTwice(row, [field], tail);
      row := row + [field];
      i := i + 1;
    }
    assert row + [] == row;
    return Ok(row);
  }

  lemma PrependNothing(r: Result<Row>)
    ensures Prepend([], r) == r
  {
    if r.Ok? {
      assert [] + r.value == r.value;
    }
  }

  lemma PrependTwice(a: Row, b: Row, r: Result<Row>)
    ensures Prepend(a, Prepend(b, r)) == Prepend(a + b, r)
  {
    if r.Ok? {
      assert a + (b + r.value) == (a + b) + r.value;
    }
  }

  lemma SplitConcat(a: seq<byte>, b: seq<byte>, c: seq<byte>)
    ensures (a + b + c)[..|a|] == a
    ensures (a + b + c)[|a|..|a| + |b|] == b
    ensures (a + b + c)[|a| + |b|..] == c
  {
  }

  /** The encoded length is 4 + Σ(4 + len(field)). */
  lemma {:induction false} RowBytesLength(row: Row)
    ensures |RowBytes(row)| == EncodedSize(row)
  {
    FieldsBytesLength(row);
  }

  lemma {:induction false} FieldsBytesLength(row: Row)
    ensures |FieldsBytes(row)| + 4 == EncodedSize(row)
  {
    if row != [] {
      FieldsBytesLength(row[1..]);
    }
  }

  lemma I32OfLE32(n: nat, s: seq<byte>, at: int)
    requires n < 0x8000_0000
    requires 0 <= at && at + 4 <= |s| && s[at..at + 4] == LE32(ToU32(n))
    ensures I32At(s, at) == n
  {
    U32OfLE32(ToU32(n), s, at);
  }

  /** One field is read back from its encoding, whatever follows it. */
  lemma ParseFieldBytes(f: seq<byte>, tail: seq<byte>, k: nat)
    requires k > 0 && |f| < 0x8000_0000
    ensures ParseFields(FieldBytes(f) + tail, k) == Prepend([f], ParseFields(tail, k - 1))
  {
    var s := FieldBytes(f) + tail;
    assert s[..4] == LE32(ToU32(|f|));
    I32OfLE32(|f|, s, 0);
    assert s[4..4 + |f|] == f;
    assert s[4 + |f|..] == tail;
  }

  lemma RepresentableTail(row: Row)
    requires row != [] && Representable(row)
    ensures Representable(row[1..])
  {
    forall i | 0 <= i < |row[1..]|
      ensures |row[1..][i]| < 0x8000_0000
    {
      assert row[1..][i] == row[i + 1];
    }
  }

  /** The fields are read back from their encoding, and bytes after it are ignored. */
  lemma {:induction false} ParseFieldsOfEncoding(row: Row, junk: seq<byte>)
    requires Representable(row)
    ensures ParseFields(FieldsBytes(row) + junk, |row|) == Ok(row)
  {
    if row == [] {
      assert ParseFields(FieldsBytes(row) + junk, 0) == Ok([]);
    } else {
      var tail := FieldsBytes(row[1..]) + junk;
      RepresentableTail(row);
      ParseFieldsOfEncoding(row[1..], junk);
      assert FieldsBytes(row) + junk == FieldBytes(row[0]) + tail;
      ParseFieldBytes(row[0], tail, |row|);
      assert [row[0]] + row[1..] == row;
    }
  }

  /** DecodeRow undoes EncodeRow, and bytes after the last field are ignored. */
  lemma ParseRowBytesWithJunk(row: Row, junk: seq<byte>)
    requires Representable(row)
    ensures ParseRow(RowBytes(row) + junk) == Ok(row)
  {
    var data := RowBytes(row) + junk;
    assert data[..4] == LE32(ToU32(|row|));
    I32OfLE32(|row|, data, 0);
    assert data[4..] == FieldsBytes(row) + junk;
    ParseFieldsOfEncoding(row, junk);
  }

  /** The round trip of record_test.go: DecodeRow(EncodeRow(r)) == r, for every
      row whose count and field lengths fit in an int32 (the empty row included). */
  lemma DecodeEncodeRow(row: Row)
    requires Representable(row)
    ensures ParseRow(RowBytes(row)) == Ok(row)
  {
    ParseRowBytesWithJunk(row, []);
    assert RowBytes(row) + [] == RowBytes(row);
  }

  /** A field ParseFields accepts: the buffer starts with that field's encoding. */
  lemma ParseFieldsHead(rest: seq<byte>, k: nat)
    requires k > 0 && ParseFields(rest, k).Ok?
    ensures |rest| >= 4 && 0 <= I32At(rest, 0) <= |rest| - 4
    ensures var size := I32At(rest, 0);
      && rest[..4 + size] == FieldBytes(rest[4..4 + size])
      && ParseFields(rest, k) == Prepend([rest[4..4 + size]], ParseFields(rest[4 + size..], k - 1))
  {
    var size := I32At(rest, 0);
    LE32OfI32(rest, 0);
    assert rest[..4 + size] == rest[0..4] + rest[4..4 + size];
  }

  lemma RepresentableCons(f: seq<byte>, tail: Row)
    requires |f| < 0x8000_0000 && |tail| < 0x7fff_ffff && Representable(tail)
    ensures Representable([f] + tail)
  {
    var row := [f] + tail;
    forall i | 0 <= i < |row|
      ensures |row[i]| < 0x8000_0000
    {
      if i > 0 { assert row[i] == tail[i - 1]; }
    }
  }

  lemma PrefixConcat(a: seq<byte>, b: seq<byte>, s: seq<byte>)
    requires a <= s && b <= s[|a|..]
    ensures a + b <= s
  {
    assert s[..|a| + |b|] == s[..|a|] + s[|a|..][..|b|];
  }

  /** Whatever ParseFields accepts is preceded by the encoding of what it returns. */
  lemma {:induction false} ParseFieldsIsPrefix(rest: seq<byte>, k: nat, row: Row)
    requires k < 0x8000_0000
    requires ParseFields(rest, k) == Ok(row)
    ensures Representable(row) && |row| == k
    ensures FieldsBytes(row) <= rest
    decreases k
  {
    if k > 0 {
      ParseFieldsHead(rest, k);
      var size := I32At(rest, 0);
      var f := rest[4..4 + size];
      var after := rest[4 + size..];
      var tail := ParseFields(after, k - 1).value;
      ParseFieldsIsPrefix(after, k - 1, tail);
      assert row == [f] + tail;
      RepresentableCons(f, tail);
      assert FieldsBytes(row) == FieldBytes(f) + FieldsBytes(tail) by {
        assert row[0] == f && row[1..] == tail;
      }
      PrefixConcat(FieldBytes(f), FieldsBytes(tail), rest);
    }
  }

  /** What DecodeRow accepts starts with the encoding of what it returns. */
  lemma ParseRowIsPrefix(data: seq<byte>, row: Row)
    requires ParseRow(data) == Ok(row)
    ensures Representable(row) && RowBytes(row) <= data
  {
    var count := I32At(data, 0);
    ParseFieldsIsPrefix(data[4..], count, row);
    LE32OfI32(data, 0);
    assert data[..4] == LE32(ToU32(|row|));
    assert data == data[..4] + data[4..];
  }

  /** DecodeRow succeeds with `row` exactly when `data` starts with the encoding of
      a representable `row`: the two directions of the round trip. */
  lemma ParseRowIff(data: seq<byte>, row: Row)
    ensures ParseRow(data) == Ok(row) <==> (Representable(row) && RowBytes(row) <= data)
  {
    if ParseRow(data) == Ok(row) {
      ParseRowIsPrefix(data, row);
    }
    if Representable(row) && RowBytes(row) <= data {
      var junk := data[|RowBytes(row)|..];
      assert data == RowBytes(row) + junk;
      ParseRowBytesWithJunk(row, junk);
    }
  }
}
