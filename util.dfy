/** The two page-padding helpers of db/util.go: padToPage widens a buffer to
    exactly one page with zeros (cutting off anything past the page), and
    trimPadding strips the trailing zeros again. */
module Padding {
  import opened Bytes

  /** The page padToPage returns: the data's first bytes, zeros after them. */
  function Pad(data: seq<byte>): (p: seq<byte>)
    ensures |p| == PageSize
    ensures forall i :: 0 <= i < PageSize ==> p[i] == if i < |data| then data[i] else 0
  {
    if |data| >= PageSize then data[..PageSize] else data + Zeros(PageSize - |data|)
  }

  /** padToPage: copy into a fresh zeroed page buffer. */
  method PadToPage(data: seq<byte>) returns (padded: seq<byte>)
    ensures padded == Pad(data)
  {
    var buf := new byte[PageSize](_ => 0);
    var n := if |data| < PageSize then |data| else PageSize;
    CopyInto(buf, 0, data[..n]);
    padded := buf[..];
    assert forall i :: 0 <= i < PageSize ==> padded[i] == Pad(data)[i];
  }

  /** Only zeros from position `from` on. */
  predicate ZeroFrom(s: seq<byte>, from: int)
    requires 0 <= from <= |s|
  {
    forall i :: from <= i < |s| ==> s[i] == 0
  }

  /** trimPadding's result: the longest prefix that does not end in a zero. */
  function Trim(data: seq<byte>): (r: seq<byte>)
    decreases |data|
  {
    if |data| > 0 && data[|data| - 1] == 0 then Trim(data[..|data| - 1]) else data
  }

  /** Trim keeps a prefix, drops only zeros, and what it keeps is empty or
      ends in a nonzero byte. */
  lemma {:induction false} TrimShape(data: seq<byte>)
    ensures var r := Trim(data);
      && r <= data && ZeroFrom(data, |r|)
      && (r == [] || r[|r| - 1] != 0)
    decreases |data|
  {
    if |data| > 0 && data[|data| - 1] == 0 {
      var front := data[..|data| - 1];
      TrimShape(front);
      var r := Trim(front);
      assert r <= data;
      assert forall i :: |r| <= i < |data| ==> data[i] == 0 by {
        forall i | |r| <= i < |data|
          ensures data[i] == 0
        {
          if i < |front| {
            assert data[i] == front[i];
          }
        }
      }
    }
  }

  /** The three properties pin the result down: Trim is the only prefix with
      them. */
  lemma TrimUnique(data: seq<byte>, r: seq<byte>)
    requires r <= data && ZeroFrom(data, |r|) && (r == [] || r[|r| - 1] != 0)
    ensures r == Trim(data)
  {
    var t := Trim(data);
    TrimShape(data);
    assert r[..|r|] == data[..|r|] && t[..|t|] == data[..|t|];
  }

  /** trimPadding: step back over the trailing zeros. */
  method TrimPadding(data: seq<byte>) returns (r: seq<byte>)
    ensures r <= data && ZeroFrom(data, |r|)
    ensures r == [] || r[|r| - 1] != 0
    ensures r == Trim(data)
  {
    var end := |data|;
    while end > 0 && data[end - 1] == 0
      invariant 0 <= end <= |data| && ZeroFrom(data, end)
    {
      end := end - 1;
    }
    r := data[..end];
    TrimUnique(data, r);
  }

  /** Trimming twice is trimming once. */
  lemma TrimIdempotent(data: seq<byte>)
    ensures Trim(Trim(data)) == Trim(data)
  {
    var r := Trim(data);
    TrimShape(data);
    TrimUnique(r, r);
  }

  /** A buffer of zeros trims to nothing. */
  lemma TrimZeros(data: seq<byte>)
    requires ZeroFrom(data, 0)
    ensures Trim(data) == []
  {
    TrimUnique(data, []);
  }

  /** Padding a buffer that fits in a page and does not end in a zero, then
      trimming, gives the buffer back. */
  lemma TrimPad(data: seq<byte>)
    requires |data| <= PageSize && (data == [] || data[|data| - 1] != 0)
    ensures Trim(Pad(data)) == data
  {
    var p := Pad(data);
    assert data <= p;
    TrimUnique(p, data);
  }
}
