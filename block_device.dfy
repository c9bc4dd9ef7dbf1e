/** The raw device as the carvers see it: a binary file object opened with
    `open(path, "rb")`, read sequentially and repositioned with `seek`. */
module BlockDevice {
  import opened Bytes

  /** Bytes per read, `BLOCK_SIZE` in the consolidated engine and `size` in the scripts. */
  const BLOCK_SIZE: nat := 512

  /** What `read(n)` returns at position `pos`: the next `min(n, remaining)` bytes,
      and nothing at or past the end of the device. */
  function ReadAt(d: seq<byte>, pos: nat, n: nat): (block: seq<byte>)
    ensures pos >= |d| ==> block == []
    ensures pos < |d| ==> |block| == Min(n, |d| - pos) && block == d[pos..pos + |block|]
  {
    if pos >= |d| then [] else d[pos..Min(pos + n, |d|)]
  }

  /** A block is shorter than `n` only when it reaches the end of the device. */
  lemma ShortReadEndsDevice(d: seq<byte>, pos: nat, n: nat)
    requires |ReadAt(d, pos, n)| < n
    ensures pos + |ReadAt(d, pos, n)| >= |d|
  {
  }

  /** A pattern lies in a block exactly when it lies in the device inside that block's span. */
  lemma MatchInBlock(d: seq<byte>, pos: nat, n: nat, pat: seq<byte>, i: int)
    requires pos < |d|
    ensures MatchAt(ReadAt(d, pos, n), pat, i)
        <==> (0 <= i && i + |pat| <= |ReadAt(d, pos, n)| && MatchAt(d, pat, pos + i))
  {
    var b := ReadAt(d, pos, n);
    if 0 <= i && i + |pat| <= |b| {
      assert b[i..i + |pat|] == d[pos + i..pos + i + |pat|];
    }
  }

  class Disk {
    /** The device contents; reads never change them. */
    const data: seq<byte>
    /** The file position (`tell()`). */
    var pos: nat

    constructor (contents: seq<byte>)
      ensures data == contents && pos == 0
    {
      data := contents;
      pos := 0;
    }

    /** `read(n)`: the next bytes, advancing the position by as many as were returned. */
    method Read(n: nat) returns (block: seq<byte>)
      modifies this
      ensures block == ReadAt(data, old(pos), n)
      ensures pos == old(pos) + |block|
    {
      block := ReadAt(data, pos, n);
      pos := pos + |block|;
    }

    /** `seek(offset)`: a negative absolute offset raises in Python, so callers must avoid it. */
    method Seek(offset: int)
      requires offset >= 0
      modifies this
      ensures pos == offset
    {
      pos := offset;
    }

    /** `tell()` */
    method Tell() returns (offset: nat)
      ensures offset == pos
    {
      offset := pos;
    }
  }
}
