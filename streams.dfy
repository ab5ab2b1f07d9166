/**
 * A byte source with a cursor: the binary file object (`read`, `seek`) that the demuxer and
 * the packet framer consume. The socket reader is modelled by the same class over the bytes
 * that the peer sends.
 */
module Streams {
  import opened Wrappers
  import opened Bytes

  /** The `whence` argument of `seek`: 0, 1 and 2 in Python. */
  datatype Whence = FromStart | FromCurrent | FromEnd

  /** What is left to read when the cursor stands at `pos` (a cursor past the end reads nothing). */
  function Rest(bytes: seq<byte>, pos: nat): (r: seq<byte>)
    ensures |r| <= |bytes|
    ensures pos <= |bytes| ==> r == bytes[pos..]
    ensures pos >= |bytes| ==> r == []
  {
    if pos <= |bytes| then bytes[pos..] else []
  }

  /**
   * What `read(n)` returns at `pos`: up to `n` bytes, fewer at the end of the file,
   * and everything that is left when `n` is negative.
   */
  function ReadAt(bytes: seq<byte>, pos: nat, n: int): (chunk: seq<byte>)
    ensures n >= 0 ==> |chunk| == Min(n, |Rest(bytes, pos)|)
    ensures |chunk| <= |Rest(bytes, pos)| && chunk == Rest(bytes, pos)[..|chunk|]
    ensures n >= 0 && pos + n <= |bytes| ==> chunk == bytes[pos..pos + n]
  {
    if n < 0 then Rest(bytes, pos) else Take(Rest(bytes, pos), n)
  }

  /** Reading at `pos + k` is reading at `k` in what is left at `pos`. */
  lemma RestShift(bytes: seq<byte>, pos: nat, k: nat, n: int)
    ensures Rest(bytes, pos + k) == Rest(Rest(bytes, pos), k)
    ensures ReadAt(bytes, pos + k, n) == ReadAt(Rest(bytes, pos), k, n)
  {
  }

  /** Advancing by `k` bytes that are there leaves the rest past them. */
  lemma RestAdvance(bytes: seq<byte>, pos: nat, k: nat)
    requires k <= |Rest(bytes, pos)|
    ensures Rest(bytes, pos + k) == Rest(bytes, pos)[k..]
  {
  }

  class Reader {
    /** The whole content of the file (or everything the peer will send). */
    const bytes: seq<byte>
    /** The cursor; Python allows it to stand past the end of the file. */
    var pos: nat

    constructor (bytes: seq<byte>)
      ensures this.bytes == bytes && pos == 0
    {
      this.bytes := bytes;
      pos := 0;
    }

    function Remaining(): seq<byte>
      reads this
    {
      Rest(bytes, pos)
    }

    /** `read(n)`: returns what `ReadAt` describes and moves the cursor past it. */
    method Read(n: int) returns (chunk: seq<byte>)
      modifies this
      ensures chunk == ReadAt(bytes, old(pos), n)
      ensures pos == old(pos) + |chunk|
    {
      chunk := ReadAt(bytes, pos, n);
      pos := pos + |chunk|;
    }

    /** `seek(offset, whence)`: a negative target position raises OSError and leaves the cursor. */
    method Seek(offset: int, whence: Whence) returns (res: Result<nat>)
      modifies this
      ensures var target := offset + (match whence
                                        case FromStart => 0
                                        case FromCurrent => old(pos)
                                        case FromEnd => |bytes|);
              if target < 0 then res == Err(OSError) && pos == old(pos)
              else res == Ok(target) && pos == target
    {
      var base := match whence
        case FromStart => 0
        case FromCurrent => pos
        case FromEnd => |bytes|;
      if base + offset < 0 {
        res := Err(OSError);
      } else {
        pos := base + offset;
        res := Ok(pos);
      }
    }
  }
}
