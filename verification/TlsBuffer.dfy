/** The growable write buffer of a connection. */
module TlsBuffer {
  import opened Bytes

  const MAX_CAP := 0xffff
  const ALIGN := 8  // SSL3_ALIGN_PAYLOAD

  class SSLBuffer {
    var buf: array?<byte>
    var offset: nat
    var size: nat
    var cap: nat

    ghost predicate Valid()
      reads this, buf
    {
      && size <= cap <= MAX_CAP
      && if buf == null then offset == cap == 0 else offset + cap <= buf.Length
    }

    /** The bytes between the offset and the size. */
    ghost function Contents(): (bs: seq<byte>)
      requires Valid()
      reads this, buf
      ensures |bs| == size
    {
      if buf == null then [] else buf[offset..offset + size]
    }

    constructor ()
      ensures Valid() && Contents() == [] && buf == null
    {
      buf, offset, size, cap := null, 0, 0, 0;
    }

    method Clear()
      modifies this
      ensures Valid() && Contents() == [] && buf == null
    {
      buf, offset, size, cap := null, 0, 0, 0;
    }

    /** Room for newCap bytes in all, keeping what is there; where the new block is aligned does not matter. */
    method EnsureCap(newCap: nat) returns (ok: bool)
      requires Valid()
      modifies this
      ensures Valid() && (buf == old(buf) || fresh(buf))
      ensures ok <==> newCap <= MAX_CAP
      ensures ok ==> cap >= newCap
      ensures size == old(size) && Contents() == old(Contents())
    {
      if newCap > MAX_CAP {
        return false;
      }
      if cap >= newCap {
        return true;
      }
      var newBuf := new byte[newCap + ALIGN - 1](_ => 0);
      var newOffset: nat :| newOffset < ALIGN;
      for i := 0 to size
        invariant buf == old(buf) && offset == old(offset) && size == old(size) && cap == old(cap)
        invariant buf != null ==> newBuf[newOffset..newOffset + i] == buf[offset..offset + i]
      {
        if buf != null {
          newBuf[newOffset + i] := buf[offset + i];
        }
      }
      buf, offset, cap := newBuf, newOffset, newCap;
      return true;
    }

    /** Bytes copied into the remaining room, and DidWrite. */
    method Write(bytes: seq<byte>)
      requires Valid() && size + |bytes| <= cap
      modifies this`size, buf
      ensures Valid() && buf == old(buf) && cap == old(cap)
      ensures Contents() == old(Contents()) + bytes
    {
      if buf == null {
        return;
      }
      var base := offset + size;
      for i := 0 to |bytes|
        invariant size == old(size)
        invariant forall j | 0 <= j < buf.Length ::
                    buf[j] == if 0 <= j - base < i then bytes[j - base] else old(buf[j])
      {
        buf[base + i] := bytes[i];
      }
      size := size + |bytes|;
    }

    method Consume(len: nat)
      requires Valid() && len <= size
      modifies this`offset, this`size, this`cap
      ensures Valid() && Contents() == old(Contents())[len..]
    {
      offset, size, cap := offset + len, size - len, cap - len;
    }
  }
}
