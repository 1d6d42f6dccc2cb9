/** The growable byte buffer of buffer.c refines a byte sequence. */
module Buffers {
  import opened Numbers

  const BUFFER_GROWTH := 4096

  class Buffer {
    var data: array<char>   // n_alloc is its length
    var nItems: nat

    ghost predicate Valid()
      reads this
    {
      nItems <= data.Length
    }

    ghost function Contents(): string
      requires Valid()
      reads this, data
    {
      data[..nItems]
    }

    /** new_buf and init_buf. */
    constructor (size: nat)
      ensures Valid() && fresh(data) && data.Length == size && Contents() == []
    {
      data := new char[size];
      nItems := 0;
    }

    /** buf_grow. */
    method Grow(minGrowth: nat)
      requires Valid()
      modifies this
      ensures Valid() && fresh(data)
      ensures data.Length == old(data.Length) + Max(minGrowth, BUFFER_GROWTH)
      ensures nItems == old(nItems) && Contents() == old(Contents())
    {
      var ptr := new char[data.Length + Max(minGrowth, BUFFER_GROWTH)];
      forall i | 0 <= i < data.Length {
        ptr[i] := data[i];
      }
      data := ptr;
    }

    /** buf_push. */
    method Push(c: char)
      requires Valid()
      modifies this, data
      ensures Valid() && (data == old(data) || fresh(data))
      ensures Contents() == old(Contents()) + [c]
      ensures data.Length == old(data.Length) + (if old(nItems) < old(data.Length) then 0 else BUFFER_GROWTH)
    {
      if nItems + 1 > data.Length {
        Grow(1);
      }
      data[nItems] := c;
      nItems := nItems + 1;
    }

    lemma SliceInTwo(m: nat, n: nat)
      requires m <= n <= data.Length
      ensures data[..n] == data[..m] + data[m..n]
    {
    }

    /** buf_append of a byte range, and buf_append_str of a C string. */
    method Append(src: string)
      requires Valid()
      modifies this, data
      ensures Valid() && (data == old(data) || fresh(data))
      ensures Contents() == old(Contents()) + src
    {
      if |src| == 0 { return; }
      if nItems + |src| > data.Length {
        Grow(|src|);
      }
      ghost var was := Contents();
      forall i | 0 <= i < |src| {
        data[nItems + i] := src[i];
      }
      assert data[..nItems] == was;
      assert forall i | 0 <= i < |src| :: data[nItems..nItems + |src|][i] == src[i];
      assert data[nItems..nItems + |src|] == src;
      SliceInTwo(nItems, nItems + |src|);
      nItems := nItems + |src|;
    }

    /** buf_append_buf; a buffer may be appended to itself. */
    method AppendBuf(src: Buffer)
      requires Valid() && src.Valid()
      requires src == this || src.data != data
      modifies this, data
      ensures Valid() && (data == old(data) || fresh(data))
      ensures Contents() == old(Contents()) + old(src.Contents())
      ensures src != this ==> unchanged(src) && src.Contents() == old(src.Contents())
    {
      if src.nItems == 0 { return; }
      var n := src.nItems;
      if nItems + n > data.Length {
        Grow(n);
      }
      var bytes := src.data[..n];
      forall i | 0 <= i < n {
        data[nItems + i] := bytes[i];
      }
      nItems := nItems + n;
    }
  }
}
