// components/mongoose/src/iobuf.c: a growable byte buffer. Its contents are the
// first `len` bytes; its own operations keep the bytes past them zero.
module IoBuf {
  import opened Bytes

  /** MG_IO_SIZE */
  const IO_SIZE: nat := 2048

  /** A whole number of chunks. */
  function AlignedSize(need: nat, chunk: nat): (n: nat)
    requires chunk > 0
  {
    (need + chunk) / chunk * chunk
  }

  /** memmove within one block: the source bytes arrive intact even when the ranges overlap. */
  method Memmove(a: array<byte>, dst: nat, src: nat, n: nat)
    requires dst + n <= a.Length && src + n <= a.Length
    modifies a
    ensures forall j {:trigger a[j]} :: 0 <= j < a.Length ==>
              a[j] == if dst <= j < dst + n then old(a[src + (j - dst)]) else old(a[j])
  {
    if dst < src {
      var k := 0;
      while k < n
        invariant 0 <= k <= n
        invariant forall j {:trigger a[j]} :: 0 <= j < a.Length ==>
                    a[j] == if dst <= j < dst + k then old(a[src + (j - dst)]) else old(a[j])
      {
        a[dst + k] := a[src + k];
        k := k + 1;
      }
    } else if src < dst {
      var k := n;
      while k > 0
        invariant 0 <= k <= n
        invariant forall j {:trigger a[j]} :: 0 <= j < a.Length ==>
                    a[j] == if dst + k <= j < dst + n then old(a[src + (j - dst)]) else old(a[j])
      {
        k := k - 1;
        a[dst + k] := a[src + k];
      }
    }
  }

  /** The same on sequences. */
  method MemmoveSeq(a: array<byte>, dst: nat, src: nat, n: nat)
    requires dst + n <= a.Length && src + n <= a.Length
    modifies a
    ensures a[..] == Splice(old(a[..]), dst, old(a[..])[src..src + n])
  {
    Memmove(a, dst, src, n);
  }

  method MemcpySeq(a: array<byte>, dst: nat, data: seq<byte>)
    requires dst + |data| <= a.Length
    modifies a
    ensures a[..] == Splice(old(a[..]), dst, data)
  {
    Memcpy(a, dst, data);
  }

  /** memcpy from outside into a block. */
  method Memcpy(a: array<byte>, dst: nat, data: seq<byte>)
    requires dst + |data| <= a.Length
    modifies a
    ensures forall j {:trigger a[j]} :: 0 <= j < a.Length ==>
              a[j] == if dst <= j < dst + |data| then data[j - dst] else old(a[j])
  {
    var k := 0;
    while k < |data|
      invariant 0 <= k <= |data|
      invariant forall j {:trigger a[j]} :: 0 <= j < a.Length ==>
                  a[j] == if dst <= j < dst + k then data[j - dst] else old(a[j])
    {
      a[dst + k] := data[k];
      k := k + 1;
    }
  }

  method Zeromem(a: array<byte>, at: nat, n: nat)
    requires at + n <= a.Length
    modifies a
    ensures forall j {:trigger a[j]} :: 0 <= j < a.Length ==> a[j] == if at <= j < at + n then 0 else old(a[j])
  {
    var k := 0;
    while k < n
      invariant 0 <= k <= n
      invariant forall j {:trigger a[j]} :: 0 <= j < a.Length ==> a[j] == if at <= j < at + k then 0 else old(a[j])
    {
      a[at + k] := 0;
      k := k + 1;
    }
  }

  class Buffer {
    var buf: array<byte>   // length 0 stands for NULL
    var len: nat

    ghost predicate Valid()
      reads this
    {
      len <= buf.Length
    }

    /** Nothing is left of removed bytes. */
    ghost predicate Clean()
      requires Valid()
      reads this, buf
    {
      forall i :: len <= i < buf.Length ==> buf[i] == 0
    }

    ghost function Contents(): (s: seq<byte>)
      requires Valid()
      reads this, buf
      ensures |s| == len
    {
      buf[..len]
    }

    constructor ()
      ensures Valid() && Clean() && Contents() == [] && fresh(buf)
    {
      buf, len := new byte[0], 0;
    }

    /**
     * mg_iobuf_resize; `allocOk` is calloc's verdict. Shrinking to a nonzero size
     * below `len` keeps `len`, and so leaves the buffer invalid; nothing else does.
     */
    method Resize(newSize: nat, allocOk: bool) returns (ok: bool)
      requires Valid()
      modifies this
      ensures ok == (newSize == 0 || newSize == old(buf.Length) || allocOk)
      ensures Valid() <==> newSize == 0 || newSize >= old(len) || !ok
      ensures Valid() && old(Clean()) ==> Clean()
      ensures buf == old(buf) || fresh(buf)
      ensures ok ==> buf.Length == newSize
      ensures !ok ==> buf == old(buf)
      ensures len == if newSize == 0 then 0 else old(len)
      ensures var kept := if len < buf.Length then len else buf.Length;
              buf[..kept] == old(buf[..len])[..kept]
      ensures Valid() ==> Contents() == if newSize == 0 then [] else old(Contents())
    {
      ok := true;
      if newSize == 0 {
        buf := new byte[0];
        len := 0;
      } else if newSize != buf.Length {
        if allocOk {
          var p := new byte[newSize](i => 0);
          var n := if newSize < len then newSize else len;
          Memcpy(p, 0, buf[..n]);
          assert p[..n] == buf[..n];
          buf := p;
        } else {
          ok := false;
        }
      }
    }

    /** Makes room for `n` more bytes, growing to a multiple of `chunk` if need be. */
    method Reserve(n: nat, chunk: nat, allocOk: bool) returns (ok: bool)
      requires Valid() && chunk > 0
      modifies this
      ensures Valid() && Contents() == old(Contents())
      ensures old(Clean()) ==> Clean()
      ensures buf == old(buf) || fresh(buf)
      ensures ok == (old(len) + n <= old(buf.Length) || allocOk)
      ensures !ok || old(len) + n <= old(buf.Length) ==> buf == old(buf)
      ensures ok && old(len) + n > old(buf.Length) ==> buf.Length == AlignedSize(len + n, chunk) > len + n
    {
      var newSize := len + n;
      if newSize > buf.Length {
        newSize := newSize + chunk;
        newSize := newSize - newSize % chunk;
        Aligned(len + n, chunk);
        var resized := Resize(newSize, allocOk);
        return newSize == buf.Length;
      }
      return true;
    }

    /** The least multiple of `chunk` strictly above `need`. */
    static lemma Aligned(need: nat, chunk: nat)
      requires chunk > 0
      ensures need + chunk - (need + chunk) % chunk == AlignedSize(need, chunk)
      ensures need < AlignedSize(need, chunk) <= need + chunk
    {
    }

    /**
     * mg_iobuf_add with data: insert at `ofs`, or change nothing when memory runs
     * out. An offset beyond the contents, for which the caller must have made room,
     * takes the bytes in between into the contents: zeros if the buffer is clean.
     */
    method Add(ofs: nat, data: seq<byte>, chunk: nat, allocOk: bool) returns (n: nat)
      requires Valid() && chunk > 0 && (ofs <= len || ofs + |data| <= buf.Length)
      modifies this, buf
      ensures Valid() && (buf == old(buf) || fresh(buf))
      ensures old(Clean()) ==> Clean()
      ensures n == if old(len) + |data| <= old(buf.Length) || allocOk then |data| else 0
      ensures Contents() == if n < |data| then old(Contents()) else Inserted(old(buf[..Reach(ofs)]), ofs, data)
      ensures ofs <= old(len) ==> old(buf[..Reach(ofs)]) == old(Contents())
      ensures ofs > old(len) && old(Clean()) ==> old(buf[..Reach(ofs)]) == old(Contents()) + seq(ofs - old(len), i => 0)
      ensures old(len) + |data| > old(buf.Length) && n > 0 ==> buf.Length == AlignedSize(len, chunk) > len
    {
      if ofs <= len {
        var ok := Reserve(|data|, chunk, allocOk);
        n := if ok then |data| else 0;
        if ok {
          Insert(ofs, data);
        }
      } else {
        ghost var s := buf[..ofs];
        assert old(Clean()) ==> s == old(Contents()) + seq(ofs - old(len), i => 0);
        len := ofs;
        n := |data|;
        Insert(ofs, data);
      }
    }

    /** How far an addition at `ofs` keeps the bytes. */
    function Reach(ofs: nat): (n: nat)
      reads this
    {
      if ofs > len then ofs else len
    }

    /** The moving and copying half of mg_iobuf_add. */
    method Insert(ofs: nat, data: seq<byte>)
      requires Valid() && ofs <= len && len + |data| <= buf.Length
      modifies this`len, buf
      ensures Valid() && buf == old(buf)
      ensures old(Clean()) ==> Clean()
      ensures Contents() == Inserted(old(Contents()), ofs, data)
    {
      var n := |data|;
      ghost var s := Contents();
      Memmove(buf, ofs + n, ofs, len - ofs);
      assert forall j :: 0 <= j < ofs ==> buf[j] == s[j];
      assert forall j :: ofs + n <= j < len + n ==> buf[j] == s[j - n];
      Memcpy(buf, ofs, data);
      len := len + n;
      ghost var t := Inserted(s, ofs, data);
      assert forall j :: 0 <= j < len ==> buf[j] == t[j];
    }

    /** mg_iobuf_add with a NULL source at the end: room for `n` more bytes, zero if the buffer is clean. */
    method AddRoom(n: nat, chunk: nat, allocOk: bool) returns (m: nat)
      requires Valid() && chunk > 0
      modifies this
      ensures Valid() && (buf == old(buf) || fresh(buf))
      ensures m == if old(len) + n <= old(buf.Length) || allocOk then n else 0
      ensures len == old(len) + m && Contents()[..old(len)] == old(Contents())
      ensures old(Clean()) ==> Clean() && Contents() == old(Contents()) + seq(m, i => 0)
    {
      var ok := Reserve(n, chunk, allocOk);
      m := if ok then n else 0;
      ghost var s := Contents();
      len := len + m;
      assert buf[..len][..|s|] == s;
    }

    /** mg_iobuf_del: remove `n` bytes at `ofs`, or as many as there are. */
    method Del(ofs0: nat, n0: nat) returns (n: nat)
      requires Valid()
      modifies this`len, buf
      ensures Valid() && buf == old(buf)
      ensures old(Clean()) ==> Clean()
      ensures ofs0 + n0 <= old(len) ==> n == n0
      ensures ofs0 + n0 > old(len) ==> n == if ofs0 >= old(len) then 0 else old(len) - ofs0
      ensures Contents() == Removed(old(Contents()), ofs0, n0)
    {
      RemovedIsClipped(Contents(), ofs0, n0);
      hide Removed;
      var ofs := ofs0;
      n := n0;
      if ofs > len { ofs := len; }
      if ofs + n > len { n := len - ofs; }
      RemoveRange(ofs, n);
    }

    /** The moving half of mg_iobuf_del. */
    method RemoveRange(ofs: nat, n: nat)
      requires Valid() && ofs + n <= len
      modifies this`len, buf
      ensures Valid() && buf == old(buf)
      ensures old(Clean()) ==> Clean()
      ensures Contents() == old(Contents())[..ofs] + old(Contents())[ofs + n..]
    {
      ghost var s := Contents();
      Memmove(buf, ofs, ofs + n, len - ofs - n);
      assert forall j :: 0 <= j < ofs ==> buf[j] == s[j];
      assert forall j :: ofs <= j < len - n ==> buf[j] == s[j + n];
      Zeromem(buf, len - n, n);
      len := len - n;
      assert forall j :: 0 <= j < ofs ==> buf[j] == s[j];
      assert forall j :: ofs <= j < len ==> buf[j] == s[j + n];
      Spliced(s, buf[..len], ofs, n);
    }

    static lemma Spliced(s: seq<byte>, t: seq<byte>, ofs: nat, n: nat)
      requires ofs + n <= |s| && |t| == |s| - n
      requires forall j :: 0 <= j < ofs ==> t[j] == s[j]
      requires forall j :: ofs <= j < |t| ==> t[j] == s[j + n]
      ensures t == s[..ofs] + s[ofs + n..]
    {
    }
  }

  lemma RemovedIsClipped(s: seq<byte>, ofs: nat, n: nat)
    ensures var o := if ofs > |s| then |s| else ofs;
            var m := if o + n > |s| then |s| - o else n;
            Removed(s, ofs, n) == s[..o] + s[o + m..]
  {
  }

  /** A byte sequence without the `n` bytes at `ofs`, both clipped to what is there. */
  function Removed(s: seq<byte>, ofs: nat, n: nat): (r: seq<byte>) {
    if ofs >= |s| then s
    else if ofs + n > |s| then s[..ofs]
    else s[..ofs] + s[ofs + n..]
  }

  function Inserted(s: seq<byte>, ofs: nat, data: seq<byte>): (r: seq<byte>)
    requires ofs <= |s|
  {
    s[..ofs] + data + s[ofs..]
  }

  /** Deleting what was inserted restores the contents. */
  lemma DelUndoesAdd(s: seq<byte>, ofs: nat, data: seq<byte>)
    requires ofs <= |s|
    ensures Removed(Inserted(s, ofs, data), ofs, |data|) == s
  {
    var r := Inserted(s, ofs, data);
    assert r[..ofs] == s[..ofs] && r[ofs + |data|..] == s[ofs..];
    assert s[..ofs] + s[ofs..] == s;
  }

  /** mg_send on a stream, with memory to spare. */
  method MgSend(send: Buffer, data: seq<byte>)
    requires send.Valid()
    modifies send, send.buf
    ensures send.Valid() && (send.buf == old(send.buf) || fresh(send.buf))
    ensures send.Contents() == old(send.Contents()) + data
  {
    ghost var s := send.Contents();
    var _ := send.Add(send.len, data, IO_SIZE, true);
    assert s[..|s|] == s && s[|s|..] == [];
  }
}
