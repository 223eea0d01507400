// The ring buffer of src/ringbuf.c, used by one thread.
module RingBuf {
  import opened Ring

  class Buffer {
    const addr: array<byte>
    var r: nat
    var w: nat

    ghost predicate Valid()
      reads this
    {
      Offsets(r, w, addr.Length)
    }

    ghost function Bytes(): seq<byte>
      requires Valid()
      reads this, addr
    {
      Contents(addr[..], r, w)
    }

    // rbuf_create
    constructor (addr: array<byte>)
      requires addr.Length > 0
      ensures Valid() && Bytes() == [] && this.addr == addr && r == w == 0
    {
      this.addr, r, w := addr, 0, 0;
    }

    // rbuf_reset
    method Reset()
      requires addr.Length > 0
      modifies this
      ensures Valid() && Bytes() == [] && r == w == 0
    {
      r, w := 0, 0;
    }

    // memcpy into the buffer
    method CopyIn(at: nat, data: seq<byte>)
      requires at + |data| <= addr.Length
      modifies addr
      ensures forall i :: 0 <= i < |data| ==> addr[at + i] == data[i]
      ensures forall k :: 0 <= k < addr.Length && !(at <= k < at + |data|) ==> addr[k] == old(addr[k])
    {
      forall i | at <= i < at + |data| {
        addr[i] := data[i - at];
      }
    }

    // The two copies of a write that wraps.
    method CopyAround(at: nat, data: seq<byte>, remain: nat)
      requires at + remain == addr.Length && remain < |data| && |data| - remain < at
      modifies addr
      ensures addr[..] == Written(old(addr[..]), at, data)
    {
      CopyIn(at, data[..remain]);
      CopyIn(0, data[remain..]);
    }

    // rbuf_write_block: refused exactly when the bytes do not fit; the bytes
    // then follow those that are there, unless they close the gap to a reader
    // ahead: the ring is empty then.
    method WriteBlock(data: seq<byte>) returns (rslt: int)
      requires Valid()
      modifies this, addr
      ensures Valid() && (rslt == 0 || rslt == -1)
      ensures rslt == 0 <==> old(|Bytes()|) + |data| < addr.Length || old(Fills(r, w, |data|))
      ensures rslt == -1 ==> r == old(r) && w == old(w) && addr[..] == old(addr[..])
      ensures rslt == 0 ==> r == old(r) && w == Advance(old(w), |data|, addr.Length)
      ensures rslt == 0 && !old(Fills(r, w, |data|)) ==> Bytes() == old(Bytes()) + data
      ensures rslt == 0 && old(Fills(r, w, |data|)) ==> Bytes() == [] && old(Bytes()) != []
    {
      var n, size := |data|, addr.Length;
      WriteRoom(r, w, n, size);
      if w < r {
        var remain := r - w;
        if remain < n { return -1; }
        Write(data, w + n);
        return 0;
      } else if w + n < r + size {
        var remain := size - w;
        if remain >= n {
          Write(data, w + n);
        } else {
          var remain2 := n - remain;
          ghost var before := addr[..];
          CopyAround(w, data, remain);
          WriteAppends(before, r, w, data);
          w := remain2;
        }
        return 0;
      }
      return -1;
    }

    // A write in one piece.
    method Write(data: seq<byte>, w': nat)
      requires Valid() && w' == w + |data| <= addr.Length && WriteOk(r, w, |data|, addr.Length)
      modifies this, addr
      ensures w == w' && r == old(r) && Valid()
      ensures !old(Fills(r, w, |data|)) ==> Bytes() == old(Bytes()) + data
      ensures old(Fills(r, w, |data|)) ==> Bytes() == []
    {
      ghost var before := addr[..];
      WriteRoom(r, w, |data|, addr.Length);
      CopyIn(w, data);
      if !Fills(r, w, |data|) {
        assert addr[..] == Written(before, w, data);
        WriteAppends(before, r, w, data);
      }
      w := w';
    }

    // What is read is copied in one or two pieces.
    lemma ReadMoves(n: nat)
      requires Valid() && ReadOk(r, w, n, addr.Length)
      ensures Offsets(Advance(r, n, addr.Length), w, addr.Length) && n <= Used(r, w, addr.Length)
      ensures var buf, r' := addr[..], Advance(r, n, addr.Length);
        Bytes() == (if r + n <= |buf| then buf[r..r + n] else buf[r..] + buf[..r + n - |buf|]) + Contents(buf, r', w)
    {
      ReadInPieces(addr[..], r, w, n);
      ReadSplits(addr[..], r, w, n);
    }

    // rbuf_read_block: refused exactly when fewer bytes are there, or when a
    // wrapped ring would be read empty; the bytes read are the oldest ones.
    method ReadBlock(n: nat) returns (rslt: int, data: seq<byte>)
      requires Valid()
      modifies `r
      ensures Valid() && (rslt == 0 || rslt == -1)
      ensures rslt == 0 <==> n < old(|Bytes()|) || (n == old(|Bytes()|) && old(r <= w))
      ensures rslt == -1 ==> r == old(r) && data == []
      ensures rslt == 0 ==> r == Advance(old(r), n, addr.Length)
      ensures rslt == 0 ==> old(Bytes()) == data + Bytes() && |data| == n
    {
      var size := addr.Length;
      ReadRoom(r, w, n, size);
      if ReadOk(r, w, n, size) { ReadMoves(n); }
      if r <= w {
        var remain := w - r;
        if remain < n { return -1, []; }
        data := addr[r..r + n];
        r := r + n;
        return 0, data;
      } else if r + n < w + size {
        var remain := size - r;
        if remain >= n {
          data := addr[r..r + n];
          r := r + n;
        } else {
          var remain2 := n - remain;
          data := addr[r..r + remain] + addr[..remain2];
          r := remain2;
        }
        return 0, data;
      }
      return -1, [];
    }
  }

  // Six bytes written, four read, three written into a ring of eight: three more are
  // accepted, and none of the bytes that were there can be read.
  method FillLosesAll(addr: array<byte>, a: seq<byte>, b: seq<byte>, c: seq<byte>)
    returns (ring: Buffer, rslt: int, ghost held: seq<byte>)
    requires addr.Length == 8 && |a| == 6 && |b| == |c| == 3
    modifies addr
    ensures fresh(ring) && ring.Valid() && held == a[4..] + b
    ensures rslt == 0 && ring.Bytes() == []
  {
    ring := new Buffer(addr);
    rslt := ring.WriteBlock(a);
    var data;
    rslt, data := ring.ReadBlock(4);
    assert ring.Bytes() == (data + ring.Bytes())[4..] == a[4..];
    rslt := ring.WriteBlock(b);
    held := ring.Bytes();
    rslt := ring.WriteBlock(c);
  }
}
