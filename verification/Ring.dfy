// The arithmetic of the byte rings of src/ringbuf.c and src/net.c. Offsets run
// from 0 to size; size is where an offset stands that has reached the end.
module Ring {

  type byte = bv8

  // The number of bytes between the read and the write offset.
  function Used(r: nat, w: nat, size: nat): int {
    if r <= w then w - r else w - r + size
  }

  // Where an offset stands after n more bytes.
  function Advance(off: nat, n: nat, size: nat): int {
    if off + n <= size then off + n else off + n - size
  }

  // Where the i-th byte from an offset lies.
  function IndexAt(off: nat, i: nat, size: nat): int {
    if off + i < size then off + i else off + i - size
  }

  // The condition under which both writers accept n bytes.
  predicate WriteOk(r: nat, w: nat, n: nat, size: nat) {
    if w < r then n <= r - w else w + n < r + size
  }

  // Behind the reader the write must leave a gap, or the full ring looks empty.
  predicate Fills(r: nat, w: nat, n: nat) {
    w < r && n == r - w
  }

  predicate ReadOk(r: nat, w: nat, n: nat, size: nat) {
    if r <= w then n <= w - r else r + n < w + size
  }

  // What holds of the offsets between calls.
  predicate Offsets(r: nat, w: nat, size: nat) {
    && r <= size && w <= size && Used(r, w, size) < size
    && (w < r ==> w > 0)
  }

  function Contents(buf: seq<byte>, r: nat, w: nat): (s: seq<byte>)
    requires Offsets(r, w, |buf|)
  {
    seq(Used(r, w, |buf|), i requires 0 <= i < Used(r, w, |buf|) => buf[IndexAt(r, i, |buf|)])
  }

  // A write is accepted exactly when fewer than size bytes result, or when it
  // closes the gap to a reader ahead.
  lemma WriteRoom(r: nat, w: nat, n: nat, size: nat)
    requires Offsets(r, w, size)
    ensures WriteOk(r, w, n, size) <==> Used(r, w, size) + n < size || Fills(r, w, n)
    ensures Used(r, w, size) + n < size ==>
      Offsets(r, Advance(w, n, size), size) && Used(r, Advance(w, n, size), size) == Used(r, w, size) + n
    ensures Fills(r, w, n) ==> Advance(w, n, size) == r && Used(r, w, size) > 0
  {
  }

  // A read is accepted exactly when so many bytes are there; of a wrapped ring
  // it must leave one.
  lemma ReadRoom(r: nat, w: nat, n: nat, size: nat)
    requires Offsets(r, w, size)
    ensures ReadOk(r, w, n, size) <==> n < Used(r, w, size) || (n == Used(r, w, size) && r <= w)
    ensures n <= Used(r, w, size) && (w < r ==> n < Used(r, w, size)) ==>
      Offsets(Advance(r, n, size), w, size) && Used(Advance(r, n, size), w, size) == Used(r, w, size) - n
  {
  }

  // Which byte from an offset lies at place k.
  function ByteAt(off: nat, k: nat, size: nat): int {
    if off <= k then k - off else k - off + size
  }

  // What a write makes of the buffer.
  function Written(buf: seq<byte>, w: nat, data: seq<byte>): (t: seq<byte>)
    requires w <= |buf|
    ensures |t| == |buf|
  {
    seq(|buf|, k requires 0 <= k < |buf| =>
      if ByteAt(w, k, |buf|) < |data| then data[ByteAt(w, k, |buf|)] else buf[k])
  }

  // The new bytes follow the old ones.
  lemma WriteAppends(buf: seq<byte>, r: nat, w: nat, data: seq<byte>)
    requires Offsets(r, w, |buf|) && Used(r, w, |buf|) + |data| < |buf|
    ensures Offsets(r, Advance(w, |data|, |buf|), |buf|)
    ensures Contents(Written(buf, w, data), r, Advance(w, |data|, |buf|)) == Contents(buf, r, w) + data
  {
    var t, n, w', u := Written(buf, w, data), |buf|, Advance(w, |data|, |buf|), Used(r, w, |buf|);
    WriteRoom(r, w, |data|, n);
    forall k | 0 <= k < Used(r, w', n)
      ensures Contents(t, r, w')[k] == (Contents(buf, r, w) + data)[k]
    {
      var j := IndexAt(r, k, n);
      assert t[j] == if ByteAt(w, j, n) < |data| then data[ByteAt(w, j, n)] else buf[j];
    }
  }

  // Reading takes the bytes off the front.
  lemma ReadSplits(buf: seq<byte>, r: nat, w: nat, n: nat)
    requires Offsets(r, w, |buf|) && ReadOk(r, w, n, |buf|)
    ensures Offsets(Advance(r, n, |buf|), w, |buf|) && n <= |Contents(buf, r, w)|
    ensures Contents(buf, Advance(r, n, |buf|), w) == Contents(buf, r, w)[n..]
  {
    var r' := Advance(r, n, |buf|);
    ReadRoom(r, w, n, |buf|);
    forall k | 0 <= k < Used(r', w, |buf|)
      ensures Contents(buf, r', w)[k] == Contents(buf, r, w)[n + k]
    {
      assert IndexAt(r', k, |buf|) == IndexAt(r, n + k, |buf|);
    }
  }

  // The bytes that a read copies, in two pieces when it runs past the end.
  lemma ReadInPieces(buf: seq<byte>, r: nat, w: nat, n: nat)
    requires Offsets(r, w, |buf|) && n <= Used(r, w, |buf|)
    ensures Contents(buf, r, w)[..n] == if r + n <= |buf| then buf[r..r + n] else buf[r..] + buf[..r + n - |buf|]
  {
  }

  // A read in one piece moves bytes from the ring behind s.
  lemma PieceMoves(s: seq<byte>, buf: seq<byte>, r: nat, w: nat, c: nat)
    requires Offsets(r, w, |buf|) && r + c <= |buf| && c <= Used(r, w, |buf|)
    requires w < r ==> c < Used(r, w, |buf|)
    ensures Offsets(r + c, w, |buf|)
    ensures s + Contents(buf, r, w) == s + buf[r..r + c] + Contents(buf, r + c, w)
  {
    ReadRoom(r, w, c, |buf|);
    ReadSplits(buf, r, w, c);
    ReadInPieces(buf, r, w, c);
    var all := Contents(buf, r, w);
    assert all == all[..c] + all[c..];
  }
}
