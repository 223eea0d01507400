// Sending on a session of src/net.c: bytes are put into the session's ring and
// leave it through send calls that may take any part of what they are given.
module NetSend {
  import opened Ring
  import RingBuf

  datatype SesState = Establishing | Normal | Closing | Closed

  class Session {
    // _send_buf with its two offsets.
    const ring: RingBuf.Buffer
    // What the next send calls return, and whether errno then says more than "later".
    const results: nat -> int
    const fatal: nat -> bool
    var calls: nat
    var state: SesState
    ghost var accepted: seq<byte>
    ghost var sent: seq<byte>

    ghost predicate Valid()
      reads this, ring
    {
      ring.Valid()
    }

    // Everything accepted has been sent or is in the ring.
    ghost predicate Intact()
      requires Valid()
      reads this, ring, ring.addr
    {
      accepted == sent + ring.Bytes()
    }

    constructor (buf: array<byte>, results: nat -> int, fatal: nat -> bool)
      requires buf.Length > 0
      ensures Valid() && Intact() && sent == [] && state == Establishing && fresh(ring) && ring.addr == buf
      ensures ring.r == ring.w == 0 && accepted == [] && calls == 0 && this.results == results && this.fatal == fatal
    {
      ring := new RingBuf.Buffer(buf);
      this.results, this.fatal, calls, state := results, fatal, 0, Establishing;
      accepted, sent := [], [];
    }

    // The send calls after the first n take everything they are given.
    ghost predicate Willing(n: nat) {
      forall k: nat :: k >= n ==> results(k) >= ring.addr.Length
    }

    // Call k took nothing; it failed for good.
    predicate TookNothing(k: int) {
      k >= 0 && results(k) <= 0
    }

    // What call k takes of n bytes.
    function Taken(k: nat, n: int): int {
      if results(k) <= 0 then 0 else if results(k) < n then results(k) else n
    }

    predicate Failed(k: int) {
      k >= 0 && results(k) < 0 && fatal(k)
    }

    // The ring is empty, and no call since the first n took nothing.
    ghost predicate Drained(n: nat)
      requires Valid()
      reads this, ring, ring.addr
    {
      ring.Bytes() == [] && !(calls > n && TookNothing(calls - 1))
    }

    // One send call of n bytes from the read offset.
    method Send(n: nat) returns (cnt: int)
      requires 0 < n && ring.r + n <= ring.addr.Length
      modifies `calls, `sent
      ensures calls == old(calls) + 1
      ensures cnt == if results(old(calls)) < n then results(old(calls)) else n
      ensures sent == old(sent) + ring.addr[ring.r..ring.r + if cnt < 0 then 0 else cnt]
    {
      cnt := if results(calls) < n then results(calls) else n;
      calls := calls + 1;
      sent := sent + ring.addr[ring.r..ring.r + if cnt < 0 then 0 else cnt];
    }

    // _net_close, as far as the state goes.
    method Close()
      modifies `state
      ensures state == Closed
    {
      state := Closed;
    }

    // A call of send and the step of the read offset after it.
    method SendPiece(n: nat) returns (cnt: int)
      requires Valid() && 0 < n && ring.r + n == if ring.r <= ring.w then ring.w else ring.addr.Length
      modifies `calls, `sent, ring`r
      ensures Valid() && calls == old(calls) + 1
      ensures cnt == if results(old(calls)) < n then results(old(calls)) else n
      ensures ring.r == old(ring.r) + if cnt < 0 then 0 else cnt
      ensures old(Intact()) ==> Intact()
      ensures old(sent) <= sent
    {
      cnt := Send(n);
      if cnt > 0 {
        PieceLeaves(old(sent), cnt);
        ring.r := ring.r + cnt;
      }
    }

    lemma PieceLeaves(s: seq<byte>, c: nat)
      requires Valid() && ring.r + c <= if ring.r <= ring.w then ring.w else ring.addr.Length
      ensures Offsets(ring.r + c, ring.w, ring.addr.Length)
      ensures s + ring.Bytes() == s + ring.addr[ring.r..ring.r + c] + Contents(ring.addr[..], ring.r + c, ring.w)
    {
      assert ring.addr[..][ring.r..ring.r + c] == ring.addr[ring.r..ring.r + c];
      PieceMoves(s, ring.addr[..], ring.r, ring.w, c);
    }

    // The loop of the wrapped branch: everything up to the end of the buffer.
    method SendToEnd() returns (cnt: int)
      requires Valid() && ring.w < ring.r
      modifies `calls, `sent, ring`r
      ensures Valid() && ring.w < ring.r && calls >= old(calls)
      ensures cnt > 0 ==> ring.r == ring.addr.Length && (calls > old(calls) ==> !TookNothing(calls - 1))
      ensures cnt <= 0 ==> calls > old(calls) && cnt == results(calls - 1)
      ensures old(ring.r) < ring.addr.Length && TookNothing(old(calls)) ==>
        cnt <= 0 && ring.r == old(ring.r) && calls == old(calls) + 1
      ensures Willing(old(calls)) ==> cnt > 0
      ensures old(Intact()) ==> Intact()
      ensures old(sent) <= sent
    {
      cnt := 1;
      var remain := ring.addr.Length - ring.r;
      while remain > 0
        invariant Valid() && ring.w < ring.r && remain == ring.addr.Length - ring.r && cnt > 0 && calls >= old(calls)
        invariant calls > old(calls) ==> !TookNothing(calls - 1) && !TookNothing(old(calls))
        invariant calls == old(calls) ==> ring.r == old(ring.r)
        invariant old(Intact()) ==> Intact()
        invariant old(sent) <= sent
        decreases remain
      {
        cnt := SendPiece(remain);
        if cnt <= 0 { return; }
        remain := ring.addr.Length - ring.r;
      }
    }

    // The read offset at the end of the buffer goes back to its start.
    method Rewind()
      requires Valid() && ring.r == ring.addr.Length && ring.w < ring.r
      modifies ring`r
      ensures Valid() && ring.r == 0 && (old(Intact()) ==> Intact())
    {
      ghost var before := ring.Bytes();
      ring.r := 0;
      assert ring.Bytes() == before;
    }

    // The sending part of _net_try_send_all; finish tells that a send call took
    // nothing, and cnt is what that call returned.
    method SendAll() returns (cnt: int, finish: bool)
      requires Valid()
      modifies `calls, `sent, ring`r
      ensures Valid() && calls >= old(calls)
      ensures finish <==> calls > old(calls) && TookNothing(calls - 1)
      ensures finish ==> cnt == results(calls - 1)
      ensures !finish ==> ring.r <= ring.w
      ensures Willing(old(calls)) ==> !finish && ring.r == ring.w
      ensures old(ring.r == ring.w) ==> ring.r == ring.w && sent == old(sent) && calls == old(calls)
      ensures old(ring.r < ring.w) ==>
        ring.r == old(ring.r) + Taken(old(calls), ring.w - old(ring.r)) && calls == old(calls) + 1
      ensures old(ring.r != ring.w && ring.r < ring.addr.Length) && TookNothing(old(calls)) ==>
        ring.r == old(ring.r) && calls == old(calls) + 1
      ensures old(Intact()) ==> Intact()
      ensures old(sent) <= sent
    {
      cnt, finish := 0, false;
      if ring.w < ring.r {
        cnt := SendToEnd();
        if cnt <= 0 { return cnt, true; }
        Rewind();
      }
      var remain := ring.w - ring.r;
      if remain > 0 {
        cnt := SendPiece(remain);
        if cnt <= 0 { return cnt, true; }
      }
    }

    // _net_try_send_all. -1 exactly when a send call failed for good, and the
    // session is closed then. Otherwise it is closed exactly when it was closing,
    // no call took nothing, and the ring has run empty: everything accepted has
    // been sent. A socket that takes everything empties the ring in one go.
    method TrySendAll() returns (rslt: int)
      requires Valid()
      modifies `calls, `sent, `state, ring`r
      ensures Valid() && (rslt == 0 || rslt == -1) && calls >= old(calls)
      ensures rslt == -1 <==> calls > old(calls) && Failed(calls - 1)
      ensures rslt == -1 ==> state == Closed
      ensures rslt == 0 && old(state) == Closing && Drained(old(calls)) ==> state == Closed
      ensures rslt == 0 && !(old(state) == Closing && Drained(old(calls))) ==> state == old(state)
      ensures rslt == 0 && old(state) != Closed && state == Closed && old(Intact()) ==> sent == accepted
      ensures Willing(old(calls)) ==> rslt == 0 && ring.Bytes() == []
      ensures old(ring.Bytes()) == [] ==> sent == old(sent) && ring.Bytes() == [] && calls == old(calls)
      ensures old(ring.r == ring.w) ==> ring.r == ring.w
      ensures old(ring.r < ring.w) ==>
        ring.r == old(ring.r) + Taken(old(calls), ring.w - old(ring.r)) && calls == old(calls) + 1
      ensures old(ring.r != ring.w && ring.r < ring.addr.Length) && TookNothing(old(calls)) ==>
        ring.r == old(ring.r) && calls == old(calls) + 1
      ensures old(Intact()) ==> Intact() && sent <= accepted
      ensures old(sent) <= sent
    {
      var cnt, finish := SendAll();
      if !finish && state == Closing {
        if ring.r >= ring.w { Close(); }
      } else if finish && cnt < 0 {
        if fatal(calls - 1) {
          Close();
          return -1;
        }
      }
      return 0;
    }

    // _write_send_buf
    method WriteSendBuf(data: seq<byte>) returns (rslt: int)
      requires Valid()
      modifies `accepted, ring, ring.addr
      ensures Valid() && rslt == if old(WriteOk(ring.r, ring.w, |data|, ring.addr.Length)) then 0 else -1
      ensures rslt == -1 ==> accepted == old(accepted) && ring.Bytes() == old(ring.Bytes())
      ensures rslt == 0 ==> accepted == old(accepted) + data
      ensures rslt == 0 ==> ring.r == old(ring.r) && ring.w == Advance(old(ring.w), |data|, ring.addr.Length)
      ensures rslt == 0 && old(Fills(ring.r, ring.w, |data|)) ==> ring.Bytes() == []
      ensures rslt == 0 && old(Intact()) && !old(Fills(ring.r, ring.w, |data|)) ==> Intact()
    {
      WriteRoom(ring.r, ring.w, |data|, ring.addr.Length);
      rslt := ring.WriteBlock(data);
      if rslt == 0 { accepted := accepted + data; }
    }

    // net_send: the bytes are accepted, if they fit, and as much as possible is
    // sent at once. A write that closes the gap to the read offset is lost.
    method NetSend(data: seq<byte>) returns (rslt: int)
      requires Valid()
      modifies this, ring, ring.addr
      ensures Valid()
      ensures accepted ==
        if data == [] || old(state) != Normal || !old(WriteOk(ring.r, ring.w, |data|, ring.addr.Length))
        then old(accepted) else old(accepted) + data
      ensures accepted == old(accepted) ==>
        rslt == -1 && sent == old(sent) && ring.Bytes() == old(ring.Bytes()) && state == old(state)
      ensures rslt == 0 || rslt == -1
      ensures rslt == 0 ==> state == old(state)
      ensures accepted != old(accepted) && Willing(old(calls)) ==> rslt == 0 && ring.Bytes() == []
      ensures accepted != old(accepted) && old(Fills(ring.r, ring.w, |data|)) ==>
        sent == old(sent) && ring.Bytes() == []
      ensures old(Intact()) && !old(Fills(ring.r, ring.w, |data|)) ==> Intact() && sent <= accepted
      ensures old(sent) <= sent
      ensures accepted != old(accepted) ==> ring.w == Advance(old(ring.w), |data|, ring.addr.Length)
      ensures accepted != old(accepted) && old(ring.r) < ring.w ==>
        ring.r == old(ring.r) + Taken(old(calls), ring.w - old(ring.r)) && calls == old(calls) + 1
      ensures accepted != old(accepted) && old(ring.r) !in {ring.w, ring.addr.Length} && TookNothing(old(calls)) ==>
        ring.r == old(ring.r) && calls == old(calls) + 1
      ensures accepted != old(accepted) ==> (rslt == -1 <==> calls > old(calls) && Failed(calls - 1))
      ensures accepted != old(accepted) ==> state == if rslt == -1 then Closed else Normal
    {
      if data == [] { return -1; }
      if state != Normal { return -1; }
      rslt := WriteSendBuf(data);
      if rslt < 0 { return -1; }
      rslt := TrySendAll();
    }

    // _net_on_send: the socket can take bytes again, or the connection is made.
    method OnSend()
      requires Valid()
      modifies `calls, `sent, `state, ring`r
      ensures Valid() && old(sent) <= sent
      ensures old(Intact()) ==> Intact() && sent <= accepted
      ensures Willing(old(calls)) ==> ring.Bytes() == [] && (old(state) == Closing ==> state == Closed)
      ensures old(state == Establishing && ring.r == ring.w) ==>
        state == Normal && ring.r == ring.w && calls == old(calls) && sent == old(sent)
      ensures state ==
        if (calls > old(calls) && Failed(calls - 1)) || (old(state) == Closing && Drained(old(calls))) then Closed
        else if old(state) == Establishing then Normal else old(state)
      ensures old(Intact()) && old(state) == Closing && state == Closed ==>
        sent == accepted || (calls > old(calls) && Failed(calls - 1))
    {
      if state == Establishing { state := Normal; }
      var rslt := TrySendAll();
    }

    // _net_disconn: from now on nothing is accepted, and the session is closed
    // at once when everything can be sent.
    method Disconnect() returns (rslt: int)
      requires Valid()
      modifies `calls, `sent, `state, ring`r
      ensures Valid() && old(sent) <= sent
      ensures old(Intact()) ==> Intact() && sent <= accepted
      ensures old(state) != Normal && old(state) != Establishing ==>
        rslt == -1 && state == old(state) && sent == old(sent)
      ensures old(state) == Normal || old(state) == Establishing ==>
        && rslt == (if calls > old(calls) && Failed(calls - 1) then -1 else 0)
        && state == if rslt == -1 || Drained(old(calls)) then Closed else Closing
      ensures rslt == 0 ==> state == Closing || (state == Closed && (old(Intact()) ==> sent == accepted))
      ensures (old(state) == Normal || old(state) == Establishing) && Willing(old(calls)) ==>
        rslt == 0 && state == Closed
    {
      if state != Normal && state != Establishing { return -1; }
      state := Closing;
      rslt := TrySendAll();
    }
  }

  // A session whose socket takes four bytes at first and none later, with both
  // offsets of a send buffer of eight bytes.
  ghost predicate Stuck(ses: Session, r: nat, w: nat)
    reads ses, ses.ring, ses.ring.addr
  {
    && ses.Valid() && ses.Intact() && ses.state == Normal && ses.ring.addr.Length == 8
    && ses.ring.r == r && ses.ring.w == w && (ses.calls == 0 ==> r == w == 0)
    && forall k: nat :: ses.results(k) == if k == 0 then 4 else 0
  }

  method NewStuck(buf: array<byte>) returns (ses: Session)
    requires buf.Length == 8
    ensures fresh(ses) && fresh(ses.ring) && ses.ring.addr == buf && Stuck(ses, 0, 0) && ses.calls == 0
    ensures ses.accepted == [] && forall k :: !ses.Failed(k)
  {
    ses := new Session(buf, k => if k == 0 then 4 else 0, _ => false);
    ses.OnSend();
  }

  // Six bytes accepted, of which four are sent, and three more.
  method SendNine(ses: Session, a: seq<byte>, b: seq<byte>) returns (rslt: int)
    requires Stuck(ses, 0, 0) && ses.calls == 0 && ses.accepted == [] && (forall k :: !ses.Failed(k))
    requires |a| == 6 && |b| == 3
    modifies ses, ses.ring, ses.ring.addr
    ensures Stuck(ses, 4, 1) && ses.calls > 0 && ses.accepted == a + b
  {
    rslt := ses.NetSend(a);
    assert Stuck(ses, 4, 6) && ses.accepted == a;
    rslt := ses.NetSend(b);
  }

  // Three more close the gap: they are accepted, the buffer is empty, and eight
  // accepted bytes have not been sent.
  method FillLosesSent(buf: array<byte>, a: seq<byte>, b: seq<byte>, c: seq<byte>) returns (ses: Session, rslt: int)
    requires buf.Length == 8 && |a| == 6 && |b| == |c| == 3
    modifies buf
    ensures fresh(ses) && ses.Valid() && ses.accepted == a + b + c
    ensures |ses.sent| == 4 && ses.ring.Bytes() == []
  {
    ses := NewStuck(buf);
    rslt := SendNine(ses, a, b);
    rslt := ses.NetSend(c);
  }
}
