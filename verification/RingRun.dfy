// One writer and one reader on the ring of src/ringbuf.c. Each call loads the
// other side's offset once, copies byte by byte in any order, and then
// publishes its own offset; the steps of both calls interleave freely.
module RingRun {
  import opened Ring

  // rs, ws: what the other offset was when it was loaded.
  datatype Writer = WIdle | Writing(rs: nat, data: seq<byte>, done: set<nat>)
  datatype Reader = RIdle | Reading(ws: nat, n: nat, got: map<nat, byte>)

  // accepted and delivered are the bytes of all published writes and reads.
  datatype State = State(buf: seq<byte>, r: nat, w: nat, wr: Writer, rd: Reader,
                         accepted: seq<byte>, delivered: seq<byte>)

  datatype Action =
    | StartWrite(data: seq<byte>) | CopyIn(i: nat) | PublishWrite
    | StartRead(n: nat) | CopyOut(i: nat) | PublishRead

  // Where rbuf_write_block puts byte i of n, by the branch that rs selects.
  function PutAt(rs: nat, w: nat, n: nat, i: nat, size: nat): int {
    if w < rs || size - w >= n || i < size - w then w + i else i - (size - w)
  }

  function NextW(rs: nat, w: nat, n: nat, size: nat): int {
    if w < rs || size - w >= n then w + n else n - (size - w)
  }

  // Where rbuf_read_block finds byte i of n, by the branch that ws selects.
  function GetAt(ws: nat, r: nat, n: nat, i: nat, size: nat): int {
    if r <= ws || size - r >= n || i < size - r then r + i else i - (size - r)
  }

  function NextR(ws: nat, r: nat, n: nat, size: nat): int {
    if r <= ws || size - r >= n then r + n else n - (size - r)
  }

  lemma WriteBranches(rs: nat, w: nat, n: nat, i: nat, size: nat)
    requires rs <= size && w <= size && WriteOk(rs, w, n, size)
    ensures NextW(rs, w, n, size) == Advance(w, n, size)
    ensures i < n ==> PutAt(rs, w, n, i, size) == IndexAt(w, i, size)
  {
  }

  lemma ReadBranches(ws: nat, r: nat, n: nat, i: nat, size: nat)
    requires ws <= size && r <= size && ReadOk(r, ws, n, size)
    ensures NextR(ws, r, n, size) == Advance(r, n, size)
    ensures i < n ==> GetAt(ws, r, n, i, size) == IndexAt(r, i, size)
  {
  }

  // The step an action takes; an action that is not possible changes nothing.
  ghost function Apply(s: State, a: Action): State {
    var size := |s.buf|;
    match a
    case StartWrite(data) =>
      if s.wr.WIdle? && WriteOk(s.r, s.w, |data|, size) then s.(wr := Writing(s.r, data, {})) else s
    case CopyIn(i) =>
      if s.wr.Writing? && i < |s.wr.data| && 0 <= PutAt(s.wr.rs, s.w, |s.wr.data|, i, size) < size then
        s.(buf := s.buf[PutAt(s.wr.rs, s.w, |s.wr.data|, i, size) := s.wr.data[i]],
           wr := s.wr.(done := s.wr.done + {i}))
      else s
    case PublishWrite =>
      if s.wr.Writing? && Copied(s.wr) && NextW(s.wr.rs, s.w, |s.wr.data|, size) >= 0 then
        s.(w := NextW(s.wr.rs, s.w, |s.wr.data|, size), wr := WIdle, accepted := s.accepted + s.wr.data)
      else s
    case StartRead(n) =>
      if s.rd.RIdle? && ReadOk(s.r, s.w, n, size) then s.(rd := Reading(s.w, n, map[])) else s
    case CopyOut(i) =>
      if s.rd.Reading? && i < s.rd.n && 0 <= GetAt(s.rd.ws, s.r, s.rd.n, i, size) < size then
        s.(rd := s.rd.(got := s.rd.got[i := s.buf[GetAt(s.rd.ws, s.r, s.rd.n, i, size)]]))
      else s
    case PublishRead =>
      if s.rd.Reading? && Fetched(s.rd) && NextR(s.rd.ws, s.r, s.rd.n, size) >= 0 then
        s.(r := NextR(s.rd.ws, s.r, s.rd.n, size), rd := RIdle, delivered := s.delivered + Block(s.rd))
      else s
  }

  ghost predicate Copied(wr: Writer)
    requires wr.Writing?
  {
    forall i: nat :: i < |wr.data| ==> i in wr.done
  }

  ghost predicate Fetched(rd: Reader)
    requires rd.Reading?
  {
    forall i: nat :: i < rd.n ==> i in rd.got
  }

  ghost function Block(rd: Reader): (b: seq<byte>)
    requires rd.Reading? && Fetched(rd)
    ensures |b| == rd.n
  {
    seq(rd.n, i requires 0 <= i < rd.n => rd.got[i])
  }

  // --- The invariant ---------------------------------------------------------------

  // Place k behind the read offset holds the byte with that number.
  ghost predicate StoredAt(s: State, k: nat) {
    && 0 <= IndexAt(s.r, k, |s.buf|) < |s.buf| && |s.delivered| + k < |s.accepted|
    && s.buf[IndexAt(s.r, k, |s.buf|)] == s.accepted[|s.delivered| + k]
  }

  ghost predicate CopiedAt(s: State, i: nat)
    requires s.wr.Writing?
  {
    && i < |s.wr.data| && 0 <= IndexAt(s.w, i, |s.buf|) < |s.buf|
    && s.buf[IndexAt(s.w, i, |s.buf|)] == s.wr.data[i]
  }

  ghost predicate FetchedAt(s: State, i: nat)
    requires s.rd.Reading?
  {
    && i < s.rd.n && i in s.rd.got && |s.delivered| + i < |s.accepted|
    && s.rd.got[i] == s.accepted[|s.delivered| + i]
  }

  ghost predicate WriterInv(s: State) {
    s.wr.Writing? ==>
      && s.wr.rs <= |s.buf| && WriteOk(s.wr.rs, s.w, |s.wr.data|, |s.buf|)
      && Used(s.r, s.w, |s.buf|) + |s.wr.data| < |s.buf|
      && forall i {:trigger CopiedAt(s, i)} :: i in s.wr.done ==> CopiedAt(s, i)
  }

  ghost predicate ReaderInv(s: State) {
    s.rd.Reading? ==>
      && s.rd.ws <= |s.buf| && ReadOk(s.r, s.rd.ws, s.rd.n, |s.buf|)
      && s.rd.n <= Used(s.r, s.w, |s.buf|) && (s.w < s.r ==> s.rd.n < Used(s.r, s.w, |s.buf|))
      && forall i {:trigger FetchedAt(s, i)} :: i in s.rd.got ==> FetchedAt(s, i)
  }

  ghost predicate Inv(s: State) {
    && Offsets(s.r, s.w, |s.buf|)
    && |s.accepted| == |s.delivered| + Used(s.r, s.w, |s.buf|)
    && s.delivered <= s.accepted
    && (forall k: nat {:trigger StoredAt(s, k)} :: k < Used(s.r, s.w, |s.buf|) ==> StoredAt(s, k))
    && WriterInv(s) && ReaderInv(s)
  }

  // A write started behind the reader must leave a gap.
  ghost predicate Gapped(s: State, a: Action) {
    a.StartWrite? && s.wr.WIdle? ==> !Fills(s.r, s.w, |a.data|)
  }

  // --- Every step keeps the invariant -----------------------------------------------

  // What is being written and what is being read are different bytes.
  lemma InFlightApart(s: State, i: nat, j: nat)
    requires Inv(s) && s.wr.Writing? && i < |s.wr.data| && j < Used(s.r, s.w, |s.buf|)
    ensures IndexAt(s.w, i, |s.buf|) != IndexAt(s.r, j, |s.buf|)
    ensures s.rd.Reading? && j < s.rd.n ==>
      PutAt(s.wr.rs, s.w, |s.wr.data|, i, |s.buf|) != GetAt(s.rd.ws, s.r, s.rd.n, j, |s.buf|)
  {
    WriteBranches(s.wr.rs, s.w, |s.wr.data|, i, |s.buf|);
    if s.rd.Reading? { ReadBranches(s.rd.ws, s.r, s.rd.n, j, |s.buf|); }
  }

  lemma StartKeeps(s: State, a: Action)
    requires Inv(s) && Gapped(s, a) && (a.StartWrite? || a.StartRead?)
    ensures Inv(Apply(s, a))
  {
    var t := Apply(s, a);
    if a.StartWrite? { WriteRoom(s.r, s.w, |a.data|, |s.buf|); } else { ReadRoom(s.r, s.w, a.n, |s.buf|); }
    Carry(s, t);
  }

  // The stored bytes stay what they are while buffer and offsets do.
  lemma Carry(s: State, t: State)
    requires Inv(s) && t.buf == s.buf && t.r == s.r && t.w == s.w
    requires t.accepted == s.accepted && t.delivered == s.delivered
    ensures forall k: nat {:trigger StoredAt(t, k)} :: k < Used(t.r, t.w, |t.buf|) ==> StoredAt(t, k)
    ensures t.wr == s.wr ==> WriterInv(t)
    ensures t.rd == s.rd ==> ReaderInv(t)
  {
    forall k: nat | k < Used(t.r, t.w, |t.buf|)
      ensures StoredAt(t, k)
    {
      assert StoredAt(s, k);
    }
    if t.wr == s.wr && s.wr.Writing? {
      forall i | i in t.wr.done
        ensures CopiedAt(t, i)
      {
        assert CopiedAt(s, i);
      }
    }
    if t.rd == s.rd && s.rd.Reading? {
      forall i | i in t.rd.got
        ensures FetchedAt(t, i)
      {
        assert FetchedAt(s, i);
      }
    }
  }

  lemma CopyInKeeps(s: State, i: nat)
    requires Inv(s)
    ensures Inv(Apply(s, CopyIn(i)))
  {
    var t := Apply(s, CopyIn(i));
    if s.wr.Writing? && i < |s.wr.data| {
      WriteBranches(s.wr.rs, s.w, |s.wr.data|, i, |s.buf|);
      forall k: nat | k < Used(t.r, t.w, |t.buf|)
        ensures StoredAt(t, k)
      {
        assert StoredAt(s, k);
        InFlightApart(s, i, k);
      }
      forall j | j in t.wr.done
        ensures CopiedAt(t, j)
      {
        assert j != i ==> CopiedAt(s, j);
      }
      ReaderCarries(s, t);
    }
  }

  // What a reader has fetched stays what it is.
  lemma ReaderCarries(s: State, t: State)
    requires ReaderInv(s) && t.rd == s.rd && t.r == s.r && t.w == s.w && |t.buf| == |s.buf|
    requires t.accepted == s.accepted && t.delivered == s.delivered
    ensures ReaderInv(t)
  {
    if s.rd.Reading? {
      forall j | j in t.rd.got
        ensures FetchedAt(t, j)
      {
        assert FetchedAt(s, j);
      }
    }
  }

  lemma PublishWriteKeeps(s: State)
    requires Inv(s)
    ensures Inv(Apply(s, PublishWrite))
  {
    var t := Apply(s, PublishWrite);
    if s.wr.Writing? && Copied(s.wr) {
      var n, u := |s.wr.data|, Used(s.r, s.w, |s.buf|);
      WriteBranches(s.wr.rs, s.w, n, 0, |s.buf|);
      WriteRoom(s.r, s.w, n, |s.buf|);
      forall k: nat | k < Used(t.r, t.w, |t.buf|)
        ensures StoredAt(t, k)
      {
        assert k < u ==> StoredAt(s, k);
        assert k >= u ==> CopiedAt(s, k - u);
      }
      if s.rd.Reading? {
        forall j | j in t.rd.got
          ensures FetchedAt(t, j)
        {
          assert FetchedAt(s, j);
        }
      }
    }
  }

  lemma CopyOutKeeps(s: State, i: nat)
    requires Inv(s)
    ensures Inv(Apply(s, CopyOut(i)))
  {
    var t := Apply(s, CopyOut(i));
    Carry(s, t);
    if s.rd.Reading? && i < s.rd.n {
      ReadBranches(s.rd.ws, s.r, s.rd.n, i, |s.buf|);
      assert StoredAt(s, i);
      forall j | j in t.rd.got
        ensures FetchedAt(t, j)
      {
        assert j != i ==> FetchedAt(s, j);
      }
    }
  }

  // What is fetched are the next bytes to be delivered.
  lemma BlockIsNext(s: State)
    requires Inv(s) && s.rd.Reading? && Fetched(s.rd)
    ensures |s.delivered| + s.rd.n <= |s.accepted|
    ensures s.delivered + Block(s.rd) == s.accepted[..|s.delivered| + s.rd.n]
  {
    forall i | 0 <= i < s.rd.n
      ensures Block(s.rd)[i] == s.accepted[|s.delivered| + i]
    {
      assert FetchedAt(s, i);
    }
  }

  lemma PublishReadKeeps(s: State)
    requires Inv(s)
    ensures Inv(Apply(s, PublishRead))
  {
    var t := Apply(s, PublishRead);
    if s.rd.Reading? && Fetched(s.rd) {
      var n := s.rd.n;
      ReadBranches(s.rd.ws, s.r, n, 0, |s.buf|);
      ReadRoom(s.r, s.w, n, |s.buf|);
      BlockIsNext(s);
      forall k: nat | k < Used(t.r, t.w, |t.buf|)
        ensures StoredAt(t, k)
      {
        assert StoredAt(s, n + k);
      }
      if s.wr.Writing? {
        forall j | j in t.wr.done
          ensures CopiedAt(t, j)
        {
          assert CopiedAt(s, j);
        }
      }
    }
  }

  lemma StepKeeps(s: State, a: Action)
    requires Inv(s) && Gapped(s, a)
    ensures Inv(Apply(s, a))
  {
    match a
    case StartWrite(_) => StartKeeps(s, a);
    case StartRead(_) => StartKeeps(s, a);
    case CopyIn(i) => CopyInKeeps(s, i);
    case CopyOut(i) => CopyOutKeeps(s, i);
    case PublishWrite => PublishWriteKeeps(s);
    case PublishRead => PublishReadKeeps(s);
  }

  // --- Runs ---------------------------------------------------------------------------

  ghost function Exec(s: State, run: seq<Action>): State
    decreases |run|
  {
    if run == [] then s else Exec(Apply(s, run[0]), run[1..])
  }

  ghost predicate AllGapped(s: State, run: seq<Action>)
    decreases |run|
  {
    run == [] || (Gapped(s, run[0]) && AllGapped(Apply(s, run[0]), run[1..]))
  }

  ghost function Fresh(buf: seq<byte>): State {
    State(buf, 0, 0, WIdle, RIdle, [], [])
  }

  lemma {:induction false} RunKeeps(s: State, run: seq<Action>)
    requires Inv(s) && AllGapped(s, run)
    ensures Inv(Exec(s, run))
    decreases |run|
  {
    if run != [] {
      StepKeeps(s, run[0]);
      RunKeeps(Apply(s, run[0]), run[1..]);
    }
  }

  // The bytes accepted are those delivered, followed by those that the ring says it holds.
  ghost predicate Exact(s: State) {
    Offsets(s.r, s.w, |s.buf|) && s.accepted == s.delivered + Contents(s.buf, s.r, s.w)
  }

  lemma InvIsExact(s: State)
    requires Inv(s)
    ensures Exact(s)
  {
    forall k | 0 <= k < Used(s.r, s.w, |s.buf|)
      ensures Contents(s.buf, s.r, s.w)[k] == s.accepted[|s.delivered| + k]
    {
      assert StoredAt(s, k);
    }
  }

  // In every interleaving the bytes read are a prefix of the bytes written, the
  // others are still in the ring, and copies under way never meet.
  lemma ReadsWhatWasWritten(buf: seq<byte>, run: seq<Action>)
    requires |buf| > 0 && AllGapped(Fresh(buf), run)
    ensures var t := Exec(Fresh(buf), run);
      && t.delivered <= t.accepted && Offsets(t.r, t.w, |t.buf|)
      && t.accepted == t.delivered + Contents(t.buf, t.r, t.w)
      && (t.wr.Writing? && t.rd.Reading? ==> forall i: nat, j: nat :: i < |t.wr.data| && j < t.rd.n ==>
            PutAt(t.wr.rs, t.w, |t.wr.data|, i, |t.buf|) != GetAt(t.rd.ws, t.r, t.rd.n, j, |t.buf|))
  {
    RunKeeps(Fresh(buf), run);
    var t := Exec(Fresh(buf), run);
    InvIsExact(t);
    if t.wr.Writing? && t.rd.Reading? {
      forall i: nat, j: nat | i < |t.wr.data| && j < t.rd.n
        ensures PutAt(t.wr.rs, t.w, |t.wr.data|, i, |t.buf|) != GetAt(t.rd.ws, t.r, t.rd.n, j, |t.buf|)
      {
        InFlightApart(t, i, j);
      }
    }
  }

  // --- Without the gap --------------------------------------------------------------------

  // What is left of a write of n bytes from the k-th copy on, and of a read.
  ghost function Writes(k: nat, n: nat): seq<Action>
    decreases n - k
  {
    if k >= n then [PublishWrite] else [CopyIn(k)] + Writes(k + 1, n)
  }

  ghost function Reads(k: nat, n: nat): seq<Action>
    decreases n - k
  {
    if k >= n then [PublishRead] else [CopyOut(k)] + Reads(k + 1, n)
  }

  // A write under way ends, whether or not it closes the gap.
  lemma {:induction false} WriteEnds(s: State, k: nat)
    requires s.wr.Writing? && k <= |s.wr.data| && s.wr.rs <= |s.buf| && s.w <= |s.buf|
    requires WriteOk(s.wr.rs, s.w, |s.wr.data|, |s.buf|) && forall i: nat :: i < k ==> i in s.wr.done
    ensures AllGapped(s, Writes(k, |s.wr.data|))
    ensures var n, t := |s.wr.data|, Exec(s, Writes(k, |s.wr.data|));
      && |t.buf| == |s.buf| && t.r == s.r && t.w == Advance(s.w, n, |s.buf|) && t.wr.WIdle? && t.rd == s.rd
      && t.accepted == s.accepted + s.wr.data && t.delivered == s.delivered
    decreases |s.wr.data| - k
  {
    var n := |s.wr.data|;
    WriteBranches(s.wr.rs, s.w, n, k, |s.buf|);
    if k < n {
      WriteEnds(Apply(s, CopyIn(k)), k + 1);
      assert Writes(k, n)[1..] == Writes(k + 1, n);
    } else {
      assert Exec(Apply(s, PublishWrite), []) == Apply(s, PublishWrite);
    }
  }

  lemma {:induction false} ReadEnds(s: State, k: nat)
    requires s.rd.Reading? && k <= s.rd.n && s.rd.ws <= |s.buf| && s.r <= |s.buf|
    requires ReadOk(s.r, s.rd.ws, s.rd.n, |s.buf|) && forall i: nat :: i < k ==> i in s.rd.got
    ensures var n, t := s.rd.n, Exec(s, Reads(k, s.rd.n));
      && t.buf == s.buf && t.r == Advance(s.r, n, |s.buf|) && t.w == s.w && t.wr == s.wr && t.rd.RIdle?
      && t.accepted == s.accepted && |t.delivered| == |s.delivered| + n
    decreases s.rd.n - k
  {
    var n := s.rd.n;
    ReadBranches(s.rd.ws, s.r, n, k, |s.buf|);
    if k < n {
      ReadEnds(Apply(s, CopyOut(k)), k + 1);
      assert Reads(k, n)[1..] == Reads(k + 1, n);
    } else {
      assert Exec(Apply(s, PublishRead), []) == Apply(s, PublishRead);
    }
  }

  ghost function WriteRun(data: seq<byte>): seq<Action> {
    [StartWrite(data)] + Writes(0, |data|)
  }

  ghost function ReadRun(n: nat): seq<Action> {
    [StartRead(n)] + Reads(0, n)
  }

  lemma WholeWrite(s: State, data: seq<byte>)
    requires s.wr.WIdle? && Offsets(s.r, s.w, |s.buf|) && WriteOk(s.r, s.w, |data|, |s.buf|)
    ensures var t := Exec(s, WriteRun(data));
      && |t.buf| == |s.buf| && t.r == s.r && t.w == Advance(s.w, |data|, |s.buf|) && t.wr.WIdle? && t.rd == s.rd
      && t.accepted == s.accepted + data && t.delivered == s.delivered
  {
    WriteEnds(Apply(s, StartWrite(data)), 0);
    assert WriteRun(data)[1..] == Writes(0, |data|);
  }

  lemma WholeRead(s: State, n: nat)
    requires s.rd.RIdle? && Offsets(s.r, s.w, |s.buf|) && ReadOk(s.r, s.w, n, |s.buf|)
    ensures var t := Exec(s, ReadRun(n));
      && t.buf == s.buf && t.r == Advance(s.r, n, |s.buf|) && t.w == s.w && t.wr == s.wr && t.rd.RIdle?
      && t.accepted == s.accepted && |t.delivered| == |s.delivered| + n
  {
    ReadEnds(Apply(s, StartRead(n)), 0);
    assert ReadRun(n)[1..] == Reads(0, n);
  }

  // A write that fills the gap ends in a ring that reads as empty and holds
  // as many bytes as it has room for.
  lemma FilledRingReadsEmpty(s: State, data: seq<byte>)
    requires Inv(s) && s.wr.WIdle? && Fills(s.r, s.w, |data|)
    ensures var t := Exec(s, WriteRun(data));
      t.r == t.w && |t.accepted| - |t.delivered| == |t.buf| && !Exact(t)
  {
    WriteRoom(s.r, s.w, |data|, |s.buf|);
    WholeWrite(s, data);
  }

  // From a write that starts now on, every run that leaves a gap from there on is exact,
  // precisely when this write leaves one.
  lemma GapExactly(s: State, data: seq<byte>)
    requires Inv(s) && s.wr.WIdle?
    ensures !Fills(s.r, s.w, |data|) <==>
      forall run :: AllGapped(Apply(s, StartWrite(data)), run) ==> Exact(Exec(Apply(s, StartWrite(data)), run))
  {
    var t := Apply(s, StartWrite(data));
    if Fills(s.r, s.w, |data|) {
      FilledRingReadsEmpty(s, data);
      WriteRoom(s.r, s.w, |data|, |s.buf|);
      WriteEnds(t, 0);
      assert WriteRun(data)[1..] == Writes(0, |data|);
    } else {
      StepKeeps(s, StartWrite(data));
      forall run | AllGapped(t, run)
        ensures Exact(Exec(t, run))
      {
        RunKeeps(t, run);
        InvIsExact(Exec(t, run));
      }
    }
  }

  lemma {:induction false} ExecAppends(s: State, a: seq<Action>, b: seq<Action>)
    ensures Exec(s, a + b) == Exec(Exec(s, a), b)
    decreases |a|
  {
    if a == [] {
      assert a + b == b;
    } else {
      assert (a + b)[1..] == a[1..] + b;
      ExecAppends(Apply(s, a[0]), a[1..], b);
    }
  }

  // In a ring of one byte no write has a gap to fill.
  lemma {:induction false} OneByteKeeps(s: State, run: seq<Action>)
    requires Inv(s) && |s.buf| == 1
    ensures Inv(Exec(s, run))
    decreases |run|
  {
    if run != [] {
      StepKeeps(s, run[0]);
      OneByteKeeps(Apply(s, run[0]), run[1..]);
    }
  }

  // Write and read all but one byte, write and read one, write one: both offsets
  // have wrapped apart, and the next write fills the gap.
  ghost function LosingRun(size: nat): seq<Action>
    requires size >= 2
  {
    var one, rest := [0 as byte], seq(size - 1, _ => 0 as byte);
    WriteRun(rest) + (ReadRun(size - 1) + (WriteRun(one) + (ReadRun(1) + (WriteRun(one) + WriteRun(rest)))))
  }

  lemma LosingRunLoses(buf: seq<byte>)
    requires |buf| >= 2
    ensures var t := Exec(Fresh(buf), LosingRun(|buf|));
      t.r == t.w && |t.accepted| - |t.delivered| == |buf| && !Exact(t)
  {
    var n := |buf|;
    var one, rest := [0 as byte], seq(n - 1, _ => 0 as byte);
    var s0 := Fresh(buf);
    WholeWrite(s0, rest);
    var s1 := Exec(s0, WriteRun(rest));
    WholeRead(s1, n - 1);
    var s2 := Exec(s1, ReadRun(n - 1));
    WholeWrite(s2, one);
    var s3 := Exec(s2, WriteRun(one));
    WholeRead(s3, 1);
    var s4 := Exec(s3, ReadRun(1));
    WholeWrite(s4, one);
    var s5 := Exec(s4, WriteRun(one));
    WholeWrite(s5, rest);
    ExecAppends(s4, WriteRun(one), WriteRun(rest));
    ExecAppends(s3, ReadRun(1), WriteRun(one) + WriteRun(rest));
    ExecAppends(s2, WriteRun(one), ReadRun(1) + (WriteRun(one) + WriteRun(rest)));
    ExecAppends(s1, ReadRun(n - 1), WriteRun(one) + (ReadRun(1) + (WriteRun(one) + WriteRun(rest))));
    ExecAppends(s0, WriteRun(rest),
                ReadRun(n - 1) + (WriteRun(one) + (ReadRun(1) + (WriteRun(one) + WriteRun(rest)))));
  }

  // Without any condition on the writes, every run is exact only in a ring of one byte.
  lemma OnlyOneByteNeedsNoGap(buf: seq<byte>)
    requires |buf| > 0
    ensures (forall run {:trigger Exec(Fresh(buf), run)} :: Exact(Exec(Fresh(buf), run))) <==> |buf| == 1
  {
    if |buf| == 1 {
      forall run
        ensures Exact(Exec(Fresh(buf), run))
      {
        OneByteKeeps(Fresh(buf), run);
        InvIsExact(Exec(Fresh(buf), run));
      }
    } else {
      LosingRunLoses(buf);
    }
  }
}
