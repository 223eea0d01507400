// The object caches of src/mmspace.c: slabs of up to 64 objects with a bitmap,
// in lists of full, partly used and empty slabs.
module Slab {
  import opened Align
  import opened Arith
  import opened Bits
  import opened Lists

  const HEADER_SIZE: nat := 48
  const CACHE_OBJ_COUNT: nat := 32
  const CACHE_OBJ_COUNT_MAX: nat := 64

  // --- Sizing ----------------------------------------------------------------------

  const U32: nat := 0x1_0000_0000

  // obj_size after mm_cache_create has rounded it up, in 32 bits.
  function RoundedSize(objSize: nat): nat {
    (objSize + 7) / 8 * 8 % U32
  }

  // The least multiple of 8 that is not smaller, as long as it fits into 32 bits.
  lemma RoundedUp(objSize: nat)
    ensures RoundedSize(objSize) % 8 == 0
    ensures objSize + 7 < 0x1_0000_0000 ==> objSize <= RoundedSize(objSize) < objSize + 8
  {
    var q := (objSize + 7) / 8;
    var a, b := q / 0x2000_0000, q % 0x2000_0000;
    ModUnique(q * 8, a, b * 8, U32);
  }

  // _cache_size: the product is one of 32 bits, the sum is not.
  function CacheSizeOf(objSize: nat, pageOrder: nat): int {
    RoundUp(objSize * CACHE_OBJ_COUNT % U32 + HEADER_SIZE, pageOrder)
  }

  // The limit that mm_cache_create checks is a product of 32 bits as well.
  predicate Accepted(objSize: nat, pageOrder: nat, maxpg: nat) {
    CacheSizeOf(objSize, pageOrder) < Pow2(pageOrder) * maxpg % U32
  }

  // _obj_count as _mm_zcache_new computes it: the quotient is stored in 16 bits
  // before it is limited.
  function ObjCount(cacheSize: nat, objSize: nat): (n: nat)
    requires cacheSize >= HEADER_SIZE && objSize > 0
    ensures n <= CACHE_OBJ_COUNT_MAX
  {
    var q := (cacheSize - HEADER_SIZE) / objSize;
    Quotient(cacheSize - HEADER_SIZE, objSize);
    var n := q % 0x10000;
    if n <= CACHE_OBJ_COUNT_MAX then n else CACHE_OBJ_COUNT_MAX
  }

  // With pages and limits of less than 4 GB in all, a cache is accepted exactly when 32
  // objects and the header fit into one page less than the limit.
  lemma AcceptedExactly(objSize: nat, pageOrder: nat, maxpg: nat)
    requires objSize < 0x800_0000 && maxpg > 0 && Pow2(pageOrder) * maxpg < 0x1_0000_0000
    ensures Accepted(objSize, pageOrder, maxpg) <==> 32 * objSize + 48 <= Pow2(pageOrder) * (maxpg - 1)
  {
    MultipleAligned(maxpg - 1, pageOrder);
    Swapped(Pow2(pageOrder), maxpg);
    AcceptedUpTo(objSize, pageOrder, maxpg, Pow2(pageOrder) * (maxpg - 1));
  }

  lemma Swapped(p: int, n: int)
    ensures p * n == p * (n - 1) + p && p * (n - 1) == (n - 1) * p
  {
  }

  lemma AcceptedUpTo(objSize: nat, k: nat, maxpg: nat, m: int)
    requires objSize < 0x800_0000 && Pow2(k) * maxpg == m + Pow2(k) < U32 && Aligned(m, k)
    ensures Accepted(objSize, k, maxpg) <==> 32 * objSize + 48 <= m
  {
    NoWrap(objSize);
    RoundedBelow(objSize * CACHE_OBJ_COUNT + HEADER_SIZE, m, k);
    SmallRest(Pow2(k) * maxpg);
  }

  lemma SmallRest(x: nat)
    requires x < U32
    ensures x % U32 == x
  {
  }

  // Rounded up to pages, need ends before the page behind m exactly when it ends at m.
  lemma RoundedBelow(need: int, m: int, k: nat)
    requires Aligned(m, k)
    ensures RoundUp(need, k) < m + Pow2(k) <==> need <= m
  {
    RoundUpIsLeast(need, m, k);
    if m < RoundUp(need, k) { AlignedGap(m, RoundUp(need, k), k); }
  }

  lemma Quotient(t: nat, d: nat)
    requires d > 0
    ensures t / d >= 0 && (t / d) * d <= t < (t / d) * d + d
  {
  }

  // A cache size is a positive multiple of the page size, and the least one.
  lemma CacheSizeIsLeast(objSize: nat, pageOrder: nat)
    ensures var cs, need := CacheSizeOf(objSize, pageOrder), objSize * CACHE_OBJ_COUNT % U32 + HEADER_SIZE;
      && Aligned(cs, pageOrder) && need <= cs < need + Pow2(pageOrder) && Pow2(pageOrder) <= cs
  {
    RoundUpIsLeast(objSize * CACHE_OBJ_COUNT % U32 + HEADER_SIZE, 0, pageOrder);
    MultipleAligned(0, pageOrder);
    AlignedGap(0, CacheSizeOf(objSize, pageOrder), pageOrder);
  }

  lemma Pow2Of32()
    ensures Pow2(16) == 0x10000 && Pow2(19) == 0x80000 && Pow2(30) == 0x4000_0000
    ensures Pow2(31) == 0x8000_0000 && Pow2(32) == U32
  {
    assert Pow2(4) == 16 by { assert Pow2(2) == 4; }
    Pow2Adds(4, 4);
    Pow2Adds(8, 8);
    Pow2Adds(16, 3);
    Pow2Adds(15, 15);
    assert Pow2(16) == 2 * Pow2(15);
    Pow2Adds(15, 16);
    Pow2Adds(16, 16);
  }

  lemma HalfProduct(n: nat)
    ensures 0x8000_0000 * n % U32 <= 0x8000_0000
  {
    var q, r := 0x8000_0000 * n / U32, 0x8000_0000 * n % U32;
    assert r == 0x8000_0000 * (n - 2 * q);
  }

  // Pages of 2 GB and more are refused, whatever the limit on their number.
  lemma PageBound(objSize: nat, pageOrder: nat, maxpg: nat)
    requires Accepted(objSize, pageOrder, maxpg)
    ensures pageOrder <= 30 && CacheSizeOf(objSize, pageOrder) < U32
  {
    CacheSizeIsLeast(objSize, pageOrder);
    Pow2Of32();
    HalfProduct(maxpg);
    if pageOrder >= 32 { Pow2Grows(32, pageOrder); }
  }

  // When the slab is more than one page, fewer than 71 objects fit into it.
  lemma FewObjects(cs: nat, p: nat, o: nat, q: nat)
    requires o >= 8 && HEADER_SIZE <= cs && 2 * p <= cs && cs < o * CACHE_OBJ_COUNT + HEADER_SIZE + p
    requires q * o <= cs - HEADER_SIZE
    ensures q < 71
  {
    if q >= 71 { MulMono(71, q, o); }
  }

  // What a quotient that loses its upper bits to 16 bits stands for.
  lemma LostBits(t: nat, o: nat, q: nat, p: nat, n: nat) returns (w: nat, ro: nat)
    requires q * o <= t < q * o + o && o == 8 * p && p >= 1 && q >= 0x10000 && q % 0x10000 < n
    ensures q * o == 0x80000 * w + ro && ro <= (n - 1) * o && w >= p
  {
    var j, r := q / 0x10000, q % 0x10000;
    w, ro := p * j, r * o;
    Distribute(o, 0x10000 * j, r);
    Triple(p, j);
    MulMono(r, n - 1, o);
    MulMono(1, j, p);
  }

  lemma LostBits32(t: nat, o: nat, q: nat, p: nat) returns (w: nat, ro: nat)
    requires q * o <= t < q * o + o && o == 8 * p && p >= 1 && q >= 0x10000 && q % 0x10000 < 32
    ensures q * o == 0x80000 * w + ro && ro <= 31 * o && w >= p
  {
    w, ro := LostBits(t, o, q, p, 32);
  }

  lemma LostBits64(t: nat, o: nat, q: nat, p: nat) returns (w: nat, ro: nat)
    requires q * o <= t < q * o + o && o == 8 * p && p >= 1 && q >= 0x10000 && q % 0x10000 < 64
    ensures q * o == 0x80000 * w + ro && ro <= 63 * o && w >= p
  {
    w, ro := LostBits(t, o, q, p, 64);
  }

  lemma Triple(p: nat, j: nat)
    ensures 8 * p * (0x10000 * j) == 0x80000 * (p * j) && p * j == j * p
  {
  }

  // Made up for by the remainder, it exceeds 1 GB.
  lemma Wrapped(a: nat, w: nat, o: nat, ro: nat, rem: nat)
    requires 0x80000 * a - HEADER_SIZE == 0x80000 * w + ro + rem && ro <= 31 * o && rem < o
    requires 8 * w >= o && o % 8 == 0
    ensures 0x80000 * a > 0x4000_0000
  {
    assert a > w;
    assert 32 * o > 0x80000 - HEADER_SIZE;
    assert o >= 16384;
  }

  // A page that holds 512 KB of objects is a multiple of that size.
  lemma PageOrder(k: nat, t: nat)
    requires k <= 30 && t == Pow2(k) - HEADER_SIZE && t >= 0x80000
    ensures k >= 19 && Pow2(k) == 0x80000 * Pow2(k - 19) && Pow2(k) <= 0x4000_0000
  {
    Pow2Of32();
    Pow2Grows(k, 30);
    if k < 19 { Pow2Grows(k, 19); }
    Pow2Adds(19, k - 19);
  }

  // In one page of at most 1 GB the quotient never loses so many bits that fewer
  // than 32 are left: what the lost ones stand for is a multiple of 512 KB short
  // of the page, which only objects of 16 KB and more could make up for, and
  // 65536 of those fill more than 1 GB.
  lemma QuotientKeeps(k: nat, o: nat, t: nat, q: nat)
    requires o > 0 && o % 8 == 0 && k <= 30 && t == Pow2(k) - HEADER_SIZE
    requires q * o <= t < q * o + o && q >= CACHE_OBJ_COUNT
    ensures q % 0x10000 >= CACHE_OBJ_COUNT
  {
    if q >= 0x10000 && q % 0x10000 < CACHE_OBJ_COUNT {
      var w, ro := LostBits32(t, o, q, o / 8);
      PageOrder(k, t);
      Wrapped(Pow2(k - 19), w, o, ro, t - q * o);
    }
  }

  // The same for fewer than 64 in a page of at most 512 MB.
  lemma Wrapped64(a: nat, w: nat, o: nat, ro: nat, rem: nat)
    requires 0x80000 * a - HEADER_SIZE == 0x80000 * w + ro + rem && ro <= 63 * o && rem < o
    requires 8 * w >= o && o % 8 == 0
    ensures 0x80000 * a > 0x2000_0000
  {
    assert a > w;
    assert 64 * o > 0x80000 - HEADER_SIZE;
    assert o >= 8192;
  }

  lemma HalfGiga(k: nat)
    requires k <= 29
    ensures Pow2(k) <= 0x2000_0000
  {
    Pow2Of32();
    Pow2Grows(k, 29);
    assert Pow2(30) == 2 * Pow2(29);
  }

  lemma QuotientKeeps64(k: nat, o: nat, t: nat, q: nat)
    requires o > 0 && o % 8 == 0 && k <= 29 && t == Pow2(k) - HEADER_SIZE
    requires q * o <= t < q * o + o && q >= 0x10000
    ensures q % 0x10000 >= CACHE_OBJ_COUNT_MAX
  {
    if q % 0x10000 < CACHE_OBJ_COUNT_MAX {
      var w, ro := LostBits64(t, o, q, o / 8);
      PageOrder(k, t);
      HalfGiga(k);
      Wrapped64(Pow2(k - 19), w, o, ro, t - q * o);
    }
  }

  // Below 128 MB the quotient is at least 32, from there on it is less.
  lemma QuotientOf(objSize: nat, cs: nat, q: nat)
    requires objSize > 0 && HEADER_SIZE <= cs < U32 && objSize * CACHE_OBJ_COUNT % U32 + HEADER_SIZE <= cs
    requires q * objSize <= cs - HEADER_SIZE < q * objSize + objSize
    ensures q >= CACHE_OBJ_COUNT <==> objSize < 0x800_0000
  {
    if q >= CACHE_OBJ_COUNT {
      MulMono(CACHE_OBJ_COUNT, q, objSize);
    } else {
      MulMono(q + 1, CACHE_OBJ_COUNT, objSize);
      OneMore(q + 1, objSize);
    }
  }

  // A slab of several pages, without a wrap of the product.
  lemma ManyPagesKeep(o: nat, k: nat, cs: nat, q: nat)
    requires 8 <= o && Aligned(cs, k) && Pow2(k) < cs && HEADER_SIZE <= cs
    requires cs < o * CACHE_OBJ_COUNT + HEADER_SIZE + Pow2(k)
    requires q * o <= cs - HEADER_SIZE && q >= CACHE_OBJ_COUNT
    ensures q % 0x10000 >= CACHE_OBJ_COUNT
  {
    ManyPages(cs, k);
    FewObjects(cs, Pow2(k), o, q);
  }

  lemma NoWrap(o: nat)
    requires o < 0x800_0000
    ensures o * CACHE_OBJ_COUNT % U32 == o * CACHE_OBJ_COUNT
  {
  }

  lemma CountKeeps(objSize: nat, pageOrder: nat, cs: nat, q: nat)
    requires 0 < objSize < 0x800_0000 && objSize % 8 == 0 && pageOrder <= 30
    requires cs == CacheSizeOf(objSize, pageOrder) && HEADER_SIZE <= cs < U32
    requires q * objSize <= cs - HEADER_SIZE < q * objSize + objSize && q >= CACHE_OBJ_COUNT
    ensures q % 0x10000 >= CACHE_OBJ_COUNT
  {
    CacheSizeIsLeast(objSize, pageOrder);
    NoWrap(objSize);
    if cs == Pow2(pageOrder) {
      QuotientKeeps(pageOrder, objSize, cs - HEADER_SIZE, q);
    } else {
      ManyPagesKeep(objSize, pageOrder, cs, q);
    }
  }

  // The caches that mm_cache_create accepts hold at least 32 objects a slab exactly
  // when the rounded object size is below 128 MB; they always fit behind the header.
  lemma SizingExactly(objSize: nat, pageOrder: nat, maxpg: nat)
    requires 0 < objSize < U32 && objSize % 8 == 0 && Accepted(objSize, pageOrder, maxpg)
    ensures var cs := CacheSizeOf(objSize, pageOrder);
      && cs >= HEADER_SIZE
      && (ObjCount(cs, objSize) >= CACHE_OBJ_COUNT <==> objSize < 0x800_0000)
      && HEADER_SIZE + ObjCount(cs, objSize) * objSize <= cs
  {
    var cs := CacheSizeOf(objSize, pageOrder);
    CacheSizeIsLeast(objSize, pageOrder);
    PageBound(objSize, pageOrder, maxpg);
    Quotient(cs - HEADER_SIZE, objSize);
    var q := (cs - HEADER_SIZE) / objSize;
    MulMono(ObjCount(cs, objSize), q, objSize);
    QuotientOf(objSize, cs, q);
    if objSize < 0x800_0000 { CountKeeps(objSize, pageOrder, cs, q); }
  }

  // The cut to 16 bits does no harm.
  predicate Uncut(q: nat) {
    q < 0x10000 || q % 0x10000 >= 64
  }

  // A slab holds 64 objects, or as many as fit, exactly when the quotient has no more than
  // 16 bits, or its lowest 16 bits are 64 or more; with pages of at most 512 MB always.
  lemma CountExactly(objSize: nat, pageOrder: nat, maxpg: nat)
    requires 0 < objSize < 0x800_0000 && objSize % 8 == 0 && Accepted(objSize, pageOrder, maxpg)
    ensures var cs := CacheSizeOf(objSize, pageOrder);
      && cs >= 48 && (cs - 48) / objSize >= 0
      && (Uncut((cs - 48) / objSize) <==>
            ObjCount(cs, objSize) == 64 || 48 + (ObjCount(cs, objSize) + 1) * objSize > cs)
      && (pageOrder <= 29 ==> Uncut((cs - 48) / objSize))
  {
    var cs := CacheSizeOf(objSize, pageOrder);
    CacheSizeIsLeast(objSize, pageOrder);
    Quotient(cs - HEADER_SIZE, objSize);
    var q := (cs - HEADER_SIZE) / objSize;
    CountOf(cs - HEADER_SIZE, objSize, q, ObjCount(cs, objSize));
    if pageOrder <= 29 { UncutPages(objSize, pageOrder, cs, q); }
  }

  lemma CountOf(t: nat, o: nat, q: nat, n: nat)
    requires o > 0 && q * o <= t < q * o + o && n == if q % 0x10000 <= 64 then q % 0x10000 else 64
    ensures Uncut(q) <==> n == 64 || t < (n + 1) * o
  {
    OneMore(q + 1, o);
    if n < q { MulMono(n + 1, q, o); }
  }

  lemma UncutPages(objSize: nat, pageOrder: nat, cs: nat, q: nat)
    requires 0 < objSize < 0x800_0000 && objSize % 8 == 0 && pageOrder <= 29
    requires cs == CacheSizeOf(objSize, pageOrder) && HEADER_SIZE <= cs
    requires q * objSize <= cs - HEADER_SIZE < q * objSize + objSize
    ensures Uncut(q)
  {
    CacheSizeIsLeast(objSize, pageOrder);
    NoWrap(objSize);
    if q < 0x10000 {
    } else if cs == Pow2(pageOrder) {
      QuotientKeeps64(pageOrder, objSize, cs - HEADER_SIZE, q);
    } else {
      ManyPages(cs, pageOrder);
      FewObjects(cs, Pow2(pageOrder), objSize, q);
    }
  }

  // Objects of 16376 bytes in pages of 1 GB: 65568 would fit, and the slab holds 32.
  lemma CutCount()
    ensures Accepted(16376, 30, 2) && CacheSizeOf(16376, 30) == 0x4000_0000 && ObjCount(0x4000_0000, 16376) == 32
  {
    Pow2Of32();
    Pow2Aligned(30, 30);
    GigaPage(30);
  }

  lemma GigaPage(k: nat)
    requires Pow2(k) == 0x4000_0000 && Aligned(Pow2(k), k)
    ensures CacheSizeOf(16376, k) == 0x4000_0000 && Accepted(16376, k, 2)
  {
    MaskOf(16376 * 32 + 48 + 0x3fff_ffff, 0x4000_0000, k);
  }

  lemma ManyPages(cs: nat, k: nat)
    requires Aligned(cs, k) && Pow2(k) < cs
    ensures 2 * Pow2(k) <= cs
  {
    Pow2Aligned(k, k);
    AlignedGap(Pow2(k), cs, k);
  }

  lemma PageSize()
    ensures Pow2(12) == 4096
  {
    assert Pow2(4) == 16 by { assert Pow2(2) == 4; }
    Pow2Adds(4, 4);
    Pow2Adds(8, 4);
  }

  lemma OnePage(k: nat)
    requires Pow2(k) == 4096
    ensures CacheSizeOf(0x800_0000, k) == 4096 && Accepted(0x800_0000, k, 2)
  {
    Pow2Aligned(k, k);
    MaskOf(4143, 4096, k);
  }

  // Objects of 128 MB: the product is 0, one page of 4 KB is accepted as the
  // slab, and no object fits into it.
  lemma WrappedProduct()
    ensures RoundedSize(0x800_0000) == 0x800_0000 && Accepted(0x800_0000, 12, 2)
    ensures CacheSizeOf(0x800_0000, 12) == 4096 && ObjCount(4096, 0x800_0000) == 0
  {
    PageSize();
    OnePage(12);
  }

  // --- One slab -----------------------------------------------------------------------

  // _mm_cache, and the address of the memory it is in.
  datatype SlabRec = SlabRec(base: nat, objPtr: nat, objCount: nat, freeCount: nat, bits: nat)

  // Bitmap and free count of a slab agree.
  ghost predicate Sound(s: SlabRec) {
    && CACHE_OBJ_COUNT <= s.objCount <= CACHE_OBJ_COUNT_MAX
    && s.bits < Pow2(WORD) && s.freeCount + Count(s.bits, WORD) == s.objCount
    && forall i {:trigger Bit(s.bits, i)} :: s.objCount <= i < WORD ==> !Bit(s.bits, i)
  }

  // _mmc_next_free_obj
  function NextFree(s: SlabRec): int
    requires s.bits < Pow2(WORD)
  {
    var idx := Bsf(Complement(s.bits, WORD));
    if idx >= s.objCount then -1 else idx
  }

  lemma NoLowerFree(s: SlabRec)
    requires Sound(s)
    ensures forall j: nat :: j < Bsf(Complement(s.bits, WORD)) ==> Bit(s.bits, j)
  {
    var v := Complement(s.bits, WORD);
    forall j: nat | j < Bsf(v)
      ensures Bit(s.bits, j)
    {
      BsfFinds(v, j);
      ComplementAt(s.bits, WORD, j);
      ComplementAt(s.bits, WORD, Bsf(v));
    }
  }

  // The next free object is the lowest one whose bit is clear; there is none
  // exactly when the free count is 0.
  lemma NextFreeIsFree(s: SlabRec)
    requires Sound(s)
    ensures var idx := NextFree(s);
      && (idx == -1 <==> s.freeCount == 0)
      && (idx != -1 ==> 0 <= idx < s.objCount && !Bit(s.bits, idx))
      && (idx != -1 ==> forall j: nat :: j < idx ==> Bit(s.bits, j))
  {
    var v := Complement(s.bits, WORD);
    BsfFinds(v, 0);
    NoLowerFree(s);
    if Bsf(v) != -1 { ComplementAt(s.bits, WORD, Bsf(v)); }
    CountAbove(s.bits, s.objCount, WORD);
    CountExtremes(s.bits, s.objCount);
    if NextFree(s) == -1 {
      forall i: nat | i < s.objCount
        ensures Bit(s.bits, i)
      {
        BsfFinds(v, i);
        ComplementAt(s.bits, WORD, i);
      }
    }
  }

  // _mm_zfetch_obj
  function Fetched(s: SlabRec, idx: nat): SlabRec
    requires s.freeCount > 0
  {
    s.(bits := WithBit(s.bits, idx), freeCount := s.freeCount - 1)
  }

  lemma FetchKeeps(s: SlabRec, idx: nat)
    requires Sound(s) && idx < s.objCount && !Bit(s.bits, idx)
    ensures s.freeCount > 0 && Sound(Fetched(s, idx))
    ensures forall j: nat :: Bit(Fetched(s, idx).bits, j) <==> j == idx || Bit(s.bits, j)
  {
    var c := WithBit(s.bits, idx);
    forall j: nat
      ensures Bit(c, j) <==> j == idx || Bit(s.bits, j)
    {
      WithBitAt(s.bits, idx, j);
    }
    WithBitFits(s.bits, idx, WORD);
    CountSet(s.bits, c, idx, WORD);
    CountAbove(c, s.objCount, WORD);
  }

  // _mm_zreturn_obj
  function Returned(s: SlabRec, idx: nat): SlabRec {
    s.(bits := WithoutBit(s.bits, idx), freeCount := s.freeCount + 1)
  }

  lemma ReturnKeeps(s: SlabRec, idx: nat)
    requires Sound(s) && Bit(s.bits, idx) && idx < WORD
    ensures s.freeCount < s.objCount && Sound(Returned(s, idx))
    ensures forall j: nat :: Bit(Returned(s, idx).bits, j) <==> j != idx && Bit(s.bits, j)
  {
    var c := WithoutBit(s.bits, idx);
    forall j: nat
      ensures Bit(c, j) <==> j != idx && Bit(s.bits, j)
    {
      WithoutBitAt(s.bits, idx, j);
    }
    CountSet(c, s.bits, idx, WORD);
  }

  // --- The lists -------------------------------------------------------------------------

  datatype Kind = Full | Partial | Empty

  // The list that the free count of a slab asks for.
  function Home(s: SlabRec): Kind {
    if s.freeCount == 0 then Full else if s.freeCount >= s.objCount then Empty else Partial
  }

  datatype Zone = Zone(slabs: seq<SlabRec>, full: seq<nat>, partial: seq<nat>, empty: seq<nat>)
  {
    function List(k: Kind): seq<nat> {
      match k case Full => full case Partial => partial case Empty => empty
    }

    // Where slab id is; slab hole is in list at instead of where it belongs.
    ghost predicate Belongs(id: nat, k: Kind, hole: int, at: Kind) {
      id < |slabs| && k == if id == hole then at else Home(slabs[id])
    }

    ghost predicate ListOk(k: Kind, hole: int, at: Kind) {
      && Distinct(List(k))
      && forall id: nat {:trigger Belongs(id, k, hole, at)} :: id in List(k) <==> Belongs(id, k, hole, at)
    }

    ghost predicate ListsOk(hole: int, at: Kind) {
      forall k {:trigger ListOk(k, hole, at)} :: ListOk(k, hole, at)
    }
  }

  // lst_remove and lst_push_front
  function Moved(z: Zone, id: nat, from: Kind, to: Kind): Zone {
    Put(Put(z, from, Minus(z.List(from), id)), to, [id] + Put(z, from, Minus(z.List(from), id)).List(to))
  }

  function Put(z: Zone, k: Kind, l: seq<nat>): Zone {
    match k case Full => z.(full := l) case Partial => z.(partial := l) case Empty => z.(empty := l)
  }

  lemma MoveKeeps(z: Zone, id: nat, from: Kind, to: Kind)
    requires z.ListsOk(id, from) && id < |z.slabs| && from != to
    ensures Moved(z, id, from, to).ListsOk(id, to)
  {
    var t := Moved(z, id, from, to);
    forall k
      ensures t.ListOk(k, id, to)
    {
      assert z.ListOk(k, id, from);
      MinusDistinct(z.List(k), id);
      if k == to {
        assert !z.Belongs(id, k, id, from);
        DistinctCons(id, z.List(k));
      }
      forall x: nat
        ensures x in t.List(k) <==> t.Belongs(x, k, id, to)
      {
        assert z.Belongs(x, k, id, from) <==> x in z.List(k);
      }
    }
  }

  // A slab whose record changes stays where it is.
  lemma TouchKeeps(z: Zone, id: nat, s: SlabRec, at: Kind)
    requires z.ListsOk(-1, at) && id < |z.slabs| && at == Home(z.slabs[id])
    ensures z.(slabs := z.slabs[id := s]).ListsOk(id, at)
  {
    var t := z.(slabs := z.slabs[id := s]);
    forall k
      ensures t.ListOk(k, id, at)
    {
      assert z.ListOk(k, -1, at);
      forall x: nat
        ensures x in t.List(k) <==> t.Belongs(x, k, id, at)
      {
        assert z.Belongs(x, k, -1, at) <==> x in z.List(k);
      }
    }
  }

  lemma HomeKeeps(z: Zone, id: nat, at: Kind, any: Kind)
    requires z.ListsOk(id, at) && id < |z.slabs| && at == Home(z.slabs[id])
    ensures z.ListsOk(-1, any)
  {
    forall k
      ensures z.ListOk(k, -1, any)
    {
      assert z.ListOk(k, id, at);
      forall x: nat
        ensures x in z.List(k) <==> z.Belongs(x, k, -1, any)
      {
        assert z.Belongs(x, k, id, at) <==> x in z.List(k);
      }
    }
  }

  // A new slab goes in front of the empty ones.
  lemma AddKeeps(z: Zone, s: SlabRec, any: Kind)
    requires z.ListsOk(-1, any) && Home(s) == Empty
    ensures Zone(z.slabs + [s], z.full, z.partial, [|z.slabs|] + z.empty).ListsOk(-1, any)
  {
    var t := Zone(z.slabs + [s], z.full, z.partial, [|z.slabs|] + z.empty);
    forall k
      ensures t.ListOk(k, -1, any)
    {
      assert z.ListOk(k, -1, any);
      assert |z.slabs| in z.List(k) ==> z.Belongs(|z.slabs|, k, -1, any);
      if k == Empty { DistinctCons(|z.slabs|, z.empty); }
      forall x: nat
        ensures x in t.List(k) <==> t.Belongs(x, k, -1, any)
      {
        assert z.Belongs(x, k, -1, any) <==> x in z.List(k);
      }
    }
  }

  // --- Objects in use -------------------------------------------------------------------

  // Slab and place of every object in use.
  ghost function Live(slabs: seq<SlabRec>): set<(nat, nat)> {
    set id: nat, i: nat | id < |slabs| && i < WORD && Bit(slabs[id].bits, i) :: (id, i)
  }

  lemma InLive(slabs: seq<SlabRec>, id: nat, i: nat)
    ensures (id, i) in Live(slabs) <==> id < |slabs| && i < WORD && Bit(slabs[id].bits, i)
  {
  }

  lemma LiveSet(slabs: seq<SlabRec>, id: nat, s: SlabRec, idx: nat)
    requires id < |slabs| && idx < WORD && forall j: nat :: Bit(s.bits, j) <==> j == idx || Bit(slabs[id].bits, j)
    ensures Live(slabs[id := s]) == Live(slabs) + {(id, idx)}
  {
    forall x
      ensures x in Live(slabs[id := s]) <==> x in Live(slabs) + {(id, idx)}
    {
      InLive(slabs, x.0, x.1);
      InLive(slabs[id := s], x.0, x.1);
      assert x.0 == id ==> (Bit(s.bits, x.1) <==> x.1 == idx || Bit(slabs[id].bits, x.1));
    }
  }

  lemma LiveUnset(slabs: seq<SlabRec>, id: nat, s: SlabRec, idx: nat)
    requires id < |slabs| && idx < WORD && forall j: nat :: Bit(s.bits, j) <==> j != idx && Bit(slabs[id].bits, j)
    ensures Live(slabs[id := s]) == Live(slabs) - {(id, idx)}
  {
    forall x
      ensures x in Live(slabs[id := s]) <==> x in Live(slabs) - {(id, idx)}
    {
      InLive(slabs, x.0, x.1);
      InLive(slabs[id := s], x.0, x.1);
      assert x.0 == id ==> (Bit(s.bits, x.1) <==> x.1 != idx && Bit(slabs[id].bits, x.1));
    }
  }

  lemma LiveAdd(slabs: seq<SlabRec>, s: SlabRec)
    requires s.bits == 0
    ensures Live(slabs + [s]) == Live(slabs)
  {
    forall x
      ensures x in Live(slabs + [s]) <==> x in Live(slabs)
    {
      InLive(slabs, x.0, x.1);
      InLive(slabs + [s], x.0, x.1);
      ZeroBits(x.1);
    }
  }

  // --- Addresses ----------------------------------------------------------------------------

  // obj_size and _cache_size of a cache, and what the latter was computed from.
  datatype Dims = Dims(objSize: nat, cacheSize: nat, pageOrder: nat, maxpg: nat)
  {
    ghost predicate Ok() {
      && 0 < objSize < 0x800_0000 && objSize % 8 == 0 && HEADER_SIZE <= cacheSize
      && cacheSize == CacheSizeOf(objSize, pageOrder) && Accepted(objSize, pageOrder, maxpg)
    }

    // A slab as _mm_zcache_new lays it out.
    ghost predicate LaidOut(s: SlabRec)
      requires Ok()
    {
      && Sound(s) && s.objCount == ObjCount(cacheSize, objSize) && s.base > 0
      && s.objPtr == s.base + cacheSize - s.objCount * objSize && s.base + HEADER_SIZE <= s.objPtr
    }

    ghost predicate SlabAt(slabs: seq<SlabRec>, id: int)
      requires Ok()
    {
      0 <= id < |slabs| && LaidOut(slabs[id])
    }

    ghost predicate Apart(slabs: seq<SlabRec>, i: int, j: int) {
      0 <= i < j < |slabs| ==> slabs[i].base + cacheSize <= slabs[j].base || slabs[j].base + cacheSize <= slabs[i].base
    }

    // All slabs are sound and lie in memory of their own.
    ghost predicate SlabsOk(slabs: seq<SlabRec>) {
      && Ok()
      && (forall id {:trigger SlabAt(slabs, id)} :: 0 <= id < |slabs| ==> SlabAt(slabs, id))
      && (forall i, j {:trigger Apart(slabs, i, j)} :: Apart(slabs, i, j))
    }

    function AddrOf(s: SlabRec, i: nat): (a: nat)
      ensures a >= s.objPtr
    {
      MulMono(0, i, objSize);
      s.objPtr + i * objSize
    }

    // p lies in the object at x.
    ghost predicate Holds(slabs: seq<SlabRec>, x: (nat, nat), p: nat) {
      x.0 < |slabs| && AddrOf(slabs[x.0], x.1) <= p < AddrOf(slabs[x.0], x.1) + objSize
    }
  }

  lemma ObjectInSlab(d: Dims, s: SlabRec, i: nat)
    requires d.Ok() && d.LaidOut(s) && i < s.objCount
    ensures s.base + 48 <= d.AddrOf(s, i) && d.AddrOf(s, i) + d.objSize <= s.base + d.cacheSize
  {
    MulMono(i + 1, s.objCount, d.objSize);
    OneMore(i + 1, d.objSize);
  }

  // Two different objects never share a byte.
  lemma ObjectsApart(d: Dims, slabs: seq<SlabRec>, x: (nat, nat), y: (nat, nat))
    requires d.SlabsOk(slabs) && x in Live(slabs) && y in Live(slabs) && x != y
    ensures x.0 < |slabs| && y.0 < |slabs|
    ensures var a, b := d.AddrOf(slabs[x.0], x.1), d.AddrOf(slabs[y.0], y.1);
      a + d.objSize <= b || b + d.objSize <= a
  {
    InLive(slabs, x.0, x.1);
    InLive(slabs, y.0, y.1);
    assert d.SlabAt(slabs, x.0) && d.SlabAt(slabs, y.0) && d.Apart(slabs, x.0, y.0) && d.Apart(slabs, y.0, x.0);
    ObjectInSlab(d, slabs[x.0], x.1);
    ObjectInSlab(d, slabs[y.0], y.1);
    if x.1 < y.1 {
      MulStep(x.1, y.1, d.objSize);
    } else if y.1 < x.1 {
      MulStep(y.1, x.1, d.objSize);
    }
  }

  lemma SlabsSet(d: Dims, slabs: seq<SlabRec>, id: nat, s: SlabRec)
    requires d.SlabsOk(slabs) && id < |slabs| && Sound(s) && s == slabs[id].(freeCount := s.freeCount, bits := s.bits)
    ensures d.SlabsOk(slabs[id := s])
  {
    var t := slabs[id := s];
    assert d.SlabAt(slabs, id);
    forall j | 0 <= j < |t|
      ensures d.SlabAt(t, j)
    {
      assert d.SlabAt(slabs, j);
    }
    forall i, j
      ensures d.Apart(t, i, j)
    {
      assert d.Apart(slabs, i, j);
    }
  }

  lemma SlabsAdd(d: Dims, slabs: seq<SlabRec>, s: SlabRec)
    requires d.SlabsOk(slabs) && d.LaidOut(s)
    requires forall i :: 0 <= i < |slabs| ==>
      slabs[i].base + d.cacheSize <= s.base || s.base + d.cacheSize <= slabs[i].base
    ensures d.SlabsOk(slabs + [s])
  {
    var t := slabs + [s];
    forall j | 0 <= j < |t|
      ensures d.SlabAt(t, j)
    {
      assert j < |slabs| ==> d.SlabAt(slabs, j);
    }
    forall i, j
      ensures d.Apart(t, i, j)
    {
      assert d.Apart(slabs, i, j);
    }
  }
}
