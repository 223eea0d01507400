// Allocating from and freeing into an object cache of src/mmspace.c.
module SlabCache {
  import opened Align
  import opened Arith
  import opened Bits
  import opened Lists
  import opened Slab

  class Cache {
    const d: Dims
    // The slabs by number, and the three lists.
    var slabs: seq<SlabRec>
    var full: seq<nat>
    var partial: seq<nat>
    var empty: seq<nat>

    ghost function Z(): Zone
      reads this
    {
      Zone(slabs, full, partial, empty)
    }

    ghost predicate Valid()
      reads this
    {
      d.SlabsOk(slabs) && Z().ListsOk(-1, Full)
    }

    // The end of mm_cache_create.
    constructor (d: Dims)
      requires d.Ok()
      ensures Valid() && Live(slabs) == {} && this.d == d
    {
      this.d := d;
      slabs, full, partial, empty := [], [], [], [];
      new;
      forall k
        ensures Z().ListOk(k, -1, Full)
      {
      }
    }

    // mm_cache_create: refused exactly when the slab is not smaller than the largest
    // segment of pages.
    static method Create(size: nat, pageOrder: nat, maxpg: nat) returns (cache: Cache?)
      requires 0 < RoundedSize(size) < 0x800_0000
      ensures cache == null <==> !Accepted(RoundedSize(size), pageOrder, maxpg)
      ensures cache != null ==> cache.Valid() && Live(cache.slabs) == {} && fresh(cache)
      ensures cache != null ==> cache.d.objSize == RoundedSize(size) && cache.d.objSize % 8 == 0
      ensures cache != null && size + 7 < 0x1_0000_0000 ==> size <= cache.d.objSize < size + 8
      ensures cache != null ==>
        && Aligned(cache.d.cacheSize, pageOrder)
        && 32 * cache.d.objSize + 48 <= cache.d.cacheSize < 32 * cache.d.objSize + 48 + Pow2(pageOrder)
    {
      var objSize := RoundedSize(size);
      if !Accepted(objSize, pageOrder, maxpg) { return null; }
      RoundedUp(size);
      NoWrap(objSize);
      CacheSizeIsLeast(objSize, pageOrder);
      DimsOf(objSize, pageOrder, maxpg);
      var cacheSize := CacheSizeOf(objSize, pageOrder);
      cache := new Cache(Dims(objSize, cacheSize, pageOrder, maxpg));
    }

    static lemma DimsOf(objSize: nat, pageOrder: nat, maxpg: nat)
      requires 0 < objSize < 0x800_0000 && objSize % 8 == 0 && Accepted(objSize, pageOrder, maxpg)
      ensures CacheSizeOf(objSize, pageOrder) >= 0
      ensures Dims(objSize, CacheSizeOf(objSize, pageOrder), pageOrder, maxpg).Ok()
    {
      CacheSizeIsLeast(objSize, pageOrder);
    }

    // _mm_zmove_cache
    method Move(id: nat, from: Kind, to: Kind)
      requires id < |slabs| && Z().ListsOk(id, from) && from != to
      modifies `full, `partial, `empty
      ensures Z() == Moved(old(Z()), id, from, to) && Z().ListsOk(id, to)
    {
      MoveKeeps(Z(), id, from, to);
      Take(id, from);
      PushFront(id, to);
    }

    method Take(id: nat, from: Kind)
      modifies `full, `partial, `empty
      ensures Z() == Put(old(Z()), from, Minus(old(Z()).List(from), id))
    {
      match from
      case Full => full := Minus(full, id);
      case Partial => partial := Minus(partial, id);
      case Empty => empty := Minus(empty, id);
    }

    method PushFront(id: nat, to: Kind)
      modifies `full, `partial, `empty
      ensures Z() == Put(old(Z()), to, [id] + old(Z()).List(to))
    {
      match to
      case Full => full := [id] + full;
      case Partial => partial := [id] + partial;
      case Empty => empty := [id] + empty;
    }

    // All objects of its slab in front of x are in use.
    ghost predicate Lowest(slabs: seq<SlabRec>, x: (nat, nat)) {
      forall j: nat :: j < x.1 ==> (x.0, j) in Live(slabs)
    }

    // _mm_zfetch_obj on slab id: the object at x, which was not in use.
    method Fetch(id: nat) returns (p: nat, ghost x: (nat, nat))
      requires Valid() && id < |slabs| && slabs[id].freeCount > 0
      modifies `slabs
      ensures d.SlabsOk(slabs) && Z().ListsOk(id, Home(old(slabs)[id])) && |slabs| == |old(slabs)|
      ensures slabs[id] == old(slabs)[id].(freeCount := old(slabs)[id].freeCount - 1, bits := slabs[id].bits)
      ensures p > 0 && x.0 == id && p == d.AddrOf(slabs[id], x.1)
      ensures x !in Live(old(slabs)) && Live(slabs) == Live(old(slabs)) + {x} && Lowest(old(slabs), x)
      ensures SameMemory(old(slabs), slabs)
    {
      var s := slabs[id];
      p, x := 0, (0, 0);
      assert d.SlabAt(slabs, id);
      NextFreeIsFree(s);
      var idx := NextFree(s);
      if idx < 0 { return; }
      FetchKeeps(s, idx);
      LiveSet(slabs, id, Fetched(s, idx), idx);
      HomeFor(id, Fetched(s, idx));
      InLive(slabs, id, idx);
      forall j: nat | j < idx
        ensures (id, j) in Live(slabs)
      {
        InLive(slabs, id, j);
      }
      SlabsSet(d, slabs, id, Fetched(s, idx));
      slabs := slabs[id := Fetched(s, idx)];
      return d.AddrOf(s, idx), (id, idx);
    }

    lemma HomeFor(id: nat, s: SlabRec)
      requires Valid() && id < |slabs|
      ensures Z().(slabs := slabs[id := s]).ListsOk(id, Home(slabs[id]))
    {
      var at := Home(slabs[id]);
      forall k
        ensures Z().ListOk(k, -1, at)
      {
        assert Z().ListOk(k, -1, Full);
        forall x: nat
          ensures x in Z().List(k) <==> Z().Belongs(x, k, -1, at)
        {
          assert Z().Belongs(x, k, -1, Full) <==> x in Z().List(k);
        }
      }
      TouchKeeps(Z(), id, s, at);
    }

    // _mm_zcache_new on the memory at page, which no other slab uses.
    method NewSlab(page: nat) returns (id: nat)
      requires Valid() && page > 0
      requires forall i :: 0 <= i < |slabs| ==>
        slabs[i].base + d.cacheSize <= page || page + d.cacheSize <= slabs[i].base
      modifies `slabs, `empty
      ensures Valid() && id < |slabs| && slabs[id].freeCount > 1 && empty == [id] + old(empty)
      ensures slabs == old(slabs) + [slabs[id]] && Live(slabs) == Live(old(slabs))
      ensures slabs[id].base == page && slabs[id].objCount == slabs[id].freeCount
      ensures slabs[id].objPtr + slabs[id].objCount * d.objSize == page + d.cacheSize
    {
      var count := ObjCount(d.cacheSize, d.objSize);
      SizingExactly(d.objSize, d.pageOrder, d.maxpg);
      var s := SlabRec(page, page + d.cacheSize - count * d.objSize, count, count, 0);
      forall i: nat
        ensures !Bit(s.bits, i)
      {
        ZeroBits(i);
      }
      CountZero(WORD);
      AddKeeps(Z(), s, Full);
      SlabsAdd(d, slabs, s);
      LiveAdd(slabs, s);
      id := |slabs|;
      slabs := slabs + [s];
      empty := [id] + empty;
    }

    // The slabs lie where they did.
    ghost predicate SameMemory(s: seq<SlabRec>, t: seq<SlabRec>) {
      |s| == |t| && forall i :: 0 <= i < |s| ==>
        t[i].base == s[i].base && t[i].objPtr == s[i].objPtr && t[i].objCount == s[i].objCount
    }

    // A slab in the list of partly used or empty ones has a free object.
    lemma ListHasRoom(k: Kind, id: nat)
      requires Valid() && id in Z().List(k) && k != Full
      ensures id < |slabs| && Home(slabs[id]) == k && slabs[id].freeCount > 0
    {
      assert Z().ListOk(k, -1, Full) && Z().Belongs(id, k, -1, Full);
    }

    // The branch of mm_cache_alloc for a partly used slab.
    method AllocPartial(id: nat) returns (p: nat, ghost x: (nat, nat))
      requires Valid() && id in partial
      modifies this
      ensures Valid() && p > 0 && x.0 == id < |slabs| == |old(slabs)| && p == d.AddrOf(slabs[x.0], x.1)
      ensures Lowest(old(slabs), x) && SameMemory(old(slabs), slabs)
      ensures x !in Live(old(slabs)) && Live(slabs) == Live(old(slabs)) + {x}
    {
      ListHasRoom(Partial, id);
      assert d.SlabAt(slabs, id);
      p, x := Fetch(id);
      if slabs[id].freeCount <= 0 {
        Move(id, Partial, Full);
      }
      HomeKeeps(Z(), id, Home(slabs[id]), Full);
    }

    // The branch for an empty slab, which becomes a partly used one.
    method AllocEmpty(id: nat) returns (p: nat, ghost x: (nat, nat))
      requires Valid() && id in empty
      modifies this
      ensures Valid() && p > 0 && x.0 == id < |slabs| == |old(slabs)| && p == d.AddrOf(slabs[x.0], x.1)
      ensures Lowest(old(slabs), x) && SameMemory(old(slabs), slabs)
      ensures x !in Live(old(slabs)) && Live(slabs) == Live(old(slabs)) + {x}
    {
      ListHasRoom(Empty, id);
      assert d.SlabAt(slabs, id);
      p, x := Fetch(id);
      Move(id, Empty, Partial);
      HomeKeeps(Z(), id, Partial, Full);
    }

    // No slab has room when neither list holds one.
    lemma NoRoom(id: nat)
      requires Valid() && partial == [] && empty == [] && id < |slabs|
      ensures slabs[id].freeCount == 0
    {
      var k := Home(slabs[id]);
      assert Z().ListOk(k, -1, Full) && Z().Belongs(id, k, -1, Full);
    }

    // mm_cache_alloc; page is where the page allocator would put a new slab, 0
    // for nowhere. It fails only when that and all slabs fail; the object
    // handed out was not in use.
    method Alloc(page: nat) returns (p: nat, ghost x: (nat, nat))
      requires Valid()
      requires page == 0 || forall i :: 0 <= i < |slabs| ==>
        slabs[i].base + d.cacheSize <= page || page + d.cacheSize <= slabs[i].base
      modifies this
      ensures Valid()
      ensures p == 0 <==> page == 0 && forall id :: 0 <= id < |old(slabs)| ==> old(slabs)[id].freeCount == 0
      ensures p == 0 ==> Z() == old(Z())
      ensures p != 0 ==> x.0 < |slabs| && p == slabs[x.0].objPtr + x.1 * d.objSize
      ensures p != 0 ==> |old(slabs)| <= |slabs| && SameMemory(old(slabs), slabs[..|old(slabs)|])
      ensures p != 0 && old(partial) != [] ==> x.0 == old(partial)[0]
      ensures p != 0 && old(partial) == [] ==> x.0 == if old(empty) != [] then old(empty)[0] else |old(slabs)|
      ensures p != 0 ==> if x.0 < |old(slabs)| then |slabs| == |old(slabs)|
                         else |slabs| == |old(slabs)| + 1 && slabs[x.0].base == page
      ensures p != 0 ==> forall j: nat :: j < x.1 ==> (x.0, j) in Live(old(slabs))
      ensures p != 0 ==> x !in Live(old(slabs)) && Live(slabs) == Live(old(slabs)) + {x}
    {
      p, x := 0, (0, 0);
      if partial != [] {
        ListHasRoom(Partial, partial[0]);
        p, x := AllocPartial(partial[0]);
      } else {
        var id;
        if empty != [] {
          id := empty[0];
          ListHasRoom(Empty, id);
        } else {
          forall i | 0 <= i < |slabs|
            ensures slabs[i].freeCount == 0
          {
            NoRoom(i);
          }
          if page == 0 { return; }
          id := NewSlab(page);
        }
        p, x := AllocEmpty(id);
      }
    }

    // --- Freeing --------------------------------------------------------------------

    // _cache_of_obj: the slab whose memory p lies in.
    method SlabOf(p: nat) returns (id: int)
      ensures id == -1 ==> forall i :: 0 <= i < |slabs| ==> !(slabs[i].base <= p < slabs[i].base + d.cacheSize)
      ensures id != -1 ==> 0 <= id < |slabs| && slabs[id].base <= p < slabs[id].base + d.cacheSize
    {
      var i := 0;
      while i < |slabs|
        invariant i <= |slabs|
        invariant forall j :: 0 <= j < i ==> !(slabs[j].base <= p < slabs[j].base + d.cacheSize)
      {
        if slabs[i].base <= p < slabs[i].base + d.cacheSize { return i; }
        i := i + 1;
      }
      return -1;
    }

    // The object that p lies in, by its slab and the quotient of its offset.
    lemma WhichObject(id: nat, p: nat, x: (nat, nat))
      requires d.SlabsOk(slabs) && id < |slabs| && slabs[id].base <= p < slabs[id].base + d.cacheSize
      requires x in Live(slabs)
      ensures d.Holds(slabs, x, p) <==>
        x.0 == id && slabs[id].objPtr <= p && x.1 == (p - slabs[id].objPtr) / d.objSize
    {
      InLive(slabs, x.0, x.1);
      assert d.SlabAt(slabs, id) && d.SlabAt(slabs, x.0) && d.Apart(slabs, id, x.0) && d.Apart(slabs, x.0, id);
      ObjectInSlab(d, slabs[x.0], x.1);
      if x.0 == id && slabs[id].objPtr <= p {
        var t := p - slabs[id].objPtr;
        Quotient(t, d.objSize);
        if d.Holds(slabs, x, p) {
          ModUnique(t, x.1, t - x.1 * d.objSize, d.objSize);
        }
      }
    }

    // Some object in use holds the address p.
    ghost predicate InUse(p: nat)
      reads this
    {
      exists x :: x in Live(slabs) && d.Holds(slabs, x, p)
    }

    // _mm_zreturn_obj on slab id: refused exactly when no object in use holds p.
    method Return(id: nat, p: nat) returns (rslt: int, ghost x: (nat, nat))
      requires Valid() && id < |slabs| && slabs[id].base <= p < slabs[id].base + d.cacheSize
      modifies `slabs
      ensures rslt == -1 ==> slabs == old(slabs) && !InUse(p)
      ensures rslt != -1 ==> rslt == 0 && x in Live(old(slabs)) && d.Holds(old(slabs), x, p) && x.0 == id
      ensures rslt == 0 ==> d.SlabsOk(slabs) && Z().ListsOk(id, Home(old(slabs)[id])) && |slabs| == |old(slabs)|
      ensures rslt == 0 ==> Live(slabs) == Live(old(slabs)) - {x} && SameMemory(old(slabs), slabs)
      ensures rslt == 0 ==>
        slabs[id] == old(slabs)[id].(freeCount := old(slabs)[id].freeCount + 1, bits := slabs[id].bits)
    {
      var s := slabs[id];
      x := (0, 0);
      assert d.SlabAt(slabs, id);
      forall y | y in Live(slabs)
        ensures d.Holds(slabs, y, p) <==> y.0 == id && s.objPtr <= p && y.1 == (p - s.objPtr) / d.objSize
        ensures y.0 == id ==> y.1 < s.objCount && Bit(s.bits, y.1)
      {
        WhichObject(id, p, y);
        InLive(slabs, y.0, y.1);
        if y.0 == id { assert Bit(s.bits, y.1); }
      }
      if p < s.objPtr { return -1, x; }
      Quotient(p - s.objPtr, d.objSize);
      var idx := (p - s.objPtr) / d.objSize;
      if idx >= s.objCount { return -1, x; }
      if !Bit(s.bits, idx) { return -1, x; }
      x := (id, idx);
      InLive(slabs, id, idx);
      ReturnIdx(id, idx);
      slabs := slabs[id := Returned(s, idx)];
      rslt := 0;
    }

    lemma ReturnIdx(id: nat, idx: nat)
      requires Valid() && id < |slabs| && idx < WORD && Bit(slabs[id].bits, idx)
      ensures var t := slabs[id := Returned(slabs[id], idx)];
        d.SlabsOk(t) && Z().(slabs := t).ListsOk(id, Home(slabs[id])) && Live(t) == Live(slabs) - {(id, idx)}
    {
      var s := slabs[id];
      assert d.SlabAt(slabs, id);
      ReturnKeeps(s, idx);
      LiveUnset(slabs, id, Returned(s, idx), idx);
      HomeFor(id, Returned(s, idx));
      SlabsSet(d, slabs, id, Returned(s, idx));
    }

    // In an empty slab, and outside all slabs, no object is in use.
    lemma NothingThere(id: int, p: nat)
      requires Valid()
      requires id == -1 ==> forall i :: 0 <= i < |slabs| ==> !(slabs[i].base <= p < slabs[i].base + d.cacheSize)
      requires id != -1 ==> 0 <= id < |slabs| && slabs[id].base <= p < slabs[id].base + d.cacheSize
      requires id != -1 ==> slabs[id].freeCount >= slabs[id].objCount
      ensures !InUse(p)
    {
      forall x | x in Live(slabs)
        ensures !d.Holds(slabs, x, p)
      {
        InLive(slabs, x.0, x.1);
        assert d.SlabAt(slabs, x.0);
        ObjectInSlab(d, slabs[x.0], x.1);
        if id != -1 {
          WhichObject(id, p, x);
          CountExtremes(slabs[id].bits, WORD);
          assert d.SlabAt(slabs, id);
        }
      }
    }

    // Slab id is in front of the list it asks for now, unless it is in the same one as before.
    ghost predicate Rehomed(y: Zone, z: Zone, id: nat) {
      && id < |y.slabs| == |z.slabs|
      && var k, l := Home(y.slabs[id]), Home(z.slabs[id]);
         && (k == l ==> z == y.(slabs := z.slabs))
         && (k != l ==> z == Moved(y, id, k, l).(slabs := z.slabs))
    }

    // mm_cache_free: 0 exactly when an object in use holds p, which then is no
    // longer in use; a second free is refused and changes nothing.
    method Free(p: nat) returns (rslt: int, ghost x: (nat, nat))
      requires Valid()
      modifies this
      ensures Valid() && (rslt == 0 || rslt == -1)
      ensures rslt == 0 <==> p != 0 && old(InUse(p))
      ensures rslt == -1 ==> Z() == old(Z())
      ensures rslt == 0 ==>
        x in Live(old(slabs)) && d.Holds(old(slabs), x, p) && Live(slabs) == Live(old(slabs)) - {x}
      ensures rslt == 0 ==> Rehomed(old(Z()), Z(), x.0) && SameMemory(old(slabs), slabs)
    {
      x := (0, 0);
      if p == 0 { return -1, x; }
      var id := SlabOf(p);
      if id == -1 || slabs[id].freeCount >= slabs[id].objCount {
        NothingThere(id, p);
        return -1, x;
      }
      var fromFull := slabs[id].freeCount <= 0;
      assert d.SlabAt(slabs, id);
      rslt, x := Return(id, p);
      if rslt < 0 { return -1, x; }
      assert d.SlabAt(slabs, id);
      ghost var y := Z();
      Rehome(id, fromFull);
      MovedIsRehomed(old(Z()), y, Z(), id);
    }

    lemma MovedIsRehomed(y: Zone, t: Zone, z: Zone, id: nat)
      requires id < |y.slabs| == |t.slabs| && t == y.(slabs := t.slabs)
      requires var k, l := Home(y.slabs[id]), Home(t.slabs[id]); z == if k == l then t else Moved(t, id, k, l)
      ensures Rehomed(y, z, id)
    {
    }

    // The moves at the end of mm_cache_free.
    method Rehome(id: nat, fromFull: bool)
      requires d.SlabsOk(slabs) && id < |slabs| && Z().ListsOk(id, if fromFull then Full else Partial)
      requires slabs[id].freeCount > 0 && (fromFull ==> slabs[id].freeCount < slabs[id].objCount)
      modifies `full, `partial, `empty
      ensures Valid()
      ensures var k, l := if fromFull then Full else Partial, Home(slabs[id]);
        Z() == if k == l then old(Z()) else Moved(old(Z()), id, k, l)
    {
      if slabs[id].freeCount >= slabs[id].objCount {
        Move(id, Partial, Empty);
      }
      if fromFull {
        Move(id, Full, Partial);
      }
      HomeKeeps(Z(), id, Home(slabs[id]), Full);
    }
  }
}
