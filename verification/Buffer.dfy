/** data/buffer.c: a growing byte buffer with stepped allocation sizes. */
module Buffer {
  import opened Keys
  import opened Powers

  // ---------- allocation sizes ----------

  /** The ladder of sizes: 16 doubled up to 256, and above that 32 bytes less than a power of two. */
  ghost function Rung(k: nat): nat {
    Pow32(k);
    16 * Pow2(k) - if k < 5 then 0 else 32
  }

  lemma {:induction false} Pow32(k: nat)
    ensures k >= 5 ==> Pow2(k) >= 32
    ensures k == 4 ==> Pow2(k) == 16
    ensures k == 5 ==> Pow2(k) == 32
  {
    if k > 5 {
      Pow32(k - 1);
    } else if k >= 4 {
      assert Pow2(4) == 16;
    }
  }

  /** good is the smallest rung that holds the request. */
  ghost predicate LeastRung(request: nat, k: nat) {
    request <= Rung(k) && (k > 0 ==> Rung(k - 1) < request)
  }

  lemma RungStep(k: nat)
    ensures 2 * Rung(k + 1) >= 3 * Rung(k) && Rung(k + 1) > Rung(k) && Rung(k) >= 16
  {
    Pow32(k);
    Pow32(k + 1);
  }

  lemma {:induction false} RungMonotone(i: nat, j: nat)
    requires i <= j
    ensures Rung(i) <= Rung(j)
    decreases j
  {
    if i < j {
      RungMonotone(i, j - 1);
      RungStep(j - 1);
    }
  }

  /** Growing past one rung means growing by at least a half. */
  lemma GrowthFactor(i: nat, request: nat, k: nat)
    requires request > Rung(i) && LeastRung(request, k)
    ensures 2 * Rung(k) >= 3 * Rung(i)
  {
    if k <= i {
      RungMonotone(k, i);
    }
    RungStep(i);
    RungMonotone(i + 1, k);
  }

  lemma LeastIsUnique(request: nat, i: nat, j: nat)
    requires LeastRung(request, i) && LeastRung(request, j)
    ensures i == j
  {
    if i < j {
      RungMonotone(i, j - 1);
    } else if j < i {
      RungMonotone(j, i - 1);
    }
  }

  /** The sizes, one after the other. */
  lemma Ladder()
    ensures Rung(0) == 16 && Rung(1) == 32 && Rung(2) == 64 && Rung(3) == 128 && Rung(4) == 256
    ensures Rung(5) == 480 && Rung(6) == 992 && Rung(7) == 2016
    ensures forall k: nat :: k >= 5 ==> Rung(k + 1) + 32 == 2 * (Rung(k) + 32)
  {
    assert Pow2(4) == 16;
  }

  lemma OnlyRung(request: nat, k: nat)
    requires LeastRung(request, k)
    ensures Rung(k) >= request && Rung(k) >= 16
    ensures forall j :: LeastRung(request, j) ==> j == k
    ensures forall j :: Rung(j) >= request ==> Rung(k) <= Rung(j)
  {
    RungStep(k);
    forall j: nat | Rung(j) >= request
      ensures Rung(k) <= Rung(j)
    {
      if j < k {
        RungMonotone(j, k - 1);
      } else {
        RungMonotone(k, j);
      }
    }
    forall j | LeastRung(request, j)
      ensures j == k
    {
      LeastIsUnique(request, j, k);
    }
  }

  /** buffer_good_alloc_size. */
  method GoodAllocSize(request: nat) returns (good: nat, ghost k: nat)
    ensures LeastRung(request, k) && good == Rung(k)
    ensures good >= request && forall j :: Rung(j) >= request ==> good <= Rung(j)
  {
    if request <= 256 {
      good, k := 16, 0;
      while good < request
        invariant k <= 4 && good == Rung(k) == 16 * Pow2(k) && (k > 0 ==> Rung(k - 1) < request)
        decreases request - good
      {
        Pow32(k);
        good := good * 2;
        k := k + 1;
      }
    } else {
      Pow32(4);
      Pow32(5);
      good, k := 512, 5;
      while good - 32 < request
        invariant k >= 5 && good == 16 * Pow2(k) && good >= 512 && Rung(k - 1) < request
        decreases request + 32 - good
      {
        good := good * 2;
        k := k + 1;
      }
      good := good - 32;
    }
    OnlyRung(request, k);
  }

  // ---------- the buffer ----------

  function Min(a: nat, b: nat): nat {
    if a < b then a else b
  }

  /** memmove of n bytes inside one array. */
  method MoveBytes(a: array<Byte>, to: nat, from: nat, n: nat)
    requires to + n <= a.Length && from + n <= a.Length
    modifies a
    ensures a[..to] == old(a[..to]) && a[to + n..] == old(a[to + n..])
    ensures a[to..to + n] == old(a[from..from + n])
  {
    forall i | 0 <= i < n {
      a[to + i] := a[from + i];
    }
  }

  /** memcpy into an array. */
  method CopyBytes(a: array<Byte>, to: nat, bytes: seq<Byte>)
    requires to + |bytes| <= a.Length
    modifies a
    ensures a[..to] == old(a[..to]) && a[to + |bytes|..] == old(a[to + |bytes|..])
    ensures a[to..to + |bytes|] == bytes
  {
    forall i | 0 <= i < |bytes| {
      a[to + i] := bytes[i];
    }
  }

  /** Bytes that have moved down by n close a gap of n bytes. */
  lemma GapClosed(s: seq<Byte>, s': seq<Byte>, off: nat, n: nat, size: nat)
    requires off + n <= size <= |s| == |s'|
    requires s'[..off] == s[..off] && s'[off..size - n] == s[off + n..size]
    ensures s'[..size - n] == s[..size][..off] + s[..size][off + n..]
  {
    assert s'[..size - n] == s'[..off] + s'[off..size - n];
    assert s[..size][..off] == s[..off] && s[..size][off + n..] == s[off + n..size];
  }

  class Buffer {
    var data: array?<Byte>
    var size: nat
    var alloc: nat
    /** How many bytes reallocation may have moved since the buffer was made: each time up to the whole block. */
    ghost var copied: nat

    ghost predicate Valid()
      reads this
    {
      && size <= alloc && (alloc == 0 <==> data == null)
      && (data != null ==> data.Length == alloc)
    }

    ghost function Contents(): (s: seq<Byte>)
      requires Valid()
      reads this, data
      ensures |s| == size
    {
      if data == null then [] else data[..size]
    }

    ghost function Footprint(): set<object>
      reads this
    {
      if data == null then {this} else {this, data}
    }

    /** buffer_init. */
    constructor ()
      ensures Valid() && Contents() == [] && alloc == 0 && copied == 0
    {
      data, size, alloc, copied := null, 0, 0, 0;
    }

    /** buffer_realloc; `ok` tells whether realloc would succeed. */
    method Realloc(newAlloc: nat, ok: bool) returns (r: int)
      requires Valid()
      modifies this
      ensures r == if newAlloc != old(alloc) && newAlloc != 0 && !ok then -1 else 0
      ensures alloc == if r == 0 then newAlloc else old(alloc)
      ensures Valid() && Contents() == if r == 0 then old(Contents())[..Min(old(size), newAlloc)] else old(Contents())
      ensures copied == old(copied) + if r == 0 && newAlloc != old(alloc) && newAlloc != 0 then old(alloc) else 0
      ensures data == old(data) || data == null || fresh(data)
    {
      r := 0;
      if newAlloc == alloc {
        return;
      }
      if newAlloc == 0 {
        data, size, alloc := null, 0, 0;
        return;
      }
      if !ok {
        return -1;
      }
      var tmp := new Byte[newAlloc](_ => 0);
      var kept := Min(size, newAlloc);
      if data != null {
        forall i | 0 <= i < kept {
          tmp[i] := data[i];
        }
      }
      copied := copied + alloc;
      data := tmp;
      alloc := newAlloc;
      if newAlloc < size {
        size := newAlloc;
      }
    }

    /** buffer_reserve: room for n more bytes, in a size from the ladder whenever the room was not there. */
    method Reserve(n: nat, ok: bool) returns (r: int)
      requires Valid()
      modifies this
      ensures Valid() && Contents() == old(Contents())
      ensures r == 0 ==> alloc >= size + n
      ensures old(size) + n < old(alloc) ==> r == 0 && alloc == old(alloc)
      ensures r == 0 && old(size) + n >= old(alloc) ==> exists k :: LeastRung(old(size) + n, k) && alloc == Rung(k)
      ensures r == 0 || (r == -1 && !ok && alloc == old(alloc))
      ensures ok ==> r == 0
      ensures old(size) + n > old(alloc) && !ok ==> r == -1
      ensures copied == old(copied) + if alloc != old(alloc) then old(alloc) else 0
      ensures data == old(data) || fresh(data)
    {
      if size + n < alloc {
        return 0;
      }
      var good, k := GoodAllocSize(size + n);
      assert LeastRung(size + n, k);
      RungStep(k);
      r := Realloc(good, ok);
    }

    /** buffer_shrink: never loses a byte. */
    method Shrink(ok: bool)
      requires Valid()
      modifies this
      ensures Valid() && Contents() == old(Contents())
      ensures alloc ==
              if (0 < old(alloc) < 8) || old(alloc) / 8 < size / 7 || (!ok && size > 0) then old(alloc) else size
    {
      if (0 < alloc < 8) || alloc / 8 < size / 7 {
        return;
      }
      var r := Realloc(size, ok);
    }

    /** buffer_insert_raw: opens a gap of n bytes at off.  It returns a pointer to the gap, which is NULL when
        an allocation failed, and also when an empty gap is opened in a buffer without memory. */
    method InsertRaw(off: nat, n: nat, ok: bool) returns (found: bool)
      requires Valid() && off <= size
      modifies Footprint()
      ensures found <==> (old(size) + n <= old(alloc) || ok) && (old(alloc) > 0 || n > 0)
      ensures Valid() && fresh(Footprint() - old(Footprint()))
      ensures !found ==> Contents() == old(Contents()) && alloc == old(alloc) && copied == old(copied)
      ensures found ==> data != null && size == old(size) + n
      ensures found ==> Contents()[..off] == old(Contents())[..off] && Contents()[off + n..] == old(Contents())[off..]
      ensures found ==> Grew(old(size), old(alloc), n)
      ensures copied == old(copied) + if alloc != old(alloc) then old(alloc) else 0
    {
      hide LeastRung, Rung;
      ghost var was := Contents();
      if size + n > alloc {
        var r := Reserve(n, ok);
        if r != 0 {
          return false;
        }
      }
      assert Contents() == was;
      OpenGap(off, n);
      found := data != null;
    }

    /** buffer_insert_raw, the bytes behind the gap. */
    method OpenGap(off: nat, n: nat)
      requires Valid() && off <= size && size + n <= alloc
      modifies this`size, if data == null then {} else {data}
      ensures Valid() && size == old(size) + n
      ensures Contents()[..off] == old(Contents())[..off] && Contents()[off + n..] == old(Contents())[off..]
    {
      if size > off {
        MoveBytes(data, off + n, off, size - off);
      }
      size := size + n;
    }

    /** buffer_remove, the bytes behind the removed ones. */
    method CloseGap(off: nat, n: nat)
      requires Valid() && off <= size
      modifies this`size, if data == null then {} else {data}
      ensures Valid()
      ensures Contents() == old(Contents())[..off] + old(Contents())[Min(off + n, old(size))..]
    {
      ghost var was := Contents();
      if off + n < size {
        ghost var bytes := data[..];
        MoveBytes(data, off, off + n, size - off - n);
        assert data[..][..off] == bytes[..off];
        assert data[..][off..size - n] == bytes[off + n..size];
        GapClosed(bytes, data[..], off, n, size);
        size := size - n;
      } else {
        size := off;
        assert Contents() == was[..off] && was[Min(off + n, |was|)..] == [];
      }
    }

    /** What an insertion may do to the capacity. */
    ghost predicate Grew(size0: nat, alloc0: nat, n: nat)
      reads this
    {
      if size0 + n <= alloc0 then alloc == alloc0 else exists k :: LeastRung(size0 + n, k) && alloc == Rung(k)
    }

    /** buffer_insert. */
    method Insert(off: nat, bytes: seq<Byte>, ok: bool) returns (r: int)
      requires Valid() && off <= size
      modifies Footprint()
      ensures r == if (old(size) + |bytes| <= old(alloc) || ok) && (old(alloc) > 0 || |bytes| > 0) then 0 else -1
      ensures Valid() && fresh(Footprint() - old(Footprint()))
      ensures Contents() == if r == 0 then old(Contents())[..off] + bytes + old(Contents())[off..] else old(Contents())
      ensures r == 0 ==> Grew(old(size), old(alloc), |bytes|)
      ensures r != 0 ==> alloc == old(alloc)
      ensures copied == old(copied) + if alloc != old(alloc) then old(alloc) else 0
    {
      hide LeastRung, Rung, Grew;
      var found := InsertRaw(off, |bytes|, ok);
      if !found {
        return -1;
      }
      FillGap(off, bytes);
      r := 0;
    }

    /** buffer_insert, the copy into the gap. */
    method FillGap(off: nat, bytes: seq<Byte>)
      requires Valid() && data != null && off + |bytes| <= size
      modifies data
      ensures Valid() && Contents() == old(Contents())[..off] + bytes + old(Contents())[off + |bytes|..]
    {
      ghost var was := Contents();
      CopyBytes(data, off, bytes);
      assert Contents()[..off] == was[..off] && Contents()[off + |bytes|..] == was[off + |bytes|..];
      assert Contents()[off..off + |bytes|] == bytes;
    }

    /** buffer_remove. */
    method Remove(off: nat, n: nat, ok: bool)
      requires Valid() && off <= size
      modifies Footprint()
      ensures Valid() && fresh(Footprint() - old(Footprint()))
      ensures Contents() == old(Contents())[..off] + old(Contents())[Min(off + n, old(size))..]
      ensures size == 0 ==> alloc == 0
      ensures alloc <= old(alloc)
      ensures copied == old(copied) + if alloc != old(alloc) && size > 0 then old(alloc) else 0
      ensures size > 0 ==>
                forall k :: LeastRung(2 * size, k) ==>
                  alloc == if ok && size < old(alloc) / 4 && Rung(k) < old(alloc) / 2 then Rung(k) else old(alloc)
    {
      hide LeastRung, Rung;
      CloseGap(off, n);
      if size == 0 {
        data, alloc := null, 0;
      } else {
        Tighten(ok);
      }
    }

    /** buffer_remove, giving memory back once three quarters of it are unused. */
    method Tighten(ok: bool)
      requires Valid() && size > 0
      modifies this
      ensures Valid() && size == old(size) && Contents() == old(Contents()) && alloc <= old(alloc)
      ensures data == old(data) || fresh(data)
      ensures copied == old(copied) + if alloc != old(alloc) then old(alloc) else 0
      ensures forall k :: LeastRung(2 * size, k) ==>
                alloc == if ok && size < old(alloc) / 4 && Rung(k) < old(alloc) / 2 then Rung(k) else old(alloc)
    {
      if size < alloc / 4 {
        var newAlloc, k := GoodAllocSize(size * 2);
        OnlyRung(size * 2, k);
        if newAlloc < alloc / 2 {
          var r := Realloc(newAlloc, ok);
        }
      }
    }
  }

  // ---------- append-only runs ----------

  ghost function Flatten(chunks: seq<seq<Byte>>): seq<Byte> {
    if chunks == [] then [] else Flatten(chunks[..|chunks| - 1]) + chunks[|chunks| - 1]
  }

  /** The capacity comes from the ladder, and growth has moved little so far. */
  ghost predicate Amortized(size: nat, alloc: nat, copied: nat) {
    && (alloc == 0 || exists i :: alloc == Rung(i))
    && copied <= 2 * alloc && copied <= 3 * size
  }

  lemma AmortizedStep(size: nat, alloc: nat, copied: nat, n: nat, k: nat)
    requires size <= alloc && Amortized(size, alloc, copied) && size + n > alloc && LeastRung(size + n, k)
    ensures Amortized(size + n, Rung(k), copied + alloc)
  {
    if alloc > 0 {
      var i :| alloc == Rung(i);
      GrowthFactor(i, size + n, k);
    }
  }

  lemma AmortizedStart()
    ensures Amortized(0, 0, 0)
  {
  }

  lemma AmortizedMore(size: nat, alloc: nat, copied: nat, n: nat)
    requires Amortized(size, alloc, copied)
    ensures Amortized(size + n, alloc, copied) && copied <= 3 * size
  {
  }

  /** One append, with room or with growth. */
  method AppendOne(buf: Buffer, chunk: seq<Byte>)
    requires buf.Valid() && Amortized(buf.size, buf.alloc, buf.copied)
    modifies buf.Footprint()
    ensures buf.Valid() && fresh(buf.Footprint() - old(buf.Footprint()))
    ensures buf.Contents() == old(buf.Contents()) + chunk && Amortized(buf.size, buf.alloc, buf.copied)
  {
    hide LeastRung, Rung, Amortized;
    ghost var was, size, alloc, copied := buf.Contents(), buf.size, buf.alloc, buf.copied;
    var r := buf.Insert(buf.size, chunk, true);
    if r != 0 {
      AmortizedMore(size, alloc, copied, 0);
      assert buf.copied == copied && chunk == [];
    } else if size + |chunk| <= alloc {
      AmortizedMore(size, alloc, copied, |chunk|);
    } else {
      ghost var k :| LeastRung(size + |chunk|, k) && buf.alloc == Rung(k);
      AmortizedStep(size, alloc, copied, |chunk|, k);
    }
    assert was[..size] == was && was[size..] == [];
    assert |buf.Contents()| == size + |chunk|;
  }

  /** Appending chunk after chunk to an empty buffer moves at most three times the final size. */
  method AppendAll(chunks: seq<seq<Byte>>) returns (buf: Buffer)
    ensures fresh(buf) && buf.Valid() && buf.Contents() == Flatten(chunks)
    ensures buf.copied <= 3 * buf.size
  {
    hide LeastRung, Rung, Amortized;
    AmortizedStart();
    buf := new Buffer();
    assert chunks[..0] == [];
    for j := 0 to |chunks|
      invariant fresh(buf.Footprint()) && buf.Valid() && buf.Contents() == Flatten(chunks[..j])
      invariant Amortized(buf.size, buf.alloc, buf.copied)
    {
      AppendOne(buf, chunks[j]);
      assert chunks[..j + 1][..j] == chunks[..j];
    }
    assert chunks[..|chunks|] == chunks;
    AmortizedMore(buf.size, buf.alloc, buf.copied, 0);
  }
}
