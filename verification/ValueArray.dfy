/** The arrays of data/value.c: values side by side in one block, which moves when it grows or shrinks. */
module ValueArray {
  import opened Powers
  import opened Buffer
  import P = ValuePath

  /** A VALUE is 16 bytes long; the capacities are those of the byte buffer, counted in values. */
  const VALUE_SIZE: nat := 16

  /** good is the least capacity on the ladder 1, 2, 4, 8, 16, 30, 62, ... that holds the request. */
  ghost predicate GoodFor(request: nat, good: nat) {
    exists k :: LeastRung(VALUE_SIZE * request, k) && Rung(k) == VALUE_SIZE * good
  }

  lemma OneGood(request: nat, a: nat, b: nat)
    requires GoodFor(request, a) && GoodFor(request, b)
    ensures a == b
  {
    hide LeastRung, Rung;
    var i :| LeastRung(VALUE_SIZE * request, i) && Rung(i) == VALUE_SIZE * a;
    var j :| LeastRung(VALUE_SIZE * request, j) && Rung(j) == VALUE_SIZE * b;
    LeastIsUnique(VALUE_SIZE * request, i, j);
  }

  lemma GoodHolds(request: nat, good: nat)
    requires GoodFor(request, good)
    ensures request <= good && 0 < good
  {
    hide Rung;
    var k :| LeastRung(VALUE_SIZE * request, k) && Rung(k) == VALUE_SIZE * good;
    RungStep(k);
  }

  /** The first capacities. */
  lemma Capacities()
    ensures GoodFor(1, 1) && GoodFor(2, 2) && GoodFor(3, 4) && GoodFor(5, 8) && GoodFor(9, 16) && GoodFor(17, 30)
    ensures GoodFor(31, 62)
  {
    Ladder();
    assert LeastRung(16, 0) && LeastRung(32, 1) && LeastRung(48, 2) && LeastRung(80, 3) && LeastRung(144, 4);
    assert LeastRung(272, 5) && LeastRung(496, 6);
  }

  /** value_array_good_alloc_size. */
  method GoodCapacity(request: nat) returns (good: nat)
    ensures GoodFor(request, good)
  {
    ghost var k := 0;
    if request <= 16 {
      good := 1;
      while good < request
        invariant k <= 4 && good == Pow2(k) && (k > 0 ==> Rung(k - 1) < VALUE_SIZE * request)
        decreases request - good
      {
        Pow32(k);
        good, k := good * 2, k + 1;
      }
      Pow32(k);
    } else {
      good, k := 16, 4;
      Pow32(4);
      while good - 2 < request
        invariant k >= 4 && good == Pow2(k) && good >= 16
        invariant k > 4 ==> Rung(k - 1) < VALUE_SIZE * request
        decreases request + 2 - good
      {
        Pow32(k);
        good, k := good * 2, k + 1;
      }
      Pow32(k);
      good := good - 2;
    }
    assert LeastRung(VALUE_SIZE * request, k) && Rung(k) == VALUE_SIZE * good;
  }

  class ValueArray {
    var buf: array?<P.Content>
    var size: nat
    var alloc: nat

    ghost predicate Valid()
      reads this
    {
      && size <= alloc && (alloc == 0 <==> buf == null)
      && (buf != null ==> buf.Length == alloc)
    }

    ghost function Items(): (s: seq<P.Content>)
      requires Valid()
      reads this, buf
      ensures |s| == size
    {
      if buf == null then [] else buf[..size]
    }

    ghost function Footprint(): set<object>
      reads this
    {
      if buf == null then {this} else {this, buf}
    }

    /** value_init_array. */
    constructor ()
      ensures Valid() && Items() == [] && alloc == 0
    {
      buf, size, alloc := null, 0, 0;
    }

    /** value_array_realloc: all items move into a new block. */
    method Realloc(newAlloc: nat, ok: bool) returns (r: int)
      requires Valid() && size <= newAlloc && newAlloc > 0
      modifies this`buf, this`alloc
      ensures r == if ok then 0 else -1
      ensures Valid() && Items() == old(Items()) && alloc == if ok then newAlloc else old(alloc)
      ensures if ok then fresh(buf) else buf == old(buf)
    {
      if !ok {
        return -1;
      }
      var block := new P.Content[newAlloc](_ => P.Scalar);
      if buf != null {
        forall i | 0 <= i < size {
          block[i] := buf[i];
        }
      }
      buf, alloc := block, newAlloc;
      r := 0;
    }

    /** value_array_get: a valid index is a place in the block. */
    method Get(index: nat) returns (found: bool, item: P.Content)
      requires Valid()
      ensures found <==> index < |Items()|
      ensures found ==> item == Items()[index]
    {
      found, item := index < size, P.Scalar;
      if found {
        item := buf[index];
      }
    }

    /** value_array_insert, and value_array_append with index == size: a new value at the index.  The items move to
        another block exactly when there was no room. */
    method Insert(index: nat, ok: bool) returns (found: bool)
      requires Valid()
      modifies Footprint()
      ensures found <==> index <= old(size) && (old(size) < old(alloc) || ok)
      ensures Valid() && fresh(Footprint() - old(Footprint()))
      ensures Items() ==
              if found then old(Items())[..index] + [P.Null(true)] + old(Items())[index..] else old(Items())
      ensures if found && old(size) == old(alloc) then fresh(buf) && GoodFor(old(alloc) + 1, alloc)
              else buf == old(buf) && alloc == old(alloc)
    {
      hide GoodFor;
      if index > size {
        return false;
      }
      found := MakeRoom(ok);
      if found {
        OpenGap(index);
      }
    }

    /** value_array_insert: the block grows when it is full. */
    method MakeRoom(ok: bool) returns (room: bool)
      requires Valid()
      modifies this`buf, this`alloc
      ensures room <==> old(size) < old(alloc) || ok
      ensures Valid() && Items() == old(Items()) && (room ==> size < alloc)
      ensures if room && size == old(alloc) then fresh(buf) && GoodFor(old(alloc) + 1, alloc)
              else buf == old(buf) && alloc == old(alloc)
    {
      hide GoodFor;
      room := true;
      if size >= alloc {
        var good := GoodCapacity(alloc + 1);
        GoodHolds(alloc + 1, good);
        var r := Realloc(good, ok);
        room := r == 0;
      }
    }

    /** value_array_insert: the items behind the index make way for a new value. */
    method OpenGap(index: nat)
      requires Valid() && index <= size < alloc
      modifies this`size, buf
      ensures Valid() && Items() == old(Items())[..index] + [P.Null(true)] + old(Items())[index..]
    {
      ghost var was := Items();
      if index < size {
        MoveItems(index + 1, index, size - index);
      }
      buf[index] := P.Null(true);
      size := size + 1;
      assert Items()[..index] == was[..index];
      assert Items()[index + 1..] == was[index..];
    }

    /** value_array_remove_range: the items behind the range close up. */
    method CloseGap(index: nat, count: nat)
      requires Valid() && index + count <= size
      modifies this`size, if buf == null then {} else {buf}
      ensures Valid() && Items() == old(Items())[..index] + old(Items())[index + count..]
    {
      ghost var was := Items();
      if index + count < size {
        MoveItems(index, index + count, size - (index + count));
      }
      size := size - count;
      assert Items()[..index] == was[..index];
      assert Items()[index..] == was[index + count..];
    }

    /** value_array_remove_range: memory is given back. */
    method Tighten(ok: bool)
      requires Valid()
      modifies this`buf, this`alloc
      ensures Valid() && Items() == old(Items())
      ensures if size < old(alloc) / 4 && ok then fresh(buf) && GoodFor(2 * size, alloc)
              else buf == old(buf) && alloc == old(alloc)
    {
      hide GoodFor;
      if size < alloc / 4 {
        var good := GoodCapacity(size * 2);
        GoodHolds(size * 2, good);
        var r := Realloc(good, ok);
      }
    }

    /** memmove inside the block. */
    method MoveItems(to: nat, from: nat, n: nat)
      requires buf != null && to + n <= buf.Length && from + n <= buf.Length
      modifies buf
      ensures buf[..to] == old(buf[..to]) && buf[to + n..] == old(buf[to + n..])
      ensures buf[to..to + n] == old(buf[from..from + n])
    {
      forall i | 0 <= i < n {
        buf[to + i] := buf[from + i];
      }
    }

    /** value_array_remove_range: the items of the range are destroyed in order; memory is given back once three
        quarters of it are unused, and the items move exactly then. */
    method RemoveRange(index: nat, count: nat, ok: bool) returns (r: int, destroyed: seq<P.Content>)
      requires Valid()
      modifies Footprint()
      ensures r == if index + count > old(size) then -1 else 0
      ensures r == -1 ==> destroyed == []
      ensures r == 0 ==> destroyed == old(Items())[index..index + count]
      ensures Valid() && fresh(Footprint() - old(Footprint()))
      ensures Items() == if r == 0 then old(Items())[..index] + old(Items())[index + count..] else old(Items())
      ensures if r == 0 && size < old(alloc) / 4 && ok then fresh(buf) && GoodFor(2 * size, alloc)
              else buf == old(buf) && alloc == old(alloc)
    {
      hide GoodFor;
      destroyed := [];
      if index + count > size {
        return -1, destroyed;
      }
      ghost var was := Items();
      for i := index to index + count
        invariant destroyed == was[index..i]
      {
        destroyed := destroyed + [buf[i]];
      }
      CloseGap(index, count);
      Tighten(ok);
      r := 0;
    }

    /** value_array_clean. */
    method Clean() returns (destroyed: seq<P.Content>)
      requires Valid()
      modifies this
      ensures destroyed == old(Items()) && Valid() && Items() == [] && alloc == 0
    {
      destroyed := [];
      for i := 0 to size
        invariant destroyed == Items()[..i]
      {
        destroyed := destroyed + [buf[i]];
      }
      buf, size, alloc := null, 0, 0;
    }
  }
}
