/** Whole runs of data/buffer.c: contents, results, moved bytes and capacity. */
module BufferRun {
  import opened Keys
  import opened Buffer

  /** One call.  An offset behind the contents stands for their end, so that every call in range has this form;
      `ok` tells whether realloc would succeed. */
  datatype Edit = Insert(off: nat, bytes: seq<Byte>, ok: bool) | Remove(off: nat, n: nat, ok: bool)

  function Edited(s: seq<Byte>, e: Edit, r: int): seq<Byte> {
    var at := Min(e.off, |s|);
    match e
    case Insert(_, bytes, _) => if r == 0 then s[..at] + bytes + s[at..] else s
    case Remove(_, n, _) => s[..at] + s[Min(at + n, |s|)..]
  }

  /** The bytes after a run with the given results. */
  function Replay(edits: seq<Edit>, out: seq<int>): seq<Byte>
    requires |edits| == |out|
  {
    if edits == [] then []
    else Edited(Replay(edits[..|edits| - 1], out[..|out| - 1]), edits[|edits| - 1], out[|out| - 1])
  }

  function Distance(a: nat, b: nat): nat {
    if a < b then b - a else a - b
  }

  /** How many bytes the calls have inserted and removed. */
  function Work(edits: seq<Edit>, out: seq<int>): nat
    requires |edits| == |out|
  {
    if edits == [] then 0
    else
      var past, last := edits[..|edits| - 1], out[..|out| - 1];
      Work(past, last) + Distance(|Replay(past, last)|, |Replay(edits, out)|)
  }

  /** The result of a call on the contents s: with memory at hand only the insertion of nothing into nothing fails. */
  ghost predicate Answers(s: seq<Byte>, e: Edit, r: int) {
    match e
    case Insert(_, bytes, ok) => (r == 0 || r == -1) && (ok ==> (r == -1 <==> s == [] && bytes == []))
    case Remove(_, _, _) => r == 0
  }

  // ---------- what reallocation may cost ----------

  function Above(a: int, b: int): nat {
    if a > b then a - b else 0
  }

  /** What a buffer has saved for its next reallocation: it is nearly full, or mostly empty. */
  function Credit(size: nat, alloc: nat): nat {
    2 * Above(2 * size, alloc) + 2 * Above(alloc, 2 * size + 32)
  }

  /** A rung is at most twice what it was chosen for, and a little more. */
  lemma RungTight(request: nat, k: nat)
    requires LeastRung(request, k)
    ensures request <= Rung(k) && Rung(k) <= 2 * request + 30
  {
    Pow32(k);
    if k > 0 {
      Pow32(k - 1);
    }
  }

  ghost predicate OnLadder(alloc: nat) {
    alloc == 0 || exists i :: alloc == Rung(i)
  }

  lemma CreditMoves(a: nat, b: nat, alloc: nat)
    ensures Credit(b, alloc) <= Credit(a, alloc) + 4 * Distance(a, b)
  {
  }

  lemma CreditGrows(size: nat, alloc: nat, n: nat, k: nat)
    requires OnLadder(alloc) && size <= alloc < size + n && LeastRung(size + n, k)
    ensures alloc + Credit(size + n, Rung(k)) <= Credit(size, alloc) + 4 * n
  {
    hide LeastRung, Rung;
    RungTight(size + n, k);
    if alloc > 0 {
      var i :| alloc == Rung(i);
      GrowthFactor(i, size + n, k);
    }
  }

  lemma CreditShrinks(size: nat, alloc: nat, k: nat)
    requires size < alloc / 4 && LeastRung(2 * size, k) && Rung(k) < alloc / 2
    ensures alloc + Credit(size, Rung(k)) <= Credit(size, alloc) + 60
  {
    hide LeastRung, Rung;
    RungTight(2 * size, k);
  }

  // ---------- one call ----------

  /** The state of a buffer after calls on `work` bytes: the capacity comes from the ladder, only an empty buffer
      has none, and reallocation is paid for. */
  ghost predicate Paid(size: nat, alloc: nat, copied: nat, work: nat, calls: nat) {
    && OnLadder(alloc) && size <= alloc && (alloc == 0 <==> size == 0)
    && copied + Credit(size, alloc) <= 4 * work + 60 * calls
  }

  ghost predicate Lean(size: nat, alloc: nat) {
    alloc <= 8 * size + 61
  }

  method Step(buf: Buffer, e: Edit, ghost work: nat, ghost calls: nat) returns (r: int)
    requires buf.Valid() && Paid(buf.size, buf.alloc, buf.copied, work, calls)
    modifies buf.Footprint()
    ensures buf.Valid() && fresh(buf.Footprint() - old(buf.Footprint()))
    ensures buf.Contents() == Edited(old(buf.Contents()), e, r) && Answers(old(buf.Contents()), e, r)
    ensures Paid(buf.size, buf.alloc, buf.copied, work + Distance(old(buf.size), buf.size), calls + 1)
    ensures e.ok && old(Lean(buf.size, buf.alloc)) ==> Lean(buf.size, buf.alloc)
  {
    match e {
      case Insert(off, bytes, ok) => r := StepInsert(buf, Min(off, buf.size), bytes, ok, work, calls);
      case Remove(off, n, ok) =>
        StepRemove(buf, Min(off, buf.size), n, ok, work, calls);
        r := 0;
    }
  }

  method StepInsert(buf: Buffer, off: nat, bytes: seq<Byte>, ok: bool, ghost work: nat, ghost calls: nat)
    returns (r: int)
    requires buf.Valid() && off <= buf.size && Paid(buf.size, buf.alloc, buf.copied, work, calls)
    modifies buf.Footprint()
    ensures buf.Valid() && fresh(buf.Footprint() - old(buf.Footprint())) && (r == 0 || r == -1)
    ensures buf.Contents() ==
            if r == 0 then old(buf.Contents())[..off] + bytes + old(buf.Contents())[off..] else old(buf.Contents())
    ensures ok ==> (r == -1 <==> old(buf.Contents()) == [] && bytes == [])
    ensures Paid(buf.size, buf.alloc, buf.copied, work + Distance(old(buf.size), buf.size), calls + 1)
    ensures ok && old(Lean(buf.size, buf.alloc)) ==> Lean(buf.size, buf.alloc)
  {
    hide LeastRung, Rung, Credit, OnLadder;
    ghost var was, size, alloc := buf.Contents(), buf.size, buf.alloc;
    r := buf.Insert(off, bytes, ok);
    assert |buf.Contents()| == buf.size && |was| == size;
    if r == 0 && size + |bytes| > alloc {
      ghost var k :| LeastRung(size + |bytes|, k) && buf.alloc == Rung(k);
      CreditGrows(size, alloc, |bytes|, k);
      RungTight(size + |bytes|, k);
      OnRung(k);
    } else {
      CreditMoves(size, buf.size, alloc);
    }
  }

  method StepRemove(buf: Buffer, off: nat, n: nat, ok: bool, ghost work: nat, ghost calls: nat)
    requires buf.Valid() && off <= buf.size && Paid(buf.size, buf.alloc, buf.copied, work, calls)
    modifies buf.Footprint()
    ensures buf.Valid() && fresh(buf.Footprint() - old(buf.Footprint()))
    ensures buf.Contents() == old(buf.Contents())[..off] + old(buf.Contents())[Min(off + n, old(buf.size))..]
    ensures Paid(buf.size, buf.alloc, buf.copied, work + Distance(old(buf.size), buf.size), calls + 1)
    ensures ok && old(Lean(buf.size, buf.alloc)) ==> Lean(buf.size, buf.alloc)
  {
    hide LeastRung, Rung, Credit, OnLadder;
    ghost var was, size, alloc := buf.Contents(), buf.size, buf.alloc;
    buf.Remove(off, n, ok);
    assert |buf.Contents()| == buf.size && |was| == size;
    CreditMoves(size, buf.size, alloc);
    if buf.size == 0 {
      NoCredit();
    } else {
      ghost var k := RungFor(2 * buf.size, 0);
      RungTight(2 * buf.size, k);
      if buf.alloc != alloc {
        CreditShrinks(buf.size, alloc, k);
        OnRung(k);
      }
    }
  }

  lemma OnRung(k: nat)
    ensures OnLadder(Rung(k)) && Rung(k) > 0
  {
    RungStep(k);
  }

  lemma NoCredit()
    ensures Credit(0, 0) == 0 && OnLadder(0)
  {
  }

  lemma {:induction false} RungFor(request: nat, j: nat) returns (k: nat)
    requires j == 0 || Rung(j - 1) < request
    ensures LeastRung(request, k)
    decreases Above(request, Rung(j))
  {
    RungStep(j);
    if request <= Rung(j) {
      k := j;
    } else {
      k := RungFor(request, j + 1);
    }
  }

  // ---------- whole runs ----------

  /** Any run of insertions and removals, whatever allocations fail: the contents and results are those of a list of
      bytes, and reallocation moves at most four bytes per byte inserted or removed, plus 60 per call.  If every
      allocation succeeds, the capacity stays linear in the contents. */
  method Run(edits: seq<Edit>) returns (buf: Buffer, out: seq<int>)
    ensures fresh(buf) && buf.Valid() && |out| == |edits|
    ensures buf.Contents() == Replay(edits, out)
    ensures forall i :: 0 <= i < |edits| ==> Answers(Replay(edits[..i], out[..i]), edits[i], out[i])
    ensures buf.copied <= 4 * Work(edits, out) + 60 * |edits|
    ensures buf.alloc == 0 <==> Replay(edits, out) == []
    ensures (forall e :: e in edits ==> e.ok) ==> buf.alloc <= 8 * buf.size + 61
  {
    hide Answers, Edited, Paid, Lean, Replay, Work;
    buf := new Buffer();
    out := [];
    PaidStart();
    assert edits[..0] == [];
    for j := 0 to |edits|
      invariant fresh(buf.Footprint()) && buf.Valid() && |out| == j && buf.Contents() == Replay(edits[..j], out)
      invariant forall i :: 0 <= i < j ==> Answers(Replay(edits[..i], out[..i]), edits[i], out[i])
      invariant Paid(buf.size, buf.alloc, buf.copied, Work(edits[..j], out), j)
      invariant (forall e :: e in edits ==> e.ok) ==> Lean(buf.size, buf.alloc)
    {
      var r := Step(buf, edits[j], Work(edits[..j], out), j);
      ReplayNext(edits, j, out, r);
      assert edits[j] in edits;
      out := out + [r];
    }
    assert edits[..|edits|] == edits;
    PaidEnd(buf.size, buf.alloc, buf.copied, Work(edits, out), |edits|);
    LeanEnd(buf.size, buf.alloc);
    assert |buf.Contents()| == buf.size;
  }

  lemma ReplayNext(edits: seq<Edit>, j: nat, out: seq<int>, r: int)
    requires j < |edits| && |out| == j
    ensures
      var s, s' := Replay(edits[..j], out), Replay(edits[..j + 1], out + [r]);
      && s' == Edited(s, edits[j], r)
      && Work(edits[..j + 1], out + [r]) == Work(edits[..j], out) + Distance(|s|, |s'|)
    ensures forall i :: 0 <= i <= j ==> (out + [r])[..i] == out[..i]
  {
    hide Edited;
    assert edits[..j + 1][..j] == edits[..j] && (out + [r])[..j] == out;
  }

  lemma PaidStart()
    ensures Paid(0, 0, 0, Work([], []), 0) && Lean(0, 0) && Replay([], []) == []
  {
  }

  lemma PaidEnd(size: nat, alloc: nat, copied: nat, work: nat, calls: nat)
    requires Paid(size, alloc, copied, work, calls)
    ensures copied <= 4 * work + 60 * calls && (alloc == 0 <==> size == 0)
  {
  }

  lemma LeanEnd(size: nat, alloc: nat)
    ensures Lean(size, alloc) ==> alloc <= 8 * size + 61
  {
  }
}
