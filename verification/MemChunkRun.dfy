/** Whole runs of mem/memchunk.c. */
module MemChunkRun {
  import opened MemChunk

  /** A request; `ok` tells whether malloc would succeed. */
  datatype Request = Request(size: nat, ok: bool)

  datatype Answer = Refused | Given(region: Region)

  /** How many bytes the successful requests have asked for. */
  ghost function Total(got: seq<Answer>): nat {
    if got == [] then 0
    else Total(got[..|got| - 1]) + var last := got[|got| - 1]; if last.Given? then last.region.len else 0
  }

  ghost predicate Answers(request: Request, answer: Answer) {
    match answer
    case Refused => !request.ok
    case Given(r) => r.len == request.size && (r.len > 0 ==> Inside(r))
  }

  ghost predicate AllApart(got: seq<Answer>) {
    forall i, j :: 0 <= i < j < |got| && got[i].Given? && got[j].Given? ==> Apart(got[i].region, got[j].region)
  }

  /** What was given away is what the allocator knows of. */
  ghost predicate Tracks(s: State, got: seq<Answer>) {
    && (forall a :: a in got && a.Given? ==> a.region in s.regions)
    && Requested(s.regions) == Total(got)
  }

  lemma LastApart(s: State, got: seq<Answer>, r: Region)
    requires s.Sound() && s.regions != [] && s.regions[|s.regions| - 1] == r && AllApart(got)
    requires forall a :: a in got && a.Given? ==> a.region in s.regions[..|s.regions| - 1]
    ensures AllApart(got + [Given(r)])
  {
    hide Apart, Distinct, State.Thrifty;
    var all := got + [Given(r)];
    forall i, j | 0 <= i < j < |all| && all[i].Given? && all[j].Given?
      ensures Apart(all[i].region, all[j].region)
    {
      if j == |got| {
        assert got[i] in got;
        var x :| 0 <= x < |s.regions| - 1 && s.regions[x] == got[i].region;
        assert Apart(s.regions[x], s.regions[|s.regions| - 1]);
      }
    }
  }

  lemma Known(s: State, got: seq<Answer>)
    requires s.Sound() && Tracks(s, got)
    ensures forall a :: a in got && a.Given? ==> a.region.block in s.blocks
    ensures 3 * Reserved(s.blocks) <= 4 * Total(got) + 3 * s.blockSize
  {
    hide Apart, Distinct, State.Thrifty;
    s.WasteBound();
  }

  lemma TracksMore(s: State, s': State, got: seq<Answer>, r: Region)
    requires Tracks(s, got) && s'.regions == s.regions + [r]
    ensures Tracks(s', got + [Given(r)])
  {
    RequestedMore(s.regions, r);
    assert (got + [Given(r)])[..|got|] == got;
  }

  lemma TracksSame(s: State, got: seq<Answer>)
    requires Tracks(s, got)
    ensures Tracks(s, got + [Refused])
  {
    assert (got + [Refused])[..|got|] == got;
  }

  /** One request. */
  method Serve(chunk: Chunk, request: Request, ghost got: seq<Answer>) returns (answer: Answer)
    requires chunk.Valid() && Tracks(chunk.Now(), got) && AllApart(got)
    modifies chunk, Elements(chunk.blocks)
    ensures chunk.Valid() && chunk.blockSize == old(chunk.blockSize)
    ensures fresh(Elements(chunk.blocks) - old(Elements(chunk.blocks)))
    ensures Answers(request, answer) && Tracks(chunk.Now(), got + [answer]) && AllApart(got + [answer])
  {
    hide State.Sound, Tracks, AllApart, Apart;
    ghost var was := chunk.Now();
    var block, off := chunk.Alloc(request.size, request.ok);
    if block == null {
      answer := Refused;
      TracksSame(was, got);
      RefusedApart(got);
    } else {
      ghost var b: Block := block;
      answer := Given(Region(block, off, request.size));
      TracksMore(was, chunk.Now(), got, Region(b, off, request.size));
      TrackedBefore(was, chunk.Now(), got, Region(b, off, request.size));
      LastApart(chunk.Now(), got, Region(b, off, request.size));
    }
  }

  lemma RefusedApart(got: seq<Answer>)
    requires AllApart(got)
    ensures AllApart(got + [Refused])
  {
  }

  lemma TrackedBefore(s: State, s': State, got: seq<Answer>, r: Region)
    requires Tracks(s, got) && s'.regions == s.regions + [r]
    ensures s'.regions[..|s'.regions| - 1] == s.regions
    ensures forall a :: a in got && a.Given? ==> a.region in s.regions
  {
  }

  /** The life of an allocator, whatever allocations fail: requests are refused only for lack of memory, the regions
      given never overlap and the non-empty ones lie inside their blocks, the payload reserved stays within 4/3 of
      what was asked for plus one block, and in the end every block is freed exactly once. */
  method Run(blockSize: nat, requests: seq<Request>)
    returns (got: seq<Answer>, freed: seq<Block>)
    ensures |got| == |requests| && forall i :: 0 <= i < |got| ==> Answers(requests[i], got[i])
    ensures AllApart(got)
    ensures 3 * Reserved(freed) <= 4 * Total(got) + 3 * if blockSize == 0 then DEFAULT_BLOCK_SIZE else blockSize
    ensures Distinct(freed) && forall a :: a in got && a.Given? ==> a.region.block in freed
  {
    hide State.Sound, Tracks, AllApart, Answers, Reserved;
    var chunk := new Chunk(blockSize);
    got := [];
    Start(chunk.Now());
    for j := 0 to |requests|
      invariant fresh(chunk) && fresh(Elements(chunk.blocks)) && chunk.Valid()
      invariant chunk.blockSize == if blockSize == 0 then DEFAULT_BLOCK_SIZE else blockSize
      invariant |got| == j && forall i :: 0 <= i < j ==> Answers(requests[i], got[i])
      invariant Tracks(chunk.Now(), got) && AllApart(got)
    {
      var answer := Serve(chunk, requests[j], got);
      got := got + [answer];
    }
    Known(chunk.Now(), got);
    freed := chunk.Fini();
  }

  lemma Start(s: State)
    requires s.regions == []
    ensures Tracks(s, []) && AllApart([])
  {
  }
}
