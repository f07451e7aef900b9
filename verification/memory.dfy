/** The first-fit heap of src/memorymanagement.cc. The doubly linked list of MemoryChunk headers
    becomes the sequence of chunks in address order: `prev` and `next` are the neighbours in the
    sequence, and a chunk's header address is the region start plus the headers and payloads of
    the chunks before it. Addresses are unbounded naturals (the 32-bit wrap of size_t is not modelled). */
module Memory {
  import opened Ints
  import opened Wrappers

  /** sizeof(MemoryChunk) on the 32-bit target: two pointers, a bool padded to four bytes, a size_t. */
  const HEADER: nat := 16

  datatype Chunk = Chunk(used: bool, size: nat)

  /** A manager: the start of its region, its chunks in address order, and the 32-bit running
      total of requested bytes (the `size` member). */
  datatype MemoryManager = MemoryManager(start: nat, chunks: seq<Chunk>, requested: uint32)

  /** Bytes covered by a run of chunks, headers included. */
  function Footprint(chunks: seq<Chunk>): nat
  {
    if chunks == [] then 0 else HEADER + chunks[0].size + Footprint(chunks[1..])
  }

  /** The address of chunk `i`'s header (or, for `i == |chunks|`, the end of the last chunk). */
  function ChunkAddress(m: MemoryManager, i: nat): nat
    requires i <= |m.chunks|
  {
    m.start + Footprint(m.chunks[..i])
  }

  /** No two neighbouring chunks are both free. */
  predicate NoAdjacentFree(chunks: seq<Chunk>) {
    forall i :: 0 <= i < |chunks| - 1 ==> chunks[i].used || chunks[i + 1].used
  }

  /** A chunk malloc may choose: free and strictly larger than the request. */
  predicate Fits(c: Chunk, request: nat) {
    !c.used && c.size > request
  }

  // ---------------------------------------------------------------------------
  // Footprint arithmetic

  lemma {:induction false} FootprintConcat(a: seq<Chunk>, b: seq<Chunk>)
    ensures Footprint(a + b) == Footprint(a) + Footprint(b)
    decreases |a|
  {
    if a == [] {
      assert a + b == b;
    } else {
      assert (a + b)[1..] == a[1..] + b;
      FootprintConcat(a[1..], b);
    }
  }

  lemma FootprintSplit(chunks: seq<Chunk>, i: nat)
    requires i < |chunks|
    ensures Footprint(chunks) == Footprint(chunks[..i]) + HEADER + chunks[i].size + Footprint(chunks[i + 1..])
  {
    assert chunks == chunks[..i] + ([chunks[i]] + chunks[i + 1..]);
    FootprintConcat(chunks[..i], [chunks[i]] + chunks[i + 1..]);
    assert ([chunks[i]] + chunks[i + 1..])[1..] == chunks[i + 1..];
  }

  /** Chunk addresses strictly increase along the list. */
  lemma AddressesIncrease(m: MemoryManager, j: nat, i: nat)
    requires j < i <= |m.chunks|
    ensures ChunkAddress(m, j) + HEADER <= ChunkAddress(m, i)
  {
    assert m.chunks[..i] == m.chunks[..j] + m.chunks[j..i];
    FootprintConcat(m.chunks[..j], m.chunks[j..i]);
  }

  // ---------------------------------------------------------------------------
  // The constructor

  /** MemoryManager(start, size): no chunk at all when the region cannot hold a header,
      otherwise one free chunk covering the whole region. */
  function Create(start: nat, size: nat): (m: MemoryManager)
    ensures m.start == start && m.requested == 0 && NoAdjacentFree(m.chunks)
    ensures size < HEADER <==> m.chunks == []
    ensures size >= HEADER ==> Footprint(m.chunks) == size && |m.chunks| == 1 && !m.chunks[0].used
  {
    if size < HEADER then MemoryManager(start, [], 0)
    else MemoryManager(start, [Chunk(false, size - HEADER)], 0)
  }

  // ---------------------------------------------------------------------------
  // malloc

  function FirstFitFrom(chunks: seq<Chunk>, request: nat, i: nat): (r: Option<nat>)
    requires i <= |chunks|
    ensures r.Some? ==> i <= r.value < |chunks| && Fits(chunks[r.value], request)
    ensures r.Some? ==> forall j :: i <= j < r.value ==> !Fits(chunks[j], request)
    ensures r.None? ==> forall j :: i <= j < |chunks| ==> !Fits(chunks[j], request)
    decreases |chunks| - i
  {
    if i == |chunks| then None
    else if Fits(chunks[i], request) then Some(i)
    else FirstFitFrom(chunks, request, i + 1)
  }

  /** The first chunk in address order that is free and strictly larger than the request:
      an exact fit is passed over. */
  function FirstFit(chunks: seq<Chunk>, request: nat): (r: Option<nat>)
    ensures r.Some? ==> r.value < |chunks| && Fits(chunks[r.value], request)
    ensures r.Some? ==> forall j :: 0 <= j < r.value ==> !Fits(chunks[j], request)
    ensures r.None? <==> forall j :: 0 <= j < |chunks| ==> !Fits(chunks[j], request)
  {
    FirstFitFrom(chunks, request, 0)
  }

  /** Chunk `i` used for `request` bytes: split when the rest can hold a header and at least
      one byte, handed out whole otherwise. */
  function Allocate(chunks: seq<Chunk>, i: nat, request: nat): (r: seq<Chunk>)
    requires i < |chunks|
    ensures |chunks| <= |r| <= |chunks| + 1 && r[..i] == chunks[..i] && r[i].used
  {
    var c := chunks[i];
    if c.size >= request + HEADER + 1 then
      chunks[..i] + [Chunk(true, request), Chunk(false, c.size - request - HEADER)] + chunks[i + 1..]
    else chunks[..i] + [Chunk(true, c.size)] + chunks[i + 1..]
  }

  /** malloc: the total grows by the request (modulo 2^32) whether or not it succeeds; the result
      is the payload address of the chosen chunk, or 0 (null) when no chunk fits. */
  function Malloc(m: MemoryManager, request: uint32): (r: (MemoryManager, nat))
    ensures r.0.start == m.start
    ensures r.0.requested == (m.requested + request) % TWO_32
    ensures r.1 == 0 <==> FirstFit(m.chunks, request).None?
    ensures r.1 == 0 ==> r.0.chunks == m.chunks
  {
    var requested := (m.requested + request) % TWO_32;
    match FirstFit(m.chunks, request)
    case None => (m.(requested := requested), 0)
    case Some(i) =>
      (MemoryManager(m.start, Allocate(m.chunks, i, request), requested), ChunkAddress(m, i) + HEADER)
  }

  // ---------------------------------------------------------------------------
  // free

  /** A free chunk of `size` bytes between `before` and `after`, absorbing the next chunk if it is free. */
  function Absorb(before: seq<Chunk>, size: nat, after: seq<Chunk>): (r: seq<Chunk>)
    ensures |before| < |r| && r[..|before|] == before && !r[|before|].used && r[|before|].size >= size
  {
    if after != [] && !after[0].used then
      before + [Chunk(false, size + after[0].size + HEADER)] + after[1..]
    else before + [Chunk(false, size)] + after
  }

  /** Chunk `i` marked free, merged into a free predecessor, then merged with a free successor. */
  function Release(chunks: seq<Chunk>, i: nat): (r: seq<Chunk>)
    requires i < |chunks|
  {
    var size := chunks[i].size;
    if i > 0 && !chunks[i - 1].used then
      Absorb(chunks[..i - 1], chunks[i - 1].size + size + HEADER, chunks[i + 1..])
    else Absorb(chunks[..i], size, chunks[i + 1..])
  }

  function ChunkOfFrom(m: MemoryManager, ptr: nat, i: nat): (r: Option<nat>)
    requires i <= |m.chunks|
    ensures r.Some? ==> i <= r.value < |m.chunks| && ChunkAddress(m, r.value) + HEADER == ptr
    ensures r.None? ==> forall j :: i <= j < |m.chunks| ==> ChunkAddress(m, j) + HEADER != ptr
    decreases |m.chunks| - i
  {
    if i == |m.chunks| then None
    else if ChunkAddress(m, i) + HEADER == ptr then Some(i)
    else ChunkOfFrom(m, ptr, i + 1)
  }

  /** The chunk whose payload starts at `ptr`, found from its header `HEADER` bytes below. */
  function ChunkOf(m: MemoryManager, ptr: nat): (r: Option<nat>)
    ensures r.Some? ==> r.value < |m.chunks| && ChunkAddress(m, r.value) + HEADER == ptr
    ensures r.None? ==> forall j :: 0 <= j < |m.chunks| ==> ChunkAddress(m, j) + HEADER != ptr
  {
    ChunkOfFrom(m, ptr, 0)
  }

  /** A pointer malloc could have returned. free reads the header below any pointer it is given;
      for any other pointer the C++ code corrupts memory, so that is the caller's obligation. */
  predicate IsPayload(m: MemoryManager, ptr: nat) {
    ChunkOf(m, ptr).Some?
  }

  /** free: the chunk becomes free and coalesces with free neighbours; the total is untouched. */
  function Free(m: MemoryManager, ptr: nat): (r: MemoryManager)
    requires IsPayload(m, ptr)
    ensures r.start == m.start && r.requested == m.requested
  {
    m.(chunks := Release(m.chunks, ChunkOf(m, ptr).value))
  }

  // ---------------------------------------------------------------------------
  // Invariants kept by malloc and free

  lemma NoAdjacentSlices(chunks: seq<Chunk>, k: nat)
    requires NoAdjacentFree(chunks) && k <= |chunks|
    ensures NoAdjacentFree(chunks[..k]) && NoAdjacentFree(chunks[k..])
  {
    assert forall i :: 0 <= i < |chunks[k..]| ==> chunks[k..][i] == chunks[k + i];
  }

  /** A free chunk may sit between two runs when its neighbours are used. */
  lemma JoinNoAdjacent(before: seq<Chunk>, c: Chunk, after: seq<Chunk>)
    requires NoAdjacentFree(before) && NoAdjacentFree(after)
    requires before == [] || before[|before| - 1].used
    requires after == [] || after[0].used
    ensures NoAdjacentFree(before + [c] + after)
  {
    var s := before + [c] + after;
    forall i | 0 <= i < |s| - 1 ensures s[i].used || s[i + 1].used {
      if i + 1 < |before| {
        assert s[i] == before[i] && s[i + 1] == before[i + 1];
      } else if i + 1 == |before| {
        assert s[i] == before[i];
      } else if i == |before| {
        assert s[i + 1] == after[0];
      } else {
        assert s[i] == after[i - |before| - 1] && s[i + 1] == after[i - |before|];
      }
    }
  }

  lemma AbsorbNoAdjacent(before: seq<Chunk>, size: nat, after: seq<Chunk>)
    requires NoAdjacentFree(before) && NoAdjacentFree(after)
    requires before == [] || before[|before| - 1].used
    ensures NoAdjacentFree(Absorb(before, size, after))
  {
    if after != [] && !after[0].used {
      NoAdjacentSlices(after, 1);
      assert after[1..] == [] || after[1..][0] == after[1];
      JoinNoAdjacent(before, Chunk(false, size + after[0].size + HEADER), after[1..]);
    } else {
      JoinNoAdjacent(before, Chunk(false, size), after);
    }
  }

  lemma FootprintOne(c: Chunk)
    ensures Footprint([c]) == HEADER + c.size
  {
    assert [c][1..] == [];
  }

  lemma FootprintCons(s: seq<Chunk>)
    requires s != []
    ensures Footprint(s) == HEADER + s[0].size + Footprint(s[1..])
  {
  }

  lemma AbsorbFootprint(before: seq<Chunk>, size: nat, after: seq<Chunk>)
    ensures Footprint(Absorb(before, size, after)) == Footprint(before) + HEADER + size + Footprint(after)
  {
    hide Footprint;
    if after != [] && !after[0].used {
      var c := Chunk(false, size + after[0].size + HEADER);
      FootprintConcat(before + [c], after[1..]);
      FootprintConcat(before, [c]);
      FootprintOne(c);
      FootprintCons(after);
    } else {
      var c := Chunk(false, size);
      FootprintConcat(before + [c], after);
      FootprintConcat(before, [c]);
      FootprintOne(c);
    }
  }

  lemma AllocateFootprint(chunks: seq<Chunk>, i: nat, request: nat)
    requires i < |chunks| && Fits(chunks[i], request)
    ensures Footprint(Allocate(chunks, i, request)) == Footprint(chunks)
  {
    hide Footprint;
    var c := chunks[i];
    var before := chunks[..i];
    var after := chunks[i + 1..];
    FootprintSplit(chunks, i);
    if c.size >= request + HEADER + 1 {
      var a := Chunk(true, request);
      var f := Chunk(false, c.size - request - HEADER);
      assert Allocate(chunks, i, request) == (before + [a]) + [f] + after;
      FootprintConcat(before + [a] + [f], after);
      FootprintConcat(before + [a], [f]);
      FootprintConcat(before, [a]);
      FootprintOne(a);
      FootprintOne(f);
    } else {
      var a := Chunk(true, c.size);
      FootprintConcat(before + [a], after);
      FootprintConcat(before, [a]);
      FootprintOne(a);
    }
  }

  lemma AllocateNoAdjacent(chunks: seq<Chunk>, i: nat, request: nat)
    requires i < |chunks| && Fits(chunks[i], request) && NoAdjacentFree(chunks)
    ensures NoAdjacentFree(Allocate(chunks, i, request))
  {
    var c := chunks[i];
    var before := chunks[..i];
    var after := chunks[i + 1..];
    if c.size >= request + HEADER + 1 {
      var a := Chunk(true, request);
      var f := Chunk(false, c.size - request - HEADER);
      assert Allocate(chunks, i, request) == (before + [a]) + [f] + after;
      NoAdjacentSlices(chunks, i + 1);
      NoAdjacentSlices(chunks, i);
      assert after == [] || after[0] == chunks[i + 1];
      assert NoAdjacentFree(before + [a]) by {
        JoinNoAdjacent(before, a, []);
        assert before + [a] + [] == before + [a];
      }
      JoinNoAdjacent(before + [a], f, after);
    } else {
      assert Allocate(chunks, i, request) == chunks[i := Chunk(true, c.size)];
    }
  }

  /** malloc keeps the chunks contiguous over the same region and never leaves two free neighbours. */
  lemma MallocInvariants(m: MemoryManager, request: uint32)
    ensures Footprint(Malloc(m, request).0.chunks) == Footprint(m.chunks)
    ensures NoAdjacentFree(m.chunks) ==> NoAdjacentFree(Malloc(m, request).0.chunks)
  {
    hide Footprint, Allocate;
    if FirstFit(m.chunks, request).Some? {
      var i := FirstFit(m.chunks, request).value;
      AllocateFootprint(m.chunks, i, request);
      if NoAdjacentFree(m.chunks) {
        AllocateNoAdjacent(m.chunks, i, request);
      }
    }
  }

  lemma ReleaseFootprint(chunks: seq<Chunk>, i: nat)
    requires i < |chunks|
    ensures Footprint(Release(chunks, i)) == Footprint(chunks)
  {
    hide Footprint, Absorb;
    var after := chunks[i + 1..];
    FootprintSplit(chunks, i);
    if i > 0 && !chunks[i - 1].used {
      MergeFootprint(chunks, i);
      AbsorbFootprint(chunks[..i - 1], chunks[i - 1].size + chunks[i].size + HEADER, after);
    } else {
      AbsorbFootprint(chunks[..i], chunks[i].size, after);
    }
  }

  lemma MergeFootprint(chunks: seq<Chunk>, i: nat)
    requires 0 < i <= |chunks|
    ensures Footprint(chunks[..i]) == Footprint(chunks[..i - 1]) + HEADER + chunks[i - 1].size
  {
    hide Footprint;
    assert chunks[..i] == chunks[..i - 1] + [chunks[i - 1]];
    FootprintConcat(chunks[..i - 1], [chunks[i - 1]]);
    FootprintOne(chunks[i - 1]);
  }

  lemma ReleaseNoAdjacent(chunks: seq<Chunk>, i: nat)
    requires i < |chunks| && NoAdjacentFree(chunks)
    ensures NoAdjacentFree(Release(chunks, i))
  {
    var after := chunks[i + 1..];
    NoAdjacentSlices(chunks, i + 1);
    if i > 0 && !chunks[i - 1].used {
      var before := chunks[..i - 1];
      NoAdjacentSlices(chunks, i - 1);
      assert i - 1 == 0 || before[i - 2] == chunks[i - 2];
      AbsorbNoAdjacent(before, chunks[i - 1].size + chunks[i].size + HEADER, after);
    } else {
      var before := chunks[..i];
      NoAdjacentSlices(chunks, i);
      assert i == 0 || before[i - 1] == chunks[i - 1];
      AbsorbNoAdjacent(before, chunks[i].size, after);
    }
  }

  /** free keeps the region and the no-two-free-neighbours invariant. */
  lemma FreeInvariants(m: MemoryManager, ptr: nat)
    requires IsPayload(m, ptr)
    ensures Footprint(Free(m, ptr).chunks) == Footprint(m.chunks)
    ensures NoAdjacentFree(m.chunks) ==> NoAdjacentFree(Free(m, ptr).chunks)
  {
    hide Footprint, Release;
    ReleaseFootprint(m.chunks, ChunkOf(m, ptr).value);
    if NoAdjacentFree(m.chunks) {
      ReleaseNoAdjacent(m.chunks, ChunkOf(m, ptr).value);
    }
  }

  /** The pointer malloc returns is the payload of a used chunk of at least the requested size,
      found where the chosen chunk was; the chunks before it are untouched. */
  lemma MallocResult(m: MemoryManager, request: uint32)
    requires Malloc(m, request).1 != 0
    ensures var (m', ptr) := Malloc(m, request);
      var i := FirstFit(m.chunks, request).value;
      ChunkOf(m', ptr) == Some(i) && m'.chunks == Allocate(m.chunks, i, request)
      && m'.chunks[i].used && m'.chunks[i].size >= request
      && (m.chunks[i].size >= request + HEADER + 1 <==> m'.chunks[i].size == request && |m'.chunks| == |m.chunks| + 1)
  {
    hide Footprint;
    var (m', ptr) := Malloc(m, request);
    var i := FirstFit(m.chunks, request).value;
    assert m'.chunks[..i] == m.chunks[..i];
    assert ChunkAddress(m', i) == ChunkAddress(m, i);
    var r := ChunkOf(m', ptr);
    assert r.Some?;
    if r.value < i {
      AddressesIncrease(m', r.value, i);
    } else if r.value > i {
      AddressesIncrease(m', i, r.value);
    }
  }

  /** On the chunk list: allocating chunk `i` and releasing it again restores the list when no two
      free chunks were neighbours. */
  lemma AllocateThenRelease(chunks: seq<Chunk>, i: nat, request: nat)
    requires i < |chunks| && Fits(chunks[i], request) && NoAdjacentFree(chunks)
    ensures Release(Allocate(chunks, i, request), i) == chunks
  {
    var c := chunks[i];
    var before := chunks[..i];
    var after := chunks[i + 1..];
    var r := Allocate(chunks, i, request);
    assert i > 0 ==> r[i - 1] == chunks[i - 1] && chunks[i - 1].used;
    assert chunks == before + [c] + after;
    if c.size >= request + HEADER + 1 {
      var rest := Chunk(false, c.size - request - HEADER);
      assert r == before + [Chunk(true, request), rest] + after;
      assert r[..i] == before;
      assert r[i + 1..] == [rest] + after;
      assert ([rest] + after)[1..] == after;
      assert Release(r, i) == Absorb(before, request, [rest] + after);
    } else {
      assert after == [] || after[0] == chunks[i + 1];
      assert r == before + [Chunk(true, c.size)] + after;
      assert r[..i] == before;
      assert r[i + 1..] == after;
    }
  }

  /** Freeing what malloc just returned gives back the very same chunks, provided no two free
      chunks were neighbours before. */
  lemma MallocThenFree(m: MemoryManager, request: uint32)
    requires NoAdjacentFree(m.chunks)
    requires Malloc(m, request).1 != 0
    ensures IsPayload(Malloc(m, request).0, Malloc(m, request).1)
    ensures Free(Malloc(m, request).0, Malloc(m, request).1).chunks == m.chunks
  {
    hide Footprint, Allocate, Release, ChunkOf, FirstFit;
    MallocResult(m, request);
    AllocateThenRelease(m.chunks, FirstFit(m.chunks, request).value, request);
  }

  /** On the chunk list: after releasing chunk `i`, some free chunk spans at least its bytes. */
  lemma ReleaseCovers(chunks: seq<Chunk>, i: nat) returns (j: nat)
    requires i < |chunks|
    ensures var r := Release(chunks, i);
      j < |r| && !r[j].used
      && Footprint(r[..j]) <= Footprint(chunks[..i]) && Footprint(chunks[..i + 1]) <= Footprint(r[..j + 1])
  {
    hide Footprint;
    var r := Release(chunks, i);
    assert chunks[..i + 1] == chunks[..i] + [chunks[i]];
    FootprintConcat(chunks[..i], [chunks[i]]);
    FootprintOne(chunks[i]);
    if i > 0 && !chunks[i - 1].used {
      j := i - 1;
      var before := chunks[..i - 1];
      assert chunks[..i] == before + [chunks[i - 1]];
      FootprintConcat(before, [chunks[i - 1]]);
      FootprintOne(chunks[i - 1]);
      assert r[..j + 1] == before + [r[j]];
      FootprintConcat(before, [r[j]]);
      FootprintOne(r[j]);
    } else {
      j := i;
      assert r[..j + 1] == chunks[..i] + [r[j]];
      FootprintConcat(chunks[..i], [r[j]]);
      FootprintOne(r[j]);
    }
  }

  /** The freed chunk's bytes end up inside one free chunk, which starts no later than the freed
      header and ends no earlier than the freed payload. */
  lemma FreeCoversChunk(m: MemoryManager, ptr: nat) returns (j: nat)
    requires IsPayload(m, ptr)
    ensures var i := ChunkOf(m, ptr).value;
      var r := Free(m, ptr);
      j < |r.chunks| && !r.chunks[j].used
      && ChunkAddress(r, j) <= ChunkAddress(m, i) && ChunkAddress(m, i + 1) <= ChunkAddress(r, j + 1)
  {
    hide Footprint, Release, ChunkOf;
    j := ReleaseCovers(m.chunks, ChunkOf(m, ptr).value);
  }
  // ---------------------------------------------------------------------------
  // BufferShift and the global operators

  /** BufferShift as written: every pass of the loop copies `buffer[index]` to `buffer[index + shift]`
      (the 32-bit sum), so at most that one cell changes, however large `bufsize` is. */
  method BufferShift(buffer: seq<uint8>, bufsize: uint32, index: uint32, shift: int32)
    returns (r: seq<uint8>)
    requires index < bufsize ==> index < |buffer| && (index + shift) % TWO_32 < |buffer|
    ensures |r| == |buffer|
    ensures index >= bufsize ==> r == buffer
    ensures index < bufsize ==> (r[(index + shift) % TWO_32] == buffer[index]
      && forall k :: 0 <= k < |r| && k != (index + shift) % TWO_32 ==> r[k] == buffer[k])
  {
    r := buffer;
    var i := index;
    while i < bufsize
      invariant index <= i && |r| == |buffer|
      invariant i > index ==> index < bufsize
      invariant i == index ==> r == buffer
      invariant i > index ==> r == buffer[(index + shift) % TWO_32 := buffer[index]]
      decreases bufsize - i
    {
      r := r[(index + shift) % TWO_32 := r[index]];
      i := i + 1;
    }
  }

  /** operator new and new[]: null without an active manager, otherwise that manager's malloc. */
  function NewObject(active: Option<MemoryManager>, size: uint32): (r: (Option<MemoryManager>, nat))
    ensures active.None? ==> r == (None, 0)
    ensures active.Some? ==> r.0.Some? && r.0.value.requested == (active.value.requested + size) % TWO_32
    ensures active.Some? ==> (r.1 == 0 <==> FirstFit(active.value.chunks, size).None?)
  {
    match active
    case None => (None, 0)
    case Some(m) =>
      var (m', ptr) := Malloc(m, size);
      (Some(m'), ptr)
  }
}
