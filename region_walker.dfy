/**
 * The region walker of the memory scanner: `ScanProcessMemory`. It walks the
 * target process's address space region by region, reads every committed,
 * readable region in chunks of at most 64 KiB into one reused buffer, searches
 * each chunk on its own with the pattern matcher, and returns the absolute
 * address of the first hit, or 0.
 *
 * The operating system is reached only through two oracles passed in as
 * functions: `query(addr)` describes the region covering `addr` (or fails), and
 * `read(addr, len)` returns the bytes copied from `addr` (or fails). The
 * address-space bounds are plain parameters.
 *
 * `WalkFrom` and `RegionScan` are the reference meaning of a walk: the hit, if
 * any, and the list of read requests the walk issues. `ScanProcessMemory`
 * follows the source's nested loops and is proved against them.
 */
module RegionWalker {
  import opened Wrappers
  import opened PatternMatcher

  /** Capacity of the scan buffer, and so the largest chunk ever requested. */
  const BufferSize: nat := 65536

  /** `MEM_COMMIT`: the state of a region backed by storage. */
  const MemCommit: bv32 := 0x1000

  /** The four protections under which a committed region is scanned. */
  const PageReadOnly: bv32 := 0x02
  const PageReadWrite: bv32 := 0x04
  const PageExecuteRead: bv32 := 0x20
  const PageExecuteReadWrite: bv32 := 0x40

  /** A region size as reported by the query; regions are never empty. */
  type RegionSize = n: nat | 0 < n witness 1

  /** One region descriptor: base address, size, state and protection flags. */
  datatype RegionInfo = RegionInfo(base: nat, size: RegionSize, state: bv32, protect: bv32)

  /** One read request: the address it starts at and the number of bytes asked for. */
  datatype ReadRequest = ReadRequest(address: nat, length: nat)

  /** The outcome of (part of) a walk: the address found, and the reads issued on the way. */
  datatype Scan = Scan(hit: Option<nat>, requests: seq<ReadRequest>)

  /** The four recognised protections as one mask. */
  const ReadableProtections: bv32 := 0x66

  /**
   * The region filter: committed, and readable under one of the four
   * recognised protections, i.e. its protection shares a bit with the mask of
   * all four.
   */
  predicate Readable(r: RegionInfo): (b: bool)
    ensures b <==> r.state == MemCommit && r.protect & ReadableProtections != 0
  {
    r.state == MemCommit &&
    (r.protect & PageReadWrite != 0 || r.protect & PageReadOnly != 0 ||
     r.protect & PageExecuteRead != 0 || r.protect & PageExecuteReadWrite != 0)
  }

  function Min(a: nat, b: nat): nat
  {
    if b < a then b else a
  }

  /** Length of the chunk requested at `offset` of a region of `size` bytes. */
  function ChunkLength(size: nat, offset: nat): nat
    requires offset <= size
  {
    Min(BufferSize, size - offset)
  }

  /**
   * The bytes a read delivers into the buffer: what the oracle returned, but
   * never more than the `toRead` bytes asked for.
   */
  function Received(data: seq<byte>, toRead: nat): (r: seq<byte>)
    ensures |r| <= toRead
  {
    if |data| <= toRead then data else data[..toRead]
  }

  /** What reading and searching one chunk leads to. */
  datatype ChunkOutcome = Abandon | Found(k: nat) | Continue

  /**
   * The outcome of a read request for `toRead` bytes that delivered `got`: a
   * failed or empty read abandons the region; otherwise the bytes received are
   * searched on their own.
   */
  function Classify(pattern: seq<byte>, got: Option<seq<byte>>, toRead: nat): ChunkOutcome
  {
    if got.None? || |Received(got.value, toRead)| == 0 then Abandon
    else match Occurrence(pattern, Received(got.value, toRead))
      case Some(k) => Found(k)
      case None => Continue
  }

  /** Reads the chunk at intra-region `offset` of region `r` and searches it. */
  function ChunkStep(pattern: seq<byte>, read: (nat, nat) -> Option<seq<byte>>,
                     r: RegionInfo, offset: nat): ChunkOutcome
    requires offset < r.size
  {
    Classify(pattern, read(r.base + offset, ChunkLength(r.size, offset)), ChunkLength(r.size, offset))
  }

  /**
   * Scans region `r` from intra-region `offset` on, one chunk at a time. The
   * offset advances by the length asked for, whatever arrived.
   */
  function RegionScan(pattern: seq<byte>, read: (nat, nat) -> Option<seq<byte>>,
                      r: RegionInfo, offset: nat): Scan
    decreases r.size - offset
  {
    if offset >= r.size then Scan(None, [])
    else
      var toRead := ChunkLength(r.size, offset);
      var request := ReadRequest(r.base + offset, toRead);
      match ChunkStep(pattern, read, r, offset)
      case Abandon => Scan(None, [request])
      case Found(k) => Scan(Some(r.base + offset + k), [request])
      case Continue =>
        var rest := RegionScan(pattern, read, r, offset + toRead);
        Scan(rest.hit, [request] + rest.requests)
  }

  /**
   * Walks the address space from `addr` up to `maxAddr`: a failed query ends
   * the walk; a region that is not readable is stepped over unread; the next
   * address is `addr` plus the region's size.
   */
  function WalkFrom(pattern: seq<byte>, query: nat -> Option<RegionInfo>,
                    read: (nat, nat) -> Option<seq<byte>>, addr: nat, maxAddr: nat): Scan
    decreases maxAddr - addr
  {
    if addr >= maxAddr then Scan(None, [])
    else match query(addr)
      case None => Scan(None, [])
      case Some(r) =>
        if !Readable(r) then WalkFrom(pattern, query, read, addr + r.size, maxAddr)
        else
          var s := RegionScan(pattern, read, r, 0);
          if s.hit.Some? then s
          else
            var rest := WalkFrom(pattern, query, read, addr + r.size, maxAddr);
            Scan(rest.hit, s.requests + rest.requests)
  }

  /**
   * The reads of a region scan are consecutive chunks: the i-th starts
   * `i * BufferSize` bytes after the starting offset (the offset advances by
   * the length requested, not by the bytes received) and asks for
   * `min(BufferSize, size - its offset)` bytes.
   */
  lemma {:induction false} RegionReadsAreChunks(pattern: seq<byte>, read: (nat, nat) -> Option<seq<byte>>,
                                                r: RegionInfo, offset: nat)
    ensures var requests := RegionScan(pattern, read, r, offset).requests;
            (offset < r.size ==>
               |requests| > 0 && requests[0] == ReadRequest(r.base + offset, ChunkLength(r.size, offset))) &&
            forall i :: 0 <= i < |requests| ==>
              offset + i * BufferSize < r.size &&
              requests[i] == ReadRequest(r.base + offset + i * BufferSize, ChunkLength(r.size, offset + i * BufferSize))
    decreases r.size - offset
  {
    if offset < r.size {
      var s := RegionScan(pattern, read, r, offset);
      var toRead := ChunkLength(r.size, offset);
      var request := ReadRequest(r.base + offset, toRead);
      var rest := RegionScan(pattern, read, r, offset + toRead);
      if ChunkStep(pattern, read, r, offset) == Continue {
        assert s.requests == [request] + rest.requests;
        RegionReadsAreChunks(pattern, read, r, offset + toRead);
        if |rest.requests| > 0 {
          assert toRead == BufferSize;
          forall i | 1 <= i < |s.requests|
            ensures offset + i * BufferSize < r.size
            ensures s.requests[i] == ReadRequest(r.base + offset + i * BufferSize,
                                                 ChunkLength(r.size, offset + i * BufferSize))
          {
            assert s.requests[i] == rest.requests[i - 1];
            assert offset + toRead + (i - 1) * BufferSize == offset + i * BufferSize;
          }
        }
      } else {
        assert s.requests == [request];
      }
    }
  }

  /**
   * Every read of a region scan lies wholly inside the region and asks for
   * between 1 and `BufferSize` bytes: the buffer is never overfilled and no
   * read reaches past the region's reported size.
   */
  lemma RegionReadsStayInRegion(pattern: seq<byte>, read: (nat, nat) -> Option<seq<byte>>,
                                r: RegionInfo, offset: nat)
    ensures forall rq :: rq in RegionScan(pattern, read, r, offset).requests ==>
              r.base + offset <= rq.address && rq.address + rq.length <= r.base + r.size &&
              0 < rq.length <= BufferSize
  {
    RegionReadsAreChunks(pattern, read, r, offset);
  }

  /**
   * The region described by the query at `q` is one the walk may read, and it
   * holds read request `rq` wholly: the request starts inside it, ends at or
   * before its end, and asks for between 1 and `BufferSize` bytes.
   */
  predicate ReadableRegionHolds(query: nat -> Option<RegionInfo>, q: nat, rq: ReadRequest)
  {
    query(q).Some? && Readable(query(q).value) &&
    query(q).value.base <= rq.address &&
    rq.address + rq.length <= query(q).value.base + query(q).value.size &&
    0 < rq.length <= BufferSize
  }

  /**
   * The walk from `addr` queries address `q`, and that query succeeds: `q` is
   * one of `addr`, `addr + size`, ... reached before a query fails or the walk
   * passes `maxAddr`.
   */
  predicate Visited(query: nat -> Option<RegionInfo>, addr: nat, maxAddr: nat, q: nat)
    decreases maxAddr - addr
  {
    addr < maxAddr && query(addr).Some? &&
    (q == addr || Visited(query, addr + query(addr).value.size, maxAddr, q))
  }

  /**
   * The walk reads only regions that pass the filter: every read request lies
   * within a committed, readable region returned by a query the walk made.
   */
  lemma {:induction false} WalkReadsOnlyReadableRegions(pattern: seq<byte>, query: nat -> Option<RegionInfo>,
                                                        read: (nat, nat) -> Option<seq<byte>>, addr: nat, maxAddr: nat)
    ensures forall rq :: rq in WalkFrom(pattern, query, read, addr, maxAddr).requests ==>
              exists q :: Visited(query, addr, maxAddr, q) && ReadableRegionHolds(query, q, rq)
    decreases maxAddr - addr
  {
    if addr < maxAddr && query(addr).Some? {
      var r := query(addr).value;
      WalkReadsOnlyReadableRegions(pattern, query, read, addr + r.size, maxAddr);
      if Readable(r) {
        RegionReadsStayInRegion(pattern, read, r, 0);
        forall rq | rq in RegionScan(pattern, read, r, 0).requests
          ensures Visited(query, addr, maxAddr, addr) && ReadableRegionHolds(query, addr, rq)
        {
        }
      }
    }
  }

  /**
   * Read request `rq` succeeded and the pattern's leftmost occurrence in the
   * bytes received is at absolute address `a`.
   */
  predicate HitAt(pattern: seq<byte>, read: (nat, nat) -> Option<seq<byte>>, rq: ReadRequest, a: nat)
  {
    read(rq.address, rq.length).Some? &&
    var got := Received(read(rq.address, rq.length).value, rq.length);
    Occurrence(pattern, got).Some? && a == rq.address + Occurrence(pattern, got).value
  }

  /** Read request `rq` delivered at least one byte and no occurrence: the region loop goes on. */
  predicate Continued(pattern: seq<byte>, read: (nat, nat) -> Option<seq<byte>>, rq: ReadRequest)
  {
    read(rq.address, rq.length).Some? &&
    var got := Received(read(rq.address, rq.length).value, rq.length);
    |got| > 0 && Occurrence(pattern, got) == None
  }

  /**
   * A region scan stops only where the source's loop does: every request but
   * the last delivered bytes without an occurrence. So a failed or empty read,
   * or a hit, is the last request of the region.
   */
  lemma {:induction false} RegionScanStopsAtFirstStop(pattern: seq<byte>, read: (nat, nat) -> Option<seq<byte>>,
                                                      r: RegionInfo, offset: nat)
    ensures forall i :: 0 <= i < |RegionScan(pattern, read, r, offset).requests| - 1 ==>
              Continued(pattern, read, RegionScan(pattern, read, r, offset).requests[i])
    decreases r.size - offset
  {
    if offset < r.size {
      var s := RegionScan(pattern, read, r, offset);
      var toRead := ChunkLength(r.size, offset);
      var request := ReadRequest(r.base + offset, toRead);
      var rest := RegionScan(pattern, read, r, offset + toRead);
      if ChunkStep(pattern, read, r, offset) == Continue {
        assert Continued(pattern, read, request);
        assert s.requests == [request] + rest.requests;
        RegionScanStopsAtFirstStop(pattern, read, r, offset + toRead);
        forall i | 1 <= i < |s.requests| - 1
          ensures Continued(pattern, read, s.requests[i])
        {
          assert s.requests[i] == rest.requests[i - 1];
        }
      } else {
        assert s.requests == [request];
      }
    }
  }

  /**
   * A region scan whose last request delivered bytes without an occurrence
   * read the region to its end: that request ends exactly at `base + size`.
   */
  lemma {:induction false} RegionScanRunsToEnd(pattern: seq<byte>, read: (nat, nat) -> Option<seq<byte>>,
                                               r: RegionInfo, offset: nat)
    ensures var requests := RegionScan(pattern, read, r, offset).requests;
            |requests| > 0 && Continued(pattern, read, requests[|requests| - 1]) ==>
              requests[|requests| - 1].address + requests[|requests| - 1].length == r.base + r.size
    decreases r.size - offset
  {
    if offset < r.size {
      var s := RegionScan(pattern, read, r, offset);
      var toRead := ChunkLength(r.size, offset);
      var request := ReadRequest(r.base + offset, toRead);
      var rest := RegionScan(pattern, read, r, offset + toRead);
      if ChunkStep(pattern, read, r, offset) == Continue {
        assert s.requests == [request] + rest.requests;
        RegionScanRunsToEnd(pattern, read, r, offset + toRead);
        if rest.requests == [] {
          assert offset + toRead >= r.size;
        }
      } else {
        assert s.requests == [request];
        assert !Continued(pattern, read, request);
      }
    }
  }

  /**
   * The hit of a region scan is the first one in scan order: it comes from the
   * last request of the scan, which read successfully and whose received bytes
   * hold the pattern's leftmost occurrence at `hit - address`, and every
   * earlier request delivered bytes without an occurrence.
   */
  lemma {:induction false} RegionHitIsFirstHit(pattern: seq<byte>, read: (nat, nat) -> Option<seq<byte>>,
                                               r: RegionInfo, offset: nat)
    ensures var s := RegionScan(pattern, read, r, offset);
            s.hit.Some? ==>
              |s.requests| > 0 && HitAt(pattern, read, s.requests[|s.requests| - 1], s.hit.value) &&
              forall i :: 0 <= i < |s.requests| - 1 ==> NoHitIn(pattern, read, s.requests[i])
    decreases r.size - offset
  {
    var s := RegionScan(pattern, read, r, offset);
    if offset < r.size && s.hit.Some? {
      RegionScanStopsAtFirstStop(pattern, read, r, offset);
      var toRead := ChunkLength(r.size, offset);
      var request := ReadRequest(r.base + offset, toRead);
      if ChunkStep(pattern, read, r, offset) == Continue {
        RegionHitIsFirstHit(pattern, read, r, offset + toRead);
      } else {
        assert s.requests == [request];
      }
    }
  }

  /**
   * The hit of a walk is the first one in scan order: it comes from the last
   * request the walk issued, which read successfully and whose received bytes
   * hold the pattern's leftmost occurrence at `hit - address`; every earlier
   * request, in this region or an earlier one, failed or held no occurrence.
   * With `WalkReadsOnlyReadableRegions`, that last request lies in a readable
   * region the walk visited.
   */
  lemma {:induction false} WalkHitIsFirstHit(pattern: seq<byte>, query: nat -> Option<RegionInfo>,
                                             read: (nat, nat) -> Option<seq<byte>>, addr: nat, maxAddr: nat)
    ensures var s := WalkFrom(pattern, query, read, addr, maxAddr);
            s.hit.Some? ==>
              |s.requests| > 0 && HitAt(pattern, read, s.requests[|s.requests| - 1], s.hit.value) &&
              forall i :: 0 <= i < |s.requests| - 1 ==> NoHitIn(pattern, read, s.requests[i])
    decreases maxAddr - addr
  {
    var s := WalkFrom(pattern, query, read, addr, maxAddr);
    if addr < maxAddr && query(addr).Some? && s.hit.Some? {
      var r := query(addr).value;
      var regionScan := RegionScan(pattern, read, r, 0);
      if !Readable(r) {
        WalkHitIsFirstHit(pattern, query, read, addr + r.size, maxAddr);
      } else if regionScan.hit.Some? {
        RegionHitIsFirstHit(pattern, read, r, 0);
      } else {
        var rest := WalkFrom(pattern, query, read, addr + r.size, maxAddr);
        RegionMissMeansNoChunkHit(pattern, read, r, 0);
        WalkHitIsFirstHit(pattern, query, read, addr + r.size, maxAddr);
        assert s.requests == regionScan.requests + rest.requests;
        forall i | 0 <= i < |s.requests| - 1
          ensures NoHitIn(pattern, read, s.requests[i])
        {
          if i < |regionScan.requests| {
            assert s.requests[i] in regionScan.requests;
          } else {
            assert s.requests[i] == rest.requests[i - |regionScan.requests|];
          }
        }
      }
    }
  }

  /** The read request `rq` failed, delivered no bytes, or delivered bytes without the pattern. */
  predicate NoHitIn(pattern: seq<byte>, read: (nat, nat) -> Option<seq<byte>>, rq: ReadRequest)
  {
    match read(rq.address, rq.length)
    case None => true
    case Some(data) => Occurrence(pattern, Received(data, rq.length)) == None
  }

  /** A region scan that finds nothing saw no occurrence in any chunk it asked for. */
  lemma {:induction false} RegionMissMeansNoChunkHit(pattern: seq<byte>, read: (nat, nat) -> Option<seq<byte>>,
                                                     r: RegionInfo, offset: nat)
    ensures var s := RegionScan(pattern, read, r, offset);
            s.hit.None? ==> forall rq :: rq in s.requests ==> NoHitIn(pattern, read, rq)
    decreases r.size - offset
  {
    if offset < r.size {
      var toRead := ChunkLength(r.size, offset);
      RegionMissMeansNoChunkHit(pattern, read, r, offset + toRead);
      match read(r.base + offset, toRead)
      case None =>
      case Some(data) =>
        if |Received(data, toRead)| == 0 {
          OccurrenceCharacterized(pattern, Received(data, toRead), 0);
        }
    }
  }

  /**
   * A walk that finds nothing found nothing it looked at: every chunk it asked
   * for failed, came back empty, or held no occurrence of the pattern.
   */
  lemma {:induction false} WalkMissMeansNoChunkHit(pattern: seq<byte>, query: nat -> Option<RegionInfo>,
                                                   read: (nat, nat) -> Option<seq<byte>>, addr: nat, maxAddr: nat)
    ensures var s := WalkFrom(pattern, query, read, addr, maxAddr);
            s.hit.None? ==> forall rq :: rq in s.requests ==> NoHitIn(pattern, read, rq)
    decreases maxAddr - addr
  {
    if addr < maxAddr && query(addr).Some? {
      var r := query(addr).value;
      WalkMissMeansNoChunkHit(pattern, query, read, addr + r.size, maxAddr);
      if Readable(r) {
        RegionMissMeansNoChunkHit(pattern, read, r, 0);
      }
    }
  }

  /** Every address the walk from `addr` visits lies in `[addr, maxAddr)`. */
  lemma {:induction false} VisitedInRange(query: nat -> Option<RegionInfo>, addr: nat, maxAddr: nat, q: nat)
    requires Visited(query, addr, maxAddr, q)
    ensures addr <= q < maxAddr
    decreases maxAddr - addr
  {
    if q != addr {
      VisitedInRange(query, addr + query(addr).value.size, maxAddr, q);
    }
  }

  /**
   * The walk scans every readable region it reaches: it finds nothing exactly
   * when the scan of every readable region on its address chain finds nothing.
   * A region that misses, or whose reads are abandoned, does not end the walk.
   */
  lemma {:induction false} WalkMissIffRegionsMiss(pattern: seq<byte>, query: nat -> Option<RegionInfo>,
                                                  read: (nat, nat) -> Option<seq<byte>>, addr: nat, maxAddr: nat)
    ensures WalkFrom(pattern, query, read, addr, maxAddr).hit.None? <==>
            forall q :: Visited(query, addr, maxAddr, q) && query(q).Some? && Readable(query(q).value) ==>
              RegionScan(pattern, read, query(q).value, 0).hit.None?
    decreases maxAddr - addr
  {
    if addr < maxAddr && query(addr).Some? {
      WalkMissIffRegionsMiss(pattern, query, read, addr + query(addr).value.size, maxAddr);
      assert Visited(query, addr, maxAddr, addr);
    }
  }

  /**
   * The walk's hit is the hit of the first readable region on its address
   * chain whose scan finds one: that region's scan reports the same address,
   * and the scan of every readable region the walk visited before it (at a
   * lower address) found nothing.
   */
  lemma {:induction false} WalkHitIsFirstRegionHit(pattern: seq<byte>, query: nat -> Option<RegionInfo>,
                                                   read: (nat, nat) -> Option<seq<byte>>, addr: nat, maxAddr: nat)
    ensures var hit := WalkFrom(pattern, query, read, addr, maxAddr).hit;
            hit.Some? ==>
              exists q :: Visited(query, addr, maxAddr, q) && query(q).Some? && Readable(query(q).value) &&
                RegionScan(pattern, read, query(q).value, 0).hit == hit &&
                forall q' :: Visited(query, addr, maxAddr, q') && q' < q &&
                             query(q').Some? && Readable(query(q').value) ==>
                  RegionScan(pattern, read, query(q').value, 0).hit.None?
    decreases maxAddr - addr
  {
    var hit := WalkFrom(pattern, query, read, addr, maxAddr).hit;
    if addr < maxAddr && query(addr).Some? && hit.Some? {
      var r := query(addr).value;
      var next := addr + r.size;
      assert Visited(query, addr, maxAddr, addr);
      if Readable(r) && RegionScan(pattern, read, r, 0).hit.Some? {
        forall q' | Visited(query, addr, maxAddr, q') ensures addr <= q' {
          VisitedInRange(query, addr, maxAddr, q');
        }
      } else {
        WalkHitIsFirstRegionHit(pattern, query, read, next, maxAddr);
        var q :| Visited(query, next, maxAddr, q) && query(q).Some? && Readable(query(q).value) &&
                 RegionScan(pattern, read, query(q).value, 0).hit == hit &&
                 forall q' :: Visited(query, next, maxAddr, q') && q' < q &&
                              query(q').Some? && Readable(query(q').value) ==>
                   RegionScan(pattern, read, query(q').value, 0).hit.None?;
        assert Visited(query, addr, maxAddr, q);
      }
    }
  }

  /**
   * One chunk of a readable region (lines 52-60 of the source): asks the
   * oracle for `min(BufferSize, size - offset)` bytes at `base + offset`, copies
   * what arrived into the scan buffer, and searches the bytes received.
   */
  method ScanChunk(pattern: seq<byte>, read: (nat, nat) -> Option<seq<byte>>,
                   mbi: RegionInfo, offset: nat, buffer: array<byte>)
    returns (outcome: ChunkOutcome)
    requires offset < mbi.size && buffer.Length == BufferSize
    modifies buffer
    ensures outcome == ChunkStep(pattern, read, mbi, offset)
    ensures var toRead := ChunkLength(mbi.size, offset);
            var got := read(mbi.base + offset, toRead);
            got.Some? && |Received(got.value, toRead)| > 0 ==>
              buffer[..|Received(got.value, toRead)|] == Received(got.value, toRead)
    ensures var toRead := ChunkLength(mbi.size, offset);
            var got := read(mbi.base + offset, toRead);
            var n := if got.Some? then |Received(got.value, toRead)| else 0;
            buffer[n..] == old(buffer[n..])
  {
    var toRead := Min(BufferSize, mbi.size - offset);
    var got := read(mbi.base + offset, toRead);
    if got.Some? && |Received(got.value, toRead)| > 0 {
      var data := Received(got.value, toRead);
      var bytesRead := |data|;
      forall t | 0 <= t < bytesRead {
        buffer[t] := data[t];
      }
      assert buffer[..bytesRead] == data;
      var k := Search(pattern, buffer, bytesRead);
      if k.Some? {
        return Found(k.value);
      }
      return Continue;
    }
    return Abandon;
  }

  /**
   * The inner loop of the walk for one readable region (lines 47-65 of the
   * source): reads the region chunk by chunk into the shared scan buffer,
   * searching each chunk as it arrives, and stops at the first hit or at a
   * failed or empty read. Returns the absolute address of the hit, if any.
   */
  method ScanRegion(pattern: seq<byte>, read: (nat, nat) -> Option<seq<byte>>,
                    mbi: RegionInfo, buffer: array<byte>)
    returns (hit: Option<nat>)
    requires buffer.Length == BufferSize
    modifies buffer
    ensures hit == RegionScan(pattern, read, mbi, 0).hit
  {
    var regionSize := mbi.size;
    var regionBase := mbi.base;
    var offset: nat := 0;
    while offset < regionSize
      invariant offset <= regionSize
      invariant RegionScan(pattern, read, mbi, 0).hit == RegionScan(pattern, read, mbi, offset).hit
      decreases regionSize - offset
    {
      var toRead := Min(BufferSize, regionSize - offset);
      assert toRead == ChunkLength(mbi.size, offset);
      var outcome := ScanChunk(pattern, read, mbi, offset, buffer);
      match outcome
      case Abandon =>
        return None;
      case Found(k) =>
        return Some(regionBase + offset + k);
      case Continue =>
        offset := offset + toRead;
    }
    return None;
  }

  /**
   * `ScanProcessMemory`: walks from `minAddr` while the address is below
   * `maxAddr`, reading each readable region chunk by chunk into one reused
   * 64 KiB buffer and searching each chunk. Returns the absolute address of the
   * first hit, or 0 when a query fails or the walk reaches `maxAddr` first.
   */
  method ScanProcessMemory(pattern: seq<byte>, minAddr: nat, maxAddr: nat,
                           query: nat -> Option<RegionInfo>, read: (nat, nat) -> Option<seq<byte>>)
    returns (found: nat)
    ensures found == match WalkFrom(pattern, query, read, minAddr, maxAddr).hit
                     case Some(a) => a
                     case None => 0
  {
    var addr := minAddr;
    var buffer := new byte[BufferSize];
    while addr < maxAddr
      invariant fresh(buffer) && buffer.Length == BufferSize
      invariant WalkFrom(pattern, query, read, minAddr, maxAddr).hit ==
                WalkFrom(pattern, query, read, addr, maxAddr).hit
      decreases maxAddr - addr
    {
      var info := query(addr);
      if info.None? {
        break;
      }
      var mbi := info.value;
      if Readable(mbi) {
        var hit := ScanRegion(pattern, read, mbi, buffer);
        if hit.Some? {
          return hit.value;
        }
      }
      addr := addr + mbi.size;
    }
    return 0;
  }
}
