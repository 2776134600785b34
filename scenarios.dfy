/**
 * Concrete scenarios for the scanner, stated on the reference functions
 * `Occurrence` and `WalkFrom`: two searches; a walk that finds its pattern and
 * the same walk with every read failing; a pattern straddling the 64 KiB chunk
 * boundary, and one straddling the boundary of two adjacent regions, neither
 * of which is reported; and a hit at address 0, which `ScanProcessMemory`
 * cannot tell apart from "not found".
 */
module Scenarios {
  import opened Wrappers
  import opened PatternMatcher
  import opened RegionWalker

  const A: byte := 0x41
  const B: byte := 0x42
  const C: byte := 0x43
  const X: byte := 0x58
  const Y: byte := 0x59

  /** "ABC" in "XXABCYY" is found at offset 2. */
  lemma SearchFindsAbcAtTwo()
    ensures Occurrence([A, B, C], [X, X, A, B, C, Y, Y]) == Some(2)
  {
    var p, b := [A, B, C], [X, X, A, B, C, Y, Y];
    assert b[0] != p[0] && b[1] != p[0];
    OccurrenceCharacterized(p, b, 2);
  }

  /** "AB" is not found in a buffer holding no "AB", even though both bytes occur. */
  lemma SearchMissesAbsentPattern()
    ensures Occurrence([A, B], [B, A, X, A]) == None
  {
    var p, b := [A, B], [B, A, X, A];
    assert forall k: nat :: !MatchesAt(p, b, k) by {
      forall k: nat ensures !MatchesAt(p, b, k) {
        if k < 3 {
          assert b[k] != p[0] || b[k + 1] != p[1];
        }
      }
    }
    OccurrenceCharacterized(p, b, 0);
  }

  /** Base address of the scenario regions. */
  const Base: nat := 0x10000

  /** The target's memory: "AB" at `Base + at`, zeros elsewhere. */
  function Memory(at: nat, a: int): byte
  {
    if a == Base + at then A else if a == Base + at + 1 then B else 0
  }

  /** The `n` bytes of that memory from address `a` on. */
  function Bytes(at: nat, a: nat, n: nat): (r: seq<byte>)
    ensures |r| == n && forall i :: 0 <= i < n ==> r[i] == Memory(at, a + i)
  {
    seq<byte>(n, i => Memory(at, a + i))
  }

  /** A read oracle that always delivers the `n` bytes asked for. */
  function ReadAll(at: nat): (nat, nat) -> Option<seq<byte>>
  {
    (a: nat, n: nat) => Some(Bytes(at, a, n))
  }

  /** A query oracle knowing one committed, read-only region of `size` bytes at `Base`. */
  function OneRegion(size: RegionSize): nat -> Option<RegionInfo>
  {
    (a: nat) => if a == Base then Some(RegionInfo(Base, size, MemCommit, PageReadOnly)) else None
  }

  /** A region of 100 bytes holding "AB" at byte 50, bounds matching the region: found at `Base + 50`. */
  lemma WalkFindsPatternInRegion()
    ensures WalkFrom([A, B], OneRegion(100), ReadAll(50), Base, Base + 100).hit == Some(Base + 50)
  {
    var p := [A, B];
    var data := Bytes(50, Base, 100);
    assert ReadAll(50)(Base, 100) == Some(data);
    assert forall k :: 0 <= k < 50 ==> !MatchesAt(p, data, k) by {
      forall k | 0 <= k < 50 ensures !MatchesAt(p, data, k) {
        assert data[k] != p[0];
      }
    }
    assert MatchesAt(p, data, 50);
    OccurrenceCharacterized(p, data, 50);
    assert Classify(p, Some(data), 100) == Found(50);
  }

  /**
   * The same region and memory, but every read fails: the walk that finds
   * `Base + 50` when reads succeed finds nothing.
   */
  lemma WalkMissesPatternWhenReadFails()
    ensures WalkFrom([A, B], OneRegion(100), ReadAll(50), Base, Base + 100).hit == Some(Base + 50)
    ensures WalkFrom([A, B], OneRegion(100), (a: nat, n: nat) => None, Base, Base + 100).hit == None
  {
    WalkFindsPatternInRegion();
    assert Readable(RegionInfo(Base, 100, MemCommit, PageReadOnly));
  }

  /**
   * A region of `BufferSize + 1` bytes whose last byte of the first chunk is
   * 'A' and whose first byte of the second chunk is 'B': the memory holds "AB"
   * at `Base + BufferSize - 1`, yet the walk reports nothing, because each chunk
   * is searched on its own.
   */
  lemma WalkMissesPatternAcrossChunkBoundary()
    ensures ReadAll(BufferSize - 1)(Base + BufferSize - 1, 2) == Some([A, B])
    ensures WalkFrom([A, B], OneRegion(BufferSize + 1), ReadAll(BufferSize - 1),
                     Base, Base + BufferSize + 1).hit == None
  {
    var p := [A, B];
    var at := BufferSize - 1;
    var r := RegionInfo(Base, BufferSize + 1, MemCommit, PageReadOnly);
    assert Bytes(at, Base + at, 2) == [A, B];
    // First chunk: "A" is its last byte, so no window of two bytes holds "AB".
    var first := Bytes(at, Base, BufferSize);
    assert forall k: nat :: !MatchesAt(p, first, k) by {
      forall k: nat ensures !MatchesAt(p, first, k) {
        if k + 2 <= BufferSize {
          assert first[k] != p[0];
        }
      }
    }
    OccurrenceCharacterized(p, first, 0);
    assert ChunkStep(p, ReadAll(at), r, 0) == Continue;
    // Second chunk: a single byte, shorter than the pattern.
    var second := Bytes(at, Base + BufferSize, 1);
    OccurrenceCharacterized(p, second, 0);
    assert ChunkStep(p, ReadAll(at), r, BufferSize) == Continue;
    assert RegionScan(p, ReadAll(at), r, BufferSize + 1).hit == None;
    assert RegionScan(p, ReadAll(at), r, BufferSize).hit == None;
    assert RegionScan(p, ReadAll(at), r, 0).hit == None;
    assert Readable(r);
    assert OneRegion(BufferSize + 1)(Base) == Some(r);
  }

  /** A query oracle knowing two adjacent readable regions of 100 bytes, at `Base` and `Base + 100`. */
  function TwoRegions(): nat -> Option<RegionInfo>
  {
    (a: nat) =>
      if a == Base then Some(RegionInfo(Base, 100, MemCommit, PageReadOnly))
      else if a == Base + 100 then Some(RegionInfo(Base + 100, 100, MemCommit, PageReadOnly))
      else None
  }

  /**
   * "AB" straddles the boundary of two adjacent readable regions: 'A' is the
   * last byte of the first, 'B' the first byte of the second. The memory holds
   * "AB" at `Base + 99`, yet the walk reports nothing, because each region is
   * searched on its own.
   */
  lemma WalkMissesPatternAcrossRegionBoundary()
    ensures ReadAll(99)(Base + 99, 2) == Some([A, B])
    ensures WalkFrom([A, B], TwoRegions(), ReadAll(99), Base, Base + 200).hit == None
  {
    var p := [A, B];
    var r1 := RegionInfo(Base, 100, MemCommit, PageReadOnly);
    var r2 := RegionInfo(Base + 100, 100, MemCommit, PageReadOnly);
    assert Bytes(99, Base + 99, 2) == [A, B];
    // First region: 'A' is its last byte.
    var first := Bytes(99, Base, 100);
    assert forall k: nat :: !MatchesAt(p, first, k) by {
      forall k: nat ensures !MatchesAt(p, first, k) {
        if k + 2 <= 100 {
          assert first[k] != p[0];
        }
      }
    }
    OccurrenceCharacterized(p, first, 0);
    assert RegionScan(p, ReadAll(99), r1, 0).hit == None;
    // Second region: 'B' is its first byte, and no 'A' follows.
    var second := Bytes(99, Base + 100, 100);
    assert forall k: nat :: !MatchesAt(p, second, k) by {
      forall k: nat ensures !MatchesAt(p, second, k) {
        if k + 2 <= 100 {
          assert second[k] != p[0];
        }
      }
    }
    OccurrenceCharacterized(p, second, 0);
    assert RegionScan(p, ReadAll(99), r2, 0).hit == None;
    assert Readable(r1) && Readable(r2);
    assert TwoRegions()(Base) == Some(r1) && TwoRegions()(Base + 100) == Some(r2);
    assert WalkFrom(p, TwoRegions(), ReadAll(99), Base + 100, Base + 200).hit == None;
  }

  /** A query oracle knowing one readable region of 100 bytes at address 0. */
  function RegionAtZero(): nat -> Option<RegionInfo>
  {
    (a: nat) => if a == 0 then Some(RegionInfo(0, 100, MemCommit, PageReadOnly)) else None
  }

  /** The `n` bytes from address `a` of a memory holding 'A' at address 0 and zeros elsewhere. */
  function BytesFromZero(a: nat, n: nat): (r: seq<byte>)
    ensures |r| == n && forall i :: 0 <= i < n ==> r[i] == (if a + i == 0 then A else 0)
  {
    seq<byte>(n, i => if a + i == 0 then A else 0)
  }

  /**
   * A hit at absolute address 0: a readable region at base 0 holding the
   * pattern at its first byte. The walk finds `Some(0)`, which
   * `ScanProcessMemory` reports as 0, the same value it returns for "not found".
   */
  lemma WalkHitAtAddressZero()
    ensures WalkFrom([A], RegionAtZero(), (a: nat, n: nat) => Some(BytesFromZero(a, n)), 0, 100).hit == Some(0)
  {
    var read := (a: nat, n: nat) => Some(BytesFromZero(a, n));
    var r := RegionInfo(0, 100, MemCommit, PageReadOnly);
    var data := BytesFromZero(0, 100);
    assert MatchesAt([A], data, 0);
    OccurrenceCharacterized([A], data, 0);
    assert ChunkStep([A], read, r, 0) == Found(0);
    assert RegionScan([A], read, r, 0).hit == Some(0);
    assert Readable(r) && RegionAtZero()(0) == Some(r);
  }
}
