/**
 * The pattern matcher of the memory scanner: `aobscan`, a Boyer-Moore-Horspool
 * search for a byte pattern in a byte buffer, driven by a 256-entry
 * bad-character shift table.
 *
 * The reference meaning of a search is `Occurrence`: the leftmost offset at which
 * the pattern occurs, and never an offset for the empty pattern. `Shift` is the
 * reference meaning of one table entry. The methods `BuildShiftTable` and `Search`
 * follow the source's loops and are proved against those two functions.
 */
module PatternMatcher {
  import opened Wrappers

  /** An unsigned 8-bit value, as `BYTE` is in the scanner. */
  type byte = b: int | 0 <= b < 256

  /** Number of entries of the bad-character table: one per byte value. */
  const AlphabetSize: nat := 256

  /** `pattern` occurs in `buffer` at offset `k`, wholly inside the buffer. */
  predicate MatchesAt(pattern: seq<byte>, buffer: seq<byte>, k: nat)
  {
    k + |pattern| <= |buffer| &&
    forall j :: 0 <= j < |pattern| ==> buffer[k + j] == pattern[j]
  }

  /** The leftmost offset at or after `k` where `pattern` occurs in `buffer`. */
  function FirstMatchFrom(pattern: seq<byte>, buffer: seq<byte>, k: nat): Option<nat>
    decreases |buffer| - k
  {
    if k + |pattern| > |buffer| then None
    else if MatchesAt(pattern, buffer, k) then Some(k)
    else FirstMatchFrom(pattern, buffer, k + 1)
  }

  /**
   * What a search is meant to find: the leftmost occurrence of a non-empty
   * pattern; an empty pattern is never found.
   */
  function Occurrence(pattern: seq<byte>, buffer: seq<byte>): Option<nat>
  {
    if |pattern| == 0 then None else FirstMatchFrom(pattern, buffer, 0)
  }

  lemma {:induction false} FirstMatchFromIsLeftmost(pattern: seq<byte>, buffer: seq<byte>, k: nat)
    ensures var r := FirstMatchFrom(pattern, buffer, k);
            (r.Some? ==> k <= r.value && MatchesAt(pattern, buffer, r.value) &&
                         forall k' :: k <= k' < r.value ==> !MatchesAt(pattern, buffer, k')) &&
            (r.None? ==> forall k' :: k <= k' ==> !MatchesAt(pattern, buffer, k'))
    decreases |buffer| - k
  {
    if k + |pattern| <= |buffer| && !MatchesAt(pattern, buffer, k) {
      FirstMatchFromIsLeftmost(pattern, buffer, k + 1);
    }
  }

  /**
   * `Occurrence` returns offset `k` exactly when the pattern is non-empty, occurs
   * at `k` and occurs nowhere before `k`; it returns None exactly when the
   * pattern is empty or occurs nowhere.
   */
  lemma OccurrenceCharacterized(pattern: seq<byte>, buffer: seq<byte>, k: nat)
    ensures Occurrence(pattern, buffer) == Some(k) <==>
            |pattern| > 0 && MatchesAt(pattern, buffer, k) &&
            forall k' :: 0 <= k' < k ==> !MatchesAt(pattern, buffer, k')
    ensures Occurrence(pattern, buffer) == None <==>
            |pattern| == 0 || forall k' :: !MatchesAt(pattern, buffer, k')
  {
    FirstMatchFromIsLeftmost(pattern, buffer, 0);
  }

  /**
   * Soundness in terms of slices: a found offset leaves room for the whole
   * pattern, and the bytes there are the pattern.
   */
  lemma OccurrenceIsSound(pattern: seq<byte>, buffer: seq<byte>)
    ensures Occurrence(pattern, buffer).Some? ==>
            var k := Occurrence(pattern, buffer).value;
            k + |pattern| <= |buffer| && buffer[k..k + |pattern|] == pattern
  {
    if Occurrence(pattern, buffer).Some? {
      var k := Occurrence(pattern, buffer).value;
      OccurrenceCharacterized(pattern, buffer, k);
      assert buffer[k..k + |pattern|] == pattern;
    }
  }

  /** The last index `i < n` with `pattern[i] == c`, if there is one. */
  function LastIndexBefore(pattern: seq<byte>, c: byte, n: nat): (r: Option<nat>)
    requires n <= |pattern|
    ensures r.Some? ==> r.value < n && pattern[r.value] == c
  {
    if n == 0 then None
    else if pattern[n - 1] == c then Some(n - 1)
    else LastIndexBefore(pattern, c, n - 1)
  }

  lemma {:induction false} LastIndexBeforeIsLast(pattern: seq<byte>, c: byte, n: nat)
    requires n <= |pattern|
    ensures var r := LastIndexBefore(pattern, c, n);
            (r.Some? ==> r.value < n && pattern[r.value] == c &&
                         forall t :: r.value < t < n ==> pattern[t] != c) &&
            (r.None? ==> forall t :: 0 <= t < n ==> pattern[t] != c)
  {
    if n > 0 && pattern[n - 1] != c {
      LastIndexBeforeIsLast(pattern, c, n - 1);
    }
  }

  /**
   * The entry for byte `c` once the first `n` positions of the pattern have been
   * entered into the table: the distance from the last of them holding `c` to
   * the pattern's last position, or the pattern length if none holds `c`.
   */
  function ShiftAfter(pattern: seq<byte>, c: byte, n: nat): nat
    requires n <= |pattern|
  {
    match LastIndexBefore(pattern, c, n)
    case Some(i) => |pattern| - 1 - i
    case None => |pattern|
  }

  /**
   * The bad-character shift for byte `c`: it is decided by the last occurrence
   * of `c` in the pattern without its final position.
   */
  function Shift(pattern: seq<byte>, c: byte): nat
    requires |pattern| > 0
  {
    ShiftAfter(pattern, c, |pattern| - 1)
  }

  /** Every entry of the table lies in 1..|pattern|, so every shift advances. */
  lemma ShiftInRange(pattern: seq<byte>, c: byte)
    requires |pattern| > 0
    ensures 1 <= Shift(pattern, c) <= |pattern|
  {
    LastIndexBeforeIsLast(pattern, c, |pattern| - 1);
  }

  /** A byte absent from the pattern (without its final position) shifts by the whole length. */
  lemma ShiftOfAbsentByte(pattern: seq<byte>, c: byte)
    requires |pattern| > 0
    requires forall t :: 0 <= t < |pattern| - 1 ==> pattern[t] != c
    ensures Shift(pattern, c) == |pattern|
  {
    LastIndexBeforeIsLast(pattern, c, |pattern| - 1);
  }

  /** A byte whose last occurrence before the final position is `i` shifts by `|pattern| - 1 - i`. */
  lemma ShiftOfLastOccurrence(pattern: seq<byte>, c: byte, i: nat)
    requires i < |pattern| - 1 && pattern[i] == c
    requires forall t :: i < t < |pattern| - 1 ==> pattern[t] != c
    ensures Shift(pattern, c) == |pattern| - 1 - i
  {
    LastIndexBeforeIsLast(pattern, c, |pattern| - 1);
  }

  /**
   * The Horspool shift never skips an occurrence: when the window at `i` is
   * moved by the shift of its LAST byte, no offset strictly between the old and
   * the new window start holds the pattern.
   */
  lemma ShiftSkipsNoMatch(pattern: seq<byte>, buffer: seq<byte>, i: nat, k: nat)
    requires |pattern| > 0 && i + |pattern| <= |buffer|
    requires i < k < i + Shift(pattern, buffer[i + |pattern| - 1])
    ensures !MatchesAt(pattern, buffer, k)
  {
    var m := |pattern|;
    var c := buffer[i + m - 1];
    LastIndexBeforeIsLast(pattern, c, m - 1);
    // The window's last byte sits at position t of a window starting at k,
    // and the pattern does not hold that byte there.
    var t := i + m - 1 - k;
    assert pattern[t] != buffer[k + t];
  }

  /**
   * Builds the bad-character table (lines 11-15 of the source): every entry
   * starts at the pattern length, then each position but the last overwrites the
   * entry of its byte with its distance to the last position.
   */
  method BuildShiftTable(pattern: seq<byte>) returns (table: array<nat>)
    requires |pattern| > 0
    ensures fresh(table) && table.Length == AlphabetSize
    ensures forall c: byte :: table[c] == Shift(pattern, c)
  {
    var m := |pattern|;
    table := new nat[AlphabetSize];
    for c := 0 to AlphabetSize
      invariant forall d :: 0 <= d < c ==> table[d] == m
    {
      table[c] := m;
    }
    for i := 0 to m - 1
      invariant forall c: byte :: table[c] == ShiftAfter(pattern, c, i)
    {
      table[pattern[i]] := m - 1 - i;
    }
  }

  /**
   * `aobscan`: searches the first `bufferLen` bytes of `buffer` for `pattern`
   * and returns the offset of the leftmost occurrence. Windows are compared
   * from their last byte down to their first; on a mismatch the window moves by
   * the table entry of the byte at its last position.
   */
  method Search(pattern: seq<byte>, buffer: array<byte>, bufferLen: nat) returns (r: Option<nat>)
    requires bufferLen <= buffer.Length
    ensures r == Occurrence(pattern, buffer[..bufferLen])
    ensures |pattern| == 0 || bufferLen < |pattern| ==> r == None
  {
    var m := |pattern|;
    ghost var b := buffer[..bufferLen];
    if m == 0 || bufferLen < m {
      OccurrenceCharacterized(pattern, b, 0);
      return None;
    }
    var table := BuildShiftTable(pattern);
    var i := 0;
    while i + m <= bufferLen
      invariant i <= bufferLen
      invariant forall c: byte :: table[c] == Shift(pattern, c)
      invariant forall k :: 0 <= k < i ==> !MatchesAt(pattern, b, k)
      decreases bufferLen - i
    {
      var j: nat := m - 1;
      while j < m && pattern[j] == buffer[i + j]
        invariant j < m && i + j < bufferLen
        invariant forall t :: j < t < m ==> pattern[t] == b[i + t]
        decreases j
      {
        if j == 0 {
          assert MatchesAt(pattern, b, i);
          OccurrenceCharacterized(pattern, b, i);
          return Some(i);
        }
        j := j - 1;
      }
      assert !MatchesAt(pattern, b, i) by {
        assert b[i + j] != pattern[j];
      }
      var c := buffer[i + m - 1];
      ShiftInRange(pattern, c);
      forall k | i < k < i + table[c]
        ensures !MatchesAt(pattern, b, k)
      {
        ShiftSkipsNoMatch(pattern, b, i, k);
      }
      i := i + table[c];
    }
    OccurrenceCharacterized(pattern, b, 0);
    return None;
  }
}
