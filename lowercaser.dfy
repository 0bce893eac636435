/**
 * The lowercaser's code point lookup (`CSphLowercaser::ToLower`) and the
 * remap ranges it is built from.
 *
 * The table is sparse and two-level: `CHUNK_COUNT` chunk slots, each either
 * unallocated (a NULL pointer) or a chunk of `CHUNK_SIZE` entries. Code
 * `c` lives in chunk `c >> CHUNK_BITS` at entry `c & CHUNK_MASK`; for a
 * non-negative `c` these are `c / CHUNK_SIZE` and `c % CHUNK_SIZE`.
 */
module Lowercaser {
  import opened Wrappers

  const CHUNK_COUNT: nat := 0x300
  const CHUNK_BITS: nat := 8
  /** `1 << CHUNK_BITS`. */
  const CHUNK_SIZE: nat := 256
  /** `CHUNK_SIZE - 1`: the low `CHUNK_BITS` bits of a code. */
  const CHUNK_MASK: nat := 255
  /** One past the largest code the table covers. */
  const MAX_CODE: nat := CHUNK_COUNT * CHUNK_SIZE

  /** `CSphRemapRange`: codes `start..end` map to `remapStart` onwards. */
  datatype RemapRange = RemapRange(start: int, end: int, remapStart: int)

  /** The default remap range: every bound is the -1 sentinel. */
  function DefaultRemapRange(): (r: RemapRange)
    ensures r.start == -1 && r.end == -1 && r.remapStart == -1
  {
    RemapRange(-1, -1, -1)
  }

  /** `operator <` on remap ranges: ordered by start code only. */
  predicate RemapLess(a: RemapRange, b: RemapRange): (r: bool)
    ensures r ==> a != b
    ensures a.start == b.start ==> !r
  {
    a.start < b.start
  }

  /**
   * The remap order is a strict weak order, as sorting requires: irreflexive,
   * transitive, and two ranges are unordered exactly when they share a start.
   */
  lemma RemapLessIsStrictWeakOrder(a: RemapRange, b: RemapRange, c: RemapRange)
    ensures !RemapLess(a, a)
    ensures RemapLess(a, b) && RemapLess(b, c) ==> RemapLess(a, c)
    ensures !RemapLess(a, b) && !RemapLess(b, a) <==> a.start == b.start
    ensures RemapLess(a, b) ==> !RemapLess(b, a)
  {
  }

  /** The lookup table: one slot per chunk, `None` for an unallocated chunk. */
  datatype Table = Table(chunks: seq<Option<seq<int>>>)

  /** A well-formed table: `CHUNK_COUNT` slots, every allocated chunk full-sized. */
  predicate ValidTable(t: Table)
  {
    |t.chunks| == CHUNK_COUNT && ChunksSized(t.chunks)
  }

  predicate ChunksSized(chunks: seq<Option<seq<int>>>)
  {
    forall k :: 0 <= k < |chunks| && chunks[k].Some? ==> |chunks[k].value| == CHUNK_SIZE
  }

  /**
   * `ToLower(iCode)`: codes at or past `MAX_CODE` and codes whose chunk is
   * unallocated map to 0; any other code maps to its entry in its chunk.
   */
  function ToLower(t: Table, code: int): (r: int)
    requires ValidTable(t) && code >= 0
    ensures code >= MAX_CODE ==> r == 0
    ensures code < MAX_CODE && t.chunks[code / CHUNK_SIZE].None? ==> r == 0
  {
    if code >= MAX_CODE then 0
    else
      match t.chunks[code / CHUNK_SIZE]
      case Some(chunk) => chunk[code % CHUNK_SIZE]
      case None => 0
  }

  /** The entries a chunk slot contributes: an unallocated chunk reads as zeros. */
  function ChunkEntries(slot: Option<seq<int>>): seq<int>
  {
    match slot
    case Some(chunk) => chunk
    case None => seq(CHUNK_SIZE, _ => 0)
  }

  /** The table laid out flat: one entry for every code below the table's end. */
  function Dense(chunks: seq<Option<seq<int>>>): (d: seq<int>)
    requires ChunksSized(chunks)
    ensures |d| == |chunks| * CHUNK_SIZE
  {
    if |chunks| == 0 then []
    else ChunkEntries(chunks[0]) + Dense(chunks[1..])
  }

  /** Entry `code` of the flat layout is entry `code % 256` of chunk `code / 256`. */
  lemma {:induction false} DenseAt(chunks: seq<Option<seq<int>>>, code: nat)
    requires ChunksSized(chunks) && code < |chunks| * CHUNK_SIZE
    ensures code / CHUNK_SIZE < |chunks|
    ensures Dense(chunks)[code] == ChunkEntries(chunks[code / CHUNK_SIZE])[code % CHUNK_SIZE]
  {
    if code >= CHUNK_SIZE {
      var rest := chunks[1..];
      assert ChunksSized(rest) by {
        forall k | 0 <= k < |rest| && rest[k].Some?
          ensures |rest[k].value| == CHUNK_SIZE
        {
          assert rest[k] == chunks[k + 1];
        }
      }
      DenseAt(rest, code - CHUNK_SIZE);
      assert (code - CHUNK_SIZE) / CHUNK_SIZE == code / CHUNK_SIZE - 1;
      assert (code - CHUNK_SIZE) % CHUNK_SIZE == code % CHUNK_SIZE;
    }
  }

  /**
   * The sparse lookup agrees with the flat table: every code below
   * `MAX_CODE` reads its flat entry, every code at or past it reads 0.
   */
  lemma ToLowerIsDenseLookup(t: Table, code: nat)
    requires ValidTable(t)
    ensures code < MAX_CODE ==> ToLower(t, code) == Dense(t.chunks)[code]
    ensures code >= MAX_CODE ==> ToLower(t, code) == 0
  {
    if code < MAX_CODE {
      DenseAt(t.chunks, code);
    }
  }

  /** An empty table (no chunk allocated) maps every code to 0. */
  lemma EmptyTableMapsToZero(code: nat)
    ensures ValidTable(Table(seq(CHUNK_COUNT, _ => None)))
    ensures ToLower(Table(seq(CHUNK_COUNT, _ => None)), code) == 0
  {
  }
}
