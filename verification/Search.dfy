/** The RAM search in bounded, overlapping chunks
    (crates/minemu-unicorn/src/backend.rs, `search_memory`). */
module Search {
  import opened Platform
  import opened Bytes

  const CHUNK_SIZE := 0x10_0000

  datatype SearchError = EmptySearchPattern | SearchPatternTooLarge

  predicate OccursAt(bytes: seq<u8>, pattern: seq<u8>, i: nat) {
    i + |pattern| <= |bytes| && bytes[i..i + |pattern|] == pattern
  }

  /** `windows(..).position(..)`: the first occurrence at or after `i`. */
  function FirstFrom(bytes: seq<u8>, pattern: seq<u8>, i: nat): (r: Option<nat>)
    requires pattern != []
    ensures r.Some? ==> i <= r.value && OccursAt(bytes, pattern, r.value)
    ensures forall j: nat | i <= j && OccursAt(bytes, pattern, j) :: r.Some? && r.value <= j
    decreases |bytes| - i
  {
    if i + |pattern| > |bytes| then None
    else if OccursAt(bytes, pattern, i) then Some(i)
    else FirstFrom(bytes, pattern, i + 1)
  }

  /** A window of a chunk is the same window of RAM. */
  lemma OccursInChunk(ram: seq<u8>, pattern: seq<u8>, offset: nat, length: nat, i: nat)
    requires offset + length <= |ram| && i + |pattern| <= length
    ensures OccursAt(ram[offset..offset + length], pattern, i) <==> OccursAt(ram, pattern, offset + i)
  {
    SliceOfSlice(ram, offset, offset + length, i, i + |pattern|);
  }

  /** `search_memory`: finds what a search of RAM as a whole finds, its lowest match. */
  method SearchMemory(ram: seq<u8>, pattern: seq<u8>) returns (r: Result<Option<u32>, SearchError>)
    requires |ram| == RAM_SIZE
    ensures pattern == [] ==> r == Err(EmptySearchPattern)
    ensures |pattern| > CHUNK_SIZE ==> r == Err(SearchPatternTooLarge)
    ensures 0 < |pattern| <= CHUNK_SIZE ==>
      match FirstFrom(ram, pattern, 0)
      case None => r == Ok(None)
      case Some(index) => r == Ok(Some(RAM_BASE + index))
  {
    if pattern == [] { return Err(EmptySearchPattern); }
    if |pattern| > CHUNK_SIZE { return Err(SearchPatternTooLarge); }
    var overlap := |pattern| - 1;
    var offset := 0;
    while offset < |ram|
      invariant forall j: nat | j < offset :: !OccursAt(ram, pattern, j)
    {
      var length := if CHUNK_SIZE + overlap < |ram| - offset then CHUNK_SIZE + overlap else |ram| - offset;
      var bytes := ram[offset..offset + length];
      var found := FirstFrom(bytes, pattern, 0);
      forall i: nat | i + |pattern| <= length
        ensures OccursAt(bytes, pattern, i) <==> OccursAt(ram, pattern, offset + i)
      {
        OccursInChunk(ram, pattern, offset, length, i);
      }
      forall j: nat | OccursAt(ram, pattern, j) && j < offset + CHUNK_SIZE
        ensures found.Some? && offset + found.value <= j
      {
        assert OccursAt(bytes, pattern, j - offset);
      }
      if found.Some? {
        assert OccursAt(ram, pattern, offset + found.value);
        return Ok(Some(RAM_BASE + offset + found.value));
      }
      offset := offset + CHUNK_SIZE;
    }
    return Ok(None);
  }
}
