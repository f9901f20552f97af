/** Concatenated parts, where each part is found, and filling a buffer zone by zone. */
module Layout {
  import opened Platform
  import opened Bytes

  function Flat<T>(parts: seq<seq<T>>): seq<T> {
    if parts == [] then [] else Flat(parts[..|parts| - 1]) + parts[|parts| - 1]
  }

  /** Where part `i` starts. */
  function Off<T>(parts: seq<seq<T>>, i: nat): nat
    requires i <= |parts|
  {
    |Flat(parts[..i])|
  }

  /** `data` is found at `offset`. */
  predicate At<T(==)>(s: seq<T>, offset: nat, data: seq<T>) {
    offset + |data| <= |s| && s[offset..offset + |data|] == data
  }

  lemma OffNext<T>(parts: seq<seq<T>>, i: nat)
    requires i < |parts|
    ensures Off(parts, i + 1) == Off(parts, i) + |parts[i]|
  {
    assert parts[..i + 1][..i] == parts[..i];
  }

  lemma OffEnds<T>(parts: seq<seq<T>>)
    ensures Off(parts, 0) == 0 && Off(parts, |parts|) == |Flat(parts)|
  {
    assert parts[..|parts|] == parts;
  }

  lemma {:induction false} OffMonotone<T>(parts: seq<seq<T>>, i: nat, j: nat)
    requires i <= j <= |parts|
    ensures Off(parts, i) <= Off(parts, j) <= |Flat(parts)|
    decreases |parts| - i
  {
    OffEnds(parts);
    if i < j {
      OffNext(parts, i);
      OffMonotone(parts, i + 1, j);
    } else if j < |parts| {
      OffNext(parts, j);
      OffMonotone(parts, j + 1, |parts|);
    }
  }

  /** A part ends no later than any later part starts. */
  lemma PartsInOrder<T>(parts: seq<seq<T>>, i: nat, j: nat)
    requires i < j <= |parts|
    ensures Off(parts, i) + |parts[i]| <= Off(parts, j)
  {
    OffNext(parts, i);
    OffMonotone(parts, i + 1, j);
  }

  /** Every part is found at its offset. */
  lemma {:induction false} FlatAt<T>(parts: seq<seq<T>>, i: nat)
    requires i < |parts|
    ensures At(Flat(parts), Off(parts, i), parts[i])
    decreases |parts|
  {
    var front, last := parts[..|parts| - 1], parts[|parts| - 1];
    if i < |parts| - 1 {
      FlatAt(front, i);
      assert front[..i] == parts[..i];
      AtExtends(Flat(front), Off(front, i), front[i], last);
    } else {
      assert parts[..i] == front;
    }
  }

  lemma AtExtends<T>(s: seq<T>, offset: nat, data: seq<T>, more: seq<T>)
    requires At(s, offset, data)
    ensures At(s + more, offset, data)
  {
    assert (s + more)[offset..offset + |data|] == s[offset..offset + |data|];
  }

  lemma AtInside<T>(s: seq<T>, outer: nat, data: seq<T>, inner: nat, part: seq<T>)
    requires At(s, outer, data) && At(data, inner, part)
    ensures At(s, outer + inner, part)
  {
    SliceOfSlice(s, outer, outer + |data|, inner, inner + |part|);
  }

  /** Parts of equal length sit at multiples of it. */
  lemma {:induction false} OffUniform<T>(parts: seq<seq<T>>, size: nat, i: nat)
    requires i <= |parts| && forall j | 0 <= j < |parts| :: |parts[j]| == size
    ensures Off(parts, i) == size * i
  {
    if i == 0 {
      OffEnds(parts);
    } else {
      OffUniform(parts, size, i - 1);
      OffNext(parts, i - 1);
      assert size * (i - 1) + size == size * i;
    }
  }

  /** Starts that follow each other by the lengths of the parts are the offsets. */
  lemma {:induction false} OffFromLengths<T>(parts: seq<seq<T>>, starts: seq<nat>, i: nat)
    requires |starts| == |parts| + 1 && starts[0] == 0 && i <= |parts|
    requires forall k | 0 <= k < |parts| :: starts[k] + |parts[k]| == starts[k + 1]
    ensures Off(parts, i) == starts[i]
  {
    if i == 0 {
      OffEnds(parts);
    } else {
      OffFromLengths(parts, starts, i - 1);
      OffNext(parts, i - 1);
    }
  }

  // ---- Filling a zeroed buffer ----

  /** Position `x` has been written: it lies between a zone's start and its fill mark. */
  ghost predicate Filled(starts: seq<nat>, marks: seq<nat>, x: int)
    requires |starts| == |marks|
  {
    exists k | 0 <= k < |starts| :: starts[k] <= x < marks[k]
  }

  /** The buffer shows the target where it has been written, and zero elsewhere. */
  ghost predicate Shows(buffer: seq<u8>, target: seq<u8>, starts: seq<nat>, marks: seq<nat>) {
    && |buffer| == |target| && |starts| == |marks|
    && forall x | 0 <= x < |buffer| :: buffer[x] == if Filled(starts, marks, x) then target[x] else 0
  }

  /** Writing the target's own bytes at a fill mark advances that mark. */
  lemma FillMore(buffer: seq<u8>, target: seq<u8>, starts: seq<nat>, marks: seq<nat>, k: nat, data: seq<u8>)
    requires Shows(buffer, target, starts, marks) && k < |starts|
    requires starts[k] <= marks[k] && At(target, marks[k], data)
    ensures marks[k] + |data| <= |buffer|
    ensures Shows(Splice(buffer, marks[k], data), target, starts, marks[k := marks[k] + |data|])
  {
    var m, after, next := marks[k], Splice(buffer, marks[k], data), marks[k := marks[k] + |data|];
    forall x | 0 <= x < |buffer|
      ensures after[x] == if Filled(starts, next, x) then target[x] else 0
    {
      if m <= x < m + |data| {
        assert target[x] == target[m..m + |data|][x - m];
        assert starts[k] <= x < next[k];
      } else if Filled(starts, marks, x) {
        var j :| 0 <= j < |starts| && starts[j] <= x < marks[j];
        assert starts[j] <= x < next[j];
      }
    }
  }

  lemma NothingFilled(buffer: seq<u8>, target: seq<u8>, starts: seq<nat>)
    requires |buffer| == |target| && forall x | 0 <= x < |buffer| :: buffer[x] == 0
    ensures Shows(buffer, target, starts, starts)
  {}
}
