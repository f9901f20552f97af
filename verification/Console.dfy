/** The console transcript: new guest output is found by overlapping the last observed
    UART history with the current one (crates/minemu/src/tui/widgets/console.rs). */
module Console {
  import opened Platform
  import Serial

  const TRANSCRIPT_CAPACITY := 16 * 1024
  const TX_CAPACITY := 8192

  /** The last `k` bytes of `previous` are the first `k` of `current`. */
  predicate Overlaps(previous: seq<u8>, current: seq<u8>, k: nat) {
    k <= |previous| && k <= |current| && previous[|previous| - k..] == current[..k]
  }

  /** `k` is the greatest overlap below `limit`. */
  ghost predicate Longest(previous: seq<u8>, current: seq<u8>, k: nat, limit: nat) {
    && k < limit && Overlaps(previous, current, k)
    && forall j: nat | j < limit && Overlaps(previous, current, j) :: j <= k
  }

  /** The greatest overlap, by trying every length from `k` down. */
  function LongestFrom(previous: seq<u8>, current: seq<u8>, k: nat): (r: nat)
    ensures Longest(previous, current, r, k + 1)
  {
    if k == 0 || Overlaps(previous, current, k) then k else LongestFrom(previous, current, k - 1)
  }

  function LongestOverlap(previous: seq<u8>, current: seq<u8>): (r: nat)
    ensures Longest(previous, current, r, |current| + 1)
  {
    LongestFrom(previous, current, |current|)
  }

  /** Overlaps no longer than a known one are the overlaps of its matched prefix. */
  lemma OverlapsWithin(text: seq<u8>, pattern: seq<u8>, m: nat, j: nat)
    requires Overlaps(text, pattern, m) && j <= m
    ensures Overlaps(text, pattern, j) <==> Overlaps(pattern[..m], pattern, j)
  {
    assert text[|text| - j..] == text[|text| - m..][m - j..];
  }

  /** One more byte of text extends an overlap exactly when the pattern continues with it. */
  lemma OverlapExtends(text: seq<u8>, byte: u8, pattern: seq<u8>, j: nat)
    ensures Overlaps(text + [byte], pattern, j + 1)
        <==> Overlaps(text, pattern, j) && j < |pattern| && pattern[j] == byte
  {
    if j < |text| + 1 && j < |pattern| {
      assert (text + [byte])[|text| + 1 - (j + 1)..] == text[|text| - j..] + [byte];
      assert pattern[..j + 1] == pattern[..j] + [pattern[j]];
      if text[|text| - j..] + [byte] == pattern[..j] + [pattern[j]] {
        var whole := text[|text| - j..] + [byte];
        assert whole[..j] == text[|text| - j..] && whole[j] == byte;
      }
    }
  }

  /** `matched` bounds every overlap of `text` below `limit` that `byte` extends. */
  ghost predicate Candidate(text: seq<u8>, byte: u8, pattern: seq<u8>, matched: nat, limit: nat) {
    && matched < limit <= |pattern| && Overlaps(text, pattern, matched)
    && forall j: nat | j < limit && Overlaps(text, pattern, j) && pattern[j] == byte :: j <= matched
  }

  /** Falling back to the longest border of the matched prefix keeps the bound. */
  lemma FallBack(text: seq<u8>, byte: u8, pattern: seq<u8>, matched: nat, limit: nat, border: nat)
    requires Candidate(text, byte, pattern, matched, limit) && pattern[matched] != byte
    requires Longest(pattern[..matched], pattern, border, matched)
    ensures Candidate(text, byte, pattern, border, limit)
  {
    OverlapsWithin(text, pattern, matched, border);
    forall j: nat | j < limit && Overlaps(text, pattern, j) && pattern[j] == byte
      ensures j <= border
    {
      OverlapsWithin(text, pattern, matched, j);
    }
  }

  /** Once no fallback is left, the byte settles the longest overlap of the longer text. */
  lemma Settle(text: seq<u8>, byte: u8, pattern: seq<u8>, matched: nat, limit: nat)
    requires Candidate(text, byte, pattern, matched, limit) && (matched == 0 || pattern[matched] == byte)
    ensures Longest(text + [byte], pattern, if pattern[matched] == byte then matched + 1 else 0, limit + 1)
  {
    OverlapExtends(text, byte, pattern, matched);
    forall j: nat | 0 < j < limit + 1 && Overlaps(text + [byte], pattern, j)
      ensures pattern[matched] == byte && j <= matched + 1
    {
      OverlapExtends(text, byte, pattern, j - 1);
    }
  }

  /** Entry `i` of the table is the longest proper border of the first `i + 1` bytes. */
  ghost predicate BorderTable(table: seq<nat>, filled: nat, pattern: seq<u8>) {
    && filled <= |table| == |pattern|
    && forall i | 0 <= i < filled :: Longest(pattern[..i + 1], pattern, table[i], i + 1)
  }

  /** What the search reads from the table. */
  lemma BorderAt(table: seq<nat>, filled: nat, pattern: seq<u8>, matched: nat)
    requires BorderTable(table, filled, pattern) && 0 < matched <= filled
    ensures Longest(pattern[..matched], pattern, table[matched - 1], matched) && table[matched - 1] < matched
  {}

  lemma BorderTableGrows(table: seq<nat>, filled: nat, pattern: seq<u8>, border: nat)
    requires BorderTable(table, filled, pattern) && filled < |pattern|
    requires Longest(pattern[..filled + 1], pattern, border, filled + 1)
    ensures BorderTable(table[filled := border], filled + 1, pattern)
  {}

  lemma StartsAsCandidate(pattern: seq<u8>, index: nat, border: nat)
    requires 0 < index < |pattern| && Longest(pattern[..index], pattern, border, index)
    ensures Candidate(pattern[..index], pattern[index], pattern, border, index)
  {}

  lemma LongestIsCandidate(text: seq<u8>, byte: u8, pattern: seq<u8>, k: nat)
    requires Longest(text, pattern, k, |pattern|)
    ensures k < |pattern| && Candidate(text, byte, pattern, k, |pattern|)
  {}

  lemma LongestBelow(text: seq<u8>, pattern: seq<u8>, k: nat)
    requires Longest(text, pattern, k, |pattern| + 1) && k < |pattern|
    ensures Longest(text, pattern, k, |pattern|)
  {}

  lemma LongestIsUnique(text: seq<u8>, pattern: seq<u8>, a: nat, b: nat, limit: nat)
    requires Longest(text, pattern, a, limit) && Longest(text, pattern, b, limit)
    ensures a == b
  {}

  lemma FirstBorder(table: seq<nat>, pattern: seq<u8>)
    requires 0 < |table| == |pattern| && table[0] == 0
    ensures BorderTable(table, 1, pattern)
  {}

  lemma NothingMatched(pattern: seq<u8>)
    requires pattern != []
    ensures Longest([], pattern, 0, |pattern|)
  {}

  /** After a complete match, the longest overlap short of complete is the pattern's border. */
  lemma AfterCompleteMatch(text: seq<u8>, pattern: seq<u8>, border: nat)
    requires Overlaps(text, pattern, |pattern|) && Longest(pattern, pattern, border, |pattern|)
    ensures Longest(text, pattern, border, |pattern|)
  {
    assert pattern[..|pattern|] == pattern;
    forall j: nat | j <= |pattern|
      ensures Overlaps(text, pattern, j) <==> Overlaps(pattern, pattern, j)
    {
      OverlapsWithin(text, pattern, |pattern|, j);
    }
  }

  /** Before the next byte, a complete match falls back to the pattern's border. */
  lemma FallBackFromComplete(text: seq<u8>, pattern: seq<u8>, table: seq<nat>, matched: nat)
    requires pattern != [] && BorderTable(table, |pattern|, pattern) && Longest(text, pattern, matched, |pattern| + 1)
    ensures matched == |pattern| ==> Longest(text, pattern, table[matched - 1], |pattern|)
    ensures matched != |pattern| ==> Longest(text, pattern, matched, |pattern|)
  {
    if matched == |pattern| {
      assert pattern[..|pattern|] == pattern;
      BorderAt(table, |pattern|, pattern, |pattern|);
      hide BorderTable;
      AfterCompleteMatch(text, pattern, table[matched - 1]);
    } else {
      LongestBelow(text, pattern, matched);
    }
  }

  /** What both loops do with one byte: fall back along the borders until it continues the
      pattern or nothing is matched. */
  method Advance(prefix: array<nat>, current: seq<u8>, ghost text: seq<u8>, byte: u8, start: nat, ghost limit: nat)
    returns (matched: nat)
    requires BorderTable(prefix[..], limit, current) && Candidate(text, byte, current, start, limit)
    ensures Longest(text + [byte], current, matched, limit + 1)
  {
    matched := start;
    StaysInside(text, byte, current, matched, limit, prefix[..]);
    hide Longest, Overlaps, Candidate, BorderTable;
    while matched > 0 && byte != current[matched]
      invariant matched < limit <= |current| == prefix.Length && Candidate(text, byte, current, matched, limit)
    {
      BorderAt(prefix[..], limit, current, matched);
      FallBack(text, byte, current, matched, limit, prefix[matched - 1]);
      matched := prefix[matched - 1];
    }
    Settle(text, byte, current, matched, limit);
    if byte == current[matched] { matched := matched + 1; }
  }

  lemma StaysInside(text: seq<u8>, byte: u8, pattern: seq<u8>, matched: nat, limit: nat, table: seq<nat>)
    requires BorderTable(table, limit, pattern) && Candidate(text, byte, pattern, matched, limit)
    ensures matched < limit <= |pattern| == |table|
  {}

  /** The first loop of `suffix_prefix_overlap`: the table of longest proper borders. */
  method Borders(current: seq<u8>) returns (prefix: array<nat>)
    requires current != []
    ensures fresh(prefix) && prefix.Length == |current| && BorderTable(prefix[..], |current|, current)
  {
    hide Longest, Overlaps, Candidate, BorderTable;
    prefix := new nat[|current|](_ => 0);
    FirstBorder(prefix[..], current);
    for index := 1 to |current|
      invariant BorderTable(prefix[..], index, current)
    {
      ghost var table := prefix[..];
      BorderAt(table, index, current, index);
      StartsAsCandidate(current, index, table[index - 1]);
      var matched := Advance(prefix, current, current[..index], current[index], prefix[index - 1], index);
      assert current[..index + 1] == current[..index] + [current[index]];
      BorderTableGrows(table, index, current, matched);
      prefix[index] := matched;
      assert prefix[..] == table[index := matched];
    }
  }

  /** `suffix_prefix_overlap`: the longest overlap in linear time. */
  method SuffixPrefixOverlap(previous: seq<u8>, current: seq<u8>) returns (r: nat)
    ensures r == LongestOverlap(previous, current)
  {
    hide Longest, Overlaps, Candidate, BorderTable, LongestOverlap;
    if previous == [] || current == [] {
      NoOverlap(previous, current);
      return 0;
    }
    var prefix := Borders(current);
    var matched: nat := 0;
    NothingMatched(current);
    for index := 0 to |previous|
      invariant BorderTable(prefix[..], |current|, current)
      invariant Longest(previous[..index], current, matched, if index == |previous| then |current| + 1 else |current|)
    {
      ghost var text := previous[..index + 1];
      assert text == previous[..index] + [previous[index]];
      LongestIsCandidate(previous[..index], previous[index], current, matched);
      matched := Advance(prefix, current, previous[..index], previous[index], matched, |current|);
      FallBackFromComplete(text, current, prefix[..], matched);
      if matched == |current| && index + 1 != |previous| {
        matched := prefix[matched - 1];
      }
    }
    assert previous[..|previous|] == previous;
    LongestIsUnique(previous, current, matched, LongestOverlap(previous, current), |current| + 1);
    return matched;
  }

  lemma NoOverlap(previous: seq<u8>, current: seq<u8>)
    requires previous == [] || current == []
    ensures LongestOverlap(previous, current) == 0
  {}

  // ---- The transcript ----

  datatype Stream = Stream(transcript: seq<u8>, observed: seq<u8>, initialized: bool)

  const INITIAL := Stream([], [], false)

  /** `append`: the transcript keeps the newest bytes. */
  function Appended(transcript: seq<u8>, bytes: seq<u8>): seq<u8> {
    Serial.PushAll(transcript, bytes, TRANSCRIPT_CAPACITY)
  }

  /** `observe`: on the first poll, input echoed so far moves behind the history; later
      polls append what the history has beyond its overlap with the last one. */
  function Observed(s: Stream, history: seq<u8>): Stream {
    var transcript :=
      if !s.initialized then Appended(Appended([], history), s.transcript)
      else Appended(s.transcript, history[LongestOverlap(s.observed, history)..]);
    Stream(transcript, history, true)
  }

  class ConsoleStream {
    var transcript: seq<u8>
    var observedTx: seq<u8>
    var initialized: bool

    function Value(): Stream
      reads this
    {
      Stream(transcript, observedTx, initialized)
    }

    constructor ()
      ensures Value() == INITIAL
    {
      transcript, observedTx, initialized := [], [], false;
    }

    method Append(bytes: seq<u8>)
      modifies this`transcript
      ensures transcript == Appended(old(transcript), bytes)
    {
      for i := 0 to |bytes|
        invariant Appended(transcript, bytes[i..]) == Appended(old(transcript), bytes)
      {
        if |transcript| == TRANSCRIPT_CAPACITY { transcript := transcript[1..]; }
        transcript := transcript + [bytes[i]];
      }
    }

    method Observe(history: seq<u8>)
      modifies this
      ensures Value() == Observed(old(Value()), history)
    {
      if !initialized {
        var input := transcript;
        transcript := [];
        Append(history);
        Append(input);
        initialized := true;
      } else {
        var overlap := SuffixPrefixOverlap(observedTx, history);
        Append(history[overlap..]);
      }
      observedTx := history;
    }
  }

  predicate EndsWith(bytes: seq<u8>, tail: seq<u8>) {
    |tail| <= |bytes| && bytes[|bytes| - |tail|..] == tail
  }

  /** The bytes appended by a poll are the shortest extension after which the old history
      ends in the new one. */
  lemma AppendsShortestExtension(previous: seq<u8>, current: seq<u8>, extension: seq<u8>)
    ensures EndsWith(previous + current[LongestOverlap(previous, current)..], current)
    ensures EndsWith(previous + extension, current) ==> |current| - LongestOverlap(previous, current) <= |extension|
  {
    var k := LongestOverlap(previous, current);
    assert (previous + current[k..])[|previous| - k..] == previous[|previous| - k..] + current[k..];
    assert current[..k] + current[k..] == current;
    if EndsWith(previous + extension, current) && |extension| <= |current| {
      var j := |current| - |extension|;
      assert (previous + extension)[|previous| - j..] == previous[|previous| - j..] + extension;
      assert (previous[|previous| - j..] + extension)[..j] == previous[|previous| - j..];
      assert Overlaps(previous, current, j);
    }
  }

  /** A history that only grew overlaps completely. */
  lemma GrownHistoryOverlapsWhole(previous: seq<u8>, current: seq<u8>)
    requires previous <= current
    ensures LongestOverlap(previous, current) == |previous|
  {
    assert Overlaps(previous, current, |previous|);
  }

  /** The UART history after the guest wrote `output`. */
  function History(output: seq<u8>): seq<u8> { Serial.PushAll([], output, TX_CAPACITY) }

  function Polled(s: Stream, outputs: seq<seq<u8>>): Stream
    decreases |outputs|
  {
    if outputs == [] then s else Polled(Observed(s, History(outputs[0])), outputs[1..])
  }

  /** Each output continues the one before, the first one `start`. */
  ghost predicate Growing(start: seq<u8>, outputs: seq<seq<u8>>)
    decreases |outputs|
  {
    outputs == [] || (start <= outputs[0] && |outputs[0]| <= TX_CAPACITY && Growing(outputs[0], outputs[1..]))
  }

  lemma UnwrappedHistory(output: seq<u8>)
    requires |output| <= TX_CAPACITY
    ensures History(output) == output
  {
    Serial.PushAllKeepsNewest([], output, TX_CAPACITY);
    assert [] + output == output;
  }

  lemma AppendFits(transcript: seq<u8>, bytes: seq<u8>)
    requires |transcript| + |bytes| <= TRANSCRIPT_CAPACITY
    ensures Appended(transcript, bytes) == transcript + bytes
  {
    Serial.PushAllKeepsNewest(transcript, bytes, TRANSCRIPT_CAPACITY);
  }

  /** One poll of an output that grew. */
  lemma PollKeepsUp(s: Stream, output: seq<u8>)
    requires s.initialized && s.transcript == s.observed <= output && |output| <= TX_CAPACITY
    ensures Observed(s, History(output)) == Stream(output, output, true)
  {
    hide LongestOverlap, Appended, History;
    UnwrappedHistory(output);
    GrownHistoryOverlapsWhole(s.observed, output);
    AppendFits(s.transcript, output[|s.observed|..]);
    assert s.observed + output[|s.observed|..] == output;
  }

  lemma {:induction false} PollingKeepsUp(s: Stream, outputs: seq<seq<u8>>)
    requires s.initialized && s.transcript == s.observed && Growing(s.observed, outputs)
    ensures Polled(s, outputs).transcript == if outputs == [] then s.observed else outputs[|outputs| - 1]
    decreases |outputs|
  {
    if outputs != [] {
      hide Observed, History;
      PollKeepsUp(s, outputs[0]);
      PollingKeepsUp(Stream(outputs[0], outputs[0], true), outputs[1..]);
    }
  }

  /** The first poll of a transcript without echoed input. */
  lemma FirstPoll(output: seq<u8>)
    requires |output| <= TX_CAPACITY
    ensures Observed(INITIAL, History(output)) == Stream(output, output, true)
  {
    UnwrappedHistory(output);
    AppendFits([], output);
    AppendFits(output, []);
    hide Appended, History;
    assert [] + output == output + [] == output;
  }

  lemma NewestTwice(first: seq<u8>, second: seq<u8>, capacity: nat)
    ensures Serial.Newest(Serial.Newest(first, capacity) + second, capacity) == Serial.Newest(first + second, capacity)
  {
    if |first| > capacity {
      var all, dropped := first + second, |first| - capacity;
      assert Serial.Newest(first, capacity) + second == all[dropped..];
      assert all[dropped..][|second|..] == all[dropped + |second|..];
    }
  }

  lemma NewestFits(bytes: seq<u8>, capacity: nat)
    ensures |Serial.Newest(bytes, capacity)| <= capacity
  {}

  lemma AppendTwice(first: seq<u8>, second: seq<u8>)
    ensures Appended(Appended([], first), second) == Serial.Newest(first + second, TRANSCRIPT_CAPACITY)
  {
    Serial.PushAllKeepsNewest([], first, TRANSCRIPT_CAPACITY);
    var kept := Serial.Newest([] + first, TRANSCRIPT_CAPACITY);
    NewestFits([] + first, TRANSCRIPT_CAPACITY);
    Serial.PushAllKeepsNewest(kept, second, TRANSCRIPT_CAPACITY);
    assert [] + first == first;
    hide Serial.Newest, Serial.PushAll;
    NewestTwice(first, second, TRANSCRIPT_CAPACITY);
  }

  /** A poll keeps the newest 16384 bytes: on the first poll of the history followed by the input
      echoed so far, later of the transcript followed by what is new in the history. */
  lemma PollKeepsNewest(s: Stream, history: seq<u8>)
    requires |s.transcript| <= 16384
    ensures var after := Observed(s, history);
      && after.initialized && after.observed == history
      && after.transcript == if s.initialized then Serial.Newest(s.transcript + history[LongestOverlap(s.observed, history)..], 16384)
                             else Serial.Newest(history + s.transcript, 16384)
  {
    hide LongestOverlap;
    if s.initialized {
      Serial.PushAllKeepsNewest(s.transcript, history[LongestOverlap(s.observed, history)..], TRANSCRIPT_CAPACITY);
    } else {
      AppendTwice(history, s.transcript);
    }
  }

  /** However the polls fall, while the history has not wrapped and nothing was echoed the
      transcript is exactly what the guest wrote up to the last poll. */
  lemma TranscriptIsOutput(outputs: seq<seq<u8>>)
    requires outputs != [] && Growing([], outputs)
    ensures Polled(INITIAL, outputs).transcript == outputs[|outputs| - 1]
  {
    hide Observed, History;
    FirstPoll(outputs[0]);
    PollingKeepsUp(Stream(outputs[0], outputs[0], true), outputs[1..]);
  }
}
