/** `Book.chunk_book` (audioBookify.py:55-93), modelled as written: a fixed number of
    iterations, `range(0, len(book_text), chunk_size)`, a cursor `end` carried from one
    iteration to the next, and a backward scan for a sentence terminator that starts at the
    inclusive index `start + chunk_size`. */
module Chunker {
  import opened SeqUtil

  /** The characters the scan stops at: `['.', '?', '!']`. */
  predicate IsTerminator(c: char)
  {
    c == '.' || c == '?' || c == '!'
  }

  /** Python's `text[lo:hi]` for cursors inside the text: empty when `hi <= lo`. */
  function Slice(text: string, lo: nat, hi: nat): string
    requires lo <= |text| && hi <= |text|
  {
    if hi <= lo then [] else text[lo..hi]
  }

  /** The backward scan `while book_text[end-idx] not in [...]`: the index of the last
      terminator at or before `j`. */
  function LastTerminator(text: string, j: nat): (i: nat)
    requires j < |text|
    requires exists k :: 0 <= k <= j && IsTerminator(text[k])
    ensures i <= j && IsTerminator(text[i])
    decreases j
  {
    if IsTerminator(text[j]) then j else LastTerminator(text, j - 1)
  }

  /** The scan never steps back past a terminator. */
  lemma LastTerminatorAtLeast(text: string, j: nat, m: nat)
    requires m <= j < |text| && IsTerminator(text[m])
    ensures LastTerminator(text, j) >= m
  {
    LastTerminatorIsLast(text, j);
  }

  /** No terminator lies between the one the scan finds and where the scan started. */
  lemma {:induction false} LastTerminatorIsLast(text: string, j: nat)
    requires j < |text|
    requires exists k :: 0 <= k <= j && IsTerminator(text[k])
    ensures forall k :: LastTerminator(text, j) < k <= j ==> !IsTerminator(text[k])
    decreases j
  {
    if !IsTerminator(text[j]) {
      LastTerminatorIsLast(text, j - 1);
    }
  }

  /** The scan of the very first window never runs off the front of the text: if that window
      is taken at all, one of `text[0]`, ..., `text[chunk_size]` is a terminator. Without it
      Python's negative indices would wrap to the end of the text. */
  predicate FirstWindowHasTerminator(text: string, cs: nat)
  {
    cs < |text| ==> exists k :: 0 <= k <= cs && IsTerminator(text[k])
  }

  /** A cursor from which the next scan stays inside the text: the first cursor under
      `FirstWindowHasTerminator`, and afterwards a cursor just past a terminator (the scan
      stops there at the latest) or one whose window is not taken. */
  predicate Anchored(text: string, cs: nat, e: nat)
  {
    && e <= |text|
    && (e + cs < |text| ==>
          if e == 0 then FirstWindowHasTerminator(text, cs) else IsTerminator(text[e - 1]))
  }

  /** The cursor `end` after one iteration that starts at cursor `e`. */
  function NextEnd(text: string, cs: nat, e: nat): (e': nat)
    requires cs > 0 && |text| > 0 && Anchored(text, cs, e)
    ensures Anchored(text, cs, e')
    ensures e + cs < |text| ==> e <= e' <= e + cs + 1
    ensures e + cs >= |text| ==> e' == |text| - 1
  {
    if e + cs < |text| then
      assert e > 0 ==> 0 <= e - 1 <= e + cs && IsTerminator(text[e - 1]);
      if e > 0 then LastTerminatorAtLeast(text, e + cs, e - 1); LastTerminator(text, e + cs) + 1
      else LastTerminator(text, e + cs) + 1
    else
      |text| - 1
  }

  /** In the scanning branch the new cursor stands just past the last terminator of the window. */
  lemma NextEndScan(text: string, cs: nat, e: nat)
    requires cs > 0 && |text| > 0 && Anchored(text, cs, e) && e + cs < |text|
    ensures 0 < NextEnd(text, cs, e) && IsTerminator(text[NextEnd(text, cs, e) - 1])
    ensures forall k :: NextEnd(text, cs, e) <= k <= e + cs ==> !IsTerminator(text[k])
  {
    assert e > 0 ==> 0 <= e - 1 <= e + cs && IsTerminator(text[e - 1]);
    LastTerminatorIsLast(text, e + cs);
  }

  /** The chunks `k` iterations emit from cursor `e`. */
  function Run(text: string, cs: nat, e: nat, k: nat): (chunks: seq<string>)
    requires cs > 0 && Anchored(text, cs, e) && (k > 0 ==> |text| > 0)
    ensures |chunks| == k
    decreases k
  {
    if k == 0 then []
    else
      var e' := NextEnd(text, cs, e);
      [Slice(text, e, e')] + Run(text, cs, e', k - 1)
  }

  /** The cursor after `n` iterations from cursor `e`. */
  function CursorAfter(text: string, cs: nat, e: nat, n: nat): (c: nat)
    requires cs > 0 && Anchored(text, cs, e) && (n > 0 ==> |text| > 0)
    ensures Anchored(text, cs, c)
    decreases n
  {
    if n == 0 then e else NextEnd(text, cs, CursorAfter(text, cs, e, n - 1))
  }

  /** How far into the text `k` iterations from cursor `e` reach: the last cursor of the
      scanning iterations, or, once the final branch runs, `len - 1` unless the cursor already
      stood at the end. */
  function Covered(text: string, cs: nat, e: nat, k: nat): (c: nat)
    requires cs > 0 && Anchored(text, cs, e) && (k > 0 ==> |text| > 0)
    ensures e <= c <= |text|
    decreases k
  {
    if k == 0 then e
    else if e + cs < |text| then Covered(text, cs, NextEnd(text, cs, e), k - 1)
    else Max(e, |text| - 1)
  }

  /** What `chunk_book(text, cs)` returns. */
  function ChunkBookSpec(text: string, cs: nat): (chunks: seq<string>)
    requires cs > 0 && FirstWindowHasTerminator(text, cs)
    ensures |chunks| == RangeLen(0, |text|, cs)
    ensures |text| == 0 ==> chunks == []
  {
    Run(text, cs, 0, RangeLen(0, |text|, cs))
  }

  /** The prefix of the text that `chunk_book(text, cs)` hands on. */
  function ChunkedPrefixEnd(text: string, cs: nat): (c: nat)
    requires cs > 0 && FirstWindowHasTerminator(text, cs)
    ensures c <= |text|
  {
    Covered(text, cs, 0, RangeLen(0, |text|, cs))
  }

  /** `Book.chunk_book`. The `for` loop's own variable is immediately overwritten by
      `start = end`; here `r` runs through `range(0, len(text), chunk_size)` and only counts. */
  method ChunkBook(text: string, chunkSize: int) returns (chunks: seq<string>)
    requires chunkSize > 0
    requires FirstWindowHasTerminator(text, chunkSize)
    ensures chunks == ChunkBookSpec(text, chunkSize)
    ensures |chunks| == RangeLen(0, |text|, chunkSize)
    ensures Flatten(chunks) == text[..ChunkedPrefixEnd(text, chunkSize)]
    ensures forall i :: 0 <= i < |chunks| ==> |chunks[i]| <= chunkSize + 1
  {
    ghost var spec := ChunkBookSpec(text, chunkSize);
    chunks := [];
    var end: nat := 0;
    var r := 0;
    while r < |text|
      invariant 0 <= r
      invariant Anchored(text, chunkSize, end)
      invariant chunks + Run(text, chunkSize, end, RangeLen(r, |text|, chunkSize)) == spec
      decreases |text| - r
    {
      var start := end;
      if start + chunkSize < |text| {
        end := start + chunkSize;
        var idx := ScanBack(text, chunkSize, start);
        end := end - idx + 1;
      } else {
        end := |text| - 1;
      }
      EmitStep(text, chunkSize, start, end, r, chunks, spec);
      chunks := chunks + [Slice(text, start, end)];
      r := r + chunkSize;
    }
    ChunkBookProperties(text, chunkSize);
  }

  /** The inner `while` of `chunk_book`: from `end = start + chunk_size`, step back `idx`
      characters until `book_text[end-idx]` is a terminator. The new cursor is one past it. */
  method ScanBack(text: string, cs: nat, start: nat) returns (idx: nat)
    requires cs > 0 && Anchored(text, cs, start) && start + cs < |text|
    ensures idx <= start + cs
    ensures NextEnd(text, cs, start) == start + cs - idx + 1
  {
    var end := start + cs;
    ghost var found := WindowTerminator(text, cs, start);
    idx := 0;
    while !IsTerminator(text[end - idx])
      invariant 0 <= idx <= end - found
      invariant forall j :: end - idx < j <= end ==> !IsTerminator(text[j])
      decreases end - idx
    {
      idx := idx + 1;
    }
    ScanStopsAtNextEnd(text, cs, start, end - idx);
  }

  /** The terminator the scan of a taken window stops at. */
  lemma WindowTerminator(text: string, cs: nat, start: nat) returns (found: nat)
    requires cs > 0 && Anchored(text, cs, start) && start + cs < |text|
    ensures found <= start + cs && IsTerminator(text[found])
    ensures forall k :: found < k <= start + cs ==> !IsTerminator(text[k])
    ensures start <= found + 1
  {
    assert start > 0 ==> 0 <= start - 1 <= start + cs && IsTerminator(text[start - 1]);
    found := LastTerminator(text, start + cs);
    LastTerminatorIsLast(text, start + cs);
    assert start > 0 ==> IsTerminator(text[start - 1]);
  }

  lemma ScanStopsAtNextEnd(text: string, cs: nat, start: nat, p: nat)
    requires cs > 0 && Anchored(text, cs, start) && start + cs < |text|
    requires p <= start + cs && IsTerminator(text[p])
    requires forall j :: p < j <= start + cs ==> !IsTerminator(text[j])
    ensures NextEnd(text, cs, start) == p + 1
  {
    var e' := NextEnd(text, cs, start);
    NextEndScan(text, cs, start);
    assert !(p + 1 < e');
  }

  /** One iteration appends the chunk between the old and the new cursor. */
  lemma EmitStep(text: string, cs: nat, start: nat, end: nat, r: int, chunks: seq<string>, spec: seq<string>)
    requires cs > 0 && Anchored(text, cs, start) && 0 <= r < |text|
    requires end == NextEnd(text, cs, start)
    requires chunks + Run(text, cs, start, RangeLen(r, |text|, cs)) == spec
    ensures end <= |text| && Anchored(text, cs, end)
    ensures (chunks + [Slice(text, start, end)]) + Run(text, cs, end, RangeLen(r + cs, |text|, cs)) == spec
  {
    var m := RangeLen(r, |text|, cs);
    assert m == 1 + RangeLen(r + cs, |text|, cs);
    assert Run(text, cs, start, m) == [Slice(text, start, end)] + Run(text, cs, end, m - 1);
  }

  /** One chunk per iteration, every chunk at most one longer than `chunk_size`, and together
      the chunks spell out a prefix of the text. */
  lemma ChunkBookProperties(text: string, cs: nat)
    requires cs > 0 && FirstWindowHasTerminator(text, cs)
    ensures |ChunkBookSpec(text, cs)| == RangeLen(0, |text|, cs)
    ensures Flatten(ChunkBookSpec(text, cs)) == text[..ChunkedPrefixEnd(text, cs)]
    ensures forall i :: 0 <= i < |ChunkBookSpec(text, cs)| ==> |ChunkBookSpec(text, cs)[i]| <= cs + 1
  {
    var k := RangeLen(0, |text|, cs);
    RunCovers(text, cs, 0, k);
    RunChunkLengths(text, cs, 0, k);
  }

  /** The chunks are the consecutive pieces between the cursors. */
  lemma {:induction false} RunCovers(text: string, cs: nat, e: nat, k: nat)
    requires cs > 0 && Anchored(text, cs, e) && (k > 0 ==> |text| > 0)
    ensures Flatten(Run(text, cs, e, k)) == text[e..Covered(text, cs, e, k)]
    decreases k
  {
    if k > 0 {
      var e' := NextEnd(text, cs, e);
      var rest := Run(text, cs, e', k - 1);
      assert Run(text, cs, e, k)[1..] == rest;
      if e + cs < |text| {
        RunCovers(text, cs, e', k - 1);
        assert text[e..Covered(text, cs, e, k)] == text[e..e'] + text[e'..Covered(text, cs, e', k - 1)];
      } else {
        FinalBranchEmitsNothingMore(text, cs, e', k - 1);
      }
    }
  }

  /** From a cursor whose window reaches the end, every iteration emits an empty chunk. */
  lemma {:induction false} FinalBranchEmitsNothingMore(text: string, cs: nat, e: nat, k: nat)
    requires cs > 0 && |text| > 0 && e == |text| - 1
    ensures Anchored(text, cs, e)
    ensures Flatten(Run(text, cs, e, k)) == []
    ensures forall j :: 0 <= j < k ==> Run(text, cs, e, k)[j] == []
    decreases k
  {
    if k > 0 {
      FinalBranchEmitsNothingMore(text, cs, e, k - 1);
      assert Run(text, cs, e, k)[1..] == Run(text, cs, e, k - 1);
    }
  }

  lemma {:induction false} RunChunkLengths(text: string, cs: nat, e: nat, k: nat)
    requires cs > 0 && Anchored(text, cs, e) && (k > 0 ==> |text| > 0)
    ensures forall j :: 0 <= j < k ==> |Run(text, cs, e, k)[j]| <= cs + 1
    decreases k
  {
    if k > 0 {
      var e' := NextEnd(text, cs, e);
      RunChunkLengths(text, cs, e', k - 1);
      assert Run(text, cs, e, k)[1..] == Run(text, cs, e', k - 1);
      assert forall j :: 1 <= j < k ==> Run(text, cs, e, k)[j] == Run(text, cs, e', k - 1)[j - 1];
    }
  }

  /** The cursor `end` after iteration `i` of `chunk_book(text, cs)`. */
  function Cursor(text: string, cs: nat, i: nat): nat
    requires cs > 0 && FirstWindowHasTerminator(text, cs) && (i > 0 ==> |text| > 0)
  {
    CursorAfter(text, cs, 0, i)
  }

  lemma {:induction false} CursorAfterShift(text: string, cs: nat, e: nat, n: nat)
    requires cs > 0 && Anchored(text, cs, e) && |text| > 0 && n >= 1
    ensures CursorAfter(text, cs, e, n) == CursorAfter(text, cs, NextEnd(text, cs, e), n - 1)
    decreases n
  {
    if n > 1 {
      CursorAfterShift(text, cs, e, n - 1);
    }
  }

  /** Chunk `i` runs from cursor `i` to the cursor the next iteration computes from it: each
      chunk starts where the previous one ended. */
  lemma {:induction false} RunChunkAt(text: string, cs: nat, e: nat, k: nat, i: nat)
    requires cs > 0 && Anchored(text, cs, e) && |text| > 0 && i < k
    ensures Run(text, cs, e, k)[i]
              == Slice(text, CursorAfter(text, cs, e, i), NextEnd(text, cs, CursorAfter(text, cs, e, i)))
    decreases i
  {
    var e' := NextEnd(text, cs, e);
    var run := Run(text, cs, e, k);
    var rest := Run(text, cs, e', k - 1);
    assert run == [Slice(text, e, e')] + rest;
    if i > 0 {
      var p := i - 1;
      RunChunkAt(text, cs, e', k - 1, p);
      var c' := CursorAfter(text, cs, e', p);
      assert rest[p] == Slice(text, c', NextEnd(text, cs, c'));
      assert run[i] == rest[p];
      CursorAfterShift(text, cs, e, i);
      assert c' == CursorAfter(text, cs, e, i);
    } else {
      assert CursorAfter(text, cs, e, i) == e;
      assert run[i] == Slice(text, e, e');
    }
  }

  lemma CursorAfterNext(text: string, cs: nat, e: nat, n: nat)
    requires cs > 0 && Anchored(text, cs, e) && |text| > 0
    ensures CursorAfter(text, cs, e, n + 1) == NextEnd(text, cs, CursorAfter(text, cs, e, n))
  {
  }

  /** The final branch leaves the cursor at `len - 1`, from where the final branch runs again. */
  lemma FinalBranchCursor(text: string, cs: nat, c: nat)
    requires cs > 0 && Anchored(text, cs, c) && |text| > 0 && c + cs >= |text|
    ensures NextEnd(text, cs, c) == |text| - 1
    ensures NextEnd(text, cs, c) + cs >= |text|
  {
  }

  /** Once an iteration takes the final branch, every later cursor is `len - 1`. */
  lemma {:induction false} FinalCursorSticks(text: string, cs: nat, e: nat, i: nat, j: nat)
    requires cs > 0 && Anchored(text, cs, e) && |text| > 0 && i < j
    ensures CursorAfter(text, cs, e, i) + cs >= |text| ==> CursorAfter(text, cs, e, j) == |text| - 1
    decreases j
  {
    if CursorAfter(text, cs, e, i) + cs >= |text| {
      var p := j - 1;
      CursorAfterNext(text, cs, e, p);
      assert CursorAfter(text, cs, e, j) == NextEnd(text, cs, CursorAfter(text, cs, e, p));
      if p == i {
        FinalBranchCursor(text, cs, CursorAfter(text, cs, e, i));
      } else {
        FinalCursorSticks(text, cs, e, i, p);
        FinalBranchCursor(text, cs, CursorAfter(text, cs, e, p));
      }
    }
  }

  /** A stall: the window from cursor `c` holds no terminator, so the scan stops at the
      terminator `text[c - 1]` that ended the previous chunk and the cursor does not move. */
  lemma StalledCursorStays(text: string, cs: nat, c: nat)
    requires cs > 0 && |text| > 0 && Anchored(text, cs, c) && c + cs < |text|
    requires forall k :: c <= k <= c + cs ==> !IsTerminator(text[k])
    ensures NextEnd(text, cs, c) == c
  {
    NextEndScan(text, cs, c);
  }

  /** Once the cursor stalls it stays where it is for every later iteration. */
  lemma {:induction false} StalledCursorSticks(text: string, cs: nat, e: nat, i: nat, j: nat)
    requires cs > 0 && Anchored(text, cs, e) && |text| > 0 && i <= j
    requires CursorAfter(text, cs, e, i) + cs < |text|
    requires NextEnd(text, cs, CursorAfter(text, cs, e, i)) == CursorAfter(text, cs, e, i)
    ensures CursorAfter(text, cs, e, j) == CursorAfter(text, cs, e, i)
    decreases j
  {
    if j > i {
      var p := j - 1;
      StalledCursorSticks(text, cs, e, i, p);
      CursorAfterNext(text, cs, e, p);
    }
  }

  /** From a stalled cursor no iteration reaches any further. */
  lemma {:induction false} StalledCovered(text: string, cs: nat, c: nat, k: nat)
    requires cs > 0 && |text| > 0 && Anchored(text, cs, c) && c + cs < |text|
    requires NextEnd(text, cs, c) == c
    ensures Covered(text, cs, c, k) == c
    decreases k
  {
    if k > 0 {
      StalledCovered(text, cs, c, k - 1);
    }
  }

  /** One scanning iteration moves the reach computation to the next cursor. */
  lemma CoveredStep(text: string, cs: nat, e: nat, k: nat)
    requires cs > 0 && Anchored(text, cs, e) && e + cs < |text| && k > 0
    ensures Covered(text, cs, e, k) == Covered(text, cs, NextEnd(text, cs, e), k - 1)
  {
  }

  /** The cursor after one scanning iteration, described only by what the iterations from it
      do: the later cursors and the reach are those of the remaining iterations. */
  lemma ScanStep(text: string, cs: nat, e: nat, k: nat, i: nat) returns (e': nat)
    requires cs > 0 && Anchored(text, cs, e) && e + cs < |text| && 0 < i <= k
    ensures Anchored(text, cs, e')
    ensures CursorAfter(text, cs, e, i) == CursorAfter(text, cs, e', i - 1)
    ensures Covered(text, cs, e, k) == Covered(text, cs, e', k - 1)
  {
    e' := NextEnd(text, cs, e);
    CursorAfterShift(text, cs, e, i);
    CoveredStep(text, cs, e, k);
  }

  /** While the iterations scan, the reach of `k` iterations is the reach of the iterations
      left after the first `i`. */
  lemma {:induction false} CoveredFrom(text: string, cs: nat, e: nat, k: nat, i: nat)
    requires cs > 0 && Anchored(text, cs, e) && |text| > 0 && i <= k
    requires CursorAfter(text, cs, e, i) + cs < |text|
    ensures Covered(text, cs, e, k) == Covered(text, cs, CursorAfter(text, cs, e, i), k - i)
    decreases i
  {
    if i > 0 {
      FinalCursorSticks(text, cs, e, 0, i);
      var e' := ScanStep(text, cs, e, k, i);
      CoveredFrom(text, cs, e', k - 1, i - 1);
    }
  }

  /** If any of `k` iterations takes the final branch, the iterations reach at least `len - 1`. */
  lemma {:induction false} CoveredAfterFinal(text: string, cs: nat, e: nat, k: nat, i: nat)
    requires cs > 0 && Anchored(text, cs, e) && |text| > 0 && i < k
    requires CursorAfter(text, cs, e, i) + cs >= |text|
    ensures Covered(text, cs, e, k) >= |text| - 1
    decreases i
  {
    if e + cs < |text| {
      assert i != 0;
      var e' := ScanStep(text, cs, e, k, i);
      CoveredAfterFinal(text, cs, e', k - 1, i - 1);
      assert Covered(text, cs, e, k) == Covered(text, cs, e', k - 1);
    } else {
      assert Covered(text, cs, e, k) == Max(e, |text| - 1);
    }
  }

  /** Iterations that start before the end reach the very end only through a scanning chunk,
      which ends with a terminator. */
  lemma {:induction false} CoveredEndIsTerminated(text: string, cs: nat, e: nat, k: nat)
    requires cs > 0 && Anchored(text, cs, e) && (k > 0 ==> |text| > 0)
    requires e < |text| && Covered(text, cs, e, k) == |text|
    ensures IsTerminator(text[|text| - 1])
    decreases k
  {
    if k > 0 && e + cs < |text| {
      var e' := NextEnd(text, cs, e);
      NextEndScan(text, cs, e);
      if e' < |text| {
        CoveredEndIsTerminated(text, cs, e', k - 1);
      }
    }
  }

  /** `chunk_book` emits one chunk per iteration of `range(0, len, chunk_size)`: the ceiling of
      `len / chunk_size`, none for an empty text. Chunk `i` runs from cursor `i` to the cursor
      that iteration `i + 1` leaves behind, so each chunk starts where the previous one ended. */
  lemma ChunksAreContiguous(text: string, cs: nat)
    requires cs > 0 && FirstWindowHasTerminator(text, cs)
    ensures |text| == 0 ==> ChunkBookSpec(text, cs) == []
    ensures |text| > 0 ==> |ChunkBookSpec(text, cs)| == (|text| + cs - 1) / cs
    ensures forall i :: 0 <= i < |ChunkBookSpec(text, cs)| ==>
              ChunkBookSpec(text, cs)[i] == Slice(text, Cursor(text, cs, i), NextEnd(text, cs, Cursor(text, cs, i)))
  {
    var k := RangeLen(0, |text|, cs);
    if |text| > 0 {
      RangeLenIsCeilDiv(0, |text|, cs);
      forall i | 0 <= i < k
        ensures ChunkBookSpec(text, cs)[i] == Slice(text, Cursor(text, cs, i), NextEnd(text, cs, Cursor(text, cs, i)))
      {
        RunChunkAt(text, cs, 0, k, i);
      }
    }
  }

  /** A chunk produced by the scanning branch (`start + chunk_size < len`) is either empty or
      ends with a terminator, is at most `chunk_size + 1` long, and is the longest such piece:
      no terminator lies between its end and the end of the window. */
  lemma ScanChunkEndsAtTerminator(text: string, cs: nat, i: nat)
    requires cs > 0 && FirstWindowHasTerminator(text, cs)
    requires i < |ChunkBookSpec(text, cs)|
    requires Cursor(text, cs, i) + cs < |text|
    ensures var c := ChunkBookSpec(text, cs)[i];
      && |c| <= cs + 1
      && (c == [] || IsTerminator(c[|c| - 1]))
      && forall k :: Cursor(text, cs, i + 1) <= k <= Cursor(text, cs, i) + cs ==> !IsTerminator(text[k])
  {
    ChunksAreContiguous(text, cs);
    var a := Cursor(text, cs, i);
    var b := NextEnd(text, cs, a);
    NextEndScan(text, cs, a);
    CursorAfterNext(text, cs, 0, i);
    assert ChunkBookSpec(text, cs)[i] == Slice(text, a, b);
  }

  /** The final branch sets `end = len - 1`; every later iteration emits an empty chunk. */
  lemma FinalBranchEmptiesTheRest(text: string, cs: nat, i: nat)
    requires cs > 0 && FirstWindowHasTerminator(text, cs)
    requires i < |ChunkBookSpec(text, cs)|
    requires Cursor(text, cs, i) + cs >= |text|
    ensures Cursor(text, cs, i + 1) == |text| - 1
    ensures ChunkBookSpec(text, cs)[i] == Slice(text, Cursor(text, cs, i), |text| - 1)
    ensures forall j :: i < j < |ChunkBookSpec(text, cs)| ==> ChunkBookSpec(text, cs)[j] == []
  {
    ChunksAreContiguous(text, cs);
    CursorAfterNext(text, cs, 0, i);
    forall j | i < j < |ChunkBookSpec(text, cs)|
      ensures ChunkBookSpec(text, cs)[j] == []
    {
      FinalCursorSticks(text, cs, 0, i, j);
    }
  }

  /** Once the final branch runs, the text is cut at `len - 1` or later: what is lost is then
      at most the last character. (If the iterations run out before it runs, more is lost; see
      `ExampleTailLost`.) */
  lemma FinalBranchReachesLastButOne(text: string, cs: nat, i: nat)
    requires cs > 0 && FirstWindowHasTerminator(text, cs)
    requires i < |ChunkBookSpec(text, cs)|
    requires Cursor(text, cs, i) + cs >= |text|
    ensures |text| - 1 <= ChunkedPrefixEnd(text, cs) <= |text|
  {
    CoveredAfterFinal(text, cs, 0, RangeLen(0, |text|, cs), i);
  }

  /** The last character of a non-empty text reaches the chunks only if it is a terminator:
      the final branch always stops one short of the end. */
  lemma LastCharacterKeptOnlyIfTerminator(text: string, cs: nat)
    requires cs > 0 && FirstWindowHasTerminator(text, cs) && |text| > 0
    ensures ChunkedPrefixEnd(text, cs) == |text| ==> IsTerminator(text[|text| - 1])
  {
    if ChunkedPrefixEnd(text, cs) == |text| {
      CoveredEndIsTerminated(text, cs, 0, RangeLen(0, |text|, cs));
    }
  }

  /** A window without a terminator stalls the cursor: that chunk and every later one is empty,
      and the chunks end at the stalled cursor, so the rest of the text is lost. */
  lemma StallDropsTheRest(text: string, cs: nat, i: nat)
    requires cs > 0 && FirstWindowHasTerminator(text, cs)
    requires i < |ChunkBookSpec(text, cs)|
    requires Cursor(text, cs, i) + cs < |text|
    requires forall k :: Cursor(text, cs, i) <= k <= Cursor(text, cs, i) + cs ==> !IsTerminator(text[k])
    ensures forall j :: i <= j < |ChunkBookSpec(text, cs)| ==>
              ChunkBookSpec(text, cs)[j] == [] && Cursor(text, cs, j) == Cursor(text, cs, i)
    ensures ChunkedPrefixEnd(text, cs) == Cursor(text, cs, i)
  {
    var k := RangeLen(0, |text|, cs);
    var c := Cursor(text, cs, i);
    ChunksAreContiguous(text, cs);
    StalledCursorStays(text, cs, c);
    forall j | i <= j < k
      ensures ChunkBookSpec(text, cs)[j] == [] && Cursor(text, cs, j) == c
    {
      StalledCursorSticks(text, cs, 0, i, j);
    }
    CoveredFrom(text, cs, 0, k, i);
    StalledCovered(text, cs, c, k - i);
  }

  /** A window ending in a terminator yields a chunk of `chunk_size + 1` characters, and the
      final branch drops the last character. */
  lemma ExampleLongChunkAndLostLastCharacter()
    ensures FirstWindowHasTerminator("aaaa.b", 4)
    ensures ChunkBookSpec("aaaa.b", 4) == ["aaaa.", ""]
  {
    var text := "aaaa.b";
    assert IsTerminator(text[4]);
    assert RangeLen(0, 6, 4) == 2;
    assert NextEnd(text, 4, 0) == 5;
    assert NextEnd(text, 4, 5) == 5;
    assert Slice(text, 0, 5) == "aaaa.";
    assert Run(text, 4, 5, 1) == [""];
    assert Run(text, 4, 0, 2) == ["aaaa."] + Run(text, 4, 5, 1);
  }

  /** A sentence longer than the window stalls the cursor: every later chunk is empty. */
  lemma ExampleStall()
    ensures FirstWindowHasTerminator("a.bbbbbb.c", 3)
    ensures ChunkBookSpec("a.bbbbbb.c", 3) == ["a.", "", "", ""]
  {
    var text := "a.bbbbbb.c";
    assert IsTerminator(text[1]);
    assert RangeLen(0, 10, 3) == 4;
    assert NextEnd(text, 3, 0) == 2;
    assert NextEnd(text, 3, 2) == 2;
    assert Slice(text, 0, 2) == "a.";
    assert Run(text, 3, 2, 1) == [""];
    assert Run(text, 3, 2, 2) == [""] + Run(text, 3, 2, 1);
    assert Run(text, 3, 2, 3) == [""] + Run(text, 3, 2, 2);
    assert Run(text, 3, 0, 4) == ["a."] + Run(text, 3, 2, 3);
  }

  /** When a scanning chunk ends exactly at the end of the text, the next iteration's slice
      runs backwards and is empty, and the whole text is kept. */
  lemma ExampleWholeTextKept()
    ensures FirstWindowHasTerminator("ab.cd.", 2)
    ensures ChunkBookSpec("ab.cd.", 2) == ["ab.", "cd.", ""]
    ensures ChunkedPrefixEnd("ab.cd.", 2) == 6
  {
    var text := "ab.cd.";
    assert IsTerminator(text[2]);
    assert RangeLen(0, 6, 2) == 3;
    assert NextEnd(text, 2, 0) == 3;
    assert NextEnd(text, 2, 3) == 6;
    assert NextEnd(text, 2, 6) == 5;
    assert Slice(text, 0, 3) == "ab.";
    assert Slice(text, 3, 6) == "cd.";
    assert Run(text, 2, 6, 1) == [""];
    assert Run(text, 2, 3, 2) == ["cd."] + Run(text, 2, 6, 1);
    assert Run(text, 2, 0, 3) == ["ab."] + Run(text, 2, 3, 2);
    assert Covered(text, 2, 3, 2) == Covered(text, 2, 6, 1);
  }

  /** Short chunks use up the iterations of `range(0, len, chunk_size)` before the final branch
      runs: the last sentence is never cut, although no window stalls. */
  lemma ExampleTailLost()
    ensures FirstWindowHasTerminator("ab.ab.ab.ab.ab.", 4)
    ensures ChunkBookSpec("ab.ab.ab.ab.ab.", 4) == ["ab.", "ab.", "ab.", "ab."]
    ensures ChunkedPrefixEnd("ab.ab.ab.ab.ab.", 4) == 12
  {
    var text := "ab.ab.ab.ab.ab.";
    assert IsTerminator(text[2]);
    assert RangeLen(0, 15, 4) == 4;
    assert NextEnd(text, 4, 0) == 3;
    assert NextEnd(text, 4, 3) == 6;
    assert NextEnd(text, 4, 6) == 9;
    assert NextEnd(text, 4, 9) == 12;
    assert Slice(text, 0, 3) == "ab.";
    assert Slice(text, 3, 6) == "ab.";
    assert Slice(text, 6, 9) == "ab.";
    assert Slice(text, 9, 12) == "ab.";
    assert Run(text, 4, 12, 0) == [];
    assert Run(text, 4, 9, 1) == ["ab."] + Run(text, 4, 12, 0);
    assert Run(text, 4, 6, 2) == ["ab."] + Run(text, 4, 9, 1);
    assert Run(text, 4, 3, 3) == ["ab."] + Run(text, 4, 6, 2);
    assert Run(text, 4, 0, 4) == ["ab."] + Run(text, 4, 3, 3);
    assert Covered(text, 4, 9, 1) == Covered(text, 4, 12, 0);
    assert Covered(text, 4, 6, 2) == Covered(text, 4, 9, 1);
    assert Covered(text, 4, 3, 3) == Covered(text, 4, 6, 2);
    assert Covered(text, 4, 0, 4) == Covered(text, 4, 3, 3);
  }
}
