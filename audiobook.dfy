/** The `Book` object (audioBookify.py:25-53) and the parts of `TTS_API_Wrapper` that plan what
    to send and where to write it: the overwrite filter of `create_audiobook`
    (audioBookify.py:251-270) and the clamps of `create_sample` (audioBookify.py:295-317). */
module Audiobook {
  import opened Wrappers
  import opened SeqUtil
  import opened TextJoin
  import opened Chunker
  import opened Mp3Paths
  import opened Subslices

  /** `Book`: the file's stem, the assembled text and its chunks. The fields are set once,
      in `__init__`. */
  datatype Book = Book(name: string, text: string, chunks: seq<string>)

  /** `TTS_API_Wrapper` without its OpenAI client; the defaults are `"tts-1"`, `"onyx"` and
      `True`. */
  datatype Wrapper = Wrapper(book: Book, outPath: string, model: string, voice: string,
                             overwriteProtect: bool)

  /** The default `chunk_size` of `Book.__init__`. */
  const DefaultChunkSize: nat := 4096

  /** The smallest `chunk_size` whose first window reaches the disclaimer's full stop. */
  const MinChunkSize: nat := 77

  /** Every book text opens with the disclaimer, so the first window of `chunk_book` holds a
      terminator exactly when it reaches index 77. */
  lemma DisclaimerAnchorsFirstWindow(lines: seq<string>, cs: nat)
    requires cs > 0
    ensures FirstWindowHasTerminator(BookText(lines), cs) <==> cs >= MinChunkSize
  {
    var text := BookText(lines);
    BookTextShape(lines);
    DisclaimerTerminator();
    assert forall k :: 0 <= k < 80 ==> text[k] == Disclaimer[k];
    if cs >= MinChunkSize {
      assert IsTerminator(text[77]);
    } else {
      assert forall k :: 0 <= k < 77 ==> Disclaimer[k] == Disclaimer[..77][k];
      assert forall k :: 0 <= k <= cs ==> !IsTerminator(text[k]);
    }
  }

  /** The default chunk size is a valid one for every book. */
  lemma DefaultChunkSizeAnchors(lines: seq<string>)
    ensures DefaultChunkSize >= MinChunkSize
    ensures FirstWindowHasTerminator(BookText(lines), DefaultChunkSize)
  {
    DisclaimerAnchorsFirstWindow(lines, DefaultChunkSize);
  }

  /** `Book.__init__` on the lines `readlines` returned. */
  method NewBook(name: string, lines: seq<string>, chunkSize: int) returns (b: Book)
    requires chunkSize >= MinChunkSize
    ensures b.name == name && b.text == BookText(lines)
    ensures FirstWindowHasTerminator(b.text, chunkSize)
    ensures b.chunks == ChunkBookSpec(b.text, chunkSize)
    ensures Disclaimer <= b.text
    ensures |b.chunks| == RangeLen(0, |b.text|, chunkSize) && |b.chunks| > 0
    ensures Flatten(b.chunks) <= b.text
    ensures forall i :: 0 <= i < |b.chunks| ==> |b.chunks[i]| <= chunkSize + 1
  {
    var text := BookText(lines);
    DisclaimerAnchorsFirstWindow(lines, chunkSize);
    BookTextShape(lines);
    var chunks := ChunkBook(text, chunkSize);
    b := Book(name, text, chunks);
  }

  /** The paths `create_paths_to_mp3s(n, tag)` computes for this wrapper. */
  function PathsFor(w: Wrapper, n: int, tag: string): Option<seq<string>>
  {
    CreatePathsToMp3s(w.outPath, w.book.name, w.voice, w.model, n, tag)
  }

  // ---------------------------------------------------------------------------------------
  // create_sample

  /** `IndexError` from `self.book.chunks[chunk_selection]`. */
  datatype SampleError = ChunkIndexOutOfRange(index: int)

  /** The selection clamp as written: `max(min(chunk_selection, len(chunks)), 0)`, then the
      list index. Clamping to `len(chunks)` yields an index one past the end. */
  function SelectChunkAsWritten(chunks: seq<string>, selection: int): (r: Result<nat, SampleError>)
    ensures r.Failure? <==> selection >= |chunks| || |chunks| == 0
    ensures r.Success? ==> r.value == Max(selection, 0) && r.value < |chunks|
  {
    var idx := Max(Min(selection, |chunks|), 0);
    if idx < |chunks| then Success(idx) else Failure(ChunkIndexOutOfRange(idx))
  }

  /** The default `chunk_selection = 1` fails on a book with a single chunk, and no selection
      past the end is ever rescued by the clamp. */
  lemma SelectionClampOffByOne(chunk: string, chunks: seq<string>, selection: int)
    ensures SelectChunkAsWritten([chunk], 1).Failure?
    ensures |chunks| > 0 && selection >= |chunks| ==> SelectChunkAsWritten(chunks, selection).Failure?
  {
  }

  /** The evidently intended clamp, into `0 .. len(chunks) - 1`; only an empty chunk list
      still has no chunk to sample. */
  function SelectChunk(chunks: seq<string>, selection: int): (r: Result<nat, SampleError>)
    ensures r.Failure? <==> |chunks| == 0
    ensures r.Success? ==> r.value < |chunks|
    ensures r.Success? && 0 <= selection < |chunks| ==> r.value == selection
    ensures r.Success? && selection >= |chunks| ==> r.value == |chunks| - 1
    ensures r.Success? && selection < 0 ==> r.value == 0
  {
    var idx := Max(Min(selection, |chunks| - 1), 0);
    if idx < |chunks| then Success(idx) else Failure(ChunkIndexOutOfRange(idx))
  }

  /** Wherever the written clamp works, the corrected one picks the same chunk. */
  lemma SelectChunkExtendsAsWritten(chunks: seq<string>, selection: int)
    ensures SelectChunkAsWritten(chunks, selection).Success? ==>
              SelectChunk(chunks, selection) == SelectChunkAsWritten(chunks, selection)
  {
  }

  /** `chunk[0:max(min(sample_size, len(chunk)), 5)]`: the size is raised to at least 5, and
      Python's slice stops at the end of a shorter chunk. */
  function SampleText(chunk: string, size: int): (s: string)
    ensures s <= chunk
    ensures |s| == Min(Max(size, 5), |chunk|)
  {
    var n := Max(Min(size, |chunk|), 5);
    chunk[..Min(n, |chunk|)]
  }

  /** What `create_sample` sends and where it writes it. */
  datatype SamplePlan = SamplePlan(text: string, path: string)

  /** `create_sample`, with the corrected selection clamp: the start of the selected chunk,
      written to the single `..._sample.mp3` path. */
  function CreateSample(w: Wrapper, selection: int, size: int): (r: Result<SamplePlan, SampleError>)
    ensures r.Failure? <==> |w.book.chunks| == 0
    ensures r.Success? ==>
      var i := SelectChunk(w.book.chunks, selection).value;
      && r.value.text <= w.book.chunks[i]
      && |r.value.text| == Min(Max(size, 5), |w.book.chunks[i]|)
    ensures r.Success? ==> r.value.path == Mp3Dir(w.outPath) + NameStem(w.book.name, w.voice, w.model) + "sample.mp3"
  {
    match SelectChunk(w.book.chunks, selection)
    case Failure(e) => Failure(e)
    case Success(i) =>
      SinglePathUnnumbered(w.outPath, w.book.name, w.voice, w.model, "sample");
      Success(SamplePlan(SampleText(w.book.chunks[i], size), PathsFor(w, 1, "sample").value[0]))
  }

  // ---------------------------------------------------------------------------------------
  // create_audiobook: the overwrite filter

  /** `zip(chunks, paths)`: pairs up to the shorter list. */
  function Zip(chunks: seq<string>, paths: seq<string>): (pairs: seq<(string, string)>)
    ensures |pairs| == Min(|chunks|, |paths|)
    ensures forall i :: 0 <= i < |pairs| ==> pairs[i] == (chunks[i], paths[i])
  {
    if chunks == [] || paths == [] then []
    else [(chunks[0], paths[0])] + Zip(chunks[1..], paths[1..])
  }

  /** The comprehension's condition: a pair is sent unless protection is on and its file
      exists. */
  predicate Pending(protect: bool, fileExists: string -> bool, pair: (string, string))
  {
    !(protect && fileExists(pair.1))
  }

  /** The pairs the comprehension keeps, in order. */
  function KeepPending(pairs: seq<(string, string)>, protect: bool, fileExists: string -> bool)
    : (kept: seq<(string, string)>)
    ensures |kept| <= |pairs|
    ensures forall i :: 0 <= i < |kept| ==> Pending(protect, fileExists, kept[i])
    decreases |pairs|
  {
    if pairs == [] then []
    else (if Pending(protect, fileExists, pairs[0]) then [pairs[0]] else [])
         + KeepPending(pairs[1..], protect, fileExists)
  }

  /** `zip(*pairs)` unpacked into two names: the chunks and the paths. */
  function Unzip(pairs: seq<(string, string)>): (r: (seq<string>, seq<string>))
    ensures |r.0| == |pairs| && |r.1| == |pairs|
    ensures forall i :: 0 <= i < |pairs| ==> r.0[i] == pairs[i].0 && r.1[i] == pairs[i].1
    ensures Zip(r.0, r.1) == pairs
  {
    (seq(|pairs|, i requires 0 <= i < |pairs| => pairs[i].0),
     seq(|pairs|, i requires 0 <= i < |pairs| => pairs[i].1))
  }

  /** `chunks, paths_filtered = zip(*[...])` fails to unpack when no pair is kept. */
  datatype FilterError = NothingToUnpack

  /** The filter with the existence test the code evidently intends, `path.exists()`; the
      file system is the parameter `fileExists`. */
  function FilterPending(chunks: seq<string>, paths: seq<string>, protect: bool,
                         fileExists: string -> bool)
    : (r: Result<(seq<string>, seq<string>), FilterError>)
    ensures r.Success? ==> 0 < |r.value.0| == |r.value.1| <= Min(|chunks|, |paths|)
    ensures r.Success? ==> forall j :: 0 <= j < |r.value.1| ==> !(protect && fileExists(r.value.1[j]))
  {
    var kept := KeepPending(Zip(chunks, paths), protect, fileExists);
    if kept == [] then Failure(NothingToUnpack) else Success(Unzip(kept))
  }

  /** `path.exists` without the call: a bound method object, truthy whatever the path. */
  predicate BoundMethodIsTruthy(path: string)
  {
    true
  }

  /** The filter as written: `path.exists` is the bound method, never called, and always
      truthy, so every file counts as existing. */
  function FilterAsWritten(chunks: seq<string>, paths: seq<string>, protect: bool)
    : (r: Result<(seq<string>, seq<string>), FilterError>)
    ensures protect ==> r == Failure(NothingToUnpack)
    ensures !protect && Min(|chunks|, |paths|) > 0 ==>
              var m := Min(|chunks|, |paths|); r == Success((chunks[..m], paths[..m]))
  {
    KeepPendingExtremes(Zip(chunks, paths), protect, BoundMethodIsTruthy);
    if !protect && Min(|chunks|, |paths|) > 0 then
      FilterUnprotectedSendsAll(chunks, paths, BoundMethodIsTruthy);
      FilterPending(chunks, paths, protect, BoundMethodIsTruthy)
    else
      FilterPending(chunks, paths, protect, BoundMethodIsTruthy)
  }

  /** The filter keeps a pair exactly when it is pending. */
  lemma {:induction false} KeepPendingMembers(pairs: seq<(string, string)>, protect: bool,
                                              fileExists: string -> bool)
    ensures forall x :: x in KeepPending(pairs, protect, fileExists) <==>
              x in pairs && Pending(protect, fileExists, x)
    decreases |pairs|
  {
    if pairs != [] {
      KeepPendingMembers(pairs[1..], protect, fileExists);
      assert pairs == [pairs[0]] + pairs[1..];
    }
  }

  /** The comprehension keeps the pending pairs in their original order, each once: filtering
      a concatenation filters each part, and one pair is kept exactly when it is pending. */
  lemma {:induction false} KeepPendingAppend(a: seq<(string, string)>, b: seq<(string, string)>,
                                             protect: bool, fileExists: string -> bool)
    ensures KeepPending(a + b, protect, fileExists)
         == KeepPending(a, protect, fileExists) + KeepPending(b, protect, fileExists)
    ensures |a| == 1 ==>
              KeepPending(a, protect, fileExists) == if Pending(protect, fileExists, a[0]) then a else []
    decreases |a|
  {
    if a != [] {
      assert (a + b)[1..] == a[1..] + b;
      KeepPendingAppend(a[1..], b, protect, fileExists);
    } else {
      assert a + b == b;
    }
  }

  /** Keeping is all or nothing when every pair is pending, or none is. */
  lemma {:induction false} KeepPendingExtremes(pairs: seq<(string, string)>, protect: bool,
                                               fileExists: string -> bool)
    ensures (forall i :: 0 <= i < |pairs| ==> Pending(protect, fileExists, pairs[i])) ==>
              KeepPending(pairs, protect, fileExists) == pairs
    ensures (forall i :: 0 <= i < |pairs| ==> !Pending(protect, fileExists, pairs[i])) ==>
              KeepPending(pairs, protect, fileExists) == []
    decreases |pairs|
  {
    if pairs != [] {
      KeepPendingExtremes(pairs[1..], protect, fileExists);
      assert pairs == [pairs[0]] + pairs[1..];
    }
  }

  /** The corrected filter fails only when no zipped pair is left to send: every file exists
      and protection is on, or there is nothing to zip. */
  lemma FilterFailsOnlyWhenNothingPending(chunks: seq<string>, paths: seq<string>, protect: bool,
                                          fileExists: string -> bool)
    ensures FilterPending(chunks, paths, protect, fileExists).Failure? <==>
              forall i :: 0 <= i < Min(|chunks|, |paths|) ==> protect && fileExists(paths[i])
  {
    var pairs := Zip(chunks, paths);
    KeepPendingMembers(pairs, protect, fileExists);
    KeepPendingExtremes(pairs, protect, fileExists);
    if KeepPending(pairs, protect, fileExists) == [] {
      forall i | 0 <= i < |pairs|
        ensures protect && fileExists(paths[i])
      {
        assert pairs[i] in pairs;
      }
    }
  }

  /** Every chunk the corrected filter sends comes with its own path, and that file is
      missing or protection is off. */
  lemma FilterSendsOnlyPending(chunks: seq<string>, paths: seq<string>, protect: bool,
                               fileExists: string -> bool)
    ensures var r := FilterPending(chunks, paths, protect, fileExists);
      r.Success? ==> forall j :: 0 <= j < |r.value.0| ==>
        exists i :: 0 <= i < Min(|chunks|, |paths|) && chunks[i] == r.value.0[j] && paths[i] == r.value.1[j]
                    && !(protect && fileExists(paths[i]))
  {
    var pairs := Zip(chunks, paths);
    var kept := KeepPending(pairs, protect, fileExists);
    KeepPendingMembers(pairs, protect, fileExists);
    if kept != [] {
      var u := Unzip(kept);
      forall j | 0 <= j < |u.0|
        ensures exists i :: 0 <= i < |pairs| && chunks[i] == u.0[j] && paths[i] == u.1[j]
                            && !(protect && fileExists(paths[i]))
      {
        assert kept[j] in kept;
        var i :| 0 <= i < |pairs| && pairs[i] == kept[j];
        assert chunks[i] == u.0[j] && paths[i] == u.1[j];
      }
      assert FilterPending(chunks, paths, protect, fileExists) == Success(u);
    }
  }

  /** Every zipped chunk whose file is missing, or every one when protection is off, is sent
      with its own path. */
  lemma FilterSendsEveryPending(chunks: seq<string>, paths: seq<string>, protect: bool,
                                fileExists: string -> bool)
    ensures var r := FilterPending(chunks, paths, protect, fileExists);
      r.Success? ==> forall i :: 0 <= i < Min(|chunks|, |paths|) && !(protect && fileExists(paths[i])) ==>
        exists j :: 0 <= j < |r.value.0| && r.value.0[j] == chunks[i] && r.value.1[j] == paths[i]
  {
    var pairs := Zip(chunks, paths);
    var kept := KeepPending(pairs, protect, fileExists);
    KeepPendingMembers(pairs, protect, fileExists);
    if kept != [] {
      var u := Unzip(kept);
      forall i | 0 <= i < |pairs| && !(protect && fileExists(paths[i]))
        ensures exists j :: 0 <= j < |u.0| && u.0[j] == chunks[i] && u.1[j] == paths[i]
      {
        assert pairs[i] in kept;
      }
    }
  }

  /** Without protection the corrected filter sends every zipped pair, in order. */
  lemma FilterUnprotectedSendsAll(chunks: seq<string>, paths: seq<string>, fileExists: string -> bool)
    requires Min(|chunks|, |paths|) > 0
    ensures var m := Min(|chunks|, |paths|);
      FilterPending(chunks, paths, false, fileExists) == Success((chunks[..m], paths[..m]))
  {
    var pairs := Zip(chunks, paths);
    KeepPendingExtremes(pairs, false, fileExists);
    var u := Unzip(pairs);
    var m := Min(|chunks|, |paths|);
    assert u.0 == chunks[..m];
    assert u.1 == paths[..m];
  }

  /** As written, overwrite protection drops every chunk whatever is on disk, and the unpack
      then fails: with protection on, `create_audiobook` never gets past the filter. */
  lemma FilterAsWrittenFailsWhenProtected(chunks: seq<string>, paths: seq<string>)
    ensures FilterAsWritten(chunks, paths, true).Failure?
  {
    KeepPendingExtremes(Zip(chunks, paths), true, BoundMethodIsTruthy);
  }

  /** Without protection both filters send every zipped pair. */
  lemma FiltersAgreeUnprotected(chunks: seq<string>, paths: seq<string>, fileExists: string -> bool)
    ensures FilterAsWritten(chunks, paths, false) == FilterPending(chunks, paths, false, fileExists)
  {
    KeepPendingExtremes(Zip(chunks, paths), false, BoundMethodIsTruthy);
    KeepPendingExtremes(Zip(chunks, paths), false, fileExists);
  }

  /** Why `create_audiobook` stops before any request is sent. */
  datatype AudiobookError = NoPaths | Filter(e: FilterError)

  /** The request side of `create_audiobook`, with the corrected filter: predetermine the
      paths, keep the chunks still to be written, and send them in batches of at most 50.
      With no chunks `create_paths_to_mp3s(0)` never assigns `paths`. The file system and the
      network are the parameters `fileExists` and `request`. */
  method CreateAudiobookRequests<R>(w: Wrapper, fileExists: string -> bool, request: string -> R)
    returns (r: Result<(seq<string>, seq<R>), AudiobookError>)
    ensures |w.book.chunks| == 0 ==> r == Failure(NoPaths)
    ensures |w.book.chunks| > 0 ==>
      var paths := PathsFor(w, |w.book.chunks|, "").value;
      match FilterPending(w.book.chunks, paths, w.overwriteProtect, fileExists)
      case Failure(e) => r == Failure(Filter(e))
      case Success(sent) =>
        && r.Success? && r.value.0 == sent.0
        && |r.value.1| == |sent.0|
        && forall i :: 0 <= i < |sent.0| ==> r.value.1[i] == request(sent.0[i])
  {
    var paths := PathsFor(w, |w.book.chunks|, "");
    if paths.None? {
      return Failure(NoPaths);
    }
    var filtered := FilterPending(w.book.chunks, paths.value, w.overwriteProtect, fileExists);
    if filtered.Failure? {
      return Failure(Filter(filtered.error));
    }
    var chunks := filtered.value.0;
    var responses, batches := SpawnRequests(chunks, request);
    return Success((chunks, responses));
  }
}
