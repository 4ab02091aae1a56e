# audioBookify core, in Dafny

audioBookify turns a plain-text book into an audiobook with OpenAI's text-to-speech API.
`Book` reads the file. It puts a fixed disclaimer in front of the lines and joins them with
spaces. `chunk_book` then cuts the text into chunks of about `chunk_size` characters. It tries
to end each chunk at a sentence terminator, but it does not always succeed (see below).
`TTS_API_Wrapper` estimates the price of a book and names the mp3 file for each chunk. When
overwrite protection is on, it is meant to skip chunks whose file already exists; as written
it skips every chunk (see "## Findings"). It sends the chunks it keeps in batches of at most
50 per minute. `create_sample` reads out the start of one chunk.

This project models those parts:

- `wrappers.dfy`: the `Option` and `Result` types.
- `sequtil.dfy`: `Flatten` of a list of lists, and the number of values `range(lo, hi, step)` yields.
- `textjoin.dfy` (module `TextJoin`): the disclaimer and `' '.join`.
- `chunker.dfy` (module `Chunker`): `chunk_book`, modelled as written. `ChunkBook` and
  `ScanBack` are the loops. `ChunkBookSpec` is the function they are proved against. The
  lemmas state what the chunks are, including where the code loses text.
- `subslices.dfy` (module `Subslices`): the `subslices` generator, and the batching in
  `spawn_requests`.
- `cost.dfy` (module `Cost`): `estimate_cost`, in whole thousandths of a dollar.
- `mp3paths.dfy` (module `Mp3Paths`): `create_paths_to_mp3s`. Paths are strings with `/`
  between components.
- `audiobook.dfy` (module `Audiobook`): `Book.__init__`, the selection and size clamps of
  `create_sample`, and the overwrite filter and requests of `create_audiobook`.

`chunk_book` has some odd behaviours. The model keeps them and proves them as lemmas:

- A chunk can be `chunk_size + 1` characters long, because the backward scan starts at the
  inclusive index `start + chunk_size`.
- The final branch cuts the text at `len - 1`. The last character is therefore kept only when a
  scanning chunk already ended exactly at the end of the text, which needs a terminator there.
- The loop runs `ceil(len / chunk_size)` times whatever the chunks' lengths. When chunks are
  shorter than `chunk_size`, the iterations can run out before the final branch ever runs,
  and the sentences after the last chunk are never sent, although no window stalls.
- A window with no terminator leaves the cursor where it was. That chunk and every later chunk
  are then empty, and the rest of the text is never sent.
- The very first window must contain a terminator. Otherwise Python's negative indices would
  wrap the scan around to the end of the text. In a book the disclaimer's full stop is at
  index 77, so this holds exactly when `chunk_size >= 77`.

## Model

| member | source | states |
|---|---|---|
| SeqUtil.RangeLenIsCeiling | audioBookify.py:76 | `range(lo, hi, step)` yields nothing when `lo >= hi`; otherwise it yields the least count whose steps cover `hi - lo` |
| SeqUtil.RangeLenIsCeilDiv | audioBookify.py:22 | the number of values of `range(lo, hi, step)` is `ceil((hi - lo) / step)` |
| Subslices.Subslices | audioBookify.py:20-23 | the slices concatenate back to the list; there are `ceil(len / n)` of them; each has 1 to `n` elements, and all but the last have exactly `n` |
| Subslices.SpawnRequests | audioBookify.py:198-214 | response `i` answers chunk `i`; the batches concatenate back to the chunk list; there are `ceil(len / 50)` batches, each holding 1 to 50 requests |
| TextJoin.Join | audioBookify.py:51 | `sep.join(pieces)`: no pieces give the empty string; otherwise the join starts with the first piece and ends with the last; the pieces in between follow in order (`JoinAppend`) |
| TextJoin.BookText | audioBookify.py:50-51 | the book text starts with the disclaimer and ends with the last line; the lines follow in order, one space apart (`JoinAppend`) |
| TextJoin.JoinAppend | audioBookify.py:51 | appending a piece to a non-empty list appends one separator and that piece, so the pieces appear in order with one separator between neighbours |
| TextJoin.JoinLength | audioBookify.py:51 | a join is as long as its pieces plus one separator between each pair of neighbouring pieces |
| TextJoin.BookTextShape | audioBookify.py:50-51 | the book text starts with the disclaimer, and its length is the disclaimer's plus each line's plus one space per line |
| TextJoin.DisclaimerTerminator | audioBookify.py:30 | the disclaimer is 80 characters long; its first terminator is the full stop at index 77 |
| Chunker.LastTerminator | audioBookify.py:83-84 | the backward scan stops at a terminator at or before its starting index |
| Chunker.LastTerminatorIsLast | audioBookify.py:83-84 | no terminator lies between where the scan stops and where it started |
| Chunker.LastTerminatorAtLeast | audioBookify.py:83-84 | the scan never steps back past a terminator |
| Chunker.NextEnd | audioBookify.py:79-89 | one iteration keeps the cursor where the next scan stays inside the text; a scanning iteration moves the cursor forward by at most `chunk_size + 1`; the final branch sets it to `len - 1` |
| Chunker.NextEndScan | audioBookify.py:79-86 | after a scanning iteration the cursor stands just past a terminator, and no terminator lies between the cursor and the end of the window |
| Chunker.ChunkBookSpec | audioBookify.py:73-93 | what `chunk_book` returns: one chunk per value of `range(0, len, chunk_size)`, so none for an empty text |
| Chunker.ChunkBook | audioBookify.py:55-93 | the loop returns `ChunkBookSpec`: one chunk per value of `range(0, len, chunk_size)`; together the chunks are a prefix of the text; each chunk is at most `chunk_size + 1` long |
| Chunker.ScanBack | audioBookify.py:80-86 | the inner loop steps back `idx` characters, and `end - idx + 1` is the cursor just past the window's last terminator |
| Chunker.ChunkBookProperties | audioBookify.py:73-93 | the chunks concatenate to the text up to `ChunkedPrefixEnd`, and none is longer than `chunk_size + 1` |
| Chunker.ChunksAreContiguous | audioBookify.py:76-91 | an empty text gives no chunks; otherwise there are `ceil(len / chunk_size)` of them; chunk `i` runs from cursor `i` to cursor `i + 1`, so each chunk starts where the previous one ends |
| Chunker.ScanChunkEndsAtTerminator | audioBookify.py:79-86 | a chunk from the scanning branch is empty or ends with a terminator, has at most `chunk_size + 1` characters, and no terminator lies between its end and the end of its window |
| Chunker.FinalBranchEmptiesTheRest | audioBookify.py:88-91 | the final branch sets the cursor to `len - 1` and slices up to it, and every later chunk is empty |
| Chunker.FinalBranchReachesLastButOne | audioBookify.py:88-91 | once the final branch runs, the chunks cover the text up to at least `len - 1` |
| Chunker.LastCharacterKeptOnlyIfTerminator | audioBookify.py:79-91 | the chunks contain the last character only when that character is a terminator |
| Chunker.StallDropsTheRest | audioBookify.py:79-91 | a window without a terminator leaves the cursor in place; that chunk and every later one is empty, and the chunks end at that cursor |
| Chunker.StalledCursorStays | audioBookify.py:79-86 | a scan of a window without a terminator puts the cursor back where it was |
| Chunker.ExampleLongChunkAndLostLastCharacter | audioBookify.py:76-91 | `"aaaa.b"` with chunk size 4 gives `["aaaa.", ""]`: one chunk of five characters, and the last character is dropped |
| Chunker.ExampleStall | audioBookify.py:76-91 | `"a.bbbbbb.c"` with chunk size 3 gives `["a.", "", "", ""]` |
| Chunker.ExampleWholeTextKept | audioBookify.py:76-91 | `"ab.cd."` with chunk size 2 gives `["ab.", "cd.", ""]`, covering the whole text |
| Chunker.ExampleTailLost | audioBookify.py:76-91 | `"ab.ab.ab.ab.ab."` with chunk size 4 gives four chunks `"ab."`: the iterations run out, and the last three characters are never sent |
| Cost.Tokens | audioBookify.py:139 | a chunk is billed the least number of 1000-character tokens that hold it, and zero tokens only when it is empty |
| Cost.EstimateCost | audioBookify.py:129-143 | for a known model the result is the sum of the chunk costs; an unknown model raises once there is a chunk to price; no chunks cost 0 |
| Cost.TotalCost | audioBookify.py:137-143 | the loop's running total over all chunks; at a positive price it is 0 exactly when every chunk is empty |
| Cost.TotalCostAppend | audioBookify.py:137-143 | the estimate for two lists of chunks is the sum of their estimates |
| Cost.TotalCostIsTokensTimesPrice | audioBookify.py:139-141 | the estimate is the total token count times the model's price |
| Cost.HdCostsTwiceStandard | audioBookify.py:106 | `tts-1-hd` costs exactly twice what `tts-1` costs for the same chunks |
| Cost.TokensMonotone | audioBookify.py:139 | a longer chunk is never billed fewer tokens |
| Cost.ChunkCostMonotone | audioBookify.py:139-140 | a longer chunk never costs less, and an empty chunk costs nothing |
| Cost.TokensSplit | audioBookify.py:139 | billing two pieces separately costs at least as many tokens as billing them together, and at most one more |
| Cost.ChunkingBounds | audioBookify.py:137-141 | chunking never bills fewer tokens than the joined text would be billed, and at most one extra token per chunk |
| Mp3Paths.NatToString | audioBookify.py:163 | `f"{idx}"` is a non-empty run of decimal digits |
| Mp3Paths.ParseNatToString | audioBookify.py:163 | reading the rendered digits back gives the number |
| Mp3Paths.NatToStringInjective | audioBookify.py:163 | different numbers render differently |
| Mp3Paths.CreatePathsToMp3s | audioBookify.py:145-170 | there is a list exactly when `n >= 1`, and it holds `n` paths |
| Mp3Paths.IndexedPathsDistinct | audioBookify.py:160-164 | with several chunks no two chunks share a path |
| Mp3Paths.PathsShape | audioBookify.py:160-168 | every path lies in `out_path/mp3s/`, its name starts with the book, voice and model, and it ends with the tag and `.mp3` |
| Mp3Paths.PathsNumbered | audioBookify.py:160-164 | with several chunks path `i` carries `_{i}_of_{n}_`, so the paths come in index order |
| Mp3Paths.SinglePathUnnumbered | audioBookify.py:165-168 | a single chunk gets the one unnumbered name `{book}_{voice}_{model}_{tag}.mp3` |
| Audiobook.DisclaimerAnchorsFirstWindow | audioBookify.py:30-53 | the first window of a book text holds a terminator exactly when `chunk_size >= 77` |
| Audiobook.DefaultChunkSizeAnchors | audioBookify.py:32 | the default `chunk_size` 4096 is at least 77, so the first window of every book text holds a terminator |
| Audiobook.NewBook | audioBookify.py:32-53 | the text is the disclaimer and the lines joined by spaces; the chunks are `chunk_book`'s; there is at least one chunk; together the chunks are a prefix of the text; each chunk has at most `chunk_size + 1` characters |
| Audiobook.SelectChunkAsWritten | audioBookify.py:307-308 | the clamp as written fails exactly when the selection is at least the chunk count, or there are no chunks; otherwise it picks `max(selection, 0)` |
| Audiobook.SelectionClampOffByOne | audioBookify.py:307-308 | the default selection 1 fails on a one-chunk book, and no selection past the end is rescued |
| Audiobook.SelectChunk | audioBookify.py:307-308 | the corrected clamp fails only when there are no chunks; an in-range selection is kept, a larger one goes to the last chunk, and a negative one to the first |
| Audiobook.SelectChunkExtendsAsWritten | audioBookify.py:307-308 | wherever the written clamp succeeds, the corrected one picks the same chunk |
| Audiobook.SampleText | audioBookify.py:311-312 | the sample is a prefix of the chunk, of length `min(max(size, 5), len(chunk))` |
| Audiobook.CreateSample | audioBookify.py:306-315 | fails only when there are no chunks; otherwise the sample is the start of the chunk the corrected clamp selects, of length `min(max(size, 5), len(chunk))`, written to `..._sample.mp3` |
| Audiobook.Zip | audioBookify.py:266 | `zip` pairs element `i` with element `i`, up to the shorter list |
| Audiobook.Unzip | audioBookify.py:266 | `zip(*pairs)` inverts `zip`: zipping the two lists it returns gives the pairs back |
| Audiobook.KeepPending | audioBookify.py:266-267 | the comprehension keeps at most the zipped pairs, and every pair it keeps is pending: protection is off or its file is missing |
| Audiobook.KeepPendingAppend | audioBookify.py:266-267 | the comprehension keeps pairs in their original order, each once: filtering a concatenation filters each part, and one pair is kept exactly when it is pending |
| Audiobook.KeepPendingMembers | audioBookify.py:266-267 | the comprehension keeps a pair exactly when it is not protected by an existing file |
| Audiobook.KeepPendingExtremes | audioBookify.py:266-267 | the comprehension keeps everything when every pair is pending, and nothing when none is |
| Audiobook.FilterPending | audioBookify.py:266-267 | the corrected filter: on success it returns as many chunks as paths, at least one and at most the zipped count, and no returned path is a protected existing file |
| Audiobook.FilterAsWritten | audioBookify.py:266-267 | the filter as written: with protection on it always fails to unpack; without protection it returns every zipped chunk and path, in order |
| Audiobook.FilterFailsOnlyWhenNothingPending | audioBookify.py:266-267 | the corrected filter fails to unpack exactly when protection is on and every zipped file exists, or when there is nothing to zip |
| Audiobook.FilterSendsOnlyPending | audioBookify.py:266-267 | every chunk sent comes with its own path, and that file is missing or protection is off |
| Audiobook.FilterSendsEveryPending | audioBookify.py:266-267 | every zipped chunk whose file is missing, or every one when protection is off, is sent with its own path |
| Audiobook.FilterUnprotectedSendsAll | audioBookify.py:266-267 | without protection, every zipped pair is sent, in order |
| Audiobook.FilterAsWrittenFailsWhenProtected | audioBookify.py:266-267 | as written, protection drops every chunk whatever is on disk, so the unpack fails |
| Audiobook.FiltersAgreeUnprotected | audioBookify.py:266-267 | without protection, the written filter and the corrected one agree |
| Audiobook.CreateAudiobookRequests | audioBookify.py:262-270 | with no chunks there are no paths; otherwise the filter's error is passed on, or the chunks it keeps are sent, and response `i` answers kept chunk `i` |

## Left out

- Reading the book file, `Path.stem`, and `errors="ignore"` decoding are left out. `NewBook` takes the name and the lines as values.
- The OpenAI client, `load_dotenv`, `request`, `aiohttp` and `asyncio.gather` are left out. A request is a function parameter `request`, and the model sends batches one after another.
- `time.perf_counter`, `time.sleep` and the 60-second pacing are left out. Only the batch sizes are modelled.
- `write_mp3s`, `join_mp3s`, `iter_bytes`, the pydub `AudioSegment` joining and the mp3 export are left out, as audio and file I/O. This includes `export` being handed a list of paths.
- The `__main__` block is a driver with prints and is left out. The GUI (`audiobookGUI.py`) is not part of this model.
- The file system is the parameter `fileExists`. Paths are strings joined with `/`. `Path`'s normalisation is not modelled: for an `out_path` of `.` or `/`, the model gives `./mp3s/...` or `//mp3s/...` where `Path` renders `mp3s/...` or `/mp3s/...`.
- Cost.EstimateCost: prices are whole thousandths of a dollar (15 and 30) rather than the floats 0.015 and 0.03, so the result has no floating-point rounding.
- Chunker.ChunkBook: requires `chunk_size > 0`, because Python's `range` raises for a step of 0 and a negative step gives no chunks and no scan.
- Chunker.ChunkBook: requires the first window to hold a terminator. Without one, the scan reads negative indices, which wrap to the end of the text. That wrap-around is not modelled.
- Audiobook.NewBook: requires `chunk_size >= 77`, which is exactly the condition above for a book text. Smaller sizes hit the unmodelled wrap-around.
- Subslices.Subslices: requires `n > 0`. `range` raises for a step of 0, and for a negative `n` `subslices` yields nothing; the only caller passes 50. The model returns the list of slices rather than a lazy generator.
- Audiobook.CreateSample uses the corrected selection clamp. The clamp as written is `SelectChunkAsWritten`, and the first finding below relates the two versions.
- Audiobook.CreateAudiobookRequests uses the corrected overwrite filter, which calls `path.exists()`. The filter as written is `FilterAsWritten`; with protection on it sends nothing and the unpack fails (second finding below).
- Audiobook.CreateSample stops at what it would send and where it would write it. The request and `write_mp3s` are I/O.
- Audiobook.CreateAudiobookRequests stops at the responses. Joining the audio and exporting it are left out as above.

## Findings

| source | as written | input that shows it | evidently intended | confidence | as-written member | corrected member |
|---|---|---|---|---|---|---|
| audioBookify.py:307-308 | `chunk_selection` is clamped to `len(chunks)`, one past the last index | a book with one chunk and the default `chunk_selection = 1` raises `IndexError` | clamp to `len(chunks) - 1`, so every selection picks a chunk when there is one | high; not executed | Audiobook.SelectChunkAsWritten | Audiobook.SelectChunk |
| audioBookify.py:266-267 | `path.exists` is the bound method, never called, so it is always truthy | `overwrite_protect = True` (the default) with no mp3 on disk drops every chunk, and the unpack of the empty `zip(*[])` raises | call `path.exists()`, so that only chunks whose file already exists are skipped | high; not executed | Audiobook.FilterAsWrittenFailsWhenProtected | Audiobook.FilterSendsOnlyPending |
