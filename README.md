# Word-window chunker of package `embed`

This project models the chunker of package `embed` (`embed/chunker.go`) in Dafny and proves
properties of the model. The chunker cuts a text into overlapping windows of words: it reads the
text line by line and splits each line on whitespace. It appends the words to a builder, separated by
single spaces. When the builder holds `chunkSize` words it emits the builder's string as a chunk, then
splits that chunk again and writes its last `chunkOverlap` words back into the reset builder. Whatever
remains in the builder at the end becomes the last chunk.

The project has three modules:

- `Text` (`text.dfy`) covers whitespace as `unicode.IsSpace` classifies it, `strings.Fields`, and the
  single-space join the builder performs. It proves that splitting a joined word sequence gives the
  words back.
- `Windows` (`windows.dfy`) defines the window semantics as functions on word sequences. `Feed`
  takes the words in the builder and the words still to come and returns the chunks emitted.
  `WindowsOf` applies it to a whole input and `ChunkText` renders the result as strings. The lemmas
  cover chunk sizes, the overlap between neighbouring chunks, the round trip from chunks back to the
  input's words, and the edge cases.
- `Embed` (`chunker.dfy`) holds the `Chunker` class with its two mutable fields, `validate`,
  `NewChunker` (which overwrites zero fields after allocation), and `Chunk` as nested loops over
  lines and words. The builder is a real string, and the emitted chunk really is re-split with
  `Fields` when the builder is reseeded. `Chunk` is proved to return exactly
  `ChunkText(lines, chunkSize, chunkOverlap)`. The loop over a line's words is the method
  `AddWords`, and one iteration of it is `AddWord`.

The model follows the code, including the behaviour it shows at the edges:

- **Input of exactly `chunkSize` words.** It yields two chunks whenever `chunkOverlap > 0`: the
  full window, then a chunk holding only the reseeded overlap words (`ExactWindow`,
  `FourWordsExample`, `FourWordsChunks`). The same happens whenever the last word of the input
  closes a window (`LastWordClosesWindow`).
- **`chunkOverlap == chunkSize`.** The code does not fault. The reseeded builder is already full,
  so every later window closes one word past `chunkSize` (`FeedSizes`, `FullOverlapWindows`).
- **Index faults.** The reseed loop starts at `len(overlapWords) - chunkOverlap`, computed in Go's
  64-bit `int`. It indexes before the closed chunk when `chunkOverlap` exceeds `max(chunkSize, 1)`
  (`ReseedFits`). It wraps around to a negative index when the difference exceeds `math.MaxInt`,
  which happens for overlaps at or below `math.MinInt + max(chunkSize, 1)` (`StartInRange`). Either
  way Go panics at the first window that closes.
- **Other values `NewChunker` keeps.** A negative overlap above that wrap-around range writes
  nothing back, exactly like an overlap of 0 (`NegativeOverlap`). A chunk size of 1 or less closes
  a window at every word (`FeedSingles`).
- **Read errors.** `Chunk` never consults the scanner's error. A read failure ends the input and
  the chunks gathered so far are returned with a nil error, so the model's `Chunk` has no error
  result.

## Model

| member | source | states |
|---|---|---|
| Embed.Chunker.constructor | embed/chunker.go:34 | the struct literal stores both fields as given |
| Embed.Chunker.Validate | embed/chunker.go:23-31 | the result is nil exactly when both fields are non-zero; a zero size gives "chunkSize is required", checked first; otherwise a zero overlap gives "chunkOverlap is required"; negative values pass |
| Embed.NewChunker | embed/chunker.go:33-42 | a fresh chunker whose zero size becomes 512 and zero overlap 128, any other value (negative included) kept, and whose returned error is its own validation, which always passes |
| Embed.Chunker.Chunk | embed/chunker.go:44-90 | for every configuration in which the reseed start index neither falls before the closed chunk nor wraps around, the chunks returned are exactly the space-joined windows of `WindowsOf` over the input's words |
| Embed.Chunker.AddWords | embed/chunker.go:57-79 | after one line's words the builder still holds the space-joined accumulator with its word count, the returned chunks are the joined emitted windows, and emitted windows followed by the windows still to come remain the windows of the whole input |
| Embed.Chunker.AddWord | embed/chunker.go:59-78 | appending a word to the builder holding `acc`: when the count reaches `chunkSize` the joined window is appended to the chunks and the builder holds the window's last `Keep(chunkOverlap)` words with that count; otherwise the builder holds `acc` plus the word and the count grows by one |
| Embed.WriteWord | embed/chunker.go:59-63 | writing a word, preceded by a space unless the count is 0, turns the join of `ws` into the join of `ws + [word]` and increments the count |
| Embed.Reseed | embed/chunker.go:68-77 | for a start index that is neither negative nor past `math.MaxInt`: after resetting and writing back the tail of the emitted chunk, the builder is the join of the chunk's last `Keep(overlap)` words and the count is `Keep(overlap)` |
| Embed.SplitChunk | embed/chunker.go:68 | splitting an emitted chunk recovers exactly the words it was written from |
| Text.WordLen | embed/chunker.go:57 | the length of the maximal non-space run at the start of a string: every character before it is non-space and the character at it, if any, is a space |
| Text.WordLenUnique | embed/chunker.go:57 | any length with those three properties is the one `WordLen` computes |
| Text.Fields | embed/chunker.go:57 | `strings.Fields` yields only non-empty words without whitespace |
| Text.JoinSnoc | embed/chunker.go:59-62 | joining one more word adds a space and the word, or just the word when nothing was joined |
| Text.AppendWord | embed/chunker.go:59-62 | the builder plus a space (only when words were written) plus the word is the join of the extended sequence |
| Text.FieldsOfWord | embed/chunker.go:68 | a single word splits into itself |
| Text.FieldsAtSpace | embed/chunker.go:57 | a whitespace character is a word boundary: splitting around it equals splitting each side and concatenating |
| Text.FieldsOfJoin | embed/chunker.go:68 | splitting the space-joined words gives exactly those words back, which is what reseeding relies on |
| Windows.Words | embed/chunker.go:55-58 | the input's words, line by line, are all words |
| Windows.WordsFrom | embed/chunker.go:56-57 | the words from line n on are line n's fields followed by those of the later lines |
| Windows.WordsOfText | embed/chunker.go:55-57 | splitting line by line gives the same words as splitting the whole newline-joined text |
| Windows.Feed | embed/chunker.go:58-85 | the window semantics: no chunk at all exactly when the builder and the remaining input are both empty |
| Windows.FeedStep | embed/chunker.go:59-78 | one appended word either closes the window (it is emitted and the accumulator becomes its last `Keep(overlap)` words) or extends the accumulator |
| Windows.FeedFirst | embed/chunker.go:66-85 | the first chunk emitted begins with the accumulator's words |
| Windows.JoinAllSnoc | embed/chunker.go:67 | rendering one more window appends its join |
| Windows.FeedSizes | embed/chunker.go:66-85 | every chunk but the last has at least `Window(size)` words, the last at least one, and none more than `Longest(size, overlap)`, which is one past the window only when the overlap fills it |
| Windows.ChunkSizes | embed/chunker.go:66-85 | when the overlap is below the window, every chunk but the last has exactly `Window(size)` words and the last between one word and the window |
| Windows.FeedOverlap | embed/chunker.go:68-77 | each chunk after the first begins with the last `Keep(overlap)` words of the chunk before it |
| Windows.TailsAfterSeed | embed/chunker.go:68-77 | when the chunks start with the seed, their new words after the seed are the rest of the input |
| Windows.FeedReassemble | embed/chunker.go:56-85 | the first chunk, then each later chunk without its overlap words, gives back the accumulator followed by the remaining words |
| Windows.FeedWords | embed/chunker.go:57-77 | every element of every chunk is a word |
| Windows.FeedBelowWindow | embed/chunker.go:83-85 | fewer words than a window are emitted only by the final flush, as one chunk, and not at all when there are none |
| Windows.FeedFillsWindow | embed/chunker.go:58-78 | once the window can be filled, the next chunk is the accumulator topped up to `size` words and the accumulator is reseeded with its last `Keep(overlap)` words |
| Windows.ExactWindow | embed/chunker.go:66-85 | exactly `size` words give one chunk with no overlap, and otherwise that chunk plus a second holding its last `Keep(overlap)` words |
| Windows.LastWordClosesWindow | embed/chunker.go:66-85 | when the last word closes a window and the overlap is positive, that window is emitted and then its last `Keep(overlap)` words are flushed as a chunk of their own |
| Windows.ShortInput | embed/chunker.go:83-85 | a non-empty input shorter than the window is a single chunk of all its words |
| Windows.NoWordsNoChunks | embed/chunker.go:83-85 | no chunk is returned if and only if the input has no words |
| Windows.ChunkResplit | embed/chunker.go:67-68 | re-splitting the k-th chunk string gives exactly the k-th window |
| Windows.ChunkRoundTrip | embed/chunker.go:56-85 | re-splitting every returned chunk and dropping the overlap words of all but the first reproduces the input's words in order |
| Windows.NegativeOverlap | embed/chunker.go:71-77 | a negative overlap yields the same chunks as an overlap of 0 |
| Windows.FeedSingles | embed/chunker.go:66-77 | a chunk size of at most 1 with no overlap makes every word a chunk of its own |
| Windows.SplitJoinAll | embed/chunker.go:67-68 | splitting every rendered chunk gives back the windows, provided every window consists of words |
| Windows.JoinExample | embed/chunker.go:59-62 | the builder's strings for the example words |
| Windows.WordsOfOneLine | embed/chunker.go:57 | a one-line input of space-joined words has exactly those words |
| Windows.SevenWordsWindows | embed/chunker.go:58-85 | seven words, window 4, overlap 2 give the windows a-d, c-f and e-g |
| Windows.SevenWordsLine | embed/chunker.go:57 | the line "a b c d e f g" has the seven one-letter words |
| Windows.SevenWordsExample | embed/chunker.go:55-85 | the input "a b c d e f g" with window 4 and overlap 2 gives the windows a-d, c-f and e-g |
| Windows.FourWordsExample | embed/chunker.go:66-85 | the input "a b c d" with window 4 and overlap 2 gives the windows a-d and c-d |
| Windows.FourWordsChunks | embed/chunker.go:66-85 | the same input returns the strings "a b c d" and "c d" |
| Windows.FullOverlapWindows | embed/chunker.go:66-77 | window 2 and overlap 2 on a, b, c give the windows a-b, a-c and b-c: every window after the first is one word over the size |

## Left out

- Tracing: the OpenTelemetry span, its attributes and the `numChunks` report (lines 45-49 and 87) have no effect on the result and are not modelled.
- The `context.Context` parameter is used only for tracing and is dropped.
- The reader and `bufio.Scanner` are not modelled. The input is the sequence of lines the scanner delivers. Line splitting (a trailing `\r` removed, a last line without a newline) and the 64 KiB line limit are not modelled. Past that limit, or on a read error, the scan ends silently, because `scanner.Err()` is never checked.
- Embed.Chunker.Chunk: requires `ReseedFits`, i.e. `chunkOverlap <= max(chunkSize, 1)`, and `StartInRange`, i.e. `chunkOverlap > math.MinInt + max(chunkSize, 1)`. Outside them, Go indexes `overlapWords` at a negative position and panics at the first window that closes. An input too short to close a window does not panic in Go, but the model excludes it as well.
- Windows.NegativeOverlap: holds only for the overlaps `StartInRange` admits. At or below `math.MinInt + max(chunkSize, 1)` the start index wraps, and Go panics instead of writing nothing back.
- Embed.Reseed: requires its start index not to wrap past `math.MaxInt`, because Go panics on the wrapped, negative index.
- Characters are Unicode code points. `IsSpace` lists the code points `unicode.IsSpace` accepts. How `strings.Fields` treats invalid UTF-8 bytes is not modelled.
- `strings.Builder` is modelled as the string it holds; its buffer growth is not.
- Go's `int` is modelled as an unbounded integer. The only computation that can wrap is the reseed start index, and `StartInRange` excludes that. The word counter cannot realistically overflow. The fields are not restricted to the 64-bit range, since Go cannot hold values outside it.
