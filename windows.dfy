/** The sliding word window of the chunker, stated as functions on word
    sequences: which words the input holds, which chunks the window emits,
    and the properties those chunks have. */
module Windows {
  import opened Text

  /** The words of the input, split line by line and kept in order. */
  function Words(lines: seq<string>): (ws: seq<string>)
    ensures AllWords(ws)
  {
    if lines == [] then [] else Fields(lines[0]) + Words(lines[1..])
  }

  /** The words of the lines from n on: those of line n, then the rest. */
  lemma WordsFrom(lines: seq<string>, n: nat)
    requires n < |lines|
    ensures Words(lines[n..]) == Fields(lines[n]) + Words(lines[n + 1..])
  {
    assert lines[n..][1..] == lines[n + 1..];
  }

  /** The lines of a text separated by newlines. */
  function JoinLines(lines: seq<string>): string
  {
    if |lines| == 0 then ""
    else if |lines| == 1 then lines[0]
    else lines[0] + "\n" + JoinLines(lines[1..])
  }

  /** Splitting line by line gives the same words as splitting the whole
      text: a newline is whitespace, so no word crosses a line break. */
  lemma {:induction false} WordsOfText(lines: seq<string>)
    ensures Fields(JoinLines(lines)) == Words(lines)
  {
    if |lines| == 1 {
      assert Words(lines[1..]) == [];
      assert Fields(lines[0]) + [] == Fields(lines[0]);
    } else if |lines| > 1 {
      WordsOfText(lines[1..]);
      assert JoinLines(lines) == lines[0] + ['\n'] + JoinLines(lines[1..]);
      FieldsAtSpace(lines[0], '\n', JoinLines(lines[1..]));
    }
  }

  /** The number of words at which a window closes: the chunk size, but
      never less than the one word just written. */
  function Window(size: int): nat
  {
    if size < 1 then 1 else size
  }

  /** The number of words written back after a window closes: the overlap,
      or none when the overlap is negative. */
  function Keep(overlap: int): nat
  {
    if overlap < 0 then 0 else overlap
  }

  /** Every closed window holds the overlap words to be written back, so
      reseeding never indexes before the start of the closed chunk. */
  predicate ReseedFits(size: int, overlap: int)
  {
    overlap <= Window(size)
  }

  /** The largest value of Go's int on a 64-bit platform. */
  const MaxInt: int := 0x7FFF_FFFF_FFFF_FFFF

  /** The index at which reseeding starts, the closed chunk's length minus
      the overlap, stays within Go's int. A closed chunk has Window(size)
      words, or one more only when the overlap is Window(size) itself; a
      larger difference would wrap around to a negative index. */
  predicate StartInRange(size: int, overlap: int)
  {
    Window(size) - overlap <= MaxInt
  }

  /** The chunks, as word sequences, emitted from the accumulator acc when
      the words ws remain: each word is appended; when the accumulator holds
      size words it is emitted and reseeded with its last overlap words; at
      the end a non-empty accumulator is emitted as the last chunk. */
  function Feed(acc: seq<string>, ws: seq<string>, size: int, overlap: int): (cs: seq<seq<string>>)
    requires ReseedFits(size, overlap)
    ensures cs == [] <==> acc == [] && ws == []
    decreases |ws|
  {
    if ws == [] then (if acc == [] then [] else [acc])
    else
      var a := acc + [ws[0]];
      if |a| >= size then [a] + Feed(a[|a| - Keep(overlap)..], ws[1..], size, overlap)
      else Feed(a, ws[1..], size, overlap)
  }

  /** One step of the window, as the chunker's loop takes it: the word w
      is appended to acc; a full accumulator is emitted and reseeded with
      its last overlap words. */
  lemma FeedStep(spec: seq<seq<string>>, emitted: seq<seq<string>>, acc: seq<string>,
                 w: string, ws: seq<string>, size: int, overlap: int)
    requires ReseedFits(size, overlap)
    requires spec == emitted + Feed(acc, [w] + ws, size, overlap)
    ensures var a := acc + [w];
      |a| >= size ==> spec == (emitted + [a]) + Feed(a[|a| - Keep(overlap)..], ws, size, overlap)
    ensures var a := acc + [w];
      |a| < size ==> spec == emitted + Feed(a, ws, size, overlap)
  {
    assert ([w] + ws)[0] == w && ([w] + ws)[1..] == ws;
    var a := acc + [w];
    if |a| >= size {
      assert emitted + ([a] + Feed(a[|a| - Keep(overlap)..], ws, size, overlap))
        == (emitted + [a]) + Feed(a[|a| - Keep(overlap)..], ws, size, overlap);
    }
  }

  /** The first chunk begins with the accumulator's words. */
  lemma {:induction false} FeedFirst(acc: seq<string>, ws: seq<string>, size: int, overlap: int)
    requires ReseedFits(size, overlap)
    ensures var cs := Feed(acc, ws, size, overlap);
      cs != [] ==> |acc| <= |cs[0]| && cs[0][..|acc|] == acc
    decreases |ws|
  {
    if ws != [] {
      var a := acc + [ws[0]];
      if |a| < size {
        FeedFirst(a, ws[1..], size, overlap);
        var c := Feed(a, ws[1..], size, overlap)[0];
        assert c[..|acc|] == c[..|a|][..|acc|];
      }
    }
  }

  /** The chunks, as word sequences, of a whole input. */
  function WindowsOf(lines: seq<string>, size: int, overlap: int): seq<seq<string>>
    requires ReseedFits(size, overlap)
  {
    Feed([], Words(lines), size, overlap)
  }

  /** Every chunk rendered as its words joined by single spaces. */
  function JoinAll(cs: seq<seq<string>>): seq<string>
  {
    seq(|cs|, k requires 0 <= k < |cs| => Join(cs[k]))
  }

  /** Rendering one more chunk. */
  lemma JoinAllSnoc(cs: seq<seq<string>>, c: seq<string>)
    ensures JoinAll(cs + [c]) == JoinAll(cs) + [Join(c)]
  {
  }

  /** The chunk strings the chunker returns for an input. */
  function ChunkText(lines: seq<string>, size: int, overlap: int): seq<string>
    requires ReseedFits(size, overlap)
  {
    JoinAll(WindowsOf(lines, size, overlap))
  }

  /** s without its first n elements (nothing left when it is shorter). */
  function Drop(s: seq<string>, n: nat): seq<string>
  {
    if n <= |s| then s[n..] else []
  }

  /** The words of chunks that follow a first one, each without its first
      overlap words. */
  function Tails(cs: seq<seq<string>>, overlap: nat): seq<string>
  {
    if cs == [] then [] else Drop(cs[0], overlap) + Tails(cs[1..], overlap)
  }

  /** The first chunk's words followed by the new words of each later chunk. */
  function Reassemble(cs: seq<seq<string>>, overlap: nat): seq<string>
  {
    if cs == [] then [] else cs[0] + Tails(cs[1..], overlap)
  }

  /** The most words a chunk can hold: the window, or one more when the
      overlap written back already fills the window. */
  function Longest(size: int, overlap: int): nat
  {
    if Keep(overlap) < Window(size) then Window(size) else Window(size) + 1
  }

  /** Sizes: every chunk but the last holds at least a window of words and
      the last at least one; none holds more than Longest. */
  lemma {:induction false} FeedSizes(acc: seq<string>, ws: seq<string>, size: int, overlap: int)
    requires ReseedFits(size, overlap) && |acc| < Longest(size, overlap)
    ensures var cs := Feed(acc, ws, size, overlap);
      (forall k :: 0 <= k < |cs| - 1 ==> Window(size) <= |cs[k]| <= Longest(size, overlap))
      && (cs != [] ==> 1 <= |cs[|cs| - 1]| <= Longest(size, overlap))
    decreases |ws|
  {
    if ws != [] {
      var a := acc + [ws[0]];
      if |a| >= size {
        FeedSizes(a[|a| - Keep(overlap)..], ws[1..], size, overlap);
      } else {
        FeedSizes(a, ws[1..], size, overlap);
      }
    }
  }

  /** next begins with the last overlap words of prev. */
  predicate Overlaps(prev: seq<string>, next: seq<string>, overlap: nat) {
    overlap <= |prev| && overlap <= |next| && next[..overlap] == prev[|prev| - overlap..]
  }

  /** Each chunk after the first begins with the last overlap words of the
      chunk before it. */
  predicate ChainOverlaps(cs: seq<seq<string>>, overlap: nat) {
    forall k :: 1 <= k < |cs| ==> Overlaps(cs[k - 1], cs[k], overlap)
  }

  /** Overlap: the chunks emitted form a chain of overlaps. */
  lemma {:induction false} FeedOverlap(acc: seq<string>, ws: seq<string>, size: int, overlap: int)
    requires ReseedFits(size, overlap)
    ensures ChainOverlaps(Feed(acc, ws, size, overlap), Keep(overlap))
    decreases |ws|
  {
    if ws != [] {
      var a := acc + [ws[0]];
      if |a| >= size {
        var seed := a[|a| - Keep(overlap)..];
        FeedOverlap(seed, ws[1..], size, overlap);
        FeedFirst(seed, ws[1..], size, overlap);
        var cs := Feed(acc, ws, size, overlap);
        var tail := Feed(seed, ws[1..], size, overlap);
        assert cs == [a] + tail;
        forall k | 1 <= k < |cs|
          ensures Overlaps(cs[k - 1], cs[k], Keep(overlap))
        {
          if k == 1 {
            assert cs[0] == a && cs[1] == tail[0];
            assert |seed| == Keep(overlap);
          } else {
            assert cs[k - 1] == tail[k - 2] && cs[k] == tail[k - 1];
          }
        }
      } else {
        assert Feed(acc, ws, size, overlap) == Feed(a, ws[1..], size, overlap);
        FeedOverlap(a, ws[1..], size, overlap);
      }
    }
  }

  /** When the chunks cs start with seed and reassemble to seed + rest, the
      new words they hold after seed are rest. */
  lemma TailsAfterSeed(cs: seq<seq<string>>, seed: seq<string>, rest: seq<string>, overlap: nat)
    requires |seed| == overlap
    requires cs != [] ==> |seed| <= |cs[0]| && cs[0][..|seed|] == seed
    requires Reassemble(cs, overlap) == seed + rest
    requires cs == [] ==> seed == [] && rest == []
    ensures Tails(cs, overlap) == rest
  {
    if cs != [] {
      var t := Tails(cs[1..], overlap);
      assert cs[0] == seed + Drop(cs[0], overlap);
      assert seed + rest == seed + (Drop(cs[0], overlap) + t);
      assert (seed + rest)[|seed|..] == rest;
    }
  }

  /** Round trip: the first chunk, then each later chunk without its overlap
      words, is the accumulator followed by the remaining words. */
  lemma {:induction false} FeedReassemble(acc: seq<string>, ws: seq<string>, size: int, overlap: int)
    requires ReseedFits(size, overlap)
    ensures Reassemble(Feed(acc, ws, size, overlap), Keep(overlap)) == acc + ws
    decreases |ws|
  {
    if ws == [] {
      if acc != [] {
        assert acc + Tails([], Keep(overlap)) == acc;
      }
    } else {
      var a, rest := acc + [ws[0]], ws[1..];
      assert a + rest == acc + ws;
      if |a| >= size {
        var seed := a[|a| - Keep(overlap)..];
        var tail := Feed(seed, rest, size, overlap);
        FeedReassemble(seed, rest, size, overlap);
        FeedFirst(seed, rest, size, overlap);
        TailsAfterSeed(tail, seed, rest, Keep(overlap));
        assert Feed(acc, ws, size, overlap) == [a] + tail;
        assert ([a] + tail)[1..] == tail;
      } else {
        FeedReassemble(a, rest, size, overlap);
      }
    }
  }

  /** Every element of every chunk is a word. */
  predicate AllChunksWords(cs: seq<seq<string>>) {
    forall k :: 0 <= k < |cs| ==> AllWords(cs[k])
  }

  /** Every element of every chunk is a word of the accumulator or input. */
  lemma {:induction false} FeedWords(acc: seq<string>, ws: seq<string>, size: int, overlap: int)
    requires ReseedFits(size, overlap)
    requires AllWords(acc) && AllWords(ws)
    ensures AllChunksWords(Feed(acc, ws, size, overlap))
    decreases |ws|
  {
    if ws != [] {
      var a := acc + [ws[0]];
      assert AllWords(a) by {
        forall i | 0 <= i < |a| ensures IsWord(a[i]) {
          if i < |acc| { assert a[i] == acc[i]; } else { assert a[i] == ws[0]; }
        }
      }
      if |a| >= size {
        var seed := a[|a| - Keep(overlap)..];
        assert AllWords(seed) by {
          forall i | 0 <= i < |seed| ensures IsWord(seed[i]) {
            assert seed[i] == a[|a| - Keep(overlap) + i];
          }
        }
        FeedWords(seed, ws[1..], size, overlap);
        var cs := Feed(acc, ws, size, overlap);
        var tail := Feed(seed, ws[1..], size, overlap);
        assert cs == [a] + tail;
        forall k | 0 <= k < |cs| ensures AllWords(cs[k]) {
          if k == 0 { assert cs[0] == a; } else { assert cs[k] == tail[k - 1]; }
        }
      } else {
        assert Feed(acc, ws, size, overlap) == Feed(a, ws[1..], size, overlap);
        FeedWords(a, ws[1..], size, overlap);
      }
    }
  }

  /** While acc plus the remaining words stay below the window, nothing is
      emitted before the final flush. */
  lemma {:induction false} FeedBelowWindow(acc: seq<string>, ws: seq<string>, size: int, overlap: int)
    requires ReseedFits(size, overlap) && |acc| + |ws| < size
    ensures Feed(acc, ws, size, overlap) == if acc + ws == [] then [] else [acc + ws]
    decreases |ws|
  {
    if ws == [] {
      assert acc + ws == acc;
    } else {
      FeedBelowWindow(acc + [ws[0]], ws[1..], size, overlap);
      assert acc + [ws[0]] + ws[1..] == acc + ws;
    }
  }

  /** Once enough words remain to fill the window, the next chunk is the
      accumulator topped up to size words, and the accumulator is then
      reseeded with that chunk's last overlap words. */
  lemma {:induction false} FeedFillsWindow(acc: seq<string>, ws: seq<string>, size: int, overlap: int)
    requires ReseedFits(size, overlap) && |acc| < size <= |acc| + |ws|
    ensures var full := acc + ws[..size - |acc|];
      Feed(acc, ws, size, overlap)
        == [full] + Feed(full[size - Keep(overlap)..], ws[size - |acc|..], size, overlap)
    decreases |ws|
  {
    var a := acc + [ws[0]];
    var n := size - |acc|;
    if n == 1 {
      assert ws[..1] == [ws[0]];
      assert ws[1..] == ws[n..];
    } else {
      FeedFillsWindow(a, ws[1..], size, overlap);
      assert a + ws[1..][..n - 1] == acc + ws[..n];
      assert ws[1..][n - 1..] == ws[n..];
    }
  }

  /** Input of exactly one window of words: with no overlap it is a single
      chunk; with overlap the reseeded accumulator is flushed as a second
      chunk holding only the last overlap words. */
  lemma ExactWindow(lines: seq<string>, size: int, overlap: int)
    requires ReseedFits(size, overlap) && 1 <= size && |Words(lines)| == size
    ensures var ws := Words(lines);
      WindowsOf(lines, size, overlap)
        == if Keep(overlap) == 0 then [ws] else [ws, ws[size - Keep(overlap)..]]
  {
    var ws := Words(lines);
    FeedFillsWindow([], ws, size, overlap);
    assert [] + ws[..size] == ws;
    assert ws[size..] == [];
  }

  /** Whenever the last word of the input closes a window, the reseeded
      overlap words are flushed after it as a chunk of their own. */
  lemma LastWordClosesWindow(acc: seq<string>, w: string, size: int, overlap: int)
    requires ReseedFits(size, overlap) && |acc| + 1 >= size && Keep(overlap) > 0
    ensures var a := acc + [w];
      Feed(acc, [w], size, overlap) == [a, a[|a| - Keep(overlap)..]]
  {
  }

  /** Input shorter than the window, and not empty, is one chunk of all of it. */
  lemma ShortInput(lines: seq<string>, size: int, overlap: int)
    requires ReseedFits(size, overlap) && 0 < |Words(lines)| < size
    ensures WindowsOf(lines, size, overlap) == [Words(lines)]
  {
    FeedBelowWindow([], Words(lines), size, overlap);
    assert [] + Words(lines) == Words(lines);
  }

  /** Input with no words yields no chunk at all, and only such input does. */
  lemma NoWordsNoChunks(lines: seq<string>, size: int, overlap: int)
    requires ReseedFits(size, overlap)
    ensures ChunkText(lines, size, overlap) == [] <==> Words(lines) == []
  {
  }

  /** Chunk sizes of a whole input when the overlap written back is smaller
      than a window: all chunks but the last hold exactly a window of words,
      the last between one word and a window. */
  lemma ChunkSizes(lines: seq<string>, size: int, overlap: int)
    requires Keep(overlap) < Window(size)
    ensures var cs := WindowsOf(lines, size, overlap);
      (forall k :: 0 <= k < |cs| - 1 ==> |cs[k]| == Window(size))
      && (cs != [] ==> 1 <= |cs[|cs| - 1]| <= Window(size))
  {
    FeedSizes([], Words(lines), size, overlap);
  }

  /** Each chunk string split back into its words. */
  function SplitAll(ss: seq<string>): seq<seq<string>>
  {
    seq(|ss|, k requires 0 <= k < |ss| => Fields(ss[k]))
  }

  /** Splitting every rendered chunk undoes the rendering, provided every
      chunk consists of words. */
  lemma SplitJoinAll(cs: seq<seq<string>>)
    requires AllChunksWords(cs)
    ensures SplitAll(JoinAll(cs)) == cs
  {
    forall k | 0 <= k < |cs|
      ensures SplitAll(JoinAll(cs))[k] == cs[k]
    {
      FieldsOfJoin(cs[k]);
    }
  }

  /** Re-splitting an emitted chunk string gives back exactly the words of
      that window. */
  lemma ChunkResplit(lines: seq<string>, size: int, overlap: int, k: nat)
    requires ReseedFits(size, overlap) && k < |ChunkText(lines, size, overlap)|
    ensures Fields(ChunkText(lines, size, overlap)[k]) == WindowsOf(lines, size, overlap)[k]
  {
    var cs := WindowsOf(lines, size, overlap);
    assert AllWords([]);
    FeedWords([], Words(lines), size, overlap);
    FieldsOfJoin(cs[k]);
  }

  /** Round trip on the returned strings: re-split every chunk, keep the
      first whole and drop the overlap words of each later one, and the
      input's words come back in order. */
  lemma ChunkRoundTrip(lines: seq<string>, size: int, overlap: int)
    requires ReseedFits(size, overlap)
    ensures Reassemble(SplitAll(ChunkText(lines, size, overlap)), Keep(overlap)) == Words(lines)
  {
    assert AllWords([]);
    FeedWords([], Words(lines), size, overlap);
    SplitJoinAll(WindowsOf(lines, size, overlap));
    FeedReassemble([], Words(lines), size, overlap);
  }

  /** A negative overlap writes nothing back, exactly as an overlap of 0. */
  lemma {:induction false} NegativeOverlap(acc: seq<string>, ws: seq<string>, size: int, overlap: int)
    requires overlap < 0
    ensures Feed(acc, ws, size, overlap) == Feed(acc, ws, size, 0)
    decreases |ws|
  {
    if ws != [] {
      var a := acc + [ws[0]];
      if |a| >= size {
        NegativeOverlap(a[|a|..], ws[1..], size, overlap);
      } else {
        NegativeOverlap(a, ws[1..], size, overlap);
      }
    }
  }

  /** Each word on its own, as a one-word chunk. */
  function Singles(ws: seq<string>): seq<seq<string>>
  {
    seq(|ws|, k requires 0 <= k < |ws| => [ws[k]])
  }

  /** A chunk size of at most 1 with no overlap closes a window at every
      word: each word becomes a chunk of its own. */
  lemma {:induction false} FeedSingles(ws: seq<string>, size: int, overlap: int)
    requires size <= 1 && overlap <= 0
    ensures Feed([], ws, size, overlap) == Singles(ws)
    decreases |ws|
  {
    if ws != [] {
      var a := [ws[0]];
      assert [] + [ws[0]] == a && a[|a| - Keep(overlap)..] == [];
      FeedSingles(ws[1..], size, overlap);
      var rest := Singles(ws[1..]);
      forall k | 1 <= k < |ws|
        ensures ([a] + rest)[k] == [ws[k]]
      {
        assert ws[1..][k - 1] == ws[k];
      }
      assert Singles(ws) == [a] + rest;
    }
  }

  /** The four one-letter words "a b c d" of the examples below. */
  lemma JoinExample()
    ensures Join(["a", "b", "c", "d"]) == "a b c d"
    ensures Join(["a", "b", "c", "d", "e", "f", "g"]) == "a b c d e f g"
    ensures Join(["c", "d"]) == "c d"
  {
    var w := ["a", "b", "c", "d", "e", "f", "g"];
    assert Join(w[..1]) == "a";
    assert w[..2][..1] == w[..1];
    assert Join(w[..2]) == "a b";
    assert w[..3][..2] == w[..2];
    assert Join(w[..3]) == "a b c";
    assert w[..4][..3] == w[..3];
    assert Join(w[..4]) == "a b c d";
    assert w[..5][..4] == w[..4];
    assert Join(w[..5]) == "a b c d e";
    assert w[..6][..5] == w[..5];
    assert Join(w[..6]) == "a b c d e f";
    assert w[..7][..6] == w[..6];
    assert w[..7] == w;
    assert w[..4] == ["a", "b", "c", "d"];
  }

  /** A one-line input of space-joined words has exactly those words. */
  lemma WordsOfOneLine(ws: seq<string>)
    requires AllWords(ws)
    ensures Words([Join(ws)]) == ws
  {
    FieldsOfJoin(ws);
    assert [Join(ws)][1..] == [];
    assert Fields(Join(ws)) + [] == ws;
  }

  /** The windows over seven words with window 4 and overlap 2. */
  lemma SevenWordsWindows(w: seq<string>)
    requires w == ["a", "b", "c", "d", "e", "f", "g"]
    ensures Feed([], w, 4, 2) == [["a", "b", "c", "d"], ["c", "d", "e", "f"], ["e", "f", "g"]]
  {
    FeedFillsWindow([], w, 4, 2);
    assert [] + w[..4] == w[..4] && w[..4][2..] == w[2..4];
    FeedFillsWindow(w[2..4], w[4..], 4, 2);
    assert w[2..4] + w[4..][..2] == w[2..6];
    assert w[2..6][2..] == w[4..6] && w[4..][2..] == w[6..];
    FeedBelowWindow(w[4..6], w[6..], 4, 2);
    assert w[4..6] + w[6..] == w[4..];
    assert w[..4] == ["a", "b", "c", "d"] && w[2..6] == ["c", "d", "e", "f"] && w[4..] == ["e", "f", "g"];
  }

  /** The words of the example line. */
  lemma SevenWordsLine()
    ensures Words(["a b c d e f g"]) == ["a", "b", "c", "d", "e", "f", "g"]
  {
    JoinExample();
    WordsOfOneLine(["a", "b", "c", "d", "e", "f", "g"]);
  }

  /** The worked example: window 4, overlap 2, seven words. */
  lemma SevenWordsExample()
    ensures WindowsOf(["a b c d e f g"], 4, 2)
      == [["a", "b", "c", "d"], ["c", "d", "e", "f"], ["e", "f", "g"]]
  {
    SevenWordsLine();
    SevenWordsWindows(["a", "b", "c", "d", "e", "f", "g"]);
  }

  /** A window closed by the last word still leaves its overlap behind:
      window 4, overlap 2 on four words gives two chunks. */
  lemma FourWordsExample()
    ensures WindowsOf(["a b c d"], 4, 2) == [["a", "b", "c", "d"], ["c", "d"]]
  {
    var w := ["a", "b", "c", "d"];
    JoinExample();
    WordsOfOneLine(w);
    ExactWindow(["a b c d"], 4, 2);
  }

  /** The same example on the strings returned. */
  lemma FourWordsChunks(lines: seq<string>)
    requires lines == ["a b c d"]
    ensures ChunkText(lines, 4, 2) == ["a b c d", "c d"]
  {
    FourWordsExample();
    JoinExample();
    JoinAllPair(["a", "b", "c", "d"], ["c", "d"]);
  }

  /** Rendering two windows. */
  lemma JoinAllPair(c0: seq<string>, c1: seq<string>)
    ensures JoinAll([c0, c1]) == [Join(c0), Join(c1)]
  {
  }

  /** An overlap equal to the chunk size refills the whole window, so every
      later window closes one word past the chunk size: window 2, overlap 2
      on three words. */
  lemma FullOverlapWindows(w: seq<string>)
    requires w == ["a", "b", "c"]
    ensures Feed([], w, 2, 2) == [["a", "b"], ["a", "b", "c"], ["b", "c"]]
  {
    FeedFillsWindow([], w, 2, 2);
    assert [] + w[..2] == w[..2] && w[..2][0..] == w[..2];
    assert w[..2] + [w[2..][0]] == w && w[2..][1..] == [];
    assert w[1..] == ["b", "c"] && w[..2] == ["a", "b"];
  }
}
