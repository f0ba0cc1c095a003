/** The chunker of package embed: its configuration, the defaults applied
    when it is built, the check of that configuration, and the loop that
    cuts an input into overlapping word windows. */
module Embed {
  import opened Text
  import opened Windows

  const DefaultChunkSize: int := 512
  const DefaultChunkOverlap: int := 128

  /** An error return: Pass for nil, Fail with the error's message. */
  datatype Outcome = Pass | Fail(message: string)

  /** A chunker: words per chunk and words repeated between chunks. */
  class Chunker {
    var chunkSize: int
    var chunkOverlap: int

    /** The struct literal: both fields as given. */
    constructor (chunkSize: int, chunkOverlap: int)
      ensures this.chunkSize == chunkSize && this.chunkOverlap == chunkOverlap
    {
      this.chunkSize := chunkSize;
      this.chunkOverlap := chunkOverlap;
    }

    /** validate: an error exactly when a field is zero, the size checked
        first; negative values are not rejected. */
    function Validate(): (err: Outcome)
      reads this
      ensures err == Pass <==> chunkSize != 0 && chunkOverlap != 0
      ensures chunkSize == 0 ==> err == Fail("chunkSize is required")
      ensures chunkSize != 0 && chunkOverlap == 0 ==> err == Fail("chunkOverlap is required")
    {
      if chunkSize == 0 then Fail("chunkSize is required")
      else if chunkOverlap == 0 then Fail("chunkOverlap is required")
      else Pass
    }

    /** Chunk: the input's lines split into words, cut into windows of
        chunkSize words that overlap by chunkOverlap words, each returned as
        its words joined by single spaces. */
    method Chunk(lines: seq<string>) returns (chunks: seq<string>)
      requires ReseedFits(chunkSize, chunkOverlap) && StartInRange(chunkSize, chunkOverlap)
      ensures chunks == ChunkText(lines, chunkSize, chunkOverlap)
    {
      var size, overlap := chunkSize, chunkOverlap;
      ghost var spec := WindowsOf(lines, size, overlap);
      chunks := [];
      var builder: string := "";
      var currentChunkWords := 0;
      // the windows already emitted and the words in the builder
      ghost var emitted: seq<seq<string>> := [];
      ghost var acc: seq<string> := [];
      var n := 0;
      while n < |lines|
        invariant 0 <= n <= |lines|
        invariant currentChunkWords == |acc| < Longest(size, overlap)
        invariant builder == Join(acc) && AllWords(acc)
        invariant chunks == JoinAll(emitted)
        invariant spec == emitted + Feed(acc, Words(lines[n..]), size, overlap)
      {
        var words := Fields(lines[n]);
        WordsFrom(lines, n);
        chunks, builder, currentChunkWords, acc, emitted :=
          AddWords(words, chunks, builder, currentChunkWords, acc, emitted, Words(lines[n + 1..]), spec);
        n := n + 1;
      }
      assert lines[|lines|..] == [];
      if currentChunkWords > 0 {
        JoinAllSnoc(emitted, acc);
        chunks := chunks + [builder];
        emitted := emitted + [acc];
      }
    }

    /** The loop over one line's words: each is added in turn. The ghost
        parameters carry the windows emitted so far, the words in the
        builder, the words of the later lines, and the windows of the whole
        input, which the emitted windows and those still to come make up. */
    method AddWords(words: seq<string>, chunks: seq<string>, builder: string, currentChunkWords: nat,
                    ghost acc: seq<string>, ghost emitted: seq<seq<string>>,
                    ghost later: seq<string>, ghost spec: seq<seq<string>>)
      returns (chunks': seq<string>, builder': string, currentChunkWords': nat,
               ghost acc': seq<string>, ghost emitted': seq<seq<string>>)
      requires ReseedFits(chunkSize, chunkOverlap) && StartInRange(chunkSize, chunkOverlap)
      requires AllWords(words)
      requires currentChunkWords == |acc| < Longest(chunkSize, chunkOverlap)
      requires builder == Join(acc) && AllWords(acc)
      requires chunks == JoinAll(emitted)
      requires spec == emitted + Feed(acc, words + later, chunkSize, chunkOverlap)
      ensures currentChunkWords' == |acc'| < Longest(chunkSize, chunkOverlap)
      ensures builder' == Join(acc') && AllWords(acc')
      ensures chunks' == JoinAll(emitted')
      ensures spec == emitted' + Feed(acc', later, chunkSize, chunkOverlap)
    {
      var size, overlap := chunkSize, chunkOverlap;
      chunks', builder', currentChunkWords' := chunks, builder, currentChunkWords;
      acc', emitted' := acc, emitted;
      var j := 0;
      while j < |words|
        invariant 0 <= j <= |words|
        invariant currentChunkWords' == |acc'| < Longest(size, overlap)
        invariant builder' == Join(acc') && AllWords(acc')
        invariant chunks' == JoinAll(emitted')
        invariant spec == emitted' + Feed(acc', words[j..] + later, size, overlap)
      {
        var word := words[j];
        SliceCons(words, j, later);
        FeedStep(spec, emitted', acc', word, words[j + 1..] + later, size, overlap);
        chunks', builder', currentChunkWords' := AddWord(chunks', builder', currentChunkWords', word, acc');
        ghost var a := acc' + [word];
        AllWordsSnoc(acc', word);
        if |a| >= size {
          JoinAllSnoc(emitted', a);
          emitted' := emitted' + [a];
          AllWordsSuffix(a, |a| - Keep(overlap));
          acc' := a[|a| - Keep(overlap)..];
        } else {
          acc' := a;
        }
        j := j + 1;
      }
      assert words[|words|..] + later == later;
    }

    /** The body of the loop over a line's words: word is written into the
        builder holding acc; once the builder holds chunkSize words it is
        emitted, and the builder is reseeded with its last chunkOverlap
        words. */
    method AddWord(chunks: seq<string>, builder: string, currentChunkWords: nat, word: string,
                   ghost acc: seq<string>)
      returns (chunks': seq<string>, builder': string, currentChunkWords': nat)
      requires ReseedFits(chunkSize, chunkOverlap) && StartInRange(chunkSize, chunkOverlap)
      requires builder == Join(acc) && currentChunkWords == |acc| < Longest(chunkSize, chunkOverlap)
      requires AllWords(acc) && IsWord(word)
      ensures var a := acc + [word];
        if |a| >= chunkSize
        then chunks' == chunks + [Join(a)] && builder' == Join(a[|a| - Keep(chunkOverlap)..])
             && currentChunkWords' == Keep(chunkOverlap)
        else chunks' == chunks && builder' == Join(a) && currentChunkWords' == |a|
    {
      chunks' := chunks;
      builder', currentChunkWords' := WriteWord(builder, currentChunkWords, word, acc);
      if currentChunkWords' >= chunkSize {
        chunks' := chunks' + [builder'];
        AllWordsSnoc(acc, word);
        builder', currentChunkWords' := Reseed(builder', chunkOverlap, acc + [word]);
      }
    }
  }

  /** Writes word into the builder holding the words ws and counts it: a
      space goes first unless nothing has been written since the reset. */
  method WriteWord(builder: string, currentChunkWords: nat, word: string, ghost ws: seq<string>)
    returns (builder': string, currentChunkWords': nat)
    requires builder == Join(ws) && currentChunkWords == |ws|
    ensures builder' == Join(ws + [word]) && currentChunkWords' == currentChunkWords + 1
  {
    AppendWord(builder, ws, word);
    builder' := builder;
    if currentChunkWords > 0 {
      builder' := builder' + " ";
    }
    builder' := builder' + word;
    currentChunkWords' := currentChunkWords + 1;
  }

  /** Closing a window: the emitted chunk is split back into its words, the
      builder is reset, and the chunk's last overlap words are written into
      it again, in order. The start index, the number of words minus the
      overlap, is required to be neither negative nor past Go's largest int,
      where it would wrap to a negative index. */
  method Reseed(chunk: string, overlap: int, ghost ws: seq<string>)
    returns (builder: string, currentChunkWords: nat)
    requires chunk == Join(ws) && AllWords(ws) && overlap <= |ws| && |ws| - overlap <= MaxInt
    ensures builder == Join(ws[|ws| - Keep(overlap)..]) && currentChunkWords == Keep(overlap)
  {
    var overlapWords := SplitChunk(chunk, ws);
    builder := "";
    currentChunkWords := 0;
    ghost var start := |overlapWords| - Keep(overlap);
    var i := |overlapWords| - overlap;
    while i < |overlapWords|
      invariant overlap < 0 ==> i == |overlapWords| - overlap && builder == "" && currentChunkWords == 0
      invariant 0 <= overlap ==> start <= i <= |overlapWords|
      invariant 0 <= overlap ==> currentChunkWords == i - start
      invariant 0 <= overlap ==> builder == Join(overlapWords[start..i])
    {
      SliceSnoc(overlapWords, start, i);
      builder, currentChunkWords := WriteWord(builder, currentChunkWords, overlapWords[i], overlapWords[start..i]);
      i := i + 1;
    }
    if 0 <= overlap {
      assert overlapWords[start..i] == ws[start..];
    }
  }

  /** Splitting an emitted chunk on whitespace recovers the words it was
      written from. */
  method SplitChunk(chunk: string, ghost ws: seq<string>) returns (words: seq<string>)
    requires chunk == Join(ws) && AllWords(ws)
    ensures words == ws
  {
    FieldsOfJoin(ws);
    words := Fields(chunk);
  }

  /** NewChunker: a zero size becomes 512 and a zero overlap 128; any other
      value, negative ones included, is kept; validation then never fails. */
  method NewChunker(chunkSize: int, chunkOverlap: int) returns (c: Chunker, err: Outcome)
    ensures fresh(c)
    ensures c.chunkSize == if chunkSize == 0 then DefaultChunkSize else chunkSize
    ensures c.chunkOverlap == if chunkOverlap == 0 then DefaultChunkOverlap else chunkOverlap
    ensures err == c.Validate() && err == Pass
  {
    c := new Chunker(chunkSize, chunkOverlap);
    if c.chunkSize == 0 {
      c.chunkSize := DefaultChunkSize;
    }
    if c.chunkOverlap == 0 {
      c.chunkOverlap := DefaultChunkOverlap;
    }
    err := c.Validate();
  }
}
