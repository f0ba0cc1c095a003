/** Whitespace tokenisation and space-joining of words: the two string
    operations the chunker relies on (Go's strings.Fields and the
    single-space concatenation done through a strings.Builder). */
module Text {

  /** Whitespace as Go's unicode.IsSpace classifies it: the ASCII controls
      '\t', '\n', '\v', '\f', '\r', the space, NEL, NBSP and the Unicode
      space separators. */
  predicate IsSpace(c: char) {
    c == ' ' || ('\t' <= c <= '\r') || c == '\U{85}' || c == '\U{A0}' || c == '\U{1680}'
    || ('\U{2000}' <= c <= '\U{200A}') || c == '\U{2028}' || c == '\U{2029}'
    || c == '\U{202F}' || c == '\U{205F}' || c == '\U{3000}'
  }

  /** A word: a non-empty run of non-space characters. */
  predicate IsWord(w: string) {
    |w| > 0 && forall i :: 0 <= i < |w| ==> !IsSpace(w[i])
  }

  /** Every element of ws is a word. */
  predicate AllWords(ws: seq<string>) {
    forall i :: 0 <= i < |ws| ==> IsWord(ws[i])
  }

  /** Length of the maximal run of non-space characters at the start of s. */
  function WordLen(s: string): (n: nat)
    ensures n <= |s|
    ensures forall i :: 0 <= i < n ==> !IsSpace(s[i])
    ensures n < |s| ==> IsSpace(s[n])
  {
    if s == [] || IsSpace(s[0]) then 0 else 1 + WordLen(s[1..])
  }

  /** The three properties in WordLen's contract determine its value. */
  lemma WordLenUnique(s: string, n: nat)
    requires n <= |s|
    requires forall i :: 0 <= i < n ==> !IsSpace(s[i])
    requires n < |s| ==> IsSpace(s[n])
    ensures WordLen(s) == n
  {
  }

  /** strings.Fields: the maximal runs of non-space characters of s, in
      order; runs of whitespace separate them and produce no empty word. */
  function Fields(s: string): (ws: seq<string>)
    ensures AllWords(ws)
    decreases |s|
  {
    if s == [] then []
    else if IsSpace(s[0]) then Fields(s[1..])
    else
      var n := WordLen(s);
      [s[..n]] + Fields(s[n..])
  }

  /** Words joined by single spaces, as the chunker's builder writes them:
      a space before every word but the first. */
  function Join(ws: seq<string>): string
  {
    if |ws| == 0 then ""
    else if |ws| == 1 then ws[0]
    else Join(ws[..|ws| - 1]) + " " + ws[|ws| - 1]
  }

  /** Appending a word writes a space first unless nothing was written. */
  lemma JoinSnoc(ws: seq<string>, w: string)
    ensures Join(ws + [w]) == if ws == [] then w else Join(ws) + " " + w
  {
    assert (ws + [w])[..|ws|] == ws;
  }

  /** What the builder holds after writing w behind the words ws: a space
      first when something was written already. */
  lemma AppendWord(builder: string, ws: seq<string>, w: string)
    requires builder == Join(ws)
    ensures |ws| > 0 ==> builder + " " + w == Join(ws + [w])
    ensures |ws| == 0 ==> builder + w == Join(ws + [w])
  {
    JoinSnoc(ws, w);
  }

  /** Appending the next element of a slice extends the slice. */
  lemma SliceSnoc(ws: seq<string>, lo: nat, hi: nat)
    requires lo <= hi < |ws|
    ensures ws[lo..hi] + [ws[hi]] == ws[lo..hi + 1]
  {
  }

  /** Taking the next word off a slice followed by more words. */
  lemma SliceCons(ws: seq<string>, j: nat, more: seq<string>)
    requires j < |ws|
    ensures ws[j..] + more == [ws[j]] + (ws[j + 1..] + more)
  {
  }

  /** Appending a word to words keeps them words. */
  lemma AllWordsSnoc(ws: seq<string>, w: string)
    requires AllWords(ws) && IsWord(w)
    ensures AllWords(ws + [w])
  {
    assert forall i :: 0 <= i < |ws| ==> (ws + [w])[i] == ws[i];
  }

  /** A suffix of words is words. */
  lemma AllWordsSuffix(ws: seq<string>, lo: nat)
    requires AllWords(ws) && lo <= |ws|
    ensures AllWords(ws[lo..]) && ws[lo..|ws|] == ws[lo..]
  {
    assert forall i :: 0 <= i < |ws| - lo ==> ws[lo..][i] == ws[lo + i];
  }

  /** A single word splits into itself. */
  lemma FieldsOfWord(w: string)
    requires IsWord(w)
    ensures Fields(w) == [w]
  {
    WordLenUnique(w, |w|);
    assert w[..|w|] == w;
    assert w[|w|..] == [];
  }

  /** A whitespace character is a word boundary: splitting around it is the
      same as splitting each side on its own. */
  lemma {:induction false} FieldsAtSpace(a: string, c: char, b: string)
    requires IsSpace(c)
    ensures Fields(a + [c] + b) == Fields(a) + Fields(b)
    decreases |a|
  {
    var s := a + [c] + b;
    if a == [] {
      assert s[1..] == b;
    } else if IsSpace(a[0]) {
      assert s[1..] == a[1..] + [c] + b;
      FieldsAtSpace(a[1..], c, b);
    } else {
      var n := WordLen(a);
      WordLenUnique(s, n);
      assert s[..n] == a[..n];
      assert s[n..] == a[n..] + [c] + b;
      FieldsAtSpace(a[n..], c, b);
      calc {
        Fields(s);
        [a[..n]] + Fields(a[n..] + [c] + b);
        [a[..n]] + (Fields(a[n..]) + Fields(b));
        ([a[..n]] + Fields(a[n..])) + Fields(b);
      }
    }
  }

  /** Splitting a space-joined sequence of words gives the words back. */
  lemma {:induction false} FieldsOfJoin(ws: seq<string>)
    requires AllWords(ws)
    ensures Fields(Join(ws)) == ws
    decreases |ws|
  {
    if |ws| == 1 {
      FieldsOfWord(ws[0]);
    } else if |ws| > 1 {
      var init, last := ws[..|ws| - 1], ws[|ws| - 1];
      FieldsOfJoin(init);
      FieldsOfWord(last);
      assert Join(ws) == Join(init) + [' '] + last;
      FieldsAtSpace(Join(init), ' ', last);
      assert init + [last] == ws;
    }
  }
}
