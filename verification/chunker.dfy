/** `chunk_text` of backend/core_memory.py: the text is split into words, a
    window of `size` words starts every `size - overlap` words, and a window is
    kept only if re-splitting its space-joined text gives at least 50 words. */
module Chunker {
  import opened Wrappers
  import opened Py

  /** Windows with fewer words than this are dropped as tiny tail segments. */
  const MIN_CHUNK_WORDS: nat := 50

  /** `range(0, n, 0)` raises: a window stride of zero is rejected. */
  datatype ChunkError = ZeroStep

  /** The words of a text: `str.split()` yields non-empty runs free of whitespace. */
  predicate WordList(words: seq<string>) {
    forall i :: 0 <= i < |words| ==> |words[i]| > 0 && All(NotSpace, words[i])
  }

  function Min(a: int, b: int): int {
    if a <= b then a else b
  }

  /** `words[start:start + size]` for a start inside the list and a non-negative size. */
  function Window(words: seq<string>, start: nat, size: nat): seq<string>
    requires start <= |words|
  {
    words[start..Min(start + size, |words|)]
  }

  /** `len(range(0, n, step))` for a positive step. */
  function NumStarts(n: nat, step: nat): nat
    requires step > 0
  {
    if n == 0 then 0 else (n - 1) / step + 1
  }

  /** The `j`-th window start of `range(0, n, step)`. */
  function Start(j: nat, step: nat): nat {
    j * step
  }

  /** The chunk built at each start `i * step` of the loop, before the size filter. */
  function Candidates(words: seq<string>, size: int, step: nat): seq<string>
    requires step > 0
  {
    seq(NumStarts(|words|, step), i => Join(" ", Slice(words, i * step, i * step + size)))
  }

  /** The loop's filter: a chunk is kept when splitting it gives at least 50 words. */
  predicate LongEnough(chunk: string) {
    |Words(chunk)| >= MIN_CHUNK_WORDS
  }

  /** `chunk_text(text, size, overlap)`. A zero stride raises like `range` does;
      a negative stride makes the `range` empty, so nothing is produced. */
  function ChunkText(text: string, size: int, overlap: int): (r: Result<seq<string>, ChunkError>)
    ensures r.Err? <==> size == overlap
    ensures size < overlap ==> r == Ok([])
    ensures r.Ok? ==> forall i :: 0 <= i < |r.value| ==> |Words(r.value[i])| >= MIN_CHUNK_WORDS
  {
    var step := size - overlap;
    if step == 0 then Err(ZeroStep)
    else if step < 0 then Ok([])
    else Ok(Filter(LongEnough, Candidates(Words(text), size, step)))
  }

  // ---------------------------------------------------------------------------
  // Arithmetic of the window starts
  // ---------------------------------------------------------------------------

  lemma MulStep(m: int, step: int)
    ensures (m + 1) * step == m * step + step
  {
  }

  lemma MulMono(x: int, y: int, b: int)
    requires x <= y && b >= 0
    ensures x * b <= y * b
  {
    assert y * b - x * b == (y - x) * b;
  }

  /** `i <= a / b` exactly when `i * b <= a`. */
  lemma DivLe(a: nat, b: nat, i: nat)
    requires b > 0
    ensures i <= a / b <==> i * b <= a
  {
    var q := a / b;
    assert q * b <= a < q * b + b;
    if i <= q {
      MulMono(i, q, b);
    } else {
      MulMono(q + 1, i, b);
      MulStep(q, b);
    }
  }

  /** Start `i * step` is produced by `range(0, n, step)` exactly when it is below `n`. */
  lemma StartInRange(n: nat, step: nat, i: nat)
    requires step > 0
    ensures i < NumStarts(n, step) <==> i * step < n
  {
    if n > 0 {
      DivLe(n - 1, step, i);
    }
  }

  /** The number of chunks `chunk_text` keeps from `n` words. */
  function KeptCount(n: nat, size: int, step: nat): nat
    requires step > 0
  {
    if size < MIN_CHUNK_WORDS as int || n < MIN_CHUNK_WORDS then 0
    else (n - MIN_CHUNK_WORDS) / step + 1
  }

  /** The first `KeptCount` starts are exactly those whose window reaches 50 words. */
  lemma KeptCountIsCut(n: nat, size: int, step: nat, i: nat)
    requires step > 0
    ensures KeptCount(n, size, step) <= NumStarts(n, step)
    ensures i < KeptCount(n, size, step) <==> size >= MIN_CHUNK_WORDS as int && i * step + MIN_CHUNK_WORDS <= n
  {
    if n >= MIN_CHUNK_WORDS {
      DivLe(n - MIN_CHUNK_WORDS, step, i);
      DivLe(n - MIN_CHUNK_WORDS, step, (n - MIN_CHUNK_WORDS) / step);
      StartInRange(n, step, (n - MIN_CHUNK_WORDS) / step);
    }
  }

  // ---------------------------------------------------------------------------
  // Windows
  // ---------------------------------------------------------------------------

  /** A slice of a word list survives the join/split round trip unchanged. */
  lemma WindowRoundTrip(words: seq<string>, start: nat, size: nat)
    requires WordList(words) && start <= |words|
    ensures Words(Join(" ", Window(words, start, size))) == Window(words, start, size)
  {
    var w := Window(words, start, size);
    assert forall i :: 0 <= i < |w| ==> w[i] == words[start + i];
    RunsJoinRoundTrip(NotSpace, ' ', w);
  }

  /** Candidate `i` is the joined window at `i * step`; it splits back into that
      window, so it is kept exactly when the window holds 50 words. */
  lemma CandidateIs(words: seq<string>, size: nat, step: nat, i: nat)
    requires WordList(words) && step > 0 && i < NumStarts(|words|, step)
    ensures i * step < |words|
    ensures Candidates(words, size, step)[i] == Join(" ", Window(words, i * step, size))
    ensures Words(Candidates(words, size, step)[i]) == Window(words, i * step, size)
    ensures LongEnough(Candidates(words, size, step)[i]) <==> size >= MIN_CHUNK_WORDS && i * step + MIN_CHUNK_WORDS <= |words|
  {
    StartInRange(|words|, step, i);
    var start := i * step;
    assert Slice(words, start, start + size) == Window(words, start, size);
    WindowRoundTrip(words, start, size);
  }

  /** The kept chunks are the first `KeptCount` candidates: once a window runs
      short of 50 words, every later one does too. */
  lemma KeptArePrefix(words: seq<string>, size: nat, step: nat)
    requires WordList(words) && step > 0
    ensures KeptCount(|words|, size, step) <= |Candidates(words, size, step)|
    ensures Filter(LongEnough, Candidates(words, size, step)) ==
            Candidates(words, size, step)[..KeptCount(|words|, size, step)]
  {
    var cs, m := Candidates(words, size, step), KeptCount(|words|, size, step);
    KeptCountIsCut(|words|, size, step, 0);
    forall i | 0 <= i < |cs|
      ensures LongEnough(cs[i]) <==> i < m
    {
      CandidateIs(words, size, step, i);
      KeptCountIsCut(|words|, size, step, i);
    }
    FilterPrefix(LongEnough, cs, m);
  }

  // ---------------------------------------------------------------------------
  // Properties of chunk_text
  // ---------------------------------------------------------------------------

  /** With `0 <= size` and `overlap < size`, a text of `n` words yields no chunk
      when `n < 50` or `size < 50`, and `(n - 50) / (size - overlap) + 1` chunks otherwise. */
  lemma ChunkCount(text: string, size: int, overlap: int)
    requires 0 <= size && overlap < size
    ensures ChunkText(text, size, overlap).Ok?
    ensures var n := |Words(text)|;
      |ChunkText(text, size, overlap).value| ==
        if size < MIN_CHUNK_WORDS as int || n < MIN_CHUNK_WORDS as int then 0
        else (n - MIN_CHUNK_WORDS as int) / (size - overlap) + 1
  {
    KeptArePrefix(Words(text), size, size - overlap);
  }

  /** Chunk `j` is the space-joined window `words[j*(size-overlap) : j*(size-overlap)+size]`,
      and that window starts at least 50 words before the end of the text. */
  lemma ChunkIsWindow(text: string, size: int, overlap: int, j: nat)
    requires 0 <= size && overlap < size
    requires j < |ChunkText(text, size, overlap).value|
    ensures Start(j, size - overlap) + MIN_CHUNK_WORDS <= |Words(text)|
    ensures ChunkText(text, size, overlap).value[j] == Join(" ", Window(Words(text), Start(j, size - overlap), size))
  {
    var ws, step := Words(text), size - overlap;
    KeptArePrefix(ws, size, step);
    KeptCountIsCut(|ws|, size, step, j);
    CandidateIs(ws, size, step, j);
  }

  /** Every chunk holds at least 50 and at most `size` words, and splitting it
      again gives back exactly its window of the text's words. */
  lemma ChunkBounds(text: string, size: int, overlap: int, j: nat)
    requires 0 <= size && overlap < size
    requires j < |ChunkText(text, size, overlap).value|
    ensures Start(j, size - overlap) + MIN_CHUNK_WORDS <= |Words(text)|
    ensures var c := ChunkText(text, size, overlap).value[j];
      && Words(c) == Window(Words(text), Start(j, size - overlap), size)
      && MIN_CHUNK_WORDS <= |Words(c)| <= size
  {
    var ws, step := Words(text), size - overlap;
    KeptArePrefix(ws, size, step);
    KeptCountIsCut(|ws|, size, step, j);
    CandidateIs(ws, size, step, j);
  }

  /** When chunk `j` is a full window, its last `overlap` words are the first
      `overlap` words of chunk `j + 1`. */
  lemma ChunkOverlap(text: string, size: int, overlap: int, j: nat)
    requires 0 <= overlap < size
    requires j + 1 < |ChunkText(text, size, overlap).value|
    requires Start(j, size - overlap) + size <= |Words(text)|
    ensures var cs := ChunkText(text, size, overlap).value;
      size - overlap <= |Words(cs[j])| && overlap <= |Words(cs[j + 1])| &&
      Words(cs[j])[size - overlap..] == Words(cs[j + 1])[..overlap]
  {
    var step := size - overlap;
    var cs := ChunkText(text, size, overlap).value;
    ChunkBounds(text, size, overlap, j);
    ChunkBounds(text, size, overlap, j + 1);
    var s0, s1 := Start(j, step), Start(j + 1, step);
    MulStep(j, step);
    assert s1 == s0 + step;
    WindowsOverlap(Words(text), Words(cs[j]), Words(cs[j + 1]), s0, s1, size, overlap);
  }

  /** A full window and the window `size - overlap` words later share
      `overlap` words. */
  lemma WindowsOverlap(ws: seq<string>, w0: seq<string>, w1: seq<string>, s: nat, s1: nat, size: nat, overlap: nat)
    requires overlap < size && s + size <= |ws| && s1 == s + (size - overlap) && s1 <= |ws|
    requires w0 == Window(ws, s, size) && w1 == Window(ws, s1, size)
    ensures size - overlap <= |w0| && overlap <= |w1|
    ensures w0[size - overlap..] == w1[..overlap]
  {
    var step := size - overlap;
    assert w0 == ws[s..s + size];
    assert |w1| >= overlap;
    forall i | 0 <= i < overlap
      ensures w0[step + i] == w1[i]
    {
    }
  }
}
