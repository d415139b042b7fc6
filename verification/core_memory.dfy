/** The indexing script backend/core_memory.py: every `.txt` file of the data
    directory, in sorted order, is chunked, embedded and appended to the
    memory entries and to the FAISS index; the router's metadata is then a
    projection of the entries. */
module CoreMemory {
  import opened Wrappers
  import opened Py
  import opened Faiss
  import opened Records
  import Chunker

  const CHUNK_SIZE: int := 500
  const CHUNK_OVERLAP: int := 100

  /** One element of `memory_entries`. */
  datatype Entry = Entry(chunkId: string, text: string, filename: string, domain: string, metadata: MetaView)

  /** `memory_entries` together with `faiss_index`. */
  datatype Memory = Memory(entries: seq<Entry>, index: FlatIndex)

  /** The data directory and the embedder, as seen by the loop:
      `readText` is `None` when opening or reading the file raises,
      `loadMetadata` is `load_metadata`, which already yields `{}` on failure,
      `encode` is `embedder.encode`, `None` when it raises. */
  datatype Env = Env(
    readText: string -> Option<string>,
    loadMetadata: string -> MetaView,
    encode: seq<string> -> Option<seq<Vector>>)

  // ---------------------------------------------------------------------------
  // Names
  // ---------------------------------------------------------------------------

  /** `base_name.split("__")[0] if "__" in base_name else "GENERAL"`: the text
      before the first `__`. */
  function DomainOf(baseName: string): (d: string)
    ensures !Contains(baseName, "__") ==> d == "GENERAL"
    ensures Contains(baseName, "__") ==>
      && |d| <= |baseName| && baseName[..|d|] == d
      && OccursAt(baseName, "__", |d|)
      && forall j :: 0 <= j < |d| ==> !OccursAt(baseName, "__", j)
  {
    match Find(baseName, "__")
    case Some(i) => baseName[..i]
    case None => "GENERAL"
  }

  /** A name built as `{domain}__{rest}` gives its domain back, provided the
      domain contains no `__` and does not end in `_`. */
  lemma DomainOfStem(domain: string, rest: string)
    requires !Contains(domain, "__")
    requires |domain| > 0 ==> domain[|domain| - 1] != '_'
    ensures DomainOf(domain + "__" + rest) == domain
  {
    var name := domain + "__" + rest;
    assert OccursAt(name, "__", |domain|);
    forall j | 0 <= j < |domain|
      ensures !OccursAt(name, "__", j)
    {
      if j + 2 <= |domain| {
        assert name[j..j + 2] == domain[j..j + 2];
        assert !OccursAt(domain, "__", j);
      } else {
        assert name[j] == domain[|domain| - 1];
      }
    }
    assert name[..|domain|] == domain;
  }

  /** A domain folder ending in `_` loses that underscore: `Law_` is read back as `Law`. */
  lemma DomainOfTrailingUnderscore()
    ensures DomainOf("Law_" + "__" + "Book__en") == "Law"
  {
    var name := "Law_" + "__" + "Book__en";
    assert name[3..5] == "__";
    assert OccursAt(name, "__", 3);
    assert name[0..2][0] == 'L' && name[1..3][0] == 'a' && name[2..4][0] == 'w';
    assert Contains(name, "__");
  }

  /** `f"{base_name}_chunk{i}"`. */
  function ChunkId(baseName: string, i: nat): string {
    baseName + "_chunk" + NatToString(i)
  }

  predicate IsDigit(c: char) {
    '0' <= c <= '9'
  }

  /** The number of decimal digits at the end of `s`. */
  function TrailingDigits(s: string): (n: nat)
    ensures n <= |s|
  {
    if |s| > 0 && IsDigit(s[|s| - 1]) then 1 + TrailingDigits(s[..|s| - 1]) else 0
  }

  lemma {:induction false} TrailingDigitsOf(p: string, d: string)
    requires |p| > 0 && !IsDigit(p[|p| - 1])
    requires forall i :: 0 <= i < |d| ==> IsDigit(d[i])
    ensures TrailingDigits(p + d) == |d|
    decreases |d|
  {
    if |d| > 0 {
      assert (p + d)[..|p + d| - 1] == p + d[..|d| - 1];
      TrailingDigitsOf(p, d[..|d| - 1]);
    } else {
      assert p + d == p;
    }
  }

  /** Chunk ids name their file and position unambiguously: the digits after
      the last `_chunk` are the index and what precedes it is the base name. */
  lemma ChunkIdInjective(b1: string, i: nat, b2: string, j: nat)
    requires ChunkId(b1, i) == ChunkId(b2, j)
    ensures b1 == b2 && i == j
  {
    var d1, d2 := NatToString(i), NatToString(j);
    var s := ChunkId(b1, i);
    TrailingDigitsOf(b1 + "_chunk", d1);
    TrailingDigitsOf(b2 + "_chunk", d2);
    assert s == (b1 + "_chunk") + d1 == (b2 + "_chunk") + d2;
    assert d1 == s[|s| - |d1|..] == d2;
    NatToStringInjective(i, j);
    assert b1 == s[..|b1|] == b2;
  }

  // ---------------------------------------------------------------------------
  // The indexing loop
  // ---------------------------------------------------------------------------

  predicate IsTxtName(name: string) {
    EndsWith(name, ".txt")
  }

  /** `sorted([f for f in os.listdir(DATA_DIR) if f.endswith(".txt")])`. */
  function TxtFiles(listing: seq<string>): (files: seq<string>)
    ensures multiset(files) == multiset(Filter(IsTxtName, listing))
    ensures SortedStrings(files)
    ensures forall i :: 0 <= i < |files| ==> IsTxtName(files[i])
  {
    var txt := Filter(IsTxtName, listing);
    var files := SortStrings(txt);
    assert forall i :: 0 <= i < |files| ==> files[i] in multiset(txt);
    files
  }

  /** The chunks of a readable, non-blank file, or `None` when the loop skips
      the file before embedding (unreadable, blank, or no chunk of 50 words). */
  function FileChunks(env: Env, txtFile: string): (r: Option<seq<string>>)
    ensures r.Some? ==> |r.value| > 0
  {
    match env.readText(txtFile)
    case None => None
    case Some(raw) =>
      if Strip(raw) == [] then None
      else
        var chunks := Chunker.ChunkText(raw, CHUNK_SIZE, CHUNK_OVERLAP).value;
        if chunks == [] then None else Some(chunks)
  }

  /** The first `k` entries the inner loop builds for a file's chunks. */
  function NewEntries(env: Env, baseName: string, chunks: seq<string>, k: nat): (es: seq<Entry>)
    requires k <= |chunks|
  {
    seq(k, i requires 0 <= i < k =>
      Entry(ChunkId(baseName, i), chunks[i], baseName, DomainOf(baseName), env.loadMetadata(baseName + ".json")))
  }

  /** One iteration of the outer loop. An entry is appended for every embedding
      before `add` is called; when there are more embeddings than chunks the
      lookup `chunks[i]` raises after all chunks got an entry, and `add` is never
      reached. Every exception abandons the file. */
  function IndexFile(env: Env, m: Memory, txtFile: string): (r: Memory)
    ensures |m.entries| <= |r.entries| && r.entries[..|m.entries|] == m.entries
    ensures |m.index.rows| <= |r.index.rows| && r.index.rows[..|m.index.rows|] == m.index.rows
  {
    var baseName := SplitExtRoot(txtFile);
    match FileChunks(env, txtFile)
    case None => m
    case Some(chunks) =>
      match env.encode(chunks)
      case None => m
      case Some(embs) =>
        if |embs| > |chunks| then
          Memory(m.entries + NewEntries(env, baseName, chunks, |chunks|), m.index)
        else
          var entries := m.entries + NewEntries(env, baseName, chunks, |embs|);
          match Add(m.index, embs)
          case Ok(ix) => Memory(entries, ix)
          case Err(_) => Memory(entries, m.index)
  }

  /** The outer loop over the given files, in order. */
  function IndexFiles(env: Env, m: Memory, files: seq<string>): (r: Memory)
    ensures |m.entries| <= |r.entries| && r.entries[..|m.entries|] == m.entries
    decreases |files|
  {
    if |files| == 0 then m else IndexFiles(env, IndexFile(env, m, files[0]), files[1..])
  }

  /** The whole script, from an empty index. */
  function IndexAll(env: Env, listing: seq<string>): Memory {
    IndexFiles(env, Memory([], FlatIndex([])), TxtFiles(listing))
  }

  // ---------------------------------------------------------------------------
  // Properties of the loop
  // ---------------------------------------------------------------------------

  /** Files that cannot be read, are blank, yield no chunk, or whose embedding
      raises or returns nothing, leave the entries and the index unchanged. */
  lemma IndexFileSkips(env: Env, m: Memory, txtFile: string)
    requires || FileChunks(env, txtFile).None?
             || env.encode(FileChunks(env, txtFile).value).None?
             || env.encode(FileChunks(env, txtFile).value) == Some([])
    ensures IndexFile(env, m, txtFile) == m
  {
    if FileChunks(env, txtFile).Some? && env.encode(FileChunks(env, txtFile).value) == Some([]) {
      assert NewEntries(env, SplitExtRoot(txtFile), FileChunks(env, txtFile).value, 0) == [];
      assert m.entries + [] == m.entries;
      assert m.index.rows + [] == m.index.rows;
    }
  }

  /** When the embedder returns one row of the index width per chunk, the file
      contributes one entry per chunk, in chunk order, and the same number of
      rows, so entries and rows stay the same length. */
  lemma IndexFileAligned(env: Env, m: Memory, txtFile: string)
    requires FileChunks(env, txtFile).Some?
    requires var chunks := FileChunks(env, txtFile).value;
      env.encode(chunks).Some? && |env.encode(chunks).value| == |chunks| && Fits(env.encode(chunks).value)
    ensures var chunks, r := FileChunks(env, txtFile).value, IndexFile(env, m, txtFile);
      && |r.entries| == |m.entries| + |chunks|
      && r.index.rows == m.index.rows + env.encode(chunks).value
      && forall i :: 0 <= i < |chunks| ==>
           var e := r.entries[|m.entries| + i];
           && e.text == chunks[i]
           && e.chunkId == ChunkId(SplitExtRoot(txtFile), i)
           && e.filename == SplitExtRoot(txtFile)
           && e.domain == DomainOf(SplitExtRoot(txtFile))
  {
  }

  /** When `add` rejects the batch, the entries for the file are already
      appended and stay, while the index gains no row. */
  lemma IndexFileMisaligns(env: Env, m: Memory, txtFile: string)
    requires FileChunks(env, txtFile).Some?
    requires var chunks := FileChunks(env, txtFile).value;
      env.encode(chunks).Some? && 0 < |env.encode(chunks).value| <= |chunks| && !Fits(env.encode(chunks).value)
    ensures var chunks, r := FileChunks(env, txtFile).value, IndexFile(env, m, txtFile);
      && |r.entries| == |m.entries| + |env.encode(chunks).value|
      && r.index == m.index
  {
  }

  /** When the embedder returns more rows than there are chunks, every chunk
      gets an entry and the index gains no row. */
  lemma IndexFileTooManyRows(env: Env, m: Memory, txtFile: string)
    requires FileChunks(env, txtFile).Some?
    requires var chunks := FileChunks(env, txtFile).value;
      env.encode(chunks).Some? && |env.encode(chunks).value| > |chunks|
    ensures var chunks, r := FileChunks(env, txtFile).value, IndexFile(env, m, txtFile);
      && |r.entries| == |m.entries| + |chunks|
      && r.index == m.index
  {
  }

  /** The embedder maps every text to its own row of the index width. */
  ghost predicate PerTextEncoder(env: Env, embed: string -> Vector) {
    && (forall t :: |embed(t)| == EMBEDDING_DIM)
    && forall cs :: env.encode(cs) == Some(seq(|cs|, i requires 0 <= i < |cs| => embed(cs[i])))
  }

  /** Row `k` of the index is the embedding of entry `k`'s text. */
  predicate RowsMatch(m: Memory, embed: string -> Vector) {
    && |m.entries| == |m.index.rows|
    && forall k :: 0 <= k < |m.entries| ==> m.index.rows[k] == embed(m.entries[k].text)
  }

  /** With a well-behaved embedder, each file keeps every row the embedding of
      the entry at the same position. */
  lemma IndexFileKeepsRowsMatch(env: Env, embed: string -> Vector, m: Memory, txtFile: string)
    requires PerTextEncoder(env, embed) && RowsMatch(m, embed)
    ensures RowsMatch(IndexFile(env, m, txtFile), embed)
  {
    if FileChunks(env, txtFile).Some? {
      var chunks := FileChunks(env, txtFile).value;
      var embs := env.encode(chunks).value;
      assert |embs| == |chunks|;
      assert Fits(embs);
      IndexFileAligned(env, m, txtFile);
      var r := IndexFile(env, m, txtFile);
      forall k | 0 <= k < |r.entries|
        ensures r.index.rows[k] == embed(r.entries[k].text)
      {
        if k >= |m.entries| {
          assert r.index.rows[k] == embs[k - |m.entries|];
        } else {
          assert r.entries[k] == m.entries[k];
        }
      }
    }
  }

  /** The invariant holds for the whole run: entries and index rows are aligned
      one to one after indexing the data directory. */
  lemma {:induction false} IndexFilesKeepsRowsMatch(env: Env, embed: string -> Vector, m: Memory, files: seq<string>)
    requires PerTextEncoder(env, embed) && RowsMatch(m, embed)
    ensures RowsMatch(IndexFiles(env, m, files), embed)
    decreases |files|
  {
    if |files| > 0 {
      IndexFileKeepsRowsMatch(env, embed, m, files[0]);
      IndexFilesKeepsRowsMatch(env, embed, IndexFile(env, m, files[0]), files[1..]);
    }
  }

  lemma IndexAllRowsMatch(env: Env, embed: string -> Vector, listing: seq<string>)
    requires PerTextEncoder(env, embed)
    ensures RowsMatch(IndexAll(env, listing), embed)
  {
    IndexFilesKeepsRowsMatch(env, embed, Memory([], FlatIndex([])), TxtFiles(listing));
  }

  // ---------------------------------------------------------------------------
  // Router metadata
  // ---------------------------------------------------------------------------

  function Project(e: Entry): RouterMeta {
    RouterMeta(e.domain, e.filename, e.text)
  }

  /** `metadata_for_router`, built by appending one record per entry. */
  function RouterProjection(entries: seq<Entry>): (r: seq<RouterMeta>)
    ensures |r| == |entries|
    ensures forall i :: 0 <= i < |entries| ==>
      r[i].domain == entries[i].domain && r[i].filename == entries[i].filename && r[i].text == entries[i].text
  {
    if |entries| == 0 then []
    else RouterProjection(entries[..|entries| - 1]) + [Project(entries[|entries| - 1])]
  }

  /** The router's metadata has one record per index row, and the record at
      position `i` carries the text whose embedding is row `i`, so a search
      hit `i` names the chunk it was found by. */
  lemma RouterMetadataMatchesRows(env: Env, embed: string -> Vector, listing: seq<string>)
    requires PerTextEncoder(env, embed)
    ensures var m := IndexAll(env, listing); var md := RouterProjection(m.entries);
      && |md| == |m.index.rows|
      && forall i :: 0 <= i < |md| ==>
           && m.index.rows[i] == embed(md[i].text)
           && md[i].domain == m.entries[i].domain && md[i].filename == m.entries[i].filename
  {
    IndexAllRowsMatch(env, embed, listing);
  }
}
