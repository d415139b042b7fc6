/** backend/meta_router.py, the document-level router: the data directory's
    `.txt`/`.json` pairs are loaded as a corpus, their embeddings are cached in
    `embeddings_cache.json`, a query's nearest documents are read back from the
    data directory, and their domains and tags are counted. The embedder is a
    function from text to vector, the search an oracle from the index to row
    indices, and the files are functions from names to their contents. */
module MetaRouter {
  import opened Wrappers
  import opened Py
  import opened Tally
  import opened Records
  import opened Faiss
  import opened Hits

  /** `TOP_K`: the number of neighbours asked of the search. */
  const TOP_K: nat := 5

  /** How many characters of a document's text go into its context. */
  const CONTEXT_LIMIT: nat := 2000

  /** `DATA_DIR`, where the parser writes `.txt` and `.json` files. */
  const DATA_DIR: string := "D:\\.COUNCIL\\Cerebro\\data"

  /** The defaults of `meta.get(...)` for the domain, file name and language. */
  const DEFAULT_DOMAIN: string := "GENERAL"
  const UNKNOWN: string := "unknown"

  /** What separates the documents' contexts in the synthesized result. */
  const CONTEXT_SEPARATOR: string := "\n\n---\n\n"

  /** The data directory: its listing, the text of a file (`None` when it
      cannot be opened or read), and the parsed `.json` file (`None` when it
      does not exist, cannot be read or is not JSON). Names are relative to
      `DATA_DIR`. */
  datatype DataDir = DataDir(
    listing: seq<string>,
    readText: string -> Option<string>,
    readMeta: string -> Option<MetaView>)

  // ---------------------------------------------------------------------------
  // load_corpus
  // ---------------------------------------------------------------------------

  /** `txt_path.replace(".txt", ".json")`: every occurrence is replaced. */
  function MetaName(file: string): string {
    Replace(file, ".txt", ".json")
  }

  /** A listed file that ends in `.txt`, whose text can be read and whose
      metadata file exists and parses. */
  predicate Loadable(dir: DataDir, file: string) {
    EndsWith(file, ".txt") && dir.readText(file).Some? && dir.readMeta(MetaName(file)).Some?
  }

  /** `load_corpus()` over the listed `files`: the stripped text and the
      metadata of a file are appended together, only once both are read. */
  function LoadCorpus(dir: DataDir, files: seq<string>): (r: (seq<string>, seq<MetaView>))
    ensures |r.0| == |r.1|
    ensures forall i :: 0 <= i < |r.0| ==> Stripped(r.0[i])
  {
    if |files| == 0 then ([], [])
    else
      var rest := LoadCorpus(dir, files[1..]);
      var file := files[0];
      if !EndsWith(file, ".txt") then rest
      else match (dir.readText(file), dir.readMeta(MetaName(file)))
        case (Some(text), Some(meta)) => ([Strip(text)] + rest.0, [meta] + rest.1)
        case _ => rest
  }

  /** The loadable files of a listing, in listing order. */
  function LoadableNames(dir: DataDir, files: seq<string>): (names: seq<string>)
    ensures forall i :: 0 <= i < |names| ==> Loadable(dir, names[i])
  {
    if |files| == 0 then []
    else (if Loadable(dir, files[0]) then [files[0]] else []) + LoadableNames(dir, files[1..])
  }

  /** `text` and `meta` are what the corpus loader reads for the loadable file `name`. */
  predicate Entry(dir: DataDir, name: string, text: string, meta: MetaView) {
    && Loadable(dir, name)
    && text == Strip(dir.readText(name).value)
    && meta == dir.readMeta(MetaName(name)).value
  }

  /** Entry `i` of `texts` and of `metas` come from the loadable file `names[i]`. */
  predicate Aligned(dir: DataDir, texts: seq<string>, metas: seq<MetaView>, names: seq<string>) {
    && |texts| == |names| && |metas| == |names|
    && forall i :: 0 <= i < |names| ==> Entry(dir, names[i], texts[i], metas[i])
  }

  /** Loading one more file in front keeps the lists aligned. */
  lemma AlignedCons(dir: DataDir, file: string, text: string, meta: MetaView,
                    texts: seq<string>, metas: seq<MetaView>, names: seq<string>)
    requires Entry(dir, file, text, meta) && Aligned(dir, texts, metas, names)
    ensures Aligned(dir, [text] + texts, [meta] + metas, [file] + names)
  {
    var ts, ms, ns := [text] + texts, [meta] + metas, [file] + names;
    assert ns[0] == file && ts[0] == text && ms[0] == meta;
    forall i | 1 <= i < |ns|
      ensures Entry(dir, ns[i], ts[i], ms[i])
    {
      assert Entry(dir, names[i - 1], texts[i - 1], metas[i - 1]);
      assert ns[i] == names[i - 1] && ts[i] == texts[i - 1] && ms[i] == metas[i - 1];
    }
  }

  /** The corpus is aligned: entry `i` of the texts and of the metadata come
      from the same listed file, the `i`-th loadable one in listing order; a
      `.txt` file without readable metadata contributes to neither list. */
  lemma {:induction false} LoadCorpusPairs(dir: DataDir, files: seq<string>)
    ensures Aligned(dir, LoadCorpus(dir, files).0, LoadCorpus(dir, files).1, LoadableNames(dir, files))
  {
    if |files| > 0 {
      LoadCorpusPairs(dir, files[1..]);
      var rest, names := LoadCorpus(dir, files[1..]), LoadableNames(dir, files[1..]);
      if Loadable(dir, files[0]) {
        var text, meta := Strip(dir.readText(files[0]).value), dir.readMeta(MetaName(files[0])).value;
        AlignedCons(dir, files[0], text, meta, rest.0, rest.1, names);
        assert LoadCorpus(dir, files) == ([text] + rest.0, [meta] + rest.1);
        assert LoadableNames(dir, files) == [files[0]] + names;
      } else {
        assert LoadCorpus(dir, files) == rest;
        assert LoadableNames(dir, files) == names;
      }
    }
  }

  /** The parser's stems contain no dot, so the metadata file of
      `stem + ".txt"` is `stem + ".json"`. */
  lemma {:induction false} MetaNameOfStem(stem: string)
    requires '.' !in stem
    ensures MetaName(stem + ".txt") == stem + ".json"
  {
    if |stem| == 0 {
      assert stem + ".txt" == ".txt";
      assert ".txt"[4..] == "";
    } else {
      var s := stem + ".txt";
      assert s[..4] != ".txt" by {
        assert s[0] == stem[0] != '.';
      }
      assert s[1..] == stem[1..] + ".txt";
      MetaNameOfStem(stem[1..]);
    }
  }

  // ---------------------------------------------------------------------------
  // The embedding cache
  // ---------------------------------------------------------------------------

  /** The parts of `embeddings_cache.json` the loader reads. A missing key is
      `None`; for `"metadata"`, `Some(None)` is a JSON `null`. */
  datatype CacheJson = CacheJson(
    embeddings: Option<seq<Vector>>,
    metadata: Option<Option<seq<MetaView>>>)

  /** `faiss.IndexFlatL2(384).add(np.array(rows))`. An empty list becomes a
      one-dimensional array that `add` cannot take apart into rows. */
  function NewIndex(rows: seq<Vector>): (r: Option<FlatIndex>)
    ensures r.Some? <==> |rows| > 0 && Fits(rows)
    ensures r.Some? ==> r.value.rows == rows
  {
    if |rows| == 0 then None
    else match Add(FlatIndex([]), rows)
      case Ok(ix) => Some(ix)
      case Err(_) => None
  }

  /** `load_embedding_cache()`, where `file` is the parsed cache and `None`
      stands for a missing or unparsable file. Any failure gives
      `(None, None)`: a missing file, a missing `"embeddings"` or
      `"metadata"` key, or rows `add` rejects. */
  function LoadCache(file: Option<CacheJson>): (r: (Option<FlatIndex>, Option<seq<MetaView>>))
    ensures r.0.None? ==> r.1.None?
    ensures r.0.Some? <==>
      && file.Some? && file.value.embeddings.Some? && file.value.metadata.Some?
      && |file.value.embeddings.value| > 0 && Fits(file.value.embeddings.value)
    ensures r.0.Some? ==> r.0.value.rows == file.value.embeddings.value && r.1 == file.value.metadata.value
  {
    if file.None? then (None, None)
    else
      var c := file.value;
      if c.embeddings.None? || c.metadata.None? then (None, None)
      else match NewIndex(c.embeddings.value)
        case None => (None, None)
        case Some(ix) => (Some(ix), c.metadata.value)
  }

  /** The cache a rebuild writes. */
  function SaveCache(rows: seq<Vector>, metas: seq<MetaView>): CacheJson {
    CacheJson(Some(rows), Some(Some(metas)))
  }

  /** The loader hands back an index without metadata exactly when the
      cache's `"metadata"` is `null` and its embeddings load; in every other
      case it returns both or neither. */
  lemma CachePartialOnlyOnNull(file: Option<CacheJson>)
    ensures var r := LoadCache(file);
      (r.0.Some? && r.1.None?) <==>
        (file.Some? && file.value.metadata == Some(None) && file.value.embeddings.Some?
         && |file.value.embeddings.value| > 0 && Fits(file.value.embeddings.value))
  {
  }

  /** A saved cache with at least one row of the index width loads back as
      the same rows and the same metadata. */
  lemma CacheRoundTrip(rows: seq<Vector>, metas: seq<MetaView>)
    requires |rows| > 0 && Fits(rows)
    ensures LoadCache(Some(SaveCache(rows, metas))) == (Some(FlatIndex(rows)), Some(metas))
  {
  }

  // ---------------------------------------------------------------------------
  // route_query_semantically
  // ---------------------------------------------------------------------------

  /** Everything the router reads besides the cache: the data directory, the
      embedder, whether the cache file can be written, and the search, which
      maps an index to the row indices of the query's `TOP_K` neighbours. */
  datatype DocIo = DocIo(
    dir: DataDir,
    embed: string -> Vector,
    canWriteCache: bool,
    search: FlatIndex -> seq<int>)

  /** Why `route_query_semantically` raises: the rebuilt index cannot be
      built, or a hit is an index below `-len(metadata)`. */
  datatype RouteError = BuildFailed | BadHit(idx: int)

  /** The index and metadata the search runs on, and the cache file after. */
  datatype Prepared = Prepared(index: FlatIndex, metadata: seq<MetaView>, cache: Option<CacheJson>)

  /** `model.encode(texts)`: one embedding per text. */
  function Embed(embed: string -> Vector, texts: seq<string>): (rows: seq<Vector>)
    ensures |rows| == |texts| && forall i :: 0 <= i < |texts| ==> rows[i] == embed(texts[i])
  {
    seq(|texts|, i requires 0 <= i < |texts| => embed(texts[i]))
  }

  /** The first half of `route_query_semantically`: the cached index and
      metadata when both load; otherwise the corpus is loaded, embedded and
      indexed, and the cache is saved when the file can be written. */
  function Prepare(io: DocIo, cache: Option<CacheJson>): (r: Result<Prepared, RouteError>)
    ensures r.Ok? ==> |r.value.index.rows| > 0 && Fits(r.value.index.rows)
  {
    var (ix, md) := LoadCache(cache);
    if ix.Some? && md.Some? then
      Ok(Prepared(ix.value, md.value, cache))
    else
      var (texts, metas) := LoadCorpus(io.dir, io.dir.listing);
      var rows := Embed(io.embed, texts);
      match NewIndex(rows)
      case None => Err(BuildFailed)
      case Some(built) =>
        Ok(Prepared(built, metas, if io.canWriteCache then Some(SaveCache(rows, metas)) else cache))
  }

  /** A cache that loads is used as it is and left alone. When either half
      fails to load, the index is rebuilt from the corpus in listing order,
      and the rebuilt rows and metadata are what the cache now holds if it
      could be written; the build fails exactly when the corpus is empty or
      an embedding has the wrong width. */
  lemma PrepareRebuildsOnFailure(io: DocIo, cache: Option<CacheJson>)
    ensures var loaded := LoadCache(cache); var r := Prepare(io, cache);
      && (loaded.0.Some? && loaded.1.Some? ==>
            r == Ok(Prepared(loaded.0.value, loaded.1.value, cache)))
      && (loaded.0.None? || loaded.1.None? ==>
            var corpus := LoadCorpus(io.dir, io.dir.listing);
            && (r.Err? <==> |corpus.0| == 0 || !Fits(Embed(io.embed, corpus.0)))
            && (r.Ok? ==>
                  && r.value.index.rows == Embed(io.embed, corpus.0)
                  && r.value.metadata == corpus.1
                  && r.value.cache == (if io.canWriteCache then Some(SaveCache(r.value.index.rows, corpus.1)) else cache)))
  {
  }

  /** After a rebuild that saved the cache, the next query loads the same
      index and metadata from the cache and does not rebuild again. */
  lemma RebuildIsCached(io: DocIo, cache: Option<CacheJson>)
    requires Prepare(io, cache).Ok? && io.canWriteCache
    ensures var p := Prepare(io, cache).value;
      Prepare(io, p.cache) == Ok(p)
  {
    var loaded := LoadCache(cache);
    var p := Prepare(io, cache).value;
    if loaded.0.None? || loaded.1.None? {
      CacheRoundTrip(p.index.rows, p.metadata);
    }
  }

  /** One entry of the returned `results` list; the float score is not
      modelled. */
  datatype DocHit = DocHit(
    domain: string,
    tags: seq<string>,
    sourceFile: string,
    path: string,
    context: string)

  /** `f"{domain}__{filename}__{language}.txt"` with the defaults of `meta.get`. */
  function DocName(m: MetaView): string {
    m.domain.GetOr(DEFAULT_DOMAIN) + "__" + m.filename.GetOr(UNKNOWN) + "__" + m.language.GetOr(UNKNOWN) + ".txt"
  }

  /** `os.path.join(DATA_DIR, name)` for a plain file name. */
  function DataPath(name: string): string {
    DATA_DIR + "\\" + name
  }

  /** The result for a metadata entry whose text file reads as `text`: the
      context is the stripped text cut to 2000 characters. */
  function ToHit(m: MetaView, text: string): (h: DocHit)
    ensures |h.context| <= CONTEXT_LIMIT
    ensures h.context <= Strip(text)
    ensures |Strip(text)| <= CONTEXT_LIMIT ==> h.context == Strip(text)
    ensures |Strip(text)| > CONTEXT_LIMIT ==> |h.context| == CONTEXT_LIMIT
  {
    DocHit(m.domain.GetOr(DEFAULT_DOMAIN), m.tags.GetOr([]), m.filename.GetOr(UNKNOWN),
           DataPath(DocName(m)), Slice(Strip(text), 0, CONTEXT_LIMIT))
  }

  /** The loop over the hits: an index at or past the end of the metadata is
      skipped, one below `-len(metadata)` raises, and a document whose text
      file cannot be read is dropped. */
  function HitLoop(dir: DataDir, metadata: seq<MetaView>, hits: seq<int>): (r: Result<seq<DocHit>, RouteError>)
    ensures r.Err? <==> exists k :: 0 <= k < |hits| && hits[k] < -|metadata|
    ensures r.Ok? ==> |r.value| <= |Kept(|metadata|, hits)|
    ensures r.Ok? ==> forall j :: 0 <= j < |r.value| ==> |r.value[j].context| <= CONTEXT_LIMIT
  {
    if |hits| == 0 then Ok([])
    else
      assert forall k :: 0 < k < |hits| ==> hits[k] == hits[1..][k - 1];
      var rest := HitLoop(dir, metadata, hits[1..]);
      if hits[0] >= |metadata| then rest
      else match Index(metadata, hits[0])
        case None => Err(BadHit(hits[0]))
        case Some(m) =>
          match dir.readText(DocName(m))
          case None => rest
          case Some(text) =>
            match rest
            case Err(e) => Err(e)
            case Ok(hs) => Ok([ToHit(m, text)] + hs)
  }

  /** The metadata entry has a readable text file. */
  predicate Readable(dir: DataDir, m: MetaView) {
    dir.readText(DocName(m)).Some?
  }

  /** The entries of `ms` with a readable text file, in order. */
  function ReadableDocs(dir: DataDir, ms: seq<MetaView>): (docs: seq<MetaView>)
    ensures forall j :: 0 <= j < |docs| ==> Readable(dir, docs[j])
  {
    if |ms| == 0 then []
    else (if Readable(dir, ms[0]) then [ms[0]] else []) + ReadableDocs(dir, ms[1..])
  }

  /** The results for the entries `docs` taken in order: an entry whose text
      file reads gives the result built from it and that text, any other is
      dropped. */
  function ReadAll(dir: DataDir, docs: seq<MetaView>): (hs: seq<DocHit>)
    ensures |hs| == |ReadableDocs(dir, docs)|
  {
    if |docs| == 0 then []
    else (if Readable(dir, docs[0]) then [HitOf(dir, docs[0])] else []) + ReadAll(dir, docs[1..])
  }

  /** The result for an entry whose text file reads. */
  function HitOf(dir: DataDir, m: MetaView): DocHit
    requires Readable(dir, m)
  {
    ToHit(m, dir.readText(DocName(m)).value)
  }

  /** Result `j` is built from the `j`-th readable entry and its text. */
  lemma {:induction false} ReadAllAt(dir: DataDir, docs: seq<MetaView>)
    ensures forall j :: 0 <= j < |ReadAll(dir, docs)| ==>
      ReadAll(dir, docs)[j] == HitOf(dir, ReadableDocs(dir, docs)[j])
  {
    if |docs| > 0 {
      ReadAllAt(dir, docs[1..]);
      var hs, rd := ReadAll(dir, docs[1..]), ReadableDocs(dir, docs[1..]);
      if Readable(dir, docs[0]) {
        assert ReadAll(dir, docs) == [HitOf(dir, docs[0])] + hs;
        assert ReadableDocs(dir, docs) == [docs[0]] + rd;
      } else {
        assert ReadAll(dir, docs) == hs;
        assert ReadableDocs(dir, docs) == rd;
      }
    }
  }

  /** The hit loop is the entries the hits name, read in order: it raises
      exactly when picking them does, and otherwise gives `ReadAll` of them. */
  lemma {:induction false} HitLoopSpec(dir: DataDir, metadata: seq<MetaView>, hits: seq<int>)
    ensures HitLoop(dir, metadata, hits).Ok? <==> Picked(metadata, hits).Ok?
    ensures HitLoop(dir, metadata, hits).Ok? ==>
      HitLoop(dir, metadata, hits).value == ReadAll(dir, Picked(metadata, hits).value)
  {
    if |hits| > 0 {
      HitLoopSpec(dir, metadata, hits[1..]);
      if hits[0] < |metadata| && -|metadata| <= hits[0] {
        var m := Index(metadata, hits[0]).value;
        var p := Picked(metadata, hits[1..]);
        if p.Ok? {
          assert Picked(metadata, hits).value == [m] + p.value;
          assert ([m] + p.value)[1..] == p.value;
        }
      }
    }
  }

  /** What one call of `route_query_semantically` produces: the results, or
      the error it raises, and the cache file afterwards. A rebuilt cache is
      saved before the search, so it stays even when the hit loop raises. */
  datatype Routing = Routing(results: Result<seq<DocHit>, RouteError>, cache: Option<CacheJson>)

  /** `route_query_semantically(query)`, the query being fixed inside `io.search`. */
  function RouteSemantically(io: DocIo, cache: Option<CacheJson>): (r: Routing)
    ensures Prepare(io, cache).Err? ==> r == Routing(Err(BuildFailed), cache)
    ensures Prepare(io, cache).Ok? ==> r.cache == Prepare(io, cache).value.cache
  {
    match Prepare(io, cache)
    case Err(e) => Routing(Err(e), cache)
    case Ok(p) => Routing(HitLoop(io.dir, p.metadata, io.search(p.index)), p.cache)
  }

  /** The results come from the index and metadata the cache or the rebuild
      provides, through the hit loop; every context holds at most 2000
      characters and is the start of its document's stripped text. */
  lemma RouteSemanticallyResults(io: DocIo, cache: Option<CacheJson>)
    requires Prepare(io, cache).Ok?
    ensures var p := Prepare(io, cache).value; var r := RouteSemantically(io, cache);
      && (r.results.Err? <==> exists k :: 0 <= k < |io.search(p.index)| && io.search(p.index)[k] < -|p.metadata|)
      && (r.results.Ok? ==>
            var docs := ReadableDocs(io.dir, Picked(p.metadata, io.search(p.index)).value);
            && r.results.value == ReadAll(io.dir, Picked(p.metadata, io.search(p.index)).value)
            && |r.results.value| == |docs|
            && forall j :: 0 <= j < |docs| ==>
                 && r.results.value[j].path == DataPath(DocName(docs[j]))
                 && r.results.value[j].context <= Strip(io.dir.readText(DocName(docs[j])).value))
  {
    var p := Prepare(io, cache).value;
    HitLoopSpec(io.dir, p.metadata, io.search(p.index));
    if Picked(p.metadata, io.search(p.index)).Ok? {
      ReadAllAt(io.dir, Picked(p.metadata, io.search(p.index)).value);
    }
  }

  // ---------------------------------------------------------------------------
  // synthesize_routing_result
  // ---------------------------------------------------------------------------

  /** The dictionary `synthesize_routing_result` returns. */
  datatype Synthesis = Synthesis(
    query: string,
    domainDistribution: seq<(Key, nat)>,
    tags: seq<(Key, nat)>,
    sources: seq<string>,
    context: string)

  /** All the lists of `xss`, one after the other. */
  function Flatten(xss: seq<seq<string>>): seq<string> {
    if |xss| == 0 then [] else xss[0] + Flatten(xss[1..])
  }

  /** The total length of the lists of `xss`. */
  function SumLengths(xss: seq<seq<string>>): nat {
    if |xss| == 0 then 0 else |xss[0]| + SumLengths(xss[1..])
  }

  lemma {:induction false} FlattenLength(xss: seq<seq<string>>)
    ensures |Flatten(xss)| == SumLengths(xss)
  {
    if |xss| > 0 {
      FlattenLength(xss[1..]);
    }
  }

  /** The per-result columns the loop reads. */
  function DomainsOf(results: seq<DocHit>): seq<Key> {
    Column(results, (h: DocHit) => h.domain)
  }

  function TagListsOf(results: seq<DocHit>): (ts: seq<seq<string>>)
    ensures |ts| == |results| && forall i :: 0 <= i < |results| ==> ts[i] == results[i].tags
  {
    seq(|results|, i requires 0 <= i < |results| => results[i].tags)
  }

  function SourcesOf(results: seq<DocHit>): (ss: seq<string>)
    ensures |ss| == |results| && forall i :: 0 <= i < |results| ==> ss[i] == results[i].sourceFile
  {
    seq(|results|, i requires 0 <= i < |results| => results[i].sourceFile)
  }

  function ContextsOf(results: seq<DocHit>): (cs: seq<string>)
    ensures |cs| == |results| && forall i :: 0 <= i < |results| ==> cs[i] == results[i].context
  {
    seq(|results|, i requires 0 <= i < |results| => results[i].context)
  }

  /** `synthesize_routing_result` over the results of the router: domains
      and tags are counted in first-seen order, and sources and contexts keep
      the result order. */
  function Synthesize(query: string, results: seq<DocHit>): (s: Synthesis)
    ensures |s.sources| == |results| && forall i :: 0 <= i < |results| ==> s.sources[i] == results[i].sourceFile
  {
    Synthesis(query, TallyOf(DomainsOf(results)), TallyOf(Flatten(TagListsOf(results))),
              SourcesOf(results), Join(CONTEXT_SEPARATOR, ContextsOf(results)))
  }

  /** The domain counts sum to the number of results and give each domain's
      number of results; the tag counts sum to the number of tags over all
      results and give each tag's number of occurrences; every counted key
      occurs. */
  lemma SynthesizeCounts(query: string, results: seq<DocHit>)
    ensures var s := Synthesize(query, results);
      && Total(s.domainDistribution) == |results|
      && (forall d :: Get(s.domainDistribution, d) == Occurrences(DomainsOf(results), d))
      && (forall d :: d in Keys(s.domainDistribution) <==> exists i :: 0 <= i < |results| && results[i].domain == d)
      && Total(s.tags) == SumLengths(TagListsOf(results))
      && (forall t :: Get(s.tags, t) == Occurrences(Flatten(TagListsOf(results)), t))
  {
    TallyOfSpec(DomainsOf(results));
    TallyOfSpec(Flatten(TagListsOf(results)));
    FlattenLength(TagListsOf(results));
    var ds := DomainsOf(results);
    forall d
      ensures d in ds <==> exists i :: 0 <= i < |results| && results[i].domain == d
    {
      if d in ds {
        var i :| 0 <= i < |ds| && ds[i] == d;
      }
    }
  }

  /** The context is the results' contexts in order, separated by
      `"\n\n---\n\n"` and nothing else; it starts with the first and ends
      with the last. */
  lemma SynthesizeContext(query: string, results: seq<DocHit>)
    ensures var c := Synthesize(query, results).context;
      && Joined(c, CONTEXT_SEPARATOR, ContextsOf(results))
      && (|results| > 0 ==>
            && results[0].context <= c
            && |results[|results| - 1].context| <= |c|
            && c[|c| - |results[|results| - 1].context|..] == results[|results| - 1].context)
  {
    JoinIsJoined(CONTEXT_SEPARATOR, ContextsOf(results));
    if |results| > 0 {
      JoinBounds(CONTEXT_SEPARATOR, ContextsOf(results));
    }
  }
}
