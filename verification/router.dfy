/** `route_query` of backend/router.py: the nearest-neighbour row indices of
    a query are turned into a combined context, a list of sources, a domain
    tally sorted by count, and the top domain with its score. The search
    itself is an oracle: its result is the list of row indices `hits`. */
module Router {
  import opened Wrappers
  import opened Py
  import opened Tally
  import opened Records
  import opened Hits

  /** What separates the chunks of the combined context. */
  const CHUNK_SEPARATOR: string := "\n\n---\n\n"

  /** The domain reported when no hit is kept. */
  const FALLBACK_DOMAIN: string := "GENERAL"

  /** The dictionary `route_query` returns. */
  datatype Routed = Routed(
    context: string,
    domain: string,
    sources: seq<string>,
    score: nat,
    allScores: seq<(Key, nat)>)

  /** `f"{file} [{domain}]"`. */
  function SourceLabel(m: RouterMeta): string {
    m.filename + " [" + m.domain + "]"
  }

  /** The domain of each picked entry, in order. */
  function Domains(picked: seq<RouterMeta>): seq<Key> {
    Column(picked, (m: RouterMeta) => m.domain)
  }

  function Sources(picked: seq<RouterMeta>): (ss: seq<string>)
    ensures |ss| == |picked| && forall i :: 0 <= i < |picked| ==> ss[i] == SourceLabel(picked[i])
  {
    seq(|picked|, i requires 0 <= i < |picked| => SourceLabel(picked[i]))
  }

  /** The chunk texts, each stripped. */
  function Chunks(picked: seq<RouterMeta>): (cs: seq<string>)
    ensures |cs| == |picked| && forall i :: 0 <= i < |picked| ==> cs[i] == Strip(picked[i].text)
  {
    seq(|picked|, i requires 0 <= i < |picked| => Strip(picked[i].text))
  }

  /** Everything after the loop: the chunks are stripped one by one, joined
      and stripped again; the tally is sorted by count; the top domain is the
      first key, `"GENERAL"` when there is none; the score is its count. */
  function Aggregate(picked: seq<RouterMeta>): (r: Routed)
    ensures |r.sources| == |picked|
    ensures forall j :: 0 <= j < |picked| ==> r.sources[j] == SourceLabel(picked[j])
    ensures Stripped(r.context)
    ensures NonIncreasing(r.allScores)
  {
    var scores := SortByCountDesc(TallyOf(Domains(picked)));
    var top := if |scores| > 0 then scores[0].0 else FALLBACK_DOMAIN;
    Routed(Strip(Join(CHUNK_SEPARATOR, Chunks(picked))), top, Sources(picked), Get(scores, top), scores)
  }

  /** `route_query` for a search that returned `hits`. Each kept hit gives
      one source, in hit order; the scores add up to the number of sources;
      and a negative hit below `-len(metadata)` raises. */
  function RouteQuery(metadata: seq<RouterMeta>, hits: seq<int>): (r: Result<Routed, HitError>)
    ensures r.Err? <==> exists k :: 0 <= k < |hits| && hits[k] < -|metadata|
    ensures r.Ok? ==>
      var kept := Kept(|metadata|, hits);
      && |r.value.sources| == |kept|
      && (forall j :: 0 <= j < |kept| ==> 0 <= Resolve(|metadata|, kept[j]) < |metadata|)
      && (forall j :: 0 <= j < |kept| ==>
            r.value.sources[j] == SourceLabel(metadata[Resolve(|metadata|, kept[j])]))
  {
    var picked :- Picked(metadata, hits);
    Ok(Aggregate(picked))
  }

  // ---------------------------------------------------------------------------
  // The combined context
  // ---------------------------------------------------------------------------

  /** The context is the stripped chunks in order, one per picked entry,
      separated by `"\n\n---\n\n"`, with the outer whitespace of the whole
      removed. When the first and the last chunk are not blank, that outer
      strip removes nothing and the context is exactly the joined chunks. */
  lemma AggregateContext(picked: seq<RouterMeta>)
    ensures var r := Aggregate(picked); var cs := Chunks(picked);
      && (exists c :: Joined(c, CHUNK_SEPARATOR, cs) && r.context == Strip(c))
      && (|cs| > 0 && cs[0] != [] && cs[|cs| - 1] != [] ==> Joined(r.context, CHUNK_SEPARATOR, cs))
  {
    var cs := Chunks(picked);
    var c := Join(CHUNK_SEPARATOR, cs);
    JoinIsJoined(CHUNK_SEPARATOR, cs);
    if |cs| > 0 && cs[0] != [] && cs[|cs| - 1] != [] {
      JoinStripped(CHUNK_SEPARATOR, cs);
      StripOfStripped(c);
    }
  }

  /** `route_query`'s context: the kept hits' chunks, stripped, in hit
      order, joined by the separator, and the whole stripped. */
  lemma RouteQueryContext(metadata: seq<RouterMeta>, hits: seq<int>)
    requires RouteQuery(metadata, hits).Ok?
    ensures var r := RouteQuery(metadata, hits).value;
      var kept := Kept(|metadata|, hits);
      var cs := Chunks(Picked(metadata, hits).value);
      && |cs| == |kept|
      && (forall j :: 0 <= j < |kept| ==>
            0 <= Resolve(|metadata|, kept[j]) < |metadata| &&
            cs[j] == Strip(metadata[Resolve(|metadata|, kept[j])].text))
      && (exists c :: Joined(c, CHUNK_SEPARATOR, cs) && r.context == Strip(c))
      && (|cs| > 0 && cs[0] != [] && cs[|cs| - 1] != [] ==> Joined(r.context, CHUNK_SEPARATOR, cs))
  {
    AggregateContext(Picked(metadata, hits).value);
  }

  // ---------------------------------------------------------------------------
  // The domain tally and the top domain
  // ---------------------------------------------------------------------------

  /** The scores count each domain of the picked entries, sum to the number
      of sources, keep the tally's first-seen order among equal counts, and
      are sorted by non-increasing count. */
  lemma AggregateScores(picked: seq<RouterMeta>)
    ensures var r := Aggregate(picked);
      && (forall d :: Get(r.allScores, d) == Occurrences(Domains(picked), d))
      && Total(r.allScores) == |r.sources|
      && (forall c :: WithCount(r.allScores, c) == WithCount(TallyOf(Domains(picked)), c))
  {
    var t := TallyOf(Domains(picked));
    var s := SortByCountDesc(t);
    TallyOfSpec(Domains(picked));
    SortKeepsCounts(t);
  }

  /** The top domain has the largest count, is the earliest seen among the
      domains with that count, and its count is the score. With nothing
      kept, the domain is `"GENERAL"`, the score 0, and there are no sources
      and no context. */
  lemma AggregateTop(picked: seq<RouterMeta>)
    ensures var r := Aggregate(picked); var ds := Domains(picked);
      && (|picked| == 0 ==> r.domain == FALLBACK_DOMAIN && r.score == 0 && r.sources == [] && r.context == "")
      && (|picked| > 0 ==>
            && r.domain in ds
            && r.score == Occurrences(ds, r.domain)
            && (forall d :: Occurrences(ds, d) <= r.score)
            && (forall d :: d in ds && Occurrences(ds, d) == r.score ==> FirstIndex(ds, r.domain) <= FirstIndex(ds, d)))
  {
    var ds := Domains(picked);
    if |picked| > 0 {
      TallyTopIsMax(ds);
      forall d | d in ds && Occurrences(ds, d) == Aggregate(picked).score
        ensures FirstIndex(ds, Aggregate(picked).domain) <= FirstIndex(ds, d)
      {
        TallyTopIsEarliest(ds, d);
      }
    }
  }

  /** Entries A, A, B count A twice and B once; A is the top domain with a
      score of 2. */
  lemma AggregateTwoOne(picked: seq<RouterMeta>, a: RouterMeta, b: RouterMeta)
    requires a.domain != b.domain
    requires |picked| == 3 && picked[0] == a && picked[1] == a && picked[2] == b
    ensures var r := Aggregate(picked);
      && r.allScores == [(a.domain, 2), (b.domain, 1)]
      && r.domain == a.domain && r.score == 2
  {
    assert Domains(picked) == [a.domain, a.domain, b.domain];
    TallyTwoOne(a.domain, b.domain);
  }

  /** Hits naming rows A, A, B of a two-row memory report A's source twice
      and B's once; A is the top domain with a score of 2. */
  lemma TwoToOneExample(a: RouterMeta, b: RouterMeta)
    requires a.domain != b.domain
    ensures var r := RouteQuery([a, b], [0, 0, 1]);
      && r.Ok?
      && |r.value.sources| == 3
      && r.value.sources[0] == r.value.sources[1] == SourceLabel(a) && r.value.sources[2] == SourceLabel(b)
      && r.value.allScores == [(a.domain, 2), (b.domain, 1)]
      && r.value.domain == a.domain && r.value.score == 2
  {
    var md, hits := [a, b], [0, 0, 1];
    PickedInRange(md, hits);
    var picked := Picked(md, hits).value;
    assert picked[0] == md[Resolve(2, hits[0])] == a;
    assert picked[1] == md[Resolve(2, hits[1])] == a;
    assert picked[2] == md[Resolve(2, hits[2])] == b;
    AggregateTwoOne(picked, a, b);
    assert RouteQuery(md, hits) == Ok(Aggregate(picked));
  }

  // ---------------------------------------------------------------------------
  // FAISS padding
  // ---------------------------------------------------------------------------

  /** Entries that are all the same give that entry's source every time,
      its domain as the top domain, and their number as the score. */
  lemma AggregateOfCopies(picked: seq<RouterMeta>, m: RouterMeta)
    requires |picked| > 0 && forall j :: 0 <= j < |picked| ==> picked[j] == m
    ensures var r := Aggregate(picked);
      && (forall j :: 0 <= j < |r.sources| ==> r.sources[j] == SourceLabel(m))
      && r.domain == m.domain && r.score == |picked|
  {
    TallyOfCopies(Domains(picked), m.domain);
  }

  /** With fewer rows than requested neighbours, FAISS pads the result with
      `-1`. The guard lets `-1` through and Python reads the last entry, so a
      one-chunk memory asked for five neighbours reports that chunk five
      times with a score of 5. */
  lemma PaddedHitsRepeatLast(m: RouterMeta)
    ensures var r := RouteQuery([m], [0, -1, -1, -1, -1]);
      && r.Ok?
      && |r.value.sources| == 5 && (forall j :: 0 <= j < 5 ==> r.value.sources[j] == SourceLabel(m))
      && r.value.domain == m.domain && r.value.score == 5
  {
    var md, hits := [m], [0, -1, -1, -1, -1];
    PickedInRange(md, hits);
    var picked := Picked(md, hits).value;
    AggregateOfCopies(picked, m);
  }

  /** The padded search of `PaddedHitsRepeatLast` with the padding ignored:
      the chunk is reported once with a score of 1. */
  lemma PaddedHitsChecked(m: RouterMeta)
    ensures var r := RouteQueryChecked([m], [0, -1, -1, -1, -1]);
      |r.sources| == 1 && r.sources[0] == SourceLabel(m) && r.domain == m.domain && r.score == 1
  {
    var hits := [0, -1, -1, -1, -1];
    assert RealHits(1, hits) == [0];
    var picked := seq(1, j requires 0 <= j < 1 => [m][RealHits(1, hits)[j]]);
    assert picked == [m];
    AggregateOfCopies(picked, m);
  }

  /** The search result with FAISS's `-1` padding and out-of-range rows
      removed: the rows that name an entry. */
  function RealHits(n: nat, hits: seq<int>): seq<int> {
    Filter((idx: int) => 0 <= idx < n, hits)
  }

  /** The loop with the lower bound checked too: only rows that name an
      entry are read, so it never raises and never reads an entry the search
      did not return. */
  function RouteQueryChecked(metadata: seq<RouterMeta>, hits: seq<int>): (r: Routed)
    ensures var rows := RealHits(|metadata|, hits);
      && |r.sources| == |rows|
      && forall j :: 0 <= j < |rows| ==> 0 <= rows[j] < |metadata| && r.sources[j] == SourceLabel(metadata[rows[j]])
  {
    var rows := RealHits(|metadata|, hits);
    Aggregate(seq(|rows|, j requires 0 <= j < |rows| => metadata[rows[j]]))
  }

  /** When the search returns no padding, the checked loop and the loop as
      written agree. */
  lemma CheckedAgrees(metadata: seq<RouterMeta>, hits: seq<int>)
    requires forall k :: 0 <= k < |hits| ==> hits[k] >= 0
    ensures RouteQuery(metadata, hits) == Ok(RouteQueryChecked(metadata, hits))
  {
    var n := |metadata|;
    KeptIsReal(n, hits);
    var p := Picked(metadata, hits);
    assert p.Ok?;
    var rows := RealHits(n, hits);
    assert p.value == seq(|rows|, j requires 0 <= j < |rows| => metadata[rows[j]]);
  }

  lemma {:induction false} KeptIsReal(n: nat, hits: seq<int>)
    requires forall k :: 0 <= k < |hits| ==> hits[k] >= 0
    ensures Kept(n, hits) == RealHits(n, hits)
  {
    if |hits| > 0 {
      assert forall k :: 0 <= k < |hits| - 1 ==> hits[1..][k] == hits[k + 1];
      KeptIsReal(n, hits[1..]);
    }
  }
}
