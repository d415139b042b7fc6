/** The loop both routers run over the row indices a FAISS search returns:
    an index at or past the end of the metadata is skipped, any other is read
    with Python indexing, so a negative index counts from the end and one
    below `-len(metadata)` raises. */
module Hits {
  import opened Wrappers
  import opened Py

  /** `metadata[idx]` with `idx < -len(metadata)` raises. */
  datatype HitError = IndexError(idx: int)

  /** The loop's guard: hits at or past the end of the metadata are skipped. */
  function Kept(n: nat, hits: seq<int>): seq<int> {
    Filter((idx: int) => idx < n, hits)
  }

  /** The entry Python indexing reads for a non-skipped `idx`: a negative
      index counts from the end. */
  function Resolve(n: nat, idx: int): int {
    if idx < 0 then n + idx else idx
  }

  /** The metadata entries the loop reads, in hit order; a hit below
      `-len(metadata)` raises. */
  function Picked<T>(metadata: seq<T>, hits: seq<int>): (r: Result<seq<T>, HitError>)
    ensures r.Err? <==> exists k :: 0 <= k < |hits| && hits[k] < -|metadata|
    ensures r.Ok? ==>
      var kept := Kept(|metadata|, hits);
      && |r.value| == |kept|
      && (forall j :: 0 <= j < |kept| ==> 0 <= Resolve(|metadata|, kept[j]) < |metadata|)
      && (forall j :: 0 <= j < |kept| ==> r.value[j] == metadata[Resolve(|metadata|, kept[j])])
  {
    if |hits| == 0 then Ok([])
    else
      assert forall k :: 0 < k < |hits| ==> hits[k] == hits[1..][k - 1];
      if hits[0] >= |metadata| then Picked(metadata, hits[1..])
      else
        match Index(metadata, hits[0])
        case None => Err(IndexError(hits[0]))
        case Some(m) =>
          match Picked(metadata, hits[1..])
          case Err(e) => Err(e)
          case Ok(ms) => Ok([m] + ms)
  }

  /** When every hit names an entry, counting from either end, each is read. */
  lemma PickedInRange<T>(metadata: seq<T>, hits: seq<int>)
    requires forall k :: 0 <= k < |hits| ==> -|metadata| <= hits[k] < |metadata|
    ensures Picked(metadata, hits).Ok?
    ensures |Picked(metadata, hits).value| == |hits|
    ensures forall j :: 0 <= j < |hits| ==> Picked(metadata, hits).value[j] == metadata[Resolve(|metadata|, hits[j])]
  {
    FilterAll((idx: int) => idx < |metadata|, hits);
  }
}
