/** The part of FAISS's `IndexFlatL2` the programs rely on: an index is the
    list of its rows, `add` appends a batch of rows of the index dimension and
    raises on a batch of any other width. Distances and search are not modelled;
    a search is an oracle that returns row indices. */
module Faiss {
  import opened Wrappers

  /** `EMBEDDING_DIM` in backend/core_memory.py and backend/meta_router.py. */
  const EMBEDDING_DIM: nat := 384

  /** One embedding row. */
  type Vector = seq<real>

  datatype FlatIndex = FlatIndex(rows: seq<Vector>)

  /** `add` rejects a batch whose width is not the index dimension. */
  datatype AddError = WrongDimension

  /** Every row of the batch has the index dimension. */
  predicate Fits(batch: seq<Vector>) {
    forall i :: 0 <= i < |batch| ==> |batch[i]| == EMBEDDING_DIM
  }

  /** `index.add(batch)`: the rows are appended in order, or nothing changes and
      the call raises. */
  function Add(ix: FlatIndex, batch: seq<Vector>): (r: Result<FlatIndex, AddError>)
    ensures r.Ok? <==> Fits(batch)
    ensures r.Ok? ==> r.value.rows == ix.rows + batch
  {
    if Fits(batch) then Ok(FlatIndex(ix.rows + batch)) else Err(WrongDimension)
  }
}
