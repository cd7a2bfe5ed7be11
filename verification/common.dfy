/** Types shared by every part of the model. */
module Common {

  /** Python's `None` / value, as returned by the finders, readers and generators. */
  datatype Option<+T> = None | Some(value: T)

  /** A call that returns a value, or lets an exception escape to its caller. */
  datatype Outcome<T> = Returned(value: T) | Raised

  /** An embedding: one row of the float matrix (floats are modelled as reals). */
  type Vector = seq<real>

  /** `embedder.embed(texts)`: a matrix of embeddings, or None when it raises. */
  type Embedder = seq<string> -> Option<seq<Vector>>

  /**
   * A per-file metadata record as stored in metadata.json and in Chroma.
   * JSON values are abstracted to their text: `file_size` is its decimal rendering.
   */
  type Metadata = map<string, string>

  /** `d.get(key, default)` on a metadata dict. */
  function Get(m: Metadata, key: string, default: string): string
  {
    if key in m then m[key] else default
  }

  /** A sequence is its own full slice: what a loop over all of it has covered at the end. */
  lemma WholeSlice<T>(s: seq<T>)
    ensures s[..|s|] == s
  {
  }

  /** Concatenation is associative. */
  lemma ConcatAssociates<T>(a: seq<T>, b: seq<T>, c: seq<T>)
    ensures a + (b + c) == a + b + c
  {
  }
}
