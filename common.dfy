/** Shared value types: the optional value the Python code expresses with None,
    and raw file contents as sequences of bytes. */
module Common {

  datatype Option<+T> = None | Some(value: T)

  /** A byte as Python's `bytes` holds it. */
  type Byte = b: int | 0 <= b < 256

  type Bytes = seq<Byte>

  /** The bytes a file holds after `chunks` were written to it in order. */
  function Concat(chunks: seq<Bytes>): (r: Bytes)
    ensures |r| == TotalLength(chunks)
  {
    if |chunks| == 0 then [] else Concat(chunks[..|chunks| - 1]) + chunks[|chunks| - 1]
  }

  /** Sum of the lengths of `chunks`: what a byte counter that adds `len(chunk)` reaches. */
  function TotalLength(chunks: seq<Bytes>): nat
  {
    if |chunks| == 0 then 0 else TotalLength(chunks[..|chunks| - 1]) + |chunks[|chunks| - 1]|
  }

  /** Appending one chunk appends its bytes. */
  lemma ConcatSnoc(chunks: seq<Bytes>, c: Bytes)
    ensures Concat(chunks + [c]) == Concat(chunks) + c
    ensures TotalLength(chunks + [c]) == TotalLength(chunks) + |c|
  {
    assert (chunks + [c])[..|chunks|] == chunks;
  }
}
