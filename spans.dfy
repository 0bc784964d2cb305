/** The tensor builders the forward pass uses on one batch row. */
module Spans {
  import opened Features

  /** `n` copies of `x`: `tf.ones`, `tf.zeros`, `tf.zeros_like` and `tf.ones_like(...) * id` on one row. */
  function Fill(n: nat, x: int): (r: seq<int>)
    ensures |r| == n
    ensures forall i :: 0 <= i < n ==> r[i] == x
  {
    seq(n, _ => x)
  }

  /** `tf.concat([edge, body, edge], axis=1)` with a length-1 `edge`. */
  function Bracket<X>(edge: X, body: seq<X>): (r: seq<X>)
    ensures |r| == |body| + 2
    ensures r[0] == edge && r[|body| + 1] == edge
    ensures r[1..|body| + 1] == body
    ensures forall j :: 0 <= j < |body| ==> r[j + 1] == body[j]
  {
    [edge] + body + [edge]
  }

  /** `tf.gather(table, ids)`: the embedding row of every token id, in order. */
  function Gather<T>(table: int -> T, ids: seq<int>): (r: seq<T>)
    ensures |r| == |ids|
    ensures forall i :: 0 <= i < |ids| ==> r[i] == table(ids[i])
  {
    seq(|ids|, i requires 0 <= i < |ids| => table(ids[i]))
  }

  /**
   * The modality's `Dense` layer on a row: it acts on the feature axis only,
   * so every position is projected on its own and the order is kept.
   */
  function Project<V, T>(dense: (Modal, V) -> T, m: Modal, xs: seq<V>): (r: seq<T>)
    ensures |r| == |xs|
    ensures forall i :: 0 <= i < |xs| ==> r[i] == dense(m, xs[i])
  {
    seq(|xs|, i requires 0 <= i < |xs| => dense(m, xs[i]))
  }
}
