/**
  The semantics every coder of a bitmap index meets, stated on rows.

  A coder holds one entry per row: the bin key appended for that row, or
  nothing for a skipped row. `encode(key, n, skip)` appends `n` rows holding
  the key and then `skip` rows holding nothing; `decode(op, key)` is the bit
  vector with a one at every row whose key `v` satisfies `op(v, key)`.
  Skipped rows therefore show up as zeros under every operator.
 */
module Coder {
  import opened Wrappers
  import BitVector

  /** Bin keys after the order-preserving transform: unsigned integers. */
  type Key = nat

  /** The relational operators a lookup may ask for. */
  datatype RelOp = Equal | NotEqual | Less | LessEqual | Greater | GreaterEqual

  /** `op(v, x)` on keys. */
  predicate Holds(op: RelOp, v: Key, x: Key) {
    match op
    case Equal => v == x
    case NotEqual => v != x
    case Less => v < x
    case LessEqual => v <= x
    case Greater => v > x
    case GreaterEqual => v >= x
  }

  /** One entry per row; `None` marks a skipped row. */
  type Rows = seq<Option<Key>>

  /** Whether a row's entry satisfies `op` against `x`. */
  predicate Matches(entry: Option<Key>, op: RelOp, x: Key) {
    entry.Some? && Holds(op, entry.value, x)
  }

  /** `encode(key, n, skip)`. */
  function Encode(rows: Rows, k: Key, n: nat, skip: nat): (r: Rows)
    ensures |r| == |rows| + n + skip && r[..|rows|] == rows
    ensures forall i :: |rows| <= i < |rows| + n ==> r[i] == Some(k)
    ensures forall i :: |rows| + n <= i < |r| ==> r[i] == None
  {
    rows + seq(n, _ => Some(k)) + seq(skip, _ => None)
  }

  /** `decode(op, key)`. */
  function Decode(rows: Rows, op: RelOp, x: Key): (r: BitVector.Bits)
    ensures |r| == |rows|
    ensures forall i :: 0 <= i < |rows| ==> r[i] == Matches(rows[i], op, x)
  {
    seq(|rows|, i requires 0 <= i < |rows| => Matches(rows[i], op, x))
  }

  /** Encoding leaves the answers for earlier rows unchanged: decoding after
      an encode extends the earlier answer by the new rows only. */
  lemma EncodeExtends(rows: Rows, k: Key, n: nat, skip: nat, op: RelOp, x: Key)
    ensures Decode(Encode(rows, k, n, skip), op, x)[..|rows|] == Decode(rows, op, x)
  {
    var r := Encode(rows, k, n, skip);
    forall i | 0 <= i < |rows|
      ensures r[i] == rows[i]
    {
      assert r[i] == r[..|rows|][i];
    }
  }

  /** The new rows of `encode(k, n, skip)` match `x` under `op` exactly when
      `op(k, x)` holds and they are not skipped rows. */
  lemma EncodeNewRows(rows: Rows, k: Key, n: nat, skip: nat, op: RelOp, x: Key)
    ensures forall i :: |rows| <= i < |rows| + n ==> (Decode(Encode(rows, k, n, skip), op, x)[i] <==> Holds(op, k, x))
    ensures forall i :: |rows| + n <= i < |rows| + n + skip ==> !Decode(Encode(rows, k, n, skip), op, x)[i]
  {
  }

  /** Equal and not-equal split the rows that hold a key: no row is in both,
      and a row is in one of them exactly when it is not skipped. */
  lemma EqualNotEqualPartition(rows: Rows, x: Key)
    ensures forall i :: 0 <= i < |rows| ==> !(Decode(rows, Equal, x)[i] && Decode(rows, NotEqual, x)[i])
    ensures forall i :: 0 <= i < |rows| ==> (Decode(rows, Equal, x)[i] || Decode(rows, NotEqual, x)[i] <==> rows[i].Some?)
  {
  }

  /** The ordering operators agree with each other: less-or-equal is less or
      equal, greater-or-equal is its complement on present rows, and less,
      equal and greater split the present rows three ways. */
  lemma OrderingConsistent(rows: Rows, x: Key)
    ensures Decode(rows, LessEqual, x) == BitVector.Or(Decode(rows, Less, x), Decode(rows, Equal, x))
    ensures Decode(rows, GreaterEqual, x) == BitVector.Or(Decode(rows, Greater, x), Decode(rows, Equal, x))
    ensures forall i :: 0 <= i < |rows| && rows[i].Some? ==>
      (Decode(rows, Less, x)[i] <==> !Decode(rows, GreaterEqual, x)[i])
  {
  }

  /** Concatenating row sequences concatenates every answer. */
  lemma DecodeConcat(a: Rows, b: Rows, op: RelOp, x: Key)
    ensures Decode(a + b, op, x) == Decode(a, op, x) + Decode(b, op, x)
  {
  }
}
