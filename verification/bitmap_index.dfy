/**
  The bitmap index façade: values are binned to keys, appended to a coder
  and looked up through it. The coder is given by the row semantics of
  module `Coder`, which every coder meets; the binner and the
  order-preserving transform together are the parameter `bin`.
 */
module BitmapIndex {
  import opened Wrappers
  import BitVector
  import Coder

  /** An index owns one coder, here its rows. */
  datatype Index = Index(rows: Coder.Rows)

  /** The configuration the source rejects at compile time (a
      `static_assert`), modelled as a construction failure. */
  datatype ConfigError = BooleanNeedsSingletonCoder

  /** Construction: a boolean-valued index is only allowed with a singleton
      coder; any other pairing yields an empty index. */
  function Make(valueIsBool: bool, singletonCoder: bool): (r: Result<Index, ConfigError>)
    ensures r.Success? <==> !valueIsBool || singletonCoder
    ensures r.Failure? ==> r.error == BooleanNeedsSingletonCoder
    ensures r.Success? ==> Size(r.value) == 0
  {
    if valueIsBool && !singletonCoder then Failure(BooleanNeedsSingletonCoder)
    else Success(Index([]))
  }

  /** `size()`: the coder's row count, which is the length of every
      lookup's answer. */
  function Size(idx: Index): (r: nat)
    ensures forall op, k :: |Coder.Decode(idx.rows, op, k)| == r
  {
    |idx.rows|
  }

  /** `empty()`. */
  function IsEmpty(idx: Index): (r: bool)
    ensures r <==> idx == Index([])
  {
    Size(idx) == 0
  }

  /** `lookup(op, x)`: one bit per row, set where the row's key stands in
      relation `op` to the key of `x`. */
  function Lookup<T>(idx: Index, bin: T -> Coder.Key, op: Coder.RelOp, x: T): (r: BitVector.Bits)
    ensures |r| == Size(idx)
    ensures forall i :: 0 <= i < Size(idx) ==>
      (r[i] <==> idx.rows[i].Some? && Coder.Holds(op, idx.rows[i].value, bin(x)))
  {
    Coder.Decode(idx.rows, op, bin(x))
  }

  /** `append(x, n, skip)`: `n` rows holding `x`, then `skip` rows that no
      lookup ever reports. Every later lookup extends the earlier answer. */
  function Append<T>(idx: Index, bin: T -> Coder.Key, x: T, n: nat, skip: nat): (r: Index)
    ensures Size(r) == Size(idx) + n + skip
    ensures forall op, k ::
      Coder.Decode(r.rows, op, k)
      == Coder.Decode(idx.rows, op, k) + BitVector.Filled(n, Coder.Holds(op, bin(x), k)) + BitVector.Filled(skip, false)
  {
    var r := Index(Coder.Encode(idx.rows, bin(x), n, skip));
    forall op, k
      ensures Coder.Decode(r.rows, op, k)
        == Coder.Decode(idx.rows, op, k) + BitVector.Filled(n, Coder.Holds(op, bin(x), k)) + BitVector.Filled(skip, false)
    {
      Coder.EncodeExtends(idx.rows, bin(x), n, skip, op, k);
      Coder.EncodeNewRows(idx.rows, bin(x), n, skip, op, k);
    }
    r
  }

  /** `push_back(x, skip)`: one row holding `x`, then `skip` skipped rows. */
  function PushBack<T>(idx: Index, bin: T -> Coder.Key, x: T, skip: nat): (r: Index)
    ensures Size(r) == Size(idx) + 1 + skip
    ensures forall op, k ::
      Coder.Decode(r.rows, op, k)
      == Coder.Decode(idx.rows, op, k) + [Coder.Holds(op, bin(x), k)] + BitVector.Filled(skip, false)
  {
    var r := Index(Coder.Encode(idx.rows, bin(x), 1, skip));
    forall op, k
      ensures Coder.Decode(r.rows, op, k)
        == Coder.Decode(idx.rows, op, k) + [Coder.Holds(op, bin(x), k)] + BitVector.Filled(skip, false)
    {
      Coder.EncodeExtends(idx.rows, bin(x), 1, skip, op, k);
      Coder.EncodeNewRows(idx.rows, bin(x), 1, skip, op, k);
    }
    r
  }

  /** `push_back(x, skip)` is `append(x, 1, skip)`. */
  lemma PushBackIsAppend<T>(idx: Index, bin: T -> Coder.Key, x: T, skip: nat)
    ensures PushBack(idx, bin, x, skip) == Append(idx, bin, x, 1, skip)
  {
    assert BitVector.Filled(1, true) == [true];
  }

  /** `append(other)`: the other index's rows after this index's rows. */
  function AppendIndex(idx: Index, other: Index): (r: Index)
    ensures Size(r) == Size(idx) + Size(other)
    ensures forall op, k :: Coder.Decode(r.rows, op, k) == Coder.Decode(idx.rows, op, k) + Coder.Decode(other.rows, op, k)
  {
    var r := Index(idx.rows + other.rows);
    forall op, k
      ensures Coder.Decode(r.rows, op, k) == Coder.Decode(idx.rows, op, k) + Coder.Decode(other.rows, op, k)
    {
      Coder.DecodeConcat(idx.rows, other.rows, op, k);
    }
    r
  }

  /** `operator==`: the coders compared. Equal indexes have the same size
      and answer every lookup alike. */
  function Equal(a: Index, b: Index): (r: bool)
    ensures r ==> Size(a) == Size(b)
    ensures r ==> forall op, k :: Coder.Decode(a.rows, op, k) == Coder.Decode(b.rows, op, k)
  {
    a.rows == b.rows
  }

  /** Two indexes are equal exactly when they have the same size and every
      equality lookup answers alike. */
  lemma EqualIsObservational(a: Index, b: Index)
    ensures Equal(a, b) <==>
      Size(a) == Size(b) && forall k :: Coder.Decode(a.rows, Coder.Equal, k) == Coder.Decode(b.rows, Coder.Equal, k)
  {
    if Size(a) == Size(b) && forall k :: Coder.Decode(a.rows, Coder.Equal, k) == Coder.Decode(b.rows, Coder.Equal, k) {
      forall i | 0 <= i < Size(a)
        ensures a.rows[i] == b.rows[i]
      {
        RowFromAnswers(a.rows, b.rows, i);
      }
    }
  }

  /** A row's entry is pinned down by the equality answers for the keys the
      two rows hold. */
  lemma RowFromAnswers(a: Coder.Rows, b: Coder.Rows, i: nat)
    requires i < |a| == |b|
    requires a[i].Some? ==> Coder.Decode(a, Coder.Equal, a[i].value) == Coder.Decode(b, Coder.Equal, a[i].value)
    requires b[i].Some? ==> Coder.Decode(b, Coder.Equal, b[i].value) == Coder.Decode(a, Coder.Equal, b[i].value)
    ensures a[i] == b[i]
  {
    if a[i].Some? {
      assert Coder.Decode(a, Coder.Equal, a[i].value)[i];
    }
  }

  /** Round trip: after `push_back(x)` into an index where no row holds the
      key of `x`, the equality lookup of `x` reports the new row and no
      other. */
  lemma PushBackRoundTrip<T>(idx: Index, bin: T -> Coder.Key, x: T)
    requires forall i :: 0 <= i < Size(idx) ==> idx.rows[i] != Some(bin(x))
    ensures var r := Lookup(PushBack(idx, bin, x, 0), bin, Coder.Equal, x);
      r[Size(idx)] && forall i :: 0 <= i < |r| && i != Size(idx) ==> !r[i]
  {
    var r := Lookup(PushBack(idx, bin, x, 0), bin, Coder.Equal, x);
    assert r == Lookup(idx, bin, Coder.Equal, x) + [true] + BitVector.Filled(0, false);
  }

  /** `append(x, 2, 1)`: two new rows match `x` under equality, and the
      skipped third row matches no value under any operator. */
  lemma SkipScenario<T>(idx: Index, bin: T -> Coder.Key, x: T)
    ensures var n := Size(idx);
      && Lookup(Append(idx, bin, x, 2, 1), bin, Coder.Equal, x)[n..] == [true, true, false]
      && forall op, k :: !Coder.Decode(Append(idx, bin, x, 2, 1).rows, op, k)[n + 2]
  {
    var n := Size(idx);
    var r := Lookup(Append(idx, bin, x, 2, 1), bin, Coder.Equal, x);
    assert r == Lookup(idx, bin, Coder.Equal, x) + BitVector.Filled(2, true) + BitVector.Filled(1, false);
    assert r[n..] == [true, true, false];
  }
}
