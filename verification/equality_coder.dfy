/**
  The equality coder: one bit vector per distinct key, created when the key
  is first encoded. Row `p` of the column for key `k` is set exactly when row
  `p` holds `k`. Equality lookups read one column; not-equal lookups join the
  other columns, so skipped rows stay zero; ordering lookups are refused
  because the encoding carries no order.

  `Represents(c, rows)` ties a coder to the row semantics of module `Coder`,
  and the lemmas below show that every operation keeps that tie.
 */
module EqualityCoder {
  import opened Wrappers
  import BitVector
  import Coder

  datatype Column = Column(key: Coder.Key, bits: BitVector.Bits)

  datatype EqCoder = EqCoder(size: nat, columns: seq<Column>)

  datatype CoderError = UnsupportedOperator

  /** The position of the column for `k`, if there is one. */
  function ColumnIndex(cols: seq<Column>, k: Coder.Key): (r: Option<nat>)
    ensures r.Some? ==> r.value < |cols| && cols[r.value].key == k
    ensures r.None? ==> forall i :: 0 <= i < |cols| ==> cols[i].key != k
  {
    if |cols| == 0 then None
    else if cols[0].key == k then Some(0)
    else
      match ColumnIndex(cols[1..], k)
      case None => None
      case Some(i) => Some(i + 1)
  }

  ghost predicate DistinctKeys(cols: seq<Column>) {
    forall i, j :: 0 <= i < j < |cols| ==> cols[i].key != cols[j].key
  }

  /** Every column holds one bit per row. */
  ghost predicate WellSized(c: EqCoder) {
    forall i :: 0 <= i < |c.columns| ==> |c.columns[i].bits| == c.size
  }

  /** `c` encodes `rows`: one column per key, each column the equality answer
      for its key, and a column for every key some row holds. */
  ghost predicate Represents(c: EqCoder, rows: Coder.Rows) {
    && c.size == |rows|
    && DistinctKeys(c.columns)
    && (forall i :: 0 <= i < |c.columns| ==> c.columns[i].bits == Coder.Decode(rows, Coder.Equal, c.columns[i].key))
    && (forall p :: 0 <= p < |rows| && rows[p].Some? ==> ColumnIndex(c.columns, rows[p].value).Some?)
  }

  lemma RepresentsWellSized(c: EqCoder, rows: Coder.Rows)
    requires Represents(c, rows)
    ensures WellSized(c)
  {
  }

  /** A freshly constructed coder. */
  function Empty(): (c: EqCoder)
    ensures Represents(c, [])
  {
    EqCoder(0, [])
  }

  /** `size()`: the row count. */
  function Size(c: EqCoder): (r: nat)
    ensures forall rows :: Represents(c, rows) ==> r == |rows|
  {
    c.size
  }

  // ---------------------------------------------------------------------------
  // encode
  // ---------------------------------------------------------------------------

  /** Every existing column grows by the new rows: ones for the encoded key,
      zeros otherwise, and zeros for the skipped rows. */
  function ExtendColumns(cols: seq<Column>, k: Coder.Key, n: nat, skip: nat): (r: seq<Column>)
    ensures |r| == |cols|
    ensures forall i :: 0 <= i < |cols| ==> r[i].key == cols[i].key
    ensures forall i :: 0 <= i < |cols| ==>
      r[i].bits == cols[i].bits + BitVector.Filled(n, cols[i].key == k) + BitVector.Filled(skip, false)
  {
    seq(|cols|, i requires 0 <= i < |cols| =>
      Column(cols[i].key, cols[i].bits + BitVector.Filled(n, cols[i].key == k) + BitVector.Filled(skip, false)))
  }

  /** `encode(k, n, skip)`: a key seen for the first time gets a new column,
      zero-padded to the current row count. */
  function Encode(c: EqCoder, k: Coder.Key, n: nat, skip: nat): (r: EqCoder)
    ensures r.size == c.size + n + skip
    ensures ColumnIndex(r.columns, k).Some?
  {
    var cols := ExtendColumns(c.columns, k, n, skip);
    match ColumnIndex(c.columns, k)
    case Some(i) =>
      assert cols[i].key == k;
      EqCoder(c.size + n + skip, cols)
    case None =>
      var added := Column(k, BitVector.Filled(c.size, false) + BitVector.Filled(n, true) + BitVector.Filled(skip, false));
      var all := cols + [added];
      assert all[|cols|].key == k;
      EqCoder(c.size + n + skip, all)
  }

  /** The equality answer after an encode, split into old and new rows. */
  lemma DecodeEncoded(rows: Coder.Rows, k: Coder.Key, n: nat, skip: nat, x: Coder.Key)
    ensures Coder.Decode(Coder.Encode(rows, k, n, skip), Coder.Equal, x)
         == Coder.Decode(rows, Coder.Equal, x) + BitVector.Filled(n, k == x) + BitVector.Filled(skip, false)
  {
    var a := Coder.Decode(Coder.Encode(rows, k, n, skip), Coder.Equal, x);
    var b := Coder.Decode(rows, Coder.Equal, x) + BitVector.Filled(n, k == x) + BitVector.Filled(skip, false);
    var e := Coder.Encode(rows, k, n, skip);
    forall p | 0 <= p < |a|
      ensures a[p] == b[p]
    {
      if p < |rows| {
        assert e[p] == e[..|rows|][p];
      }
    }
  }

  /** No row holds a key without a column. */
  lemma AbsentKeyAnswersZero(c: EqCoder, rows: Coder.Rows, k: Coder.Key)
    requires Represents(c, rows) && ColumnIndex(c.columns, k).None?
    ensures Coder.Decode(rows, Coder.Equal, k) == BitVector.Filled(|rows|, false)
  {
    forall p | 0 <= p < |rows|
      ensures !Coder.Decode(rows, Coder.Equal, k)[p]
    {
      if rows[p] == Some(k) {
        assert ColumnIndex(c.columns, rows[p].value).Some?;
      }
    }
  }

  /** `encode` keeps the coder in step with the rows it stands for. */
  lemma EncodeRefines(c: EqCoder, rows: Coder.Rows, k: Coder.Key, n: nat, skip: nat)
    requires Represents(c, rows)
    ensures Represents(Encode(c, k, n, skip), Coder.Encode(rows, k, n, skip))
  {
    var rows' := Coder.Encode(rows, k, n, skip);
    var r := Encode(c, k, n, skip);
    var cols := ExtendColumns(c.columns, k, n, skip);
    forall i | 0 <= i < |cols|
      ensures cols[i].bits == Coder.Decode(rows', Coder.Equal, cols[i].key)
    {
      DecodeEncoded(rows, k, n, skip, cols[i].key);
    }
    if ColumnIndex(c.columns, k).None? {
      AbsentKeyAnswersZero(c, rows, k);
      DecodeEncoded(rows, k, n, skip, k);
      assert r.columns == cols + [r.columns[|cols|]];
    }
    forall p | 0 <= p < |rows'| && rows'[p].Some?
      ensures ColumnIndex(r.columns, rows'[p].value).Some?
    {
      if p < |rows| {
        assert rows'[p] == rows'[..|rows|][p];
        var i := ColumnIndex(c.columns, rows[p].value).value;
        assert r.columns[i].key == rows[p].value;
      }
    }
  }

  // ---------------------------------------------------------------------------
  // decode
  // ---------------------------------------------------------------------------

  /** The join of every column whose key differs from `k`. */
  function JoinOthers(cols: seq<Column>, k: Coder.Key, size: nat): (r: BitVector.Bits)
    requires forall i :: 0 <= i < |cols| ==> |cols[i].bits| == size
    ensures |r| == size
    ensures forall p :: 0 <= p < size ==>
      (r[p] <==> exists i :: 0 <= i < |cols| && cols[i].key != k && cols[i].bits[p])
  {
    if |cols| == 0 then BitVector.Filled(size, false)
    else
      var front := cols[..|cols| - 1];
      var last := cols[|cols| - 1];
      var rest := JoinOthers(front, k, size);
      if last.key == k then rest else BitVector.Or(rest, last.bits)
  }

  /** `decode(op, k)`: only equality and inequality are answered. */
  function Decode(c: EqCoder, op: Coder.RelOp, k: Coder.Key): (r: Result<BitVector.Bits, CoderError>)
    requires WellSized(c)
    ensures r.Success? <==> op == Coder.Equal || op == Coder.NotEqual
    ensures r.Failure? ==> r.error == UnsupportedOperator
    ensures r.Success? ==> |r.value| == c.size
  {
    if op == Coder.Equal then
      match ColumnIndex(c.columns, k)
      case Some(i) => Success(c.columns[i].bits)
      case None => Success(BitVector.Filled(c.size, false))
    else if op == Coder.NotEqual then
      Success(JoinOthers(c.columns, k, c.size))
    else
      Failure(UnsupportedOperator)
  }

  /** Every answer the equality coder gives is the row semantics' answer;
      in particular skipped rows are zero under both equality and
      inequality. */
  lemma DecodeRefines(c: EqCoder, rows: Coder.Rows, op: Coder.RelOp, k: Coder.Key)
    requires Represents(c, rows)
    ensures WellSized(c)
    ensures Decode(c, op, k).Success? ==> Decode(c, op, k).value == Coder.Decode(rows, op, k)
  {
    var want := Coder.Decode(rows, op, k);
    if op == Coder.Equal {
      if ColumnIndex(c.columns, k).None? {
        AbsentKeyAnswersZero(c, rows, k);
      }
    } else if op == Coder.NotEqual {
      var got := JoinOthers(c.columns, k, c.size);
      forall p | 0 <= p < |rows|
        ensures got[p] == want[p]
      {
        if rows[p].Some? && rows[p].value != k {
          var i := ColumnIndex(c.columns, rows[p].value).value;
          assert c.columns[i].bits[p];
        }
      }
    }
  }

  // ---------------------------------------------------------------------------
  // append(other)
  // ---------------------------------------------------------------------------

  /** This coder's columns, each followed by the other coder's column for the
      same key, or by zeros when the other coder never saw the key. */
  function JoinKnown(cols: seq<Column>, other: EqCoder): (r: seq<Column>)
    ensures |r| == |cols|
    ensures forall i :: 0 <= i < |cols| ==> r[i].key == cols[i].key
    ensures forall i :: 0 <= i < |cols| ==> r[i].bits == cols[i].bits + OtherBits(other, cols[i].key)
  {
    seq(|cols|, i requires 0 <= i < |cols| =>
      Column(cols[i].key, cols[i].bits + OtherBits(other, cols[i].key)))
  }

  /** The other coder's column for `k`, or zeros when it has none. */
  function OtherBits(other: EqCoder, k: Coder.Key): BitVector.Bits {
    match ColumnIndex(other.columns, k)
    case Some(j) => other.columns[j].bits
    case None => BitVector.Filled(other.size, false)
  }

  /** The other coder's columns for keys this coder never saw, each preceded
      by zeros for this coder's rows. */
  function JoinFresh(ocols: seq<Column>, cols: seq<Column>, size: nat): (r: seq<Column>)
    ensures |r| <= |ocols|
  {
    if |ocols| == 0 then []
    else
      var rest := JoinFresh(ocols[1..], cols, size);
      if ColumnIndex(cols, ocols[0].key).Some? then rest
      else [Column(ocols[0].key, BitVector.Filled(size, false) + ocols[0].bits)] + rest
  }

  /** A column `JoinFresh` keeps: its key is missing from `cols`, and its bits
      are the other coder's column for that key, padded in front. */
  ghost predicate PaddedFrom(col: Column, ocols: seq<Column>, cols: seq<Column>, size: nat) {
    && ColumnIndex(cols, col.key).None?
    && ColumnIndex(ocols, col.key).Some?
    && col.bits == BitVector.Filled(size, false) + ocols[ColumnIndex(ocols, col.key).value].bits
  }

  lemma TailDistinct(ocols: seq<Column>)
    requires DistinctKeys(ocols) && |ocols| > 0
    ensures DistinctKeys(ocols[1..])
  {
    var tail := ocols[1..];
    forall a, b | 0 <= a < b < |tail|
      ensures tail[a].key != tail[b].key
    {
      assert tail[a] == ocols[a + 1] && tail[b] == ocols[b + 1];
    }
  }

  lemma PaddedWiden(col: Column, ocols: seq<Column>, cols: seq<Column>, size: nat)
    requires DistinctKeys(ocols) && |ocols| > 0
    requires PaddedFrom(col, ocols[1..], cols, size)
    ensures PaddedFrom(col, ocols, cols, size)
  {
    var j := ColumnIndex(ocols[1..], col.key).value;
    assert ocols[j + 1] == ocols[1..][j];
    ColumnIndexAt(ocols, j + 1);
  }

  lemma {:induction false} JoinFreshKeeps(ocols: seq<Column>, cols: seq<Column>, size: nat)
    requires DistinctKeys(ocols)
    ensures forall i :: 0 <= i < |JoinFresh(ocols, cols, size)| ==>
      PaddedFrom(JoinFresh(ocols, cols, size)[i], ocols, cols, size)
  {
    if |ocols| > 0 {
      TailDistinct(ocols);
      JoinFreshKeeps(ocols[1..], cols, size);
      var rest := JoinFresh(ocols[1..], cols, size);
      var r := JoinFresh(ocols, cols, size);
      forall i | 0 <= i < |rest|
        ensures PaddedFrom(rest[i], ocols, cols, size)
      {
        PaddedWiden(rest[i], ocols, cols, size);
      }
      if ColumnIndex(cols, ocols[0].key).None? {
        ColumnIndexAt(ocols, 0);
        assert forall i :: 1 <= i < |r| ==> r[i] == rest[i - 1];
      }
    }
  }

  /** In a sequence with distinct keys, a column's key leads back to it. */
  lemma ColumnIndexAt(cols: seq<Column>, i: nat)
    requires DistinctKeys(cols) && i < |cols|
    ensures ColumnIndex(cols, cols[i].key) == Some(i)
  {
  }

  /** `JoinFresh` misses no key that `cols` lacks. */
  lemma {:induction false} JoinFreshCovers(ocols: seq<Column>, cols: seq<Column>, size: nat, j: nat)
    requires j < |ocols| && ColumnIndex(cols, ocols[j].key).None?
    ensures ColumnIndex(JoinFresh(ocols, cols, size), ocols[j].key).Some?
  {
    if j > 0 {
      assert ocols[1..][j - 1] == ocols[j];
      JoinFreshCovers(ocols[1..], cols, size, j - 1);
    }
  }

  /** `JoinFresh` repeats no key. */
  lemma {:induction false} JoinFreshDistinct(ocols: seq<Column>, cols: seq<Column>, size: nat)
    requires DistinctKeys(ocols)
    ensures DistinctKeys(JoinFresh(ocols, cols, size))
  {
    if |ocols| > 0 {
      var tail := ocols[1..];
      TailDistinct(ocols);
      JoinFreshDistinct(tail, cols, size);
      JoinFreshKeeps(tail, cols, size);
      var rest := JoinFresh(tail, cols, size);
      var r := JoinFresh(ocols, cols, size);
      forall i | 0 <= i < |rest|
        ensures rest[i].key != ocols[0].key
      {
        assert PaddedFrom(rest[i], tail, cols, size);
        var j := ColumnIndex(tail, rest[i].key).value;
        assert tail[j] == ocols[j + 1];
      }
      if ColumnIndex(cols, ocols[0].key).None? {
        assert forall i :: 1 <= i < |r| ==> r[i] == rest[i - 1];
      }
    }
  }

  /** `append(other)`: the other coder's rows after this coder's rows. */
  function Append(c: EqCoder, other: EqCoder): (r: EqCoder)
    ensures r.size == c.size + other.size
  {
    EqCoder(c.size + other.size, JoinKnown(c.columns, other) + JoinFresh(other.columns, c.columns, c.size))
  }

  /** `append(other)` stands for the concatenation of the two row sequences. */
  lemma AppendRefines(c: EqCoder, rows: Coder.Rows, other: EqCoder, orows: Coder.Rows)
    requires Represents(c, rows) && Represents(other, orows)
    ensures Represents(Append(c, other), rows + orows)
  {
    var all := rows + orows;
    var known := JoinKnown(c.columns, other);
    var added := JoinFresh(other.columns, c.columns, c.size);
    var cols := known + added;
    assert Append(c, other).columns == cols;
    AppendColumnsAnswer(c, rows, other, orows);
    AppendKeysDistinct(c, rows, other, orows);
    forall p | 0 <= p < |all| && all[p].Some?
      ensures ColumnIndex(cols, all[p].value).Some?
    {
      var key := all[p].value;
      if p < |rows| {
        var i := ColumnIndex(c.columns, key).value;
        ColumnIndexIn(cols, i, key);
      } else {
        assert orows[p - |rows|] == all[p];
        var j := ColumnIndex(other.columns, key).value;
        match ColumnIndex(c.columns, key)
        case Some(i) =>
          ColumnIndexIn(cols, i, key);
        case None =>
          JoinFreshCovers(other.columns, c.columns, c.size, j);
          var i := ColumnIndex(added, key).value;
          ColumnIndexIn(cols, |known| + i, key);
      }
    }
  }

  lemma ColumnIndexIn(cols: seq<Column>, i: nat, k: Coder.Key)
    requires i < |cols| && cols[i].key == k
    ensures ColumnIndex(cols, k).Some?
  {
  }

  /** Each column after `append(other)` is the equality answer on the joined rows. */
  lemma AppendColumnsAnswer(c: EqCoder, rows: Coder.Rows, other: EqCoder, orows: Coder.Rows)
    requires Represents(c, rows) && Represents(other, orows)
    ensures forall i :: 0 <= i < |Append(c, other).columns| ==>
      Append(c, other).columns[i].bits == Coder.Decode(rows + orows, Coder.Equal, Append(c, other).columns[i].key)
  {
    var known := JoinKnown(c.columns, other);
    var added := JoinFresh(other.columns, c.columns, c.size);
    var cols := known + added;
    assert Append(c, other).columns == cols;
    forall i | 0 <= i < |cols|
      ensures cols[i].bits == Coder.Decode(rows + orows, Coder.Equal, cols[i].key)
    {
      if i < |known| {
        assert cols[i] == known[i];
        KnownColumnAnswers(c, rows, other, orows, i);
      } else {
        assert cols[i] == added[i - |known|];
        AddedColumnAnswers(c, rows, other, orows, i - |known|);
      }
    }
  }

  lemma KnownColumnAnswers(c: EqCoder, rows: Coder.Rows, other: EqCoder, orows: Coder.Rows, i: nat)
    requires Represents(c, rows) && Represents(other, orows)
    requires i < |JoinKnown(c.columns, other)|
    ensures JoinKnown(c.columns, other)[i].bits == Coder.Decode(rows + orows, Coder.Equal, c.columns[i].key)
  {
    var key := c.columns[i].key;
    Coder.DecodeConcat(rows, orows, Coder.Equal, key);
    if ColumnIndex(other.columns, key).None? {
      AbsentKeyAnswersZero(other, orows, key);
    }
  }

  lemma AddedColumnAnswers(c: EqCoder, rows: Coder.Rows, other: EqCoder, orows: Coder.Rows, i: nat)
    requires Represents(c, rows) && Represents(other, orows)
    requires i < |JoinFresh(other.columns, c.columns, c.size)|
    ensures var col := JoinFresh(other.columns, c.columns, c.size)[i];
      col.bits == Coder.Decode(rows + orows, Coder.Equal, col.key)
  {
    var col := JoinFresh(other.columns, c.columns, c.size)[i];
    JoinFreshKeeps(other.columns, c.columns, c.size);
    assert PaddedFrom(col, other.columns, c.columns, c.size);
    Coder.DecodeConcat(rows, orows, Coder.Equal, col.key);
    AbsentKeyAnswersZero(c, rows, col.key);
  }

  /** No key has two columns after `append(other)`. */
  lemma AppendKeysDistinct(c: EqCoder, rows: Coder.Rows, other: EqCoder, orows: Coder.Rows)
    requires Represents(c, rows) && Represents(other, orows)
    ensures DistinctKeys(Append(c, other).columns)
  {
    var known := JoinKnown(c.columns, other);
    var added := JoinFresh(other.columns, c.columns, c.size);
    var cols := known + added;
    assert Append(c, other).columns == cols;
    JoinFreshKeeps(other.columns, c.columns, c.size);
    JoinFreshDistinct(other.columns, c.columns, c.size);
    forall a, b | 0 <= a < b < |cols|
      ensures cols[a].key != cols[b].key
    {
      if b < |known| {
        assert cols[a].key == c.columns[a].key && cols[b].key == c.columns[b].key;
      } else if a < |known| {
        assert cols[b] == added[b - |known|];
        assert PaddedFrom(added[b - |known|], other.columns, c.columns, c.size);
        assert cols[a].key == c.columns[a].key;
      } else {
        assert cols[a] == added[a - |known|] && cols[b] == added[b - |known|];
      }
    }
  }

  /** The keys 3, 1, 3, 2 encoded one row each. */
  function ScenarioCoder(): EqCoder {
    Encode(Encode(Encode(Encode(Empty(), 3, 1, 0), 1, 1, 0), 3, 1, 0), 2, 1, 0)
  }

  function ScenarioRows(): Coder.Rows {
    [Some(3), Some(1), Some(3), Some(2)]
  }

  lemma ScenarioRepresents()
    ensures Represents(ScenarioCoder(), ScenarioRows())
  {
    var c1 := Encode(Empty(), 3, 1, 0);
    var c2 := Encode(c1, 1, 1, 0);
    var c3 := Encode(c2, 3, 1, 0);
    AppendOne(Empty(), [], 3, [Some(3)]);
    AppendOne(c1, [Some(3)], 1, [Some(3), Some(1)]);
    AppendOne(c2, [Some(3), Some(1)], 3, [Some(3), Some(1), Some(3)]);
    AppendOne(c3, [Some(3), Some(1), Some(3)], 2, ScenarioRows());
  }

  /** Appending one row with key `k` to what `c` represents. */
  lemma AppendOne(c: EqCoder, rows: Coder.Rows, k: Coder.Key, rows': Coder.Rows)
    requires Represents(c, rows) && rows' == rows + [Some(k)]
    ensures Represents(Encode(c, k, 1, 0), rows')
  {
    EncodeRefines(c, rows, k, 1, 0);
    assert Coder.Encode(rows, k, 1, 0) == rows';
  }

  /** For the keys 3, 1, 3, 2 the equality answer for 3 is rows 0 and 2,
      the inequality answer is rows 1 and 3, and an ordering lookup is
      refused. */
  lemma EqualityScenario(c: EqCoder)
    requires Represents(c, ScenarioRows())
    ensures WellSized(c)
    ensures Decode(c, Coder.Equal, 3) == Success([true, false, true, false])
    ensures Decode(c, Coder.NotEqual, 3) == Success([false, true, false, true])
    ensures Decode(c, Coder.Less, 3) == Failure(UnsupportedOperator)
  {
    RepresentsWellSized(c, ScenarioRows());
    DecodeRefines(c, ScenarioRows(), Coder.Equal, 3);
    DecodeRefines(c, ScenarioRows(), Coder.NotEqual, 3);
    assert Coder.Decode(ScenarioRows(), Coder.Equal, 3) == [true, false, true, false];
    assert Coder.Decode(ScenarioRows(), Coder.NotEqual, 3) == [false, true, false, true];
  }
}
