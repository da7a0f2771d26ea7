/**
  The concrete bitstream models that the polymorphic handle wraps, each
  described by the sequence of bits it stands for.

  - An uncompressed stream is its bit vector.
  - A compressed stream is a canonical run-length encoding: a sequence of
    maximal runs of equal bits.

  Binary operations on streams of different length first extend the shorter
  operand with zeros, as the layer above the bit vector equalises lengths.
 */
module Bitstream {
  import opened Wrappers
  import opened BitVector

  // ---------------------------------------------------------------------------
  // Bit-level semantics shared by every model
  // ---------------------------------------------------------------------------

  datatype BinaryOp = AndOp | OrOp | XorOp | SubtractOp

  function Combine(op: BinaryOp, x: bool, y: bool): bool {
    match op
    case AndOp => x && y
    case OrOp => x || y
    case XorOp => x != y
    case SubtractOp => x && !y
  }

  function Max(a: nat, b: nat): nat {
    if a < b then b else a
  }

  /** Bit `i` of `v`, reading zeros past the end. */
  function BitAt(v: Bits, i: nat): bool {
    i < |v| && v[i]
  }

  /** Pads `v` with zeros up to length `n`. */
  function ZeroExtend(v: Bits, n: nat): (r: Bits)
    requires |v| <= n
    ensures |r| == n
    ensures forall i :: 0 <= i < n ==> r[i] == BitAt(v, i)
  {
    v + Filled(n - |v|, false)
  }

  /** `bitwise_and/or/xor/subtract`: the operator applied position by position
      over the longer of the two lengths. */
  function ApplyBinary(op: BinaryOp, a: Bits, b: Bits): (r: Bits)
    ensures |r| == Max(|a|, |b|)
    ensures forall i :: 0 <= i < |r| ==> r[i] == Combine(op, BitAt(a, i), BitAt(b, i))
  {
    var n := Max(|a|, |b|);
    var x := ZeroExtend(a, n);
    var y := ZeroExtend(b, n);
    match op
    case AndOp => And(x, y)
    case OrOp => Or(x, y)
    case XorOp => Xor(x, y)
    case SubtractOp => Subtract(x, y)
  }

  /** `trim`: drops all trailing zeros. */
  function Trim(v: Bits): (r: Bits)
    ensures |r| <= |v| && r == v[..|r|]
    ensures |r| == 0 || r[|r| - 1]
    ensures forall j :: |r| <= j < |v| ==> !v[j]
  {
    match FindLast(v)
    case None => []
    case Some(k) => v[..k + 1]
  }

  // ---------------------------------------------------------------------------
  // The run-length model
  // ---------------------------------------------------------------------------

  datatype Run = Run(bit: bool, len: nat)

  type Runs = seq<Run>

  /** Every run is non-empty and neighbouring runs hold different bits. */
  ghost predicate Canonical(rs: Runs) {
    && (forall i :: 0 <= i < |rs| ==> rs[i].len > 0)
    && (forall i, j :: 0 <= i < j < |rs| && j == i + 1 ==> rs[i].bit != rs[j].bit)
  }

  /** The bits a run sequence stands for. */
  function Expand(rs: Runs): (r: Bits)
  {
    if |rs| == 0 then []
    else Expand(rs[..|rs| - 1]) + Filled(rs[|rs| - 1].len, rs[|rs| - 1].bit)
  }

  /** `append(n, bit)` on runs: lengthens the last run when it holds `bit`. */
  function RunsAppend(rs: Runs, n: nat, bit: bool): (r: Runs)
    requires Canonical(rs)
    ensures Canonical(r)
    ensures n > 0 ==> |r| > 0 && r[|r| - 1].bit == bit
  {
    MergeRunCanonical(rs, n, bit);
    MergeRun(rs, n, bit)
  }

  lemma MergeRunCanonical(rs: Runs, n: nat, bit: bool)
    requires Canonical(rs)
    ensures Canonical(MergeRun(rs, n, bit))
  {
    var r := MergeRun(rs, n, bit);
    if n > 0 {
      var front := if |rs| > 0 && rs[|rs| - 1].bit == bit then rs[..|rs| - 1] else rs;
      assert r == front + [r[|r| - 1]];
      assert forall i :: 0 <= i < |front| ==> r[i] == front[i];
      assert |front| == 0 || front[|front| - 1].bit != bit;
      forall i, j | 0 <= i < j < |r| && j == i + 1
        ensures r[i].bit != r[j].bit
      {
        if j < |front| {
          assert front[i] == rs[i] && front[j] == rs[j];
        }
      }
    }
  }

  /** The run arithmetic of `append(n, bit)`, on any run sequence. */
  function MergeRun(rs: Runs, n: nat, bit: bool): Runs {
    if n == 0 then rs
    else if |rs| > 0 && rs[|rs| - 1].bit == bit then
      rs[..|rs| - 1] + [Run(bit, rs[|rs| - 1].len + n)]
    else
      rs + [Run(bit, n)]
  }

  /** Appending `m` and then `k` copies of a bit merges into one append. */
  lemma MergeRunTwice(rs: Runs, m: nat, k: nat, bit: bool)
    ensures MergeRun(MergeRun(rs, m, bit), k, bit) == MergeRun(rs, m + k, bit)
  {
    if m > 0 && k > 0 {
      var once := MergeRun(rs, m, bit);
      if |rs| > 0 && rs[|rs| - 1].bit == bit {
        assert once[..|once| - 1] == rs[..|rs| - 1];
      } else {
        assert once[..|once| - 1] == rs;
      }
    }
  }

  /** Appending a run appends its bits. */
  lemma ExpandAppend(rs: Runs, n: nat, bit: bool)
    requires Canonical(rs)
    ensures Expand(RunsAppend(rs, n, bit)) == Expand(rs) + Filled(n, bit)
  {
    var r := RunsAppend(rs, n, bit);
    if n == 0 {
      assert Expand(rs) + Filled(n, bit) == Expand(rs);
    } else if |rs| > 0 && rs[|rs| - 1].bit == bit {
      var len := rs[|rs| - 1].len;
      assert r[..|r| - 1] == rs[..|rs| - 1];
      assert Filled(len, bit) + Filled(n, bit) == Filled(len + n, bit);
    } else {
      assert r[..|r| - 1] == rs;
    }
  }

  /** Encodes a bit vector, one `push_back` at a time. */
  function Compress(v: Bits): (r: Runs)
    ensures Canonical(r)
    ensures Expand(r) == v
  {
    if |v| == 0 then []
    else
      var front := v[..|v| - 1];
      var bit := v[|v| - 1];
      var prefix := Compress(front);
      PushBack(prefix, v);
      RunsAppend(prefix, 1, bit)
  }

  /** Appending the last bit to the encoding of the others encodes all. */
  lemma PushBack(prefix: Runs, v: Bits)
    requires |v| > 0 && Canonical(prefix) && Expand(prefix) == v[..|v| - 1]
    ensures Expand(RunsAppend(prefix, 1, v[|v| - 1])) == v
  {
    var bit := v[|v| - 1];
    ExpandAppend(prefix, 1, bit);
    assert Filled(1, bit) == [bit];
    assert v == v[..|v| - 1] + [bit];
  }

  /** `Compress` unfolded once. */
  lemma CompressLast(w: Bits)
    requires |w| > 0
    ensures Compress(w) == RunsAppend(Compress(w[..|w| - 1]), 1, w[|w| - 1])
  {
  }

  lemma RunsAppendTwice(rs: Runs, m: nat, k: nat, bit: bool)
    requires Canonical(rs)
    ensures RunsAppend(RunsAppend(rs, m, bit), k, bit) == RunsAppend(rs, m + k, bit)
  {
    MergeRunTwice(rs, m, k, bit);
  }

  lemma {:induction false} CompressAppendFilled(v: Bits, n: nat, bit: bool)
    ensures Compress(v + Filled(n, bit)) == RunsAppend(Compress(v), n, bit)
  {
    if n == 0 {
      assert v + Filled(n, bit) == v;
    } else {
      var w := v + Filled(n, bit);
      var w' := v + Filled(n - 1, bit);
      assert w[..|w| - 1] == w';
      assert w[|w| - 1] == bit;
      CompressLast(w);
      assert Compress(w) == RunsAppend(Compress(w'), 1, bit);
      CompressAppendFilled(v, n - 1, bit);
      assert Compress(w') == RunsAppend(Compress(v), n - 1, bit);
      RunsAppendTwice(Compress(v), n - 1, 1, bit);
    }
  }

  /** A canonical run sequence is the only encoding of its bits. */
  lemma {:induction false} CanonicalUnique(rs: Runs)
    requires Canonical(rs)
    ensures Compress(Expand(rs)) == rs
  {
    if |rs| > 0 {
      var p := rs[..|rs| - 1];
      var last := rs[|rs| - 1];
      CanonicalFront(rs);
      CanonicalUnique(p);
      assert Expand(rs) == Expand(p) + Filled(last.len, last.bit) by {
        ExpandLast(rs);
      }
      CompressSnoc(p, last.len, last.bit);
      SnocLast(rs);
    }
  }

  lemma SnocLast(rs: Runs)
    requires |rs| > 0
    ensures rs[..|rs| - 1] + [Run(rs[|rs| - 1].bit, rs[|rs| - 1].len)] == rs
  {
  }

  /** `Expand` unfolded once. */
  lemma ExpandLast(rs: Runs)
    requires |rs| > 0
    ensures Expand(rs) == Expand(rs[..|rs| - 1]) + Filled(rs[|rs| - 1].len, rs[|rs| - 1].bit)
  {
  }

  /** Encoding the bits of `p` followed by a run of a new bit adds that run. */
  lemma CompressSnoc(p: Runs, n: nat, bit: bool)
    requires Compress(Expand(p)) == p
    requires n > 0 && (|p| == 0 || p[|p| - 1].bit != bit)
    ensures Compress(Expand(p) + Filled(n, bit)) == p + [Run(bit, n)]
  {
    CompressAppendFilled(Expand(p), n, bit);
    MergeFresh(p, n, bit);
  }

  /** Dropping the last run keeps a sequence canonical, and the last run is
      non-empty and differs from the one before it. */
  lemma CanonicalFront(rs: Runs)
    requires Canonical(rs) && |rs| > 0
    ensures Canonical(rs[..|rs| - 1])
    ensures rs[|rs| - 1].len > 0
    ensures |rs| == 1 || rs[|rs| - 2].bit != rs[|rs| - 1].bit
  {
  }

  /** A run whose bit differs from the last one is appended as a new run. */
  lemma MergeFresh(p: Runs, n: nat, bit: bool)
    requires n > 0 && (|p| == 0 || p[|p| - 1].bit != bit)
    ensures MergeRun(p, n, bit) == p + [Run(bit, n)]
  {
  }

  /** Two canonical encodings are equal exactly when their bits are. */
  lemma CanonicalEquality(rs: Runs, ts: Runs)
    requires Canonical(rs) && Canonical(ts)
    ensures rs == ts <==> Expand(rs) == Expand(ts)
  {
    CanonicalUnique(rs);
    CanonicalUnique(ts);
  }

  /** `size()` on runs: the sum of the run lengths. */
  function RunsSize(rs: Runs): (r: nat)
    ensures r == |Expand(rs)|
  {
    if |rs| == 0 then 0 else RunsSize(rs[..|rs| - 1]) + rs[|rs| - 1].len
  }

  lemma {:induction false} CountFilled(n: nat, bit: bool)
    ensures Count(Filled(n, bit)) == if bit then n else 0
  {
    if n > 0 {
      assert Filled(n, bit)[..n - 1] == Filled(n - 1, bit);
      CountFilled(n - 1, bit);
    }
  }

  /** `count()` on runs: the lengths of the one-runs. */
  function RunsCount(rs: Runs): (r: nat)
    ensures r == Count(Expand(rs))
  {
    if |rs| == 0 then 0
    else
      var last := rs[|rs| - 1];
      CountAppend(Expand(rs[..|rs| - 1]), Filled(last.len, last.bit));
      CountFilled(last.len, last.bit);
      RunsCount(rs[..|rs| - 1]) + (if last.bit then last.len else 0)
  }

  /** `at(i)` on runs: finds the run that covers position `i`. */
  function RunsAt(rs: Runs, i: nat): (r: bool)
    requires i < |Expand(rs)|
    ensures r == Expand(rs)[i]
  {
    var p := rs[..|rs| - 1];
    if i < RunsSize(p) then RunsAt(p, i) else rs[|rs| - 1].bit
  }

  /** `bitwise_not` on runs: flips every run. */
  function RunsNot(rs: Runs): (r: Runs)
    requires Canonical(rs)
    ensures Canonical(r)
    ensures Expand(r) == Not(Expand(rs))
  {
    if |rs| == 0 then []
    else
      var p := rs[..|rs| - 1];
      var last := rs[|rs| - 1];
      assert Canonical(p);
      var front := RunsNot(p);
      var r := front + [Run(!last.bit, last.len)];
      assert r[..|r| - 1] == front;
      NotRunStep(Expand(p), last.len, last.bit);
      r
  }

  lemma NotRunStep(a: Bits, n: nat, bit: bool)
    ensures Not(a + Filled(n, bit)) == Not(a) + Filled(n, !bit)
  {
  }

  /** `append(other)` on runs: appends the other stream run by run. */
  function RunsConcat(rs: Runs, ts: Runs): (r: Runs)
    requires Canonical(rs) && Canonical(ts)
    ensures Canonical(r)
    ensures Expand(r) == Expand(rs) + Expand(ts)
    decreases |ts|
  {
    if |ts| == 0 then
      assert Expand(rs) + Expand(ts) == Expand(rs);
      rs
    else
      var p := ts[..|ts| - 1];
      var last := ts[|ts| - 1];
      assert Canonical(p);
      var prefix := RunsConcat(rs, p);
      ExpandAppend(prefix, last.len, last.bit);
      ConcatStep(Expand(rs), Expand(p), Filled(last.len, last.bit));
      RunsAppend(prefix, last.len, last.bit)
  }

  lemma ConcatStep(a: Bits, b: Bits, c: Bits)
    ensures (a + b) + c == a + (b + c)
  {
  }

  /** `trim` on runs: a trailing run of zeros is dropped. */
  function RunsTrim(rs: Runs): (r: Runs)
    requires Canonical(rs)
    ensures Canonical(r)
    ensures Expand(r) == Trim(Expand(rs))
  {
    if |rs| == 0 then rs
    else
      var p := rs[..|rs| - 1];
      var last := rs[|rs| - 1];
      var v := Expand(rs);
      var cut := if last.bit then rs else p;
      var n := |Expand(cut)|;
      assert Canonical(p);
      assert n == 0 || v[n - 1] by {
        if !last.bit && |p| > 0 {
          assert Expand(p) == Expand(p[..|p| - 1]) + Filled(p[|p| - 1].len, p[|p| - 1].bit);
        }
      }
      assert forall j :: n <= j < |v| ==> !v[j];
      assert Expand(cut) == v[..n];
      TrimIs(v, n);
      cut
  }

  /** `Trim` is the shortest prefix holding every set bit. */
  lemma TrimIs(v: Bits, n: nat)
    requires n <= |v| && (n == 0 || v[n - 1])
    requires forall j :: n <= j < |v| ==> !v[j]
    ensures Trim(v) == v[..n]
  {
    if n > 0 {
      LastBelowIs(v, |v|, n - 1);
    }
  }

  /** `back()` on runs: the bit of the last run. */
  function RunsBack(rs: Runs): (r: bool)
    requires Canonical(rs) && |Expand(rs)| > 0
    ensures r == Expand(rs)[|Expand(rs)| - 1]
  {
    rs[|rs| - 1].bit
  }

  /** `append_block(block, bits)` on runs: the low `nbits` bits of `b`, least
      significant first, pushed one at a time. */
  function RunsAppendBlock(rs: Runs, b: Block, nbits: nat): (r: Runs)
    requires Canonical(rs) && nbits <= BlockWidth
    ensures Canonical(r)
    ensures Expand(r) == AppendBlock(Expand(rs), b, nbits)
  {
    if nbits == 0 then
      assert AppendBlock(Expand(rs), b, 0) == Expand(rs);
      rs
    else
      var prefix := RunsAppendBlock(rs, b, nbits - 1);
      var bit := Bit(b, nbits - 1);
      ExpandAppend(prefix, 1, bit);
      AppendBlockStep(Expand(rs), b, nbits);
      RunsAppend(prefix, 1, bit)
  }

  lemma AppendBlockStep(v: Bits, b: Block, nbits: nat)
    requires 0 < nbits <= BlockWidth
    ensures AppendBlock(v, b, nbits) == AppendBlock(v, b, nbits - 1) + Filled(1, Bit(b, nbits - 1))
  {
    var x := Bit(b, nbits - 1);
    BlockBitsStep(b, nbits);
    assert Filled(1, x) == [x];
    assert v + (BlockBits(b, nbits - 1) + [x]) == (v + BlockBits(b, nbits - 1)) + [x];
  }

  /** One more bit of a block is one more element. */
  lemma BlockBitsStep(b: Block, nbits: nat)
    requires 0 < nbits <= BlockWidth
    ensures BlockBits(b, nbits) == BlockBits(b, nbits - 1) + [Bit(b, nbits - 1)]
  {
  }

  /** `FirstFrom` is characterised by its result. */
  lemma FirstFromIs(v: Bits, start: nat, k: nat)
    requires start <= k < |v| && v[k]
    requires forall j :: start <= j < k ==> !v[j]
    ensures FirstFrom(v, start) == Some(k)
  {
  }

  /** The lowest set position at or after `start`, found run by run. */
  function RunsFirstFrom(rs: Runs, start: nat): (r: Option<nat>)
    ensures r == FirstFrom(Expand(rs), start)
  {
    if |rs| == 0 then None
    else
      var p := rs[..|rs| - 1];
      var last := rs[|rs| - 1];
      var off := RunsSize(p);
      var v := Expand(rs);
      assert v == Expand(p) + Filled(last.len, last.bit);
      match RunsFirstFrom(p, start)
      case Some(k) =>
        FirstFromIs(v, start, k);
        Some(k)
      case None =>
        if last.bit && Max(start, off) < off + last.len then
          var k := Max(start, off);
          assert off == |Expand(p)| && off <= k < off + last.len;
          assert v[k] == Filled(last.len, last.bit)[k - off];
          FirstFromIs(v, start, k);
          Some(k)
        else
          None
  }

  /** The highest set position strictly below `i`, found run by run. */
  function RunsLastBelow(rs: Runs, i: nat): (r: Option<nat>)
    requires i <= RunsSize(rs)
    ensures r == LastBelow(Expand(rs), i)
  {
    if |rs| == 0 then None
    else
      var p := rs[..|rs| - 1];
      var last := rs[|rs| - 1];
      var off := RunsSize(p);
      var v := Expand(rs);
      assert v == Expand(p) + Filled(last.len, last.bit);
      if last.bit && off < i then
        LastBelowIs(v, i, i - 1);
        Some(i - 1)
      else
        var r := RunsLastBelow(p, if i < off then i else off);
        if r.Some? then
          LastBelowIs(v, i, r.value);
          r
        else
          r
  }
}
