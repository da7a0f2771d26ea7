/**
  The raw bit vector underneath every bitstream: an ordered sequence of bits
  that is filled block by block. Bit `i` of the vector is `v[i]`; blocks are
  64-bit words whose least significant bit is appended first.

  The npos sentinel the search functions return for "not found" is `None`.
 */
module BitVector {
  import opened Wrappers

  type Bits = seq<bool>

  /** A storage block: one native machine word. */
  type Block = bv64

  const BlockWidth: nat := 64

  /** Bit `j` of a block, counting from the least significant bit. */
  predicate Bit(b: Block, j: nat)
    requires j < BlockWidth
  {
    ((b >> j) & 1) == 1
  }

  // ---------------------------------------------------------------------------
  // Construction and growth
  // ---------------------------------------------------------------------------

  /** `bitvector{n, bit}`: `n` copies of `bit`; `bitvector{n}` passes `false`. */
  function Filled(n: nat, bit: bool): (r: Bits)
    ensures |r| == n
    ensures forall i :: 0 <= i < n ==> r[i] == bit
  {
    seq(n, _ => bit)
  }

  /** `push_back(bit)`: the new bit lands at index `size()`. */
  function PushBack(v: Bits, bit: bool): (r: Bits)
    ensures |r| == |v| + 1
    ensures r[..|v|] == v && r[|v|] == bit
  {
    v + [bit]
  }

  /** The low `nbits` bits of `b`, least significant first. */
  function BlockBits(b: Block, nbits: nat): (r: Bits)
    requires nbits <= BlockWidth
    ensures |r| == nbits
    ensures forall j :: 0 <= j < nbits ==> r[j] == Bit(b, j)
  {
    seq(nbits, j requires 0 <= j < nbits => Bit(b, j))
  }

  /** `append(block, nbits)`: bit `j` of the block lands at `size() + j`. */
  function AppendBlock(v: Bits, b: Block, nbits: nat): (r: Bits)
    requires nbits <= BlockWidth
    ensures |r| == |v| + nbits
    ensures r[..|v|] == v
    ensures forall j :: 0 <= j < nbits ==> r[|v| + j] == Bit(b, j)
  {
    v + BlockBits(b, nbits)
  }

  /** `append(block)`: appends a full block of `BlockWidth` bits. */
  function AppendWord(v: Bits, b: Block): (r: Bits)
    ensures |r| == |v| + BlockWidth
    ensures r[..|v|] == v
    ensures forall j :: 0 <= j < BlockWidth ==> r[|v| + j] == Bit(b, j)
  {
    AppendBlock(v, b, BlockWidth)
  }

  /** `append(n, bit)`: appends `n` copies of one bit value. */
  function AppendRun(v: Bits, n: nat, bit: bool): (r: Bits)
    ensures |r| == |v| + n
    ensures r[..|v|] == v
    ensures forall j :: |v| <= j < |r| ==> r[j] == bit
  {
    v + Filled(n, bit)
  }

  /** `blocks()`: the number of words needed to hold `size()` bits. */
  function Blocks(v: Bits): (r: nat)
    ensures |v| <= r * BlockWidth
    ensures r == 0 || (r - 1) * BlockWidth < |v|
  {
    (|v| + BlockWidth - 1) / BlockWidth
  }

  // ---------------------------------------------------------------------------
  // Element access
  // ---------------------------------------------------------------------------

  /** `x[i] = bit`: assignment through the bit reference. */
  function SetBit(v: Bits, i: nat, bit: bool): (r: Bits)
    requires i < |v|
    ensures |r| == |v| && r[i] == bit
    ensures forall j :: 0 <= j < |v| && j != i ==> r[j] == v[j]
  {
    v[i := bit]
  }

  /** `flip(i)`: toggles one bit. */
  function Flip(v: Bits, i: nat): (r: Bits)
    requires i < |v|
    ensures |r| == |v| && r[i] == !v[i]
    ensures forall j :: 0 <= j < |v| && j != i ==> r[j] == v[j]
  {
    SetBit(v, i, !v[i])
  }

  // ---------------------------------------------------------------------------
  // Shifts and bitwise algebra
  // ---------------------------------------------------------------------------

  /** `v << k`: bit `i` moves to `i + k`; bits pushed past the end are lost. */
  function ShiftLeft(v: Bits, k: nat): (r: Bits)
    ensures |r| == |v|
    ensures forall i :: 0 <= i < |v| ==> r[i] == (k <= i && v[i - k])
  {
    seq(|v|, i requires 0 <= i < |v| => k <= i && v[i - k])
  }

  /** `v >> k`: bit `i` moves to `i - k`; bits pushed below zero are lost. */
  function ShiftRight(v: Bits, k: nat): (r: Bits)
    ensures |r| == |v|
    ensures forall i :: 0 <= i < |v| ==> r[i] == (i + k < |v| && v[i + k])
  {
    seq(|v|, i requires 0 <= i < |v| => i + k < |v| && v[i + k])
  }

  function Not(v: Bits): (r: Bits)
    ensures |r| == |v|
    ensures forall i :: 0 <= i < |v| ==> r[i] == !v[i]
  {
    seq(|v|, i requires 0 <= i < |v| => !v[i])
  }

  function And(a: Bits, b: Bits): (r: Bits)
    requires |a| == |b|
    ensures |r| == |a|
    ensures forall i :: 0 <= i < |a| ==> r[i] == (a[i] && b[i])
  {
    seq(|a|, i requires 0 <= i < |a| => a[i] && b[i])
  }

  function Or(a: Bits, b: Bits): (r: Bits)
    requires |a| == |b|
    ensures |r| == |a|
    ensures forall i :: 0 <= i < |a| ==> r[i] == (a[i] || b[i])
  {
    seq(|a|, i requires 0 <= i < |a| => a[i] || b[i])
  }

  function Xor(a: Bits, b: Bits): (r: Bits)
    requires |a| == |b|
    ensures |r| == |a|
    ensures forall i :: 0 <= i < |a| ==> r[i] == (a[i] != b[i])
  {
    seq(|a|, i requires 0 <= i < |a| => a[i] != b[i])
  }

  /** AND-NOT: the bits of `a` that are not set in `b`. */
  function Subtract(a: Bits, b: Bits): (r: Bits)
    requires |a| == |b|
    ensures |r| == |a|
    ensures forall i :: 0 <= i < |a| ==> r[i] == (a[i] && !b[i])
  {
    seq(|a|, i requires 0 <= i < |a| => a[i] && !b[i])
  }

  // ---------------------------------------------------------------------------
  // Population count
  // ---------------------------------------------------------------------------

  /** `count()`: the number of set bits. */
  function Count(v: Bits): (r: nat)
    ensures r <= |v|
  {
    if |v| == 0 then 0 else Count(v[..|v| - 1]) + (if v[|v| - 1] then 1 else 0)
  }

  lemma {:induction false} CountAppend(a: Bits, b: Bits)
    ensures Count(a + b) == Count(a) + Count(b)
    decreases |b|
  {
    if |b| == 0 {
      assert a + b == a;
    } else {
      var b' := b[..|b| - 1];
      assert (a + b)[..|a + b| - 1] == a + b';
      CountAppend(a, b');
    }
  }

  /** Every bit is counted either in `v` or in its complement. */
  lemma {:induction false} CountNot(v: Bits)
    ensures Count(Not(v)) == |v| - Count(v)
  {
    if |v| > 0 {
      var v' := v[..|v| - 1];
      assert Not(v)[..|v| - 1] == Not(v');
      CountNot(v');
    }
  }

  /** Inclusion-exclusion for the bitwise operators. */
  lemma {:induction false} CountOrAnd(a: Bits, b: Bits)
    requires |a| == |b|
    ensures Count(Or(a, b)) + Count(And(a, b)) == Count(a) + Count(b)
  {
    if |a| > 0 {
      var n := |a| - 1;
      assert Or(a, b)[..n] == Or(a[..n], b[..n]);
      assert And(a, b)[..n] == And(a[..n], b[..n]);
      CountOrAnd(a[..n], b[..n]);
    }
  }

  /** Flipping a bit twice restores it, and writing a bit's own value back
      through the reference changes nothing. */
  lemma FlipInvolutive(v: Bits, i: nat)
    requires i < |v|
    ensures Flip(Flip(v, i), i) == v
    ensures SetBit(v, i, v[i]) == v
  {
  }

  /** Assigning through `x[i]` moves the count by the difference between the
      new and the old bit. */
  lemma CountSetBit(v: Bits, i: nat, bit: bool)
    requires i < |v|
    ensures Count(SetBit(v, i, bit)) == Count(v) - (if v[i] then 1 else 0) + (if bit then 1 else 0)
  {
    var front, back := v[..i], v[i + 1..];
    var w := SetBit(v, i, bit);
    assert v == front + [v[i]] + back;
    assert w == front + [bit] + back by {
      assert |w| == |front + [bit] + back|;
      forall j | 0 <= j < |w|
        ensures w[j] == (front + [bit] + back)[j]
      {
      }
    }
    CountAround(front, v[i], back);
    CountAround(front, bit, back);
  }

  /** `flip(i)` moves the count by exactly one: down if bit i was set, up
      otherwise. */
  lemma CountFlip(v: Bits, i: nat)
    requires i < |v|
    ensures Count(Flip(v, i)) == if v[i] then Count(v) - 1 else Count(v) + 1
  {
    CountSetBit(v, i, !v[i]);
  }

  /** The count of a vector split around one bit. */
  lemma CountAround(front: Bits, x: bool, back: Bits)
    ensures Count(front + [x] + back) == Count(front) + (if x then 1 else 0) + Count(back)
  {
    CountAppend(front + [x], back);
    CountAppend(front, [x]);
    assert [x][..0] == [];
  }

  /** Cleared bits add nothing to the count. */
  lemma {:induction false} CountZeros(n: nat)
    ensures Count(Filled(n, false)) == 0
  {
    if n > 0 {
      assert Filled(n, false)[..n - 1] == Filled(n - 1, false);
      CountZeros(n - 1);
    }
  }

  /** `v << k` is k cleared bits followed by `v` without its top k bits;
      shifting by the size or more clears everything. */
  lemma ShiftLeftIs(v: Bits, k: nat)
    ensures k <= |v| ==> ShiftLeft(v, k) == Filled(k, false) + v[..|v| - k]
    ensures |v| <= k ==> ShiftLeft(v, k) == Filled(|v|, false)
  {
    if k <= |v| {
      var w := Filled(k, false) + v[..|v| - k];
      assert forall i :: 0 <= i < |v| ==> ShiftLeft(v, k)[i] == w[i];
    }
  }

  /** `v >> k` is `v` without its low k bits followed by k cleared bits;
      shifting by the size or more clears everything. */
  lemma ShiftRightIs(v: Bits, k: nat)
    ensures k <= |v| ==> ShiftRight(v, k) == v[k..] + Filled(k, false)
    ensures |v| <= k ==> ShiftRight(v, k) == Filled(|v|, false)
  {
    if k <= |v| {
      var w := v[k..] + Filled(k, false);
      assert forall i :: 0 <= i < |v| ==> ShiftRight(v, k)[i] == w[i];
    }
  }

  /** Shifting out and back clears exactly the bits that were pushed past
      the end: `(v << k) >> k` keeps the low bits and `(v >> k) << k` the
      high ones. */
  lemma ShiftsRoundTrip(v: Bits, k: nat)
    ensures k <= |v| ==> ShiftRight(ShiftLeft(v, k), k) == v[..|v| - k] + Filled(k, false)
    ensures k <= |v| ==> ShiftLeft(ShiftRight(v, k), k) == Filled(k, false) + v[k..]
    ensures |v| <= k ==> ShiftRight(ShiftLeft(v, k), k) == Filled(|v|, false)
    ensures |v| <= k ==> ShiftLeft(ShiftRight(v, k), k) == Filled(|v|, false)
  {
    ShiftLeftIs(v, k);
    ShiftRightIs(v, k);
    ShiftRightIs(ShiftLeft(v, k), k);
    ShiftLeftIs(ShiftRight(v, k), k);
    if k <= |v| {
      var n := |v| - k;
      assert (Filled(k, false) + v[..n])[k..] == v[..n];
      assert (v[k..] + Filled(k, false))[..n] == v[k..];
    }
  }

  /** A shift counts only the bits that stay inside the vector. */
  lemma CountShifts(v: Bits, k: nat)
    ensures k <= |v| ==> Count(ShiftLeft(v, k)) == Count(v[..|v| - k])
    ensures k <= |v| ==> Count(ShiftRight(v, k)) == Count(v[k..])
    ensures |v| <= k ==> Count(ShiftLeft(v, k)) == 0 && Count(ShiftRight(v, k)) == 0
  {
    ShiftLeftIs(v, k);
    ShiftRightIs(v, k);
    if k <= |v| {
      CountAppend(Filled(k, false), v[..|v| - k]);
      CountAppend(v[k..], Filled(k, false));
      CountZeros(k);
    } else {
      CountZeros(|v|);
    }
  }

  /** `a - b` is `a & ~b`, and `a ^ b` is `(a - b) | (b - a)`. */
  lemma SubtractXorAlgebra(a: Bits, b: Bits)
    requires |a| == |b|
    ensures Subtract(a, b) == And(a, Not(b))
    ensures Xor(a, b) == Or(Subtract(a, b), Subtract(b, a))
  {
  }

  /** Every set bit of `a` is counted either in `a - b` or in `a & b`; the
      bits set in exactly one operand are counted by `a ^ b`. */
  lemma {:induction false} CountSubtractXor(a: Bits, b: Bits)
    requires |a| == |b|
    ensures Count(Subtract(a, b)) + Count(And(a, b)) == Count(a)
    ensures Count(Xor(a, b)) + 2 * Count(And(a, b)) == Count(a) + Count(b)
  {
    if |a| > 0 {
      var n := |a| - 1;
      assert Subtract(a, b)[..n] == Subtract(a[..n], b[..n]);
      assert Xor(a, b)[..n] == Xor(a[..n], b[..n]);
      assert And(a, b)[..n] == And(a[..n], b[..n]);
      CountSubtractXor(a[..n], b[..n]);
    }
  }

  // ---------------------------------------------------------------------------
  // Searching for set bits
  // ---------------------------------------------------------------------------

  /** The lowest set index at or after `start`. */
  function FirstFrom(v: Bits, start: nat): (r: Option<nat>)
    ensures r.Some? ==> start <= r.value < |v| && v[r.value]
    ensures r.Some? ==> forall j :: start <= j < r.value ==> !v[j]
    ensures r.None? ==> forall j :: start <= j < |v| ==> !v[j]
    decreases |v| - start
  {
    if start >= |v| then None
    else if v[start] then Some(start)
    else FirstFrom(v, start + 1)
  }

  /** The highest set index strictly below `i`, for `i <= size()`. */
  function LastBelow(v: Bits, i: nat): (r: Option<nat>)
    requires i <= |v|
    ensures r.Some? ==> r.value < i && v[r.value]
    ensures r.Some? ==> forall j :: r.value < j < i ==> !v[j]
    ensures r.None? ==> forall j :: 0 <= j < i ==> !v[j]
  {
    if i == 0 then None
    else if v[i - 1] then Some(i - 1)
    else LastBelow(v, i - 1)
  }

  /** `find_first()`: the lowest set index; none exactly when no bit is set. */
  function FindFirst(v: Bits): (r: Option<nat>)
    ensures r.Some? ==> r.value < |v| && v[r.value] && forall j :: 0 <= j < r.value ==> !v[j]
    ensures r.None? <==> forall j :: 0 <= j < |v| ==> !v[j]
  {
    FirstFrom(v, 0)
  }

  /** `find_next(i)`: the lowest set index strictly above `i`. */
  function FindNext(v: Bits, i: nat): (r: Option<nat>)
    ensures r.Some? ==> i < r.value < |v| && v[r.value] && forall j :: i < j < r.value ==> !v[j]
    ensures r.None? <==> forall j :: i < j < |v| ==> !v[j]
  {
    FirstFrom(v, i + 1)
  }

  /** `find_last()`: the highest set index; none exactly when no bit is set. */
  function FindLast(v: Bits): (r: Option<nat>)
    ensures r.Some? ==> r.value < |v| && v[r.value] && forall j :: r.value < j < |v| ==> !v[j]
    ensures r.None? <==> forall j :: 0 <= j < |v| ==> !v[j]
  {
    LastBelow(v, |v|)
  }

  /** `find_prev(i)`: the highest set index strictly below `i`. For `i`
      past the size the search starts at the end, so it names the highest
      set bit of the whole vector. */
  function FindPrev(v: Bits, i: nat): (r: Option<nat>)
    ensures r.Some? ==> r.value < i && r.value < |v| && v[r.value]
    ensures r.Some? ==> forall j :: r.value < j < i && j < |v| ==> !v[j]
    ensures r.None? <==> forall j :: 0 <= j < i && j < |v| ==> !v[j]
  {
    LastBelow(v, if i <= |v| then i else |v|)
  }

  /** The search results are exactly the extreme set positions: `find_first`
      and `find_last` name a set bit with no set bit before (resp. after) it,
      and they fail only on a vector without set bits. */
  lemma FindFirstLast(v: Bits)
    ensures FindFirst(v).Some? <==> exists i :: 0 <= i < |v| && v[i]
    ensures FindLast(v).Some? <==> exists i :: 0 <= i < |v| && v[i]
    ensures FindFirst(v).Some? ==> v[FindFirst(v).value] && forall j :: 0 <= j < FindFirst(v).value ==> !v[j]
    ensures FindLast(v).Some? ==> v[FindLast(v).value] && forall j :: FindLast(v).value < j < |v| ==> !v[j]
  {
  }

  /** `find_prev(i)` is characterised by its result: a set bit below `i` with
      nothing set in between. */
  lemma {:induction false} FindPrevIs(v: Bits, i: nat, k: nat)
    requires k < i <= |v| && v[k]
    requires forall j :: k < j < i ==> !v[j]
    ensures FindPrev(v, i) == Some(k)
  {
    LastBelowIs(v, i, k);
  }

  lemma {:induction false} LastBelowIs(v: Bits, i: nat, k: nat)
    requires k < i <= |v| && v[k]
    requires forall j :: k < j < i ==> !v[j]
    ensures LastBelow(v, i) == Some(k)
    decreases i
  {
    if i - 1 != k {
      LastBelowIs(v, i - 1, k);
    }
  }

  // ---------------------------------------------------------------------------
  // Iteration
  // ---------------------------------------------------------------------------

  /** The set positions in `[lo, hi)`, ascending: what the ones iterator visits. */
  function OnesIn(v: Bits, lo: nat, hi: nat): (r: seq<nat>)
    requires hi <= |v|
    decreases hi
  {
    if hi <= lo then []
    else OnesIn(v, lo, hi - 1) + (if v[hi - 1] then [hi - 1] else [])
  }

  /** All set positions, ascending. */
  function Ones(v: Bits): (r: seq<nat>)
  {
    OnesIn(v, 0, |v|)
  }

  /** `OnesIn` holds exactly the set positions of the range, strictly ascending. */
  lemma OnesInSpec(v: Bits, lo: nat, hi: nat)
    requires hi <= |v|
    ensures forall p :: p in OnesIn(v, lo, hi) <==> lo <= p < hi && v[p]
    ensures forall a, b :: 0 <= a < b < |OnesIn(v, lo, hi)| ==> OnesIn(v, lo, hi)[a] < OnesIn(v, lo, hi)[b]
  {
    OnesInMembers(v, lo, hi);
    OnesInAscending(v, lo, hi);
  }

  lemma {:induction false} OnesInMembers(v: Bits, lo: nat, hi: nat)
    requires hi <= |v|
    ensures forall p :: p in OnesIn(v, lo, hi) <==> lo <= p < hi && v[p]
    decreases hi
  {
    if lo < hi {
      OnesInMembers(v, lo, hi - 1);
      var prefix := OnesIn(v, lo, hi - 1);
      var tail: seq<nat> := if v[hi - 1] then [hi - 1] else [];
      assert OnesIn(v, lo, hi) == prefix + tail;
      forall p
        ensures p in OnesIn(v, lo, hi) <==> lo <= p < hi && v[p]
      {
        assert p in prefix + tail <==> p in prefix || p in tail;
      }
    }
  }

  lemma {:induction false} OnesInAscending(v: Bits, lo: nat, hi: nat)
    requires hi <= |v|
    ensures forall a, b :: 0 <= a < b < |OnesIn(v, lo, hi)| ==> OnesIn(v, lo, hi)[a] < OnesIn(v, lo, hi)[b]
    decreases hi
  {
    if lo < hi {
      OnesInAscending(v, lo, hi - 1);
      OnesInMembers(v, lo, hi - 1);
      var prefix := OnesIn(v, lo, hi - 1);
      var tail: seq<nat> := if v[hi - 1] then [hi - 1] else [];
      var r := OnesIn(v, lo, hi);
      assert r == prefix + tail;
      forall a | 0 <= a < |prefix|
        ensures prefix[a] < hi - 1
      {
        assert prefix[a] in prefix;
      }
      forall a, b | 0 <= a < b < |r|
        ensures r[a] < r[b]
      {
        assert r[a] == prefix[a];
        if b < |prefix| {
          assert r[b] == prefix[b];
        } else {
          assert r[b] == hi - 1;
        }
      }
    }
  }

  /** Peeling the lowest position off the range. */
  lemma {:induction false} OnesInFront(v: Bits, lo: nat, hi: nat)
    requires lo < hi <= |v|
    ensures OnesIn(v, lo, hi) == (if v[lo] then [lo] else []) + OnesIn(v, lo + 1, hi)
    decreases hi
  {
    if lo + 1 < hi {
      OnesInFront(v, lo, hi - 1);
    }
  }

  /** The ones iterator visits `count()` positions. */
  lemma {:induction false} OnesCount(v: Bits)
    ensures |Ones(v)| == Count(v)
  {
    OnesInCount(v, |v|);
    assert v[..|v|] == v;
  }

  lemma {:induction false} OnesInCount(v: Bits, hi: nat)
    requires hi <= |v|
    ensures |OnesIn(v, 0, hi)| == Count(v[..hi])
    decreases hi
  {
    if hi > 0 {
      OnesInCount(v, hi - 1);
      assert v[..hi][..hi - 1] == v[..hi - 1];
    }
  }

  /** Forward ones iteration: start at `find_first`, advance with `find_next`. */
  function ForwardOnes(v: Bits, start: nat): (r: seq<nat>)
    decreases |v| - start
  {
    match FirstFrom(v, start)
    case None => []
    case Some(k) => [k] + ForwardOnes(v, k + 1)
  }

  /** Walking with `find_next` visits exactly the ascending set positions. */
  lemma {:induction false} ForwardOnesIsOnes(v: Bits, start: nat)
    requires start <= |v|
    ensures ForwardOnes(v, start) == OnesIn(v, start, |v|)
    decreases |v| - start
  {
    match FirstFrom(v, start)
    case None =>
      OnesNoneIn(v, start, |v|);
    case Some(k) =>
      OnesNoneIn(v, start, k);
      OnesSplit(v, start, k, |v|);
      OnesInFront(v, k, |v|);
      ForwardOnesIsOnes(v, k + 1);
  }

  /** Backward ones iteration: start at `find_last`, step back with `find_prev`. */
  function BackwardOnes(v: Bits, i: nat): (r: seq<nat>)
    requires i <= |v|
    decreases i
  {
    match LastBelow(v, i)
    case None => []
    case Some(k) => [k] + BackwardOnes(v, k)
  }

  /** Reverse ones iteration (from `rbegin`) is forward ones iteration reversed. */
  lemma {:induction false} BackwardOnesIsReversed(v: Bits, i: nat)
    requires i <= |v|
    ensures BackwardOnes(v, i) == Reverse(OnesIn(v, 0, i))
    decreases i
  {
    match LastBelow(v, i)
    case None =>
      OnesNoneIn(v, 0, i);
    case Some(k) =>
      OnesNoneIn(v, k + 1, i);
      OnesSplit(v, 0, k + 1, i);
      BackwardOnesIsReversed(v, k);
      ReverseAppend(OnesIn(v, 0, k), [k]);
  }

  lemma {:induction false} OnesNoneIn(v: Bits, lo: nat, hi: nat)
    requires hi <= |v|
    requires forall j :: lo <= j < hi ==> !v[j]
    ensures OnesIn(v, lo, hi) == []
    decreases hi
  {
    if lo < hi {
      OnesNoneIn(v, lo, hi - 1);
    }
  }

  lemma {:induction false} OnesSplit(v: Bits, lo: nat, mid: nat, hi: nat)
    requires lo <= mid <= hi <= |v|
    ensures OnesIn(v, lo, hi) == OnesIn(v, lo, mid) + OnesIn(v, mid, hi)
    decreases hi
  {
    if mid < hi {
      OnesSplit(v, lo, mid, hi - 1);
    }
  }

  function Reverse<T>(s: seq<T>): (r: seq<T>)
    ensures |r| == |s|
    ensures forall i :: 0 <= i < |s| ==> r[i] == s[|s| - 1 - i]
  {
    seq(|s|, i requires 0 <= i < |s| => s[|s| - 1 - i])
  }

  lemma ReverseAppend<T>(a: seq<T>, b: seq<T>)
    ensures Reverse(a + b) == Reverse(b) + Reverse(a)
  {
  }

  /** Bit iteration from `rbegin` to `rend` renders the reverse of bit
      iteration from `begin` to `end`. */
  lemma RenderingReversed(v: Bits)
    ensures Reverse(ToString(v, false)) == ToString(v, true)
  {
  }

  // ---------------------------------------------------------------------------
  // Rendering
  // ---------------------------------------------------------------------------

  /** `to_string(v, msb_first)`: one character per bit; by default the bit
      with the highest index is printed first. */
  function ToString(v: Bits, msbFirst: bool): (r: string)
    ensures |r| == |v|
    ensures forall i :: 0 <= i < |v| ==> r[if msbFirst then |v| - 1 - i else i] == (if v[i] then '1' else '0')
  {
    var n := |v|;
    seq(n, i requires 0 <= i < n => if v[if msbFirst then n - 1 - i else i] then '1' else '0')
  }
}
