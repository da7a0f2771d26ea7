/**
  The polymorphic bitstream: a handle that wraps exactly one concrete
  bitstream model and forwards every operation to it.

  Binary operations and iterator comparisons must see two handles wrapping
  the same concrete model; otherwise the program aborts ("bad bitstream
  cast", "bad iterator cast"). The abort is modelled as a `Failure` outcome,
  so that the contracts can say that a mismatch never coerces one model into
  the other.
 */
module BitstreamPolymorphic {
  import opened Wrappers
  import BitVector
  import opened Bitstream

  /** Which concrete bitstream a handle wraps. */
  datatype Kind = Uncompressed | RunLength

  /** The two ways the handle aborts. */
  datatype Fatal = BadBitstreamCast | BadIteratorCast

  /** A concrete bitstream: a plain bit vector or a run-length encoding. */
  datatype Model = Plain(bits: BitVector.Bits) | Compressed(runs: Runs)

  function KindOf(m: Model): Kind {
    match m
    case Plain(_) => Uncompressed
    case Compressed(_) => RunLength
  }

  /** The representation invariant: a run-length model is canonical. */
  ghost predicate Valid(m: Model) {
    m.Compressed? ==> Canonical(m.runs)
  }

  /** The bits a model stands for. */
  function Value(m: Model): BitVector.Bits {
    match m
    case Plain(bits) => bits
    case Compressed(runs) => Expand(runs)
  }

  /** The empty stream of a given kind. */
  function Empty(k: Kind): (m: Model)
    ensures Valid(m) && KindOf(m) == k && Value(m) == []
  {
    match k
    case Uncompressed => Plain([])
    case RunLength => Compressed([])
  }

  /** Wraps the given bits in a model of the given kind. */
  function FromBits(k: Kind, v: BitVector.Bits): (m: Model)
    ensures Valid(m) && KindOf(m) == k && Value(m) == v
  {
    match k
    case Uncompressed => Plain(v)
    case RunLength => Compressed(Compress(v))
  }

  // ---------------------------------------------------------------------------
  // Operations between two handles: abort unless both wrap the same model
  // ---------------------------------------------------------------------------

  /** `equals(other)`: the wrapped streams compared, after the cast. */
  function Equals(a: Model, b: Model): (r: Result<bool, Fatal>)
    requires Valid(a) && Valid(b)
    ensures r.Failure? <==> KindOf(a) != KindOf(b)
    ensures r.Failure? ==> r.error == BadBitstreamCast
    ensures r.Success? ==> (r.value <==> Value(a) == Value(b))
  {
    match (a, b)
    case (Plain(x), Plain(y)) => Success(x == y)
    case (Compressed(x), Compressed(y)) =>
      CanonicalEquality(x, y);
      Success(x == y)
    case _ => Failure(BadBitstreamCast)
  }

  /** `bitwise_and/or/xor/subtract(other)`. */
  function Binary(op: BinaryOp, a: Model, b: Model): (r: Result<Model, Fatal>)
    requires Valid(a) && Valid(b)
    ensures r.Failure? <==> KindOf(a) != KindOf(b)
    ensures r.Failure? ==> r.error == BadBitstreamCast
    ensures r.Success? ==> Valid(r.value) && KindOf(r.value) == KindOf(a)
    ensures r.Success? ==> Value(r.value) == ApplyBinary(op, Value(a), Value(b))
  {
    match (a, b)
    case (Plain(x), Plain(y)) => Success(Plain(ApplyBinary(op, x, y)))
    case (Compressed(x), Compressed(y)) =>
      Success(Compressed(Compress(ApplyBinary(op, Expand(x), Expand(y)))))
    case _ => Failure(BadBitstreamCast)
  }

  /** `append(other)`: the other stream's bits after this one's. */
  function AppendStream(a: Model, b: Model): (r: Result<Model, Fatal>)
    requires Valid(a) && Valid(b)
    ensures r.Failure? <==> KindOf(a) != KindOf(b)
    ensures r.Failure? ==> r.error == BadBitstreamCast
    ensures r.Success? ==> Valid(r.value) && KindOf(r.value) == KindOf(a)
    ensures r.Success? ==> Value(r.value) == Value(a) + Value(b)
  {
    match (a, b)
    case (Plain(x), Plain(y)) => Success(Plain(x + y))
    case (Compressed(x), Compressed(y)) => Success(Compressed(RunsConcat(x, y)))
    case _ => Failure(BadBitstreamCast)
  }

  /** A cross-model operation never succeeds, whatever the operator. */
  lemma NoCoercion(op: BinaryOp, a: Model, b: Model)
    requires Valid(a) && Valid(b) && KindOf(a) != KindOf(b)
    ensures Equals(a, b) == Failure(BadBitstreamCast)
    ensures Binary(op, a, b) == Failure(BadBitstreamCast)
    ensures AppendStream(a, b) == Failure(BadBitstreamCast)
  {
  }

  /** Equality is decided on the bits: two models of one kind that stand for
      the same bits are the same model. */
  lemma EqualsIsIdentity(a: Model, b: Model)
    requires Valid(a) && Valid(b) && KindOf(a) == KindOf(b)
    ensures Equals(a, b) == Success(a == b)
  {
  }

  // ---------------------------------------------------------------------------
  // Mutators on one handle: the wrapped stream changes, the kind does not
  // ---------------------------------------------------------------------------

  /** `bitwise_not()`. */
  function Flip(m: Model): (r: Model)
    requires Valid(m)
    ensures Valid(r) && KindOf(r) == KindOf(m)
    ensures Value(r) == BitVector.Not(Value(m))
  {
    match m
    case Plain(bits) => Plain(BitVector.Not(bits))
    case Compressed(runs) => Compressed(RunsNot(runs))
  }

  /** `append(n, bit)`. */
  function AppendBits(m: Model, n: nat, bit: bool): (r: Model)
    requires Valid(m)
    ensures Valid(r) && KindOf(r) == KindOf(m)
    ensures Value(r) == Value(m) + BitVector.Filled(n, bit)
  {
    match m
    case Plain(bits) =>
      assert BitVector.AppendRun(bits, n, bit) == bits + BitVector.Filled(n, bit);
      Plain(BitVector.AppendRun(bits, n, bit))
    case Compressed(runs) =>
      ExpandAppend(runs, n, bit);
      Compressed(RunsAppend(runs, n, bit))
  }

  /** `append_block(block, bits)`. */
  function AppendBlock(m: Model, b: BitVector.Block, nbits: nat): (r: Model)
    requires Valid(m) && nbits <= BitVector.BlockWidth
    ensures Valid(r) && KindOf(r) == KindOf(m)
    ensures |Value(r)| == |Value(m)| + nbits && Value(r)[..|Value(m)|] == Value(m)
    ensures forall j :: 0 <= j < nbits ==> Value(r)[|Value(m)| + j] == BitVector.Bit(b, j)
  {
    match m
    case Plain(bits) => Plain(BitVector.AppendBlock(bits, b, nbits))
    case Compressed(runs) => Compressed(RunsAppendBlock(runs, b, nbits))
  }

  /** `push_back(bit)`. */
  function PushBack(m: Model, bit: bool): (r: Model)
    requires Valid(m)
    ensures Valid(r) && KindOf(r) == KindOf(m)
    ensures Value(r) == Value(m) + [bit]
  {
    match m
    case Plain(bits) => Plain(BitVector.PushBack(bits, bit))
    case Compressed(runs) =>
      ExpandAppend(runs, 1, bit);
      assert BitVector.Filled(1, bit) == [bit];
      Compressed(RunsAppend(runs, 1, bit))
  }

  /** `trim()`. */
  function TrimStream(m: Model): (r: Model)
    requires Valid(m)
    ensures Valid(r) && KindOf(r) == KindOf(m)
    ensures Value(r) == Trim(Value(m))
  {
    match m
    case Plain(bits) => Plain(Trim(bits))
    case Compressed(runs) => Compressed(RunsTrim(runs))
  }

  /** `clear()`. */
  function Clear(m: Model): (r: Model)
    ensures Valid(r) && KindOf(r) == KindOf(m)
    ensures Value(r) == []
  {
    Empty(KindOf(m))
  }

  // ---------------------------------------------------------------------------
  // Queries: the wrapped stream's answer
  // ---------------------------------------------------------------------------

  /** `size()`. */
  function Size(m: Model): (r: nat)
    ensures r == |Value(m)|
  {
    match m
    case Plain(bits) => |bits|
    case Compressed(runs) => RunsSize(runs)
  }

  /** `at(i)`. */
  function At(m: Model, i: nat): (r: bool)
    requires i < Size(m)
    ensures r == Value(m)[i]
  {
    match m
    case Plain(bits) => bits[i]
    case Compressed(runs) => RunsAt(runs, i)
  }

  /** `count()`. */
  function CountOnes(m: Model): (r: nat)
    ensures r == BitVector.Count(Value(m))
  {
    match m
    case Plain(bits) => BitVector.Count(bits)
    case Compressed(runs) => RunsCount(runs)
  }

  /** `empty()`. */
  function IsEmpty(m: Model): (r: bool)
    ensures r <==> Value(m) == []
  {
    Size(m) == 0
  }

  /** `back()`. */
  function Back(m: Model): (r: bool)
    requires Valid(m) && Size(m) > 0
    ensures r == Value(m)[|Value(m)| - 1]
  {
    match m
    case Plain(bits) => bits[|bits| - 1]
    case Compressed(runs) => RunsBack(runs)
  }

  /** `find_first()`. */
  function FindFirst(m: Model): (r: Option<nat>)
    ensures r == BitVector.FindFirst(Value(m))
  {
    match m
    case Plain(bits) => BitVector.FindFirst(bits)
    case Compressed(runs) => RunsFirstFrom(runs, 0)
  }

  /** `find_next(i)`. */
  function FindNext(m: Model, i: nat): (r: Option<nat>)
    ensures r == BitVector.FindNext(Value(m), i)
  {
    match m
    case Plain(bits) => BitVector.FindNext(bits, i)
    case Compressed(runs) => RunsFirstFrom(runs, i + 1)
  }

  /** `find_last()`. */
  function FindLast(m: Model): (r: Option<nat>)
    ensures r == BitVector.FindLast(Value(m))
  {
    match m
    case Plain(bits) => BitVector.FindLast(bits)
    case Compressed(runs) => RunsLastBelow(runs, RunsSize(runs))
  }

  /** `find_prev(i)`. */
  function FindPrev(m: Model, i: nat): (r: Option<nat>)
    ensures r == BitVector.FindPrev(Value(m), i)
  {
    match m
    case Plain(bits) => BitVector.FindPrev(bits, i)
    case Compressed(runs) =>
      var n := RunsSize(runs);
      RunsLastBelow(runs, if i <= n then i else n)
  }

  /** The queries do not depend on the representation: a plain and a
      run-length stream holding the same bits answer alike. */
  lemma QueriesAgree(a: Model, b: Model, i: nat)
    requires Valid(a) && Valid(b) && Value(a) == Value(b)
    ensures Size(a) == Size(b) && CountOnes(a) == CountOnes(b) && IsEmpty(a) == IsEmpty(b)
    ensures i < Size(a) ==> At(a, i) == At(b, i)
    ensures FindFirst(a) == FindFirst(b) && FindLast(a) == FindLast(b)
    ensures FindNext(a, i) == FindNext(b, i) && FindPrev(a, i) == FindPrev(b, i)
  {
  }

  // ---------------------------------------------------------------------------
  // The ones iterator
  // ---------------------------------------------------------------------------

  /** An iterator over the set positions of a model; `None` is `end()`. */
  datatype Iterator = Iterator(model: Model, pos: Option<nat>)

  /** An iterator points at a set bit of its stream, or is the end. */
  ghost predicate IterValid(it: Iterator) {
    && Valid(it.model)
    && (it.pos.Some? ==> it.pos.value < Size(it.model) && Value(it.model)[it.pos.value])
  }

  /** `begin()`: the first set position. */
  function Begin(m: Model): (it: Iterator)
    requires Valid(m)
    ensures IterValid(it) && it.model == m
    ensures it.pos == BitVector.FindFirst(Value(m))
  {
    Iterator(m, FindFirst(m))
  }

  /** `end()`. */
  function End(m: Model): (it: Iterator)
    ensures it.model == m && it.pos.None?
  {
    Iterator(m, None)
  }

  /** `++it`: the next set position after the current one. */
  function Increment(it: Iterator): (r: Iterator)
    requires IterValid(it) && it.pos.Some?
    ensures IterValid(r) && r.model == it.model
    ensures r.pos.Some? ==> it.pos.value < r.pos.value
    ensures r.pos.Some? ==> forall j :: it.pos.value < j < r.pos.value ==> !Value(it.model)[j]
    ensures r.pos.None? ==> forall j :: it.pos.value < j < |Value(it.model)| ==> !Value(it.model)[j]
  {
    Iterator(it.model, FindNext(it.model, it.pos.value))
  }

  /** `*it`. */
  function Deref(it: Iterator): (r: nat)
    requires IterValid(it) && it.pos.Some?
    ensures r < Size(it.model) && Value(it.model)[r]
  {
    it.pos.value
  }

  /** Iterator comparison: both must come from the same concrete model. */
  function IterEquals(a: Iterator, b: Iterator): (r: Result<bool, Fatal>)
    ensures r.Failure? <==> KindOf(a.model) != KindOf(b.model)
    ensures r.Failure? ==> r.error == BadIteratorCast
    ensures r.Success? ==> (r.value <==> a == b)
  {
    if KindOf(a.model) != KindOf(b.model) then Failure(BadIteratorCast)
    else Success(a == b)
  }

  /** The positions visited from `it` up to `end()`. */
  function Walk(it: Iterator): (r: seq<nat>)
    requires IterValid(it)
    decreases if it.pos.Some? then Size(it.model) - it.pos.value else 0
  {
    match it.pos
    case None => []
    case Some(k) => [k] + Walk(Increment(it))
  }

  lemma {:induction false} WalkForward(m: Model, start: nat)
    requires Valid(m)
    requires IterValid(Iterator(m, BitVector.FirstFrom(Value(m), start)))
    ensures Walk(Iterator(m, BitVector.FirstFrom(Value(m), start))) == BitVector.ForwardOnes(Value(m), start)
    decreases Size(m) - start
  {
    var it := Iterator(m, BitVector.FirstFrom(Value(m), start));
    if it.pos.Some? {
      var k := it.pos.value;
      assert Increment(it) == Iterator(m, BitVector.FirstFrom(Value(m), k + 1));
      WalkForward(m, k + 1);
    }
  }

  /** Iterating a handle from `begin()` to `end()` yields exactly the set
      positions of the wrapped stream, in ascending order. */
  lemma WalkIsOnes(m: Model)
    requires Valid(m)
    ensures Walk(Begin(m)) == BitVector.Ones(Value(m))
  {
    WalkForward(m, 0);
    BitVector.ForwardOnesIsOnes(Value(m), 0);
  }
}
