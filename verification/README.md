# VAST core, modelled in Dafny

This project models the core of VAST, a C++ system for storing and searching
network telemetry. The model covers these parts:

- **Bit vectors** (`BitVector`, `BitVectorScenarios`). A `bitvector` is modelled as
  a sequence of booleans, with 64-bit blocks (`bv64`) for block appends.
  - Construction, `push_back` and block appends.
  - `flip`, shifts and the bitwise algebra.
  - `count`, forward and backward search.
  - The bit and ones iterators, and rendering to a string.
  - The bit-vector unit test's checks are restated as lemmas about the model. Two are stated only in general, as listed under "Left out".
- **Polymorphic bitstreams** (`Bitstream`, `BitstreamPolymorphic`). A
  `bitstream` built from a concrete bitstream wraps that one model. The
  null handle of a default-constructed `bitstream` is not modelled; see
  "Left out". There are two concrete models:
  - an uncompressed sequence of bits;
  - a run-length encoding that stands in for the compressed model.

  Every operation is stated against the bits the stream represents. On two
  streams of different concrete models the source aborts the program with
  "bad bitstream cast" (or "bad iterator cast"); the model returns a
  `Failure` carrying that cast error instead, and never converts one model
  to the other.
  The iterator over set bits is modelled as well.
- **Bitmap indexes** (`Coder`, `BitmapIndex`, `EqualityCoder`).
  - An index over one coder.
  - A reference coder semantics: one optional key per row, where a skipped row
    holds no key.
  - An equality coder with one bitmap per key, proved to refine the reference
    semantics under `encode`, `decode` and `append`.
- **The range map** (`RangeMap`). Disjoint half-open intervals `[l, r)` mapped to
  values, kept sorted like the underlying ordered map. Covers `insert`, `erase`,
  `lookup`, `find`, `size` and `empty`.
- **The variant** (`Variant`). A tagged union modelled as an index into a list of
  alternative type names plus one held value. Covers construction, assignment,
  equality and order, `get`, `get_if` and `is`.
- **The command tree** (`Command`).
  - `separate_args` splits arguments into the command's own options, a
    subcommand name and the subcommand's arguments.
  - `full_name`.
  - Every decision `run` takes before it calls `run_impl` or a nested command.
- **Parsers** (`ParseCore`, `Identifier`, `PortParser`).
  - Parsing-expression-grammar combinators: sequence, ordered choice,
    one-or-more, constant actions and the `&` look-ahead.
  - The identifier grammar `+(alnum | '_')`.
  - Both overloads of the port parser `u16 >> '/' >> ("?" | "tcp" | "udp" | "icmp")`,
    with a printer that round-trips.

Search results are `Option<nat>` rather than the `npos` sentinel. Four
error conditions of the source are modelled as `Result` failures:
- bad bitstream or iterator casts, where the source aborts the program
  through `die`;
- `bad_variant_access`, which the source throws;
- the boolean-index configuration, which the source rejects at compile time
  with a `static_assert`;
- ordering operators the equality coder does not support, which it reports
  to its caller.

Sizes are unbounded `nat`s.

## Model

| member | source | states |
|---|---|---|
| BitVector.Filled | test/unit/bitvector.cc:11-13 | `bitvector{n}` and `bitvector{n, true}` hold exactly n bits, all equal to the given value |
| BitVector.PushBack | test/unit/bitvector.cc:22-31 | `push_back` keeps every earlier bit and puts the new bit at the old size, growing the size by one |
| BitVector.AppendBlock | test/unit/bitvector.cc:34-40 | `append(block, nbits)` keeps the earlier bits and puts bit j of the block at old size + j, for the nbits lowest bits |
| BitVector.AppendWord | test/unit/bitvector.cc:42 | `append(block)` appends a whole block of block_width bits, in the same order |
| BitVector.AppendRun | libvast/vast/bitstream_polymorphic.hpp:212-214 | `append(n, bit)` keeps the earlier bits and adds n copies of the bit |
| BitVector.Blocks | test/unit/bitvector.cc:32-45 | `blocks()` is the fewest 64-bit words that hold `size()` bits |
| BitVector.SetBit | test/unit/bitvector.cc:64-66 | assigning through `b[i]` sets bit i and leaves every other bit and the size alone |
| BitVector.CountSetBit | test/unit/bitvector.cc:64-72 | assigning through `b[i]` changes `count()` by the new bit minus the old one |
| BitVector.Flip | test/unit/bitvector.cc:54-55 | `flip(i)` negates bit i only |
| BitVector.FlipInvolutive | test/unit/bitvector.cc:54-65 | flipping a bit twice restores the vector, and writing a bit's own value back through `b[i]` changes nothing |
| BitVector.CountFlip | test/unit/bitvector.cc:54 | `flip(i)` lowers `count()` by one if bit i was set and raises it by one otherwise |
| BitVector.ShiftLeft | test/unit/bitvector.cc:56-58 | `a << k` keeps the size; bit i is the input's bit i - k, and zero below k |
| BitVector.ShiftRight | test/unit/bitvector.cc:59-62 | `a >> k` keeps the size; bit i is the input's bit i + k, and zero where that runs past the end |
| BitVector.ShiftLeftIs | test/unit/bitvector.cc:56-58 | `a << k` is k cleared bits followed by `a` without its top k bits; a shift by the size or more clears everything, as `a << 3` does |
| BitVector.ShiftRightIs | test/unit/bitvector.cc:59-62 | `a >> k` is `a` without its low k bits followed by k cleared bits; a shift by the size or more clears everything |
| BitVector.ShiftsRoundTrip | test/unit/bitvector.cc:56-62 | `(a << k) >> k` keeps exactly the low bits and clears the rest; `(a >> k) << k` keeps exactly the high bits |
| BitVector.CountShifts | test/unit/bitvector.cc:56-62 | a shift's `count()` is the count of the bits that stay inside the vector, and zero once everything is shifted out |
| BitVector.Not | test/unit/bitvector.cc:67 | `~b` negates every bit and keeps the size |
| BitVector.And | test/unit/bitvector.cc:70 | `&` is the pointwise conjunction of equal-size vectors |
| BitVector.Or | test/unit/bitvector.cc:69 | `\|` is the pointwise disjunction of equal-size vectors |
| BitVector.Xor | libvast/vast/bitstream_polymorphic.hpp:200-202 | `^` is the pointwise exclusive or |
| BitVector.Subtract | libvast/vast/bitstream_polymorphic.hpp:204-206 | `-` keeps exactly the bits set in the left operand and clear in the right |
| BitVector.SubtractXorAlgebra | libvast/vast/bitstream_polymorphic.hpp:200-206 | `a - b` is `a & ~b`, and `a ^ b` is `(a - b) \| (b - a)` |
| BitVector.CountSubtractXor | libvast/vast/bitstream_polymorphic.hpp:200-206 | `count(a - b) + count(a & b) == count(a)`, and `count(a ^ b) + 2 * count(a & b) == count(a) + count(b)` |
| BitVector.Count | test/unit/bitvector.cc:72 | `count()` never exceeds the size (its meaning is pinned by the lemmas below) |
| BitVector.CountAppend | test/unit/bitvector.cc:72 | the count of a concatenation is the sum of the counts |
| BitVector.CountNot | test/unit/bitvector.cc:67-72 | `count(~v)` is `size() - count(v)` |
| BitVector.CountOrAnd | test/unit/bitvector.cc:69-72 | `count(a \| b) + count(a & b) == count(a) + count(b)` |
| BitVector.FirstFrom | libvast/vast/bitstream_polymorphic.hpp:260-266 | `find_first`/`find_next`: the lowest set position at or after the start; none exactly when no bit there is set |
| BitVector.LastBelow | test/unit/bitvector.cc:83-94 | `find_last`/`find_prev`: the highest set position strictly below i; none exactly when no bit below i is set |
| BitVector.FindFirstLast | libvast/vast/bitstream_polymorphic.hpp:260-270 | `find_first` and `find_last` find something iff some bit is set, and find the lowest and highest set bit |
| BitVector.FindPrevIs | test/unit/bitvector.cc:85-89 | `find_prev(i)` is k whenever bit k is set and no bit between k and i is |
| BitVector.FindFirst | libvast/vast/bitstream_polymorphic.hpp:260-262 | `find_first()` names the lowest set bit, and finds nothing exactly when no bit is set |
| BitVector.FindNext | libvast/vast/bitstream_polymorphic.hpp:264-266 | `find_next(i)` names the lowest set bit above i, and finds nothing exactly when no bit above i is set |
| BitVector.FindLast | test/unit/bitvector.cc:83-93 | `find_last()` names the highest set bit, and finds nothing exactly when no bit is set |
| BitVector.FindPrev | test/unit/bitvector.cc:85-94 | `find_prev(i)` names the highest set bit below i, and finds nothing exactly when no bit below i is set |
| BitVector.OnesInSpec | test/unit/bitvector.cc:121-128 | the ones of a range are exactly its set positions, strictly ascending |
| BitVector.OnesCount | test/unit/bitvector.cc:121-128 | the ones iterator visits exactly `count()` positions |
| BitVector.ForwardOnesIsOnes | test/unit/bitvector.cc:121-128 | stepping with `find_first`/`find_next` visits exactly the set positions, ascending |
| BitVector.BackwardOnesIsReversed | test/unit/bitvector.cc:130-138 | stepping back from `rbegin` with `find_prev` visits the set positions in descending order |
| BitVector.RenderingReversed | test/unit/bitvector.cc:111-119 | rendering least-significant bit first is rendering most-significant first, reversed |
| BitVector.ToString | test/unit/bitvector.cc:15-17 | one character per bit, '1' for set; most-significant bit first by default, least first with `false` |
| BitVectorScenarios.ConstructionRendering | test/unit/bitvector.cc:9-18 | the empty, ten-zero and 78-one vectors render as the test expects |
| BitVectorScenarios.PushBackReadsBack | test/unit/bitvector.cc:20-32 | pushing 1, 0, 1 reads back 1, 0, 1, in three bits and one block |
| BitVectorScenarios.AppendBlocksGrow | test/unit/bitvector.cc:34-45 | the block appends set bits 3 and 18, and size and block count grow as the test expects |
| BitVectorScenarios.SixBitsValues | test/unit/bitvector.cc:50-65 | `a{6}` after `flip(3)` and `b` after setting bits 1 and 5, bit by bit |
| BitVectorScenarios.ShiftsRender | test/unit/bitvector.cc:55-58 | the left-shift renderings of the test |
| BitVectorScenarios.ShiftsRightRender | test/unit/bitvector.cc:59-62 | the right-shift renderings of the test |
| BitVectorScenarios.AlgebraRenders | test/unit/bitvector.cc:66-74 | the renderings of `b`, `~b`, `a \| ~b`, `(~a << 2) & b` and of `b` least-significant first |
| BitVectorScenarios.CountSixBits | test/unit/bitvector.cc:72 | `b.count()` is 3 |
| BitVectorScenarios.BackwardSearchTwoWords | test/unit/bitvector.cc:79-89 | `find_last` gives 125, then `find_prev` gives 124 and 119, and `find_prev(63)` gives 15 |
| BitVectorScenarios.BackwardSearchOneWord | test/unit/bitvector.cc:91-94 | `find_last` gives 63 and `find_prev(59)` gives 55 |
| BitVectorScenarios.BitIteration | test/unit/bitvector.cc:99-119 | the reverse bit iteration is the forward rendering reversed |
| BitVectorScenarios.ReverseOnesIteration | test/unit/bitvector.cc:130-135 | the reverse ones iterator visits 61, 60 and 55 first |
| BitVectorScenarios.ClearThroughIterator | test/unit/bitvector.cc:140-146 | clearing the first two ones visited backwards leaves 55 as the highest set bit |
| Bitstream.ApplyBinary | libvast/vast/bitstream_polymorphic.hpp:192-206 | a binary operation is the operator applied bit by bit, over the longer operand's length, with zeros past the shorter |
| Bitstream.Trim | libvast/vast/bitstream_polymorphic.hpp:224-226 | `trim` drops exactly the trailing zeros: a prefix ending in a one (or empty), and all dropped bits are zero |
| Bitstream.RunsAppend | libvast/vast/bitstream_polymorphic.hpp:212-214 | `append(n, bit)` on the run-length model keeps the encoding canonical and ends in the appended bit |
| Bitstream.ExpandAppend | libvast/vast/bitstream_polymorphic.hpp:212-214 | `append(n, bit)` on the run-length model appends exactly n copies of the bit to the represented bits |
| Bitstream.RunsAppendTwice | libvast/vast/bitstream_polymorphic.hpp:212-214 | appending m and then k copies of a bit is appending m + k copies |
| Bitstream.Compress | libvast/vast/bitstream_polymorphic.hpp:220-222 | encoding bits by `push_back` gives a canonical run-length encoding of exactly those bits |
| Bitstream.CompressAppendFilled | libvast/vast/bitstream_polymorphic.hpp:212-222 | encoding bits followed by a run is appending the run to the bits' encoding |
| Bitstream.CanonicalUnique | libvast/vast/bitstream_polymorphic.hpp:165-167 | a canonical encoding is the encoding of the bits it represents: each bit sequence has only one |
| Bitstream.CanonicalEquality | libvast/vast/bitstream_polymorphic.hpp:165-167 | two canonical encodings are equal iff they represent the same bits |
| Bitstream.RunsSize | libvast/vast/bitstream_polymorphic.hpp:236-238 | `size()` of the run-length model is the number of represented bits |
| Bitstream.RunsCount | libvast/vast/bitstream_polymorphic.hpp:240-242 | `count()` of the run-length model is the count of the represented bits |
| Bitstream.RunsAt | libvast/vast/bitstream_polymorphic.hpp:232-234 | `at(i)` of the run-length model is represented bit i |
| Bitstream.RunsNot | libvast/vast/bitstream_polymorphic.hpp:188-190 | flipping the run-length model stays canonical and represents the negated bits |
| Bitstream.RunsConcat | libvast/vast/bitstream_polymorphic.hpp:208-210 | appending one run-length stream to another stays canonical and represents the concatenation |
| Bitstream.RunsTrim | libvast/vast/bitstream_polymorphic.hpp:224-226 | trimming the run-length model stays canonical and represents the trimmed bits |
| Bitstream.RunsBack | libvast/vast/bitstream_polymorphic.hpp:256-258 | `back()` of the run-length model is the last represented bit |
| Bitstream.RunsAppendBlock | libvast/vast/bitstream_polymorphic.hpp:216-218 | `append_block` on the run-length model stays canonical and represents the block append |
| Bitstream.RunsFirstFrom | libvast/vast/bitstream_polymorphic.hpp:260-266 | `find_first`/`find_next` on the run-length model agree with the search on the represented bits |
| Bitstream.RunsLastBelow | libvast/vast/bitstream_polymorphic.hpp:268-274 | `find_last`/`find_prev` on the run-length model agree with the search on the represented bits |
| BitstreamPolymorphic.Empty | libvast/vast/bitstream_polymorphic.hpp:175 | a default-constructed model of either kind represents no bits |
| BitstreamPolymorphic.FromBits | libvast/vast/bitstream_polymorphic.hpp:300-307 | wrapping a concrete stream keeps its kind and its bits |
| BitstreamPolymorphic.Equals | libvast/vast/bitstream_polymorphic.hpp:184-186 | comparing models of different kinds fails with the bad-cast error; same kind: equal iff same bits |
| BitstreamPolymorphic.Binary | libvast/vast/bitstream_polymorphic.hpp:192-206 | `&`, `\|`, `^` and `-` fail with the bad-cast error iff the kinds differ; otherwise they keep the kind and combine the bits |
| BitstreamPolymorphic.AppendStream | libvast/vast/bitstream_polymorphic.hpp:208-210 | `append(other)` fails iff the kinds differ; otherwise the bits are concatenated and the kind kept |
| BitstreamPolymorphic.NoCoercion | libvast/vast/bitstream_polymorphic.hpp:151-163 | no operation on two models of different kinds converts one to the other: each fails with the cast error |
| BitstreamPolymorphic.EqualsIsIdentity | libvast/vast/bitstream_polymorphic.hpp:165-167 | for models of one kind, `==` holds exactly when the models are identical (canonical encodings are unique) |
| BitstreamPolymorphic.Flip | libvast/vast/bitstream_polymorphic.hpp:188-190 | flipping keeps the kind and negates every represented bit |
| BitstreamPolymorphic.AppendBits | libvast/vast/bitstream_polymorphic.hpp:212-214 | `append(n, bit)` keeps the kind and appends n copies of the bit |
| BitstreamPolymorphic.AppendBlock | libvast/vast/bitstream_polymorphic.hpp:216-218 | `append_block` keeps the kind and the earlier bits, and appends the block's low bits in order |
| BitstreamPolymorphic.PushBack | libvast/vast/bitstream_polymorphic.hpp:220-222 | `push_back` keeps the kind and appends one bit |
| BitstreamPolymorphic.TrimStream | libvast/vast/bitstream_polymorphic.hpp:224-226 | `trim` keeps the kind and drops the trailing zeros |
| BitstreamPolymorphic.Clear | libvast/vast/bitstream_polymorphic.hpp:228-230 | `clear` keeps the kind and leaves no bits |
| BitstreamPolymorphic.Size | libvast/vast/bitstream_polymorphic.hpp:236-238 | `size()` is the number of represented bits |
| BitstreamPolymorphic.At | libvast/vast/bitstream_polymorphic.hpp:232-234 | `at(i)` is represented bit i |
| BitstreamPolymorphic.CountOnes | libvast/vast/bitstream_polymorphic.hpp:240-242 | `count()` is the count of represented ones |
| BitstreamPolymorphic.IsEmpty | libvast/vast/bitstream_polymorphic.hpp:244-246 | `empty()` holds iff no bits are represented |
| BitstreamPolymorphic.Back | libvast/vast/bitstream_polymorphic.hpp:256-258 | `back()` is the last represented bit |
| BitstreamPolymorphic.FindFirst | libvast/vast/bitstream_polymorphic.hpp:260-262 | `find_first` is the bit-vector search on the represented bits, for either kind |
| BitstreamPolymorphic.FindNext | libvast/vast/bitstream_polymorphic.hpp:264-266 | `find_next` is the bit-vector search on the represented bits, for either kind |
| BitstreamPolymorphic.FindLast | libvast/vast/bitstream_polymorphic.hpp:268-270 | `find_last` is the bit-vector search on the represented bits, for either kind |
| BitstreamPolymorphic.FindPrev | libvast/vast/bitstream_polymorphic.hpp:272-274 | `find_prev` is the bit-vector search on the represented bits, for either kind |
| BitstreamPolymorphic.QueriesAgree | libvast/vast/bitstream_polymorphic.hpp:232-274 | two models representing the same bits answer every query alike, whatever their kinds |
| BitstreamPolymorphic.Begin | libvast/vast/bitstream_polymorphic.hpp:248-250 | `begin()` points at the first set bit |
| BitstreamPolymorphic.End | libvast/vast/bitstream_polymorphic.hpp:252-254 | `end()` points past every bit |
| BitstreamPolymorphic.Increment | libvast/vast/bitstream_polymorphic.hpp:69-71 | `++` moves to the next set bit, skipping only clear bits, or to the end when none is left |
| BitstreamPolymorphic.Deref | libvast/vast/bitstream_polymorphic.hpp:73-75 | dereferencing gives a position whose bit is set |
| BitstreamPolymorphic.IterEquals | libvast/vast/bitstream_polymorphic.hpp:62-67 | comparing iterators of different kinds fails with the iterator-cast error; otherwise it is equality |
| BitstreamPolymorphic.WalkIsOnes | libvast/vast/bitstream_polymorphic.hpp:248-254 | iterating from `begin()` to `end()` visits exactly the set positions, ascending |
| Coder.Encode | libvast/vast/bitmap_index.hpp:68-74 | `encode(k, n, skip)` keeps the earlier rows, adds n rows holding k, then skip rows holding nothing |
| Coder.Decode | libvast/vast/bitmap_index.hpp:82-88 | `decode(op, x)` has one bit per row, set iff the row holds a key v with `op(v, x)` |
| Coder.EncodeExtends | libvast/vast/bitmap_index.hpp:68-74 | encoding leaves every earlier row's answer unchanged |
| Coder.EncodeNewRows | libvast/vast/bitmap_index.hpp:59-74 | the n new rows answer `op(k, x)`; the skipped rows answer 0 for every operator |
| Coder.EqualNotEqualPartition | libvast/vast/bitmap_index.hpp:59-63 | no row is in both `==` and `!=`; the rows in either are exactly the non-skipped rows |
| Coder.OrderingConsistent | libvast/vast/bitmap_index.hpp:82-88 | `<=` is `<` or `==`, `>=` is `>` or `==`, and each non-skipped row is in exactly one of `<`, `==`, `>` |
| Coder.DecodeConcat | libvast/vast/bitmap_index.hpp:76-80 | decoding concatenated rows concatenates every answer |
| BitmapIndex.Make | libvast/vast/bitmap_index.hpp:40-41 | a boolean-valued index needs a singleton coder; any allowed index starts empty |
| BitmapIndex.IsEmpty | libvast/vast/bitmap_index.hpp:96-100 | `empty()` holds iff the index has no rows |
| BitmapIndex.Size | libvast/vast/bitmap_index.hpp:90-94 | `size()` is the length of every lookup's answer |
| BitmapIndex.Equal | libvast/vast/bitmap_index.hpp:108-110 | equal indexes have the same size and answer every lookup alike |
| BitmapIndex.Lookup | libvast/vast/bitmap_index.hpp:82-88 | `lookup(op, x)` has one bit per row, set iff the row's key v satisfies `op(v, bin(x))` |
| BitmapIndex.Append | libvast/vast/bitmap_index.hpp:68-74 | `append(x, n, skip)` grows by n + skip rows; earlier answers stay, the n rows answer for `bin(x)`, skipped rows answer 0 |
| BitmapIndex.PushBack | libvast/vast/bitmap_index.hpp:59-66 | `push_back(x, skip)` grows by 1 + skip rows with the same answers as `append` |
| BitmapIndex.PushBackIsAppend | libvast/vast/bitmap_index.hpp:64-66 | `push_back(x, skip)` is `append(x, 1, skip)` |
| BitmapIndex.AppendIndex | libvast/vast/bitmap_index.hpp:76-80 | `append(other)` adds the sizes and concatenates every lookup |
| BitmapIndex.EqualIsObservational | libvast/vast/bitmap_index.hpp:108-110 | two indexes are `==` iff they have the same size and answer every lookup alike |
| BitmapIndex.PushBackRoundTrip | libvast/vast/bitmap_index.hpp:59-66 | after pushing a new value, looking it up finds exactly the new row |
| BitmapIndex.SkipScenario | libvast/vast/bitmap_index.hpp:68-74 | `append(x, 2, 1)` adds two rows that match x and one skipped row that matches nothing |
| EqualityCoder.Empty | libvast/vast/bitmap_index.hpp:49 | a fresh equality coder represents no rows |
| EqualityCoder.Size | libvast/vast/bitmap_index.hpp:90-94 | the coder's size is the number of rows it represents |
| EqualityCoder.Encode | libvast/vast/bitmap_index.hpp:59-61 | encoding grows the size by n + skip and gives the key a bitmap |
| EqualityCoder.EncodeRefines | libvast/vast/bitmap_index.hpp:59-63 | equality encoding (1 in the key's bitmap, 0 in all others) implements the reference `encode` |
| EqualityCoder.Decode | libvast/vast/bitmap_index.hpp:82-88 | the equality coder answers `==` and `!=` with one bit per row and rejects the ordering operators |
| EqualityCoder.DecodeRefines | libvast/vast/bitmap_index.hpp:82-88 | every answer the equality coder gives is the reference answer |
| EqualityCoder.Append | libvast/vast/bitmap_index.hpp:76-80 | appending another coder adds the sizes |
| EqualityCoder.AppendRefines | libvast/vast/bitmap_index.hpp:76-80 | appending another equality coder implements appending its rows |
| EqualityCoder.EqualityScenario | libvast/vast/bitmap_index.hpp:59-63 | after 3, 1, 3, 2: `== 3` is 1010, `!= 3` is 0101, `< 3` is rejected |
| RangeMap.ContainsUnique | src/vast/util/range_map.h:12-13 | intervals are disjoint, so at most one holds any point |
| RangeMap.LowerBound | src/vast/util/range_map.h:71 | `lower_bound(l)`: every entry before it starts below l, every entry from it on starts at l or later |
| RangeMap.FindIndex | src/vast/util/range_map.h:134-141 | the private `find` from `lower_bound` yields the interval holding the point, and nothing iff none does |
| RangeMap.FindFromComplete | src/vast/util/range_map.h:134-141 | starting at `lower_bound`, checking that entry and its predecessor misses no interval |
| RangeMap.Lookup | src/vast/util/range_map.h:94-102 | `lookup(p)` finds nothing iff no interval holds p; otherwise it gives the value of an interval holding p |
| RangeMap.LookupIs | src/vast/util/range_map.h:94-102 | `lookup(p)` is the value of the one interval holding p |
| RangeMap.Find | src/vast/util/range_map.h:104-118 | `find(p)` gives the value and both endpoints of the interval holding p, or nothing and 0, 0 |
| RangeMap.Insert | src/vast/util/range_map.h:68-78 | `insert(l, r, v)` succeeds iff no stored interval meets `[l, r)`; on failure nothing changes; on success the entry is placed in order and the map stays disjoint |
| RangeMap.InsertValid | src/vast/util/range_map.h:70-77 | the position checks `insert` makes are enough: the new entry keeps the map sorted and disjoint |
| RangeMap.InsertLookup | src/vast/util/range_map.h:68-78 | after a successful insert, the points of `[l, r)` look up v and every other point looks up as before |
| RangeMap.Erase | src/vast/util/range_map.h:80-92 | `erase(p)` succeeds iff some interval holds p, and then removes exactly that entry |
| RangeMap.RemoveValid | src/vast/util/range_map.h:80-92 | removing an entry keeps the map sorted and disjoint |
| RangeMap.EraseLookup | src/vast/util/range_map.h:80-92 | after erasing, the erased interval's points look up nothing and every other point looks up as before |
| RangeMap.IsEmpty | src/vast/util/range_map.h:127-132 | `empty()` holds iff no point looks anything up |
| RangeMap.Size | src/vast/util/range_map.h:120-125 | on a valid map, `size()` is zero exactly when the map is empty |
| RangeMap.IterationAscends | src/vast/util/range_map.h:53-61 | iteration visits the intervals with strictly ascending left and right endpoints |
| Variant.Default | libvast/vast/variant.hpp:129-133 | default construction holds the first alternative with its default value |
| Variant.Make | libvast/vast/variant.hpp:122-127 | `make(i)` holds alternative i, default-constructed, for any i naming an alternative |
| Variant.Assign | libvast/vast/variant.hpp:159-170 | assignment, in place or by destroy-and-construct, leaves the target equal to the source |
| Variant.Equal | libvast/vast/variant.hpp:380-408 | `==` is false across different alternatives; for the same alternative it is the alternative's own `==` on the held values, so a NaN-holding variant is unequal to itself |
| Variant.EqualEquivalence | libvast/vast/variant.hpp:380-408 | `==` is reflexive, symmetric and transitive whenever the alternatives' `==` is |
| Variant.EqualIsIdentity | libvast/vast/variant.hpp:406-408 | when the alternatives' `==` is identity, `==` holds exactly for identical variants |
| Variant.EqualNotReflexive | libvast/vast/variant.hpp:380-408 | a held value its own `==` rejects, such as a NaN, makes the variant unequal to itself |
| Variant.Less | libvast/vast/variant.hpp:393-415 | a lower index is always less and a higher never; for the same index `<` is the alternative's own `<` on the held values |
| Variant.LessIrreflexive | libvast/vast/variant.hpp:410-415 | `<` is irreflexive when the values' `<` is |
| Variant.LessTransitive | libvast/vast/variant.hpp:410-415 | `<` is transitive when the values' `<` is |
| Variant.LessTrichotomous | libvast/vast/variant.hpp:406-415 | when the values' `<` is asymmetric, excludes `==`, and one of `==`, `<` and reversed `<` always holds, exactly one of `x < y`, `x == y`, `y < x` holds, with `==` the variant's own |
| Variant.Getters | libvast/vast/variant.hpp:491-501 | the getter visitor has one handler per alternative; it yields the value for alternatives of the requested type and nothing for every other |
| Variant.GetIf | libvast/vast/variant.hpp:540-543 | `get_if<U>` yields the held value iff the active alternative is U, nothing otherwise |
| Variant.Get | libvast/vast/variant.hpp:554-559 | `get<U>` yields the held value iff the active alternative is U; otherwise it fails with `bad_variant_access` |
| Variant.Is | libvast/vast/variant.hpp:561-564 | `is<U>` holds iff the active alternative is U |
| Variant.AccessAgrees | libvast/vast/variant.hpp:540-564 | `is<U>` holds iff `get<U>` succeeds, and then `get` and `get_if` agree |
| Variant.MakeThenIs | libvast/vast/variant.hpp:122-127 | a made variant is of exactly its own alternative type |
| Command.SeparateArgs | libvast/src/command.cpp:133-155 | no subcommand iff no token is reached by the scan; otherwise the three parts rebuild the arguments around the first token the scan stops at |
| Command.SeparateArgsAt | libvast/src/command.cpp:139-151 | when the scan stops at position k, the split is the arguments before k, token k, and the rest |
| Command.SeparateFromFound | libvast/src/command.cpp:139-151 | scanning from any position the scan passes through stops at the same token |
| Command.SeparateFromSound | libvast/src/command.cpp:139-154 | scanning from a position either runs off the end, with no stopping token ahead, or stops at one |
| Command.FullNameIsJoin | libvast/src/command.cpp:97-106 | the full name is the command names below the root joined by single spaces; a root's is empty |
| Command.IsRoot | libvast/src/command.cpp:112-114 | a command is the root iff no names lead to it from the root, and then its full name is empty |
| Command.FullName | libvast/src/command.cpp:97-106 | a root's full name is empty; a child's ends with its own name, and is just that name under the root |
| Command.Run | libvast/src/command.cpp:34-86 | help ends the run successfully; a nested call names a known subcommand with exactly its arguments; `run_impl` gets arguments only without nested commands; the assertion fails only for arguments after a missing subcommand; failure comes only from `proceed` or an unknown subcommand |
| Command.DefaultCommandFails | libvast/src/command.cpp:116-131 | with the default `proceed` and `run_impl` and no nested commands, a run without help reaches `run_impl`, which fails, or violates the assertion |
| Command.RunHelpFirst | libvast/src/command.cpp:38-50 | for every argument list, when this command's own options ask for help the run succeeds before `proceed`, `run_impl` or any nested command |
| Command.HelpAlone | libvast/src/command.cpp:38-50 | `--help` alone is skipped as a long option, so there is no subcommand, and the run succeeds |
| Command.RunProceedStops | libvast/src/command.cpp:52-65 | for every argument list without help, a `proceed` that stops makes the run exit with success or failure, before any subcommand is looked at |
| Command.RunWithoutSubcommand | libvast/src/command.cpp:57-70 | once help is not asked for and any `proceed` answers `proceed_ok`, a run without a subcommand calls `run_impl` with no arguments |
| Command.RunLeaf | libvast/src/command.cpp:57-75 | once help is not asked for and any `proceed` answers `proceed_ok`, a command without nested commands passes the subcommand token and everything after it to `run_impl`, which by default fails |
| Command.RunDispatch | libvast/src/command.cpp:57-85 | once help is not asked for and any `proceed` answers `proceed_ok`, a known subcommand runs with exactly the tokens after its name |
| Command.RunUnknownSubcommand | libvast/src/command.cpp:57-84 | once help is not asked for and any `proceed` answers `proceed_ok`, an unknown subcommand fails when nested commands exist |
| Command.EmptySubcommandToken | libvast/src/command.cpp:57-70 | once help is not asked for and any `proceed` answers `proceed_ok`, an empty token taken as the subcommand counts as missing, so the assertion fails iff tokens follow it |
| ParseCore.Many | libvast/vast/concept/parseable/core/operators.hpp:84-91 | repetition never grows the remaining input |
| ParseCore.Plus | libvast/vast/concept/parseable/core/operators.hpp:93-100 | `+p` succeeds iff p does, and its first element is p's attribute |
| ParseCore.RunLengthMaximal | libvast/vast/concept/parseable/core/operators.hpp:93-100 | the run a class parser repeats over is the longest prefix in the class |
| ParseCore.ManyClass | libvast/vast/concept/parseable/core/operators.hpp:84-91 | repeating a class parser takes the longest run of the class and leaves the rest |
| ParseCore.PlusClass | libvast/vast/concept/parseable/core/operators.hpp:93-100 | one-or-more of a class fails iff the first character is outside it; otherwise it takes the longest run |
| ParseCore.ManyAgree | libvast/vast/concept/parseable/core/operators.hpp:84-91 | repetition depends only on what the repeated parser does |
| ParseCore.AltClass | libvast/vast/concept/parseable/core/operators.hpp:136-141 | ordered choice between two character classes is the class of their union |
| ParseCore.AndLooksAhead | libvast/vast/concept/parseable/core/and.hpp:30-34 | `&p` succeeds iff p does and consumes nothing |
| ParseCore.AndIdempotent | libvast/vast/concept/parseable/core/and.hpp:21-34 | `&&p` behaves as `&p` |
| ParseCore.And | libvast/vast/concept/parseable/core/and.hpp:22-34 | `&p` succeeds on exactly the inputs p succeeds on, and leaves the input untouched |
| ParseCore.LitMatches | src/vast/concept/parseable/vast/port.h:19 | a literal matches input that starts with it and leaves the rest |
| Identifier.Parse | libvast/vast/concept/parseable/vast/identifier.hpp:26 | `identifier` succeeds iff the first character is alphanumeric or '_'; it then takes the longest run of such characters and stops at the first other one |
| Identifier.ParseSplits | libvast/vast/concept/parseable/vast/identifier.hpp:26 | an identifier followed by a non-identifier character, or by nothing, parses to exactly that identifier |
| Identifier.Examples | libvast/vast/concept/parseable/vast/identifier.hpp:26 | `foo_1 bar` gives `foo_1`, `_` gives `_`, and empty input or `-x` fail |
| PortParser.U16 | src/vast/concept/parseable/vast/port.h:27 | the number parser yields only values below 65536 |
| PortParser.U16Of | src/vast/concept/parseable/vast/port.h:27 | a run of digits followed by a non-digit parses to its value iff that fits in 16 bits |
| PortParser.Parse | src/vast/concept/parseable/vast/port.h:23-37 | the attributed parser stores only 16-bit numbers in the port |
| PortParser.Recognize | src/vast/concept/parseable/vast/port.h:16-21 | the attribute-less overload accepts exactly a 16-bit number, a slash and a protocol name, and leaves the same rest as those steps |
| PortParser.OverloadsAgree | src/vast/concept/parseable/vast/port.h:16-37 | both overloads accept the same inputs and leave the same rest |
| PortParser.ProtocolSound | src/vast/concept/parseable/vast/port.h:29-32 | a matched protocol is one of the four names, followed by the rest |
| PortParser.ProtocolComplete | src/vast/concept/parseable/vast/port.h:29-32 | each protocol name parses to its port type |
| PortParser.ParseSound | src/vast/concept/parseable/vast/port.h:26-36 | an accepted input is digits with the port's number as value, a slash, the protocol's name, and the rest |
| PortParser.DecimalValue | src/vast/concept/parseable/vast/port.h:27 | a printed number reads back as itself |
| PortParser.RoundTrip | src/vast/concept/parseable/vast/port.h:23-37 | a printed port with a 16-bit number parses back to itself, whatever follows |
| PortParser.RejectsWideNumber | src/vast/concept/parseable/vast/port.h:27 | a printed port whose number needs more than 16 bits is rejected |
| PortParser.RejectsMissingSlash | src/vast/concept/parseable/vast/port.h:28 | digits followed by anything other than a slash are rejected |
| PortParser.RejectsUnknownProtocol | src/vast/concept/parseable/vast/port.h:29-33 | a slash followed by none of the protocol names is rejected |
| PortParser.AcceptsTcp | src/vast/concept/parseable/vast/port.h:23-37 | `80/tcp` parses to port 80, tcp |
| PortParser.AcceptsUnknown | src/vast/concept/parseable/vast/port.h:29 | `0/?` parses to port 0 of unknown type |
| PortParser.LeavesRest | src/vast/concept/parseable/vast/port.h:23-37 | `53/udp rest` parses to port 53, udp, leaving ` rest` |
| PortParser.RejectsExamples | src/vast/concept/parseable/vast/port.h:26-34 | `80/sctp` and `80tcp` are rejected |
| PortParser.RejectsOverflowExample | src/vast/concept/parseable/vast/port.h:27 | `65536/tcp` is rejected |

## Left out

- The coders' and binners' own headers are not part of this model.
  - Coder semantics is the reference "one optional key per row" model.
  - The equality coder is the one concrete coder.
  - Range, bitslice and multi-level coders are left out.
  - Binning and the order-preserving `transform`, including floating point, become a function parameter `bin`.
- The compressed bitstream model (EWAH) is not part of this model.
  - A canonical run-length encoding stands in for it.
  - Its binary operations are stated by decompressing, combining and recompressing.
  - Operands of different lengths are zero-extended to the longer one.
- The repetition parsers' own headers are not part of this model. `ParseCore.Many` and `ParseCore.Plus` assume greedy repetition as in parsing expression grammars. They also require the repeated parser to consume input whenever it succeeds (`Consumes`). A repeated parser that can succeed without consuming, such as `+&p`, is therefore not modelled.
- The null handle of a default-constructed `bitstream` is not modelled, and neither is `operator bool`, which reports it. What the operations do on that handle is implemented out of line, and that code is not part of this model. The model always holds a concrete model; `BitstreamPolymorphic.Empty` is an empty one.
- The `u16` number parser is not part of this model. It is taken as one or more decimal digits, as many as there are, whose value must be below 65536.
- A parser that fails may already have written part of its attribute. The model yields no attribute on failure.
- The variant's raw storage, in-place construction, destruction, `inspect` and `noexcept` specifications are left out. A variant is its index and value; alternatives are named by a list of type names over one payload type.
- Variant.Visit has no contract of its own: it only dispatches. Its meaning is stated through `GetIf`, `Get` and `Is`.
- Copies are not modelled separately. Values are immutable, so a copy is always independent of its source. This covers bitstream copies, variant copy and move construction, and bit-vector copy construction.
- Program aborts and compile-time rejections are not modelled as such. The `die` calls on a bitstream or iterator cast across concrete models (libvast/vast/bitstream_polymorphic.hpp:63-65, 152-162) and the `static_assert` on a boolean index without a singleton coder (libvast/vast/bitmap_index.hpp:40-41) both become ordinary `Failure` results, so the model states when they happen but not that the program stops or never compiles.
- Ownership through `unique_ptr` and the iterator facade plumbing are left out. The iterator is a model and a position.
- The command's side effects are left out: the actor system, `option_map`, key/value defaults, the help text and printing, and `usage`. `extract_opts` and `proceed` are parameters. Nested commands' own runs are a `CallNested` step. A failed `VAST_ASSERT` is the `AssertionViolated` step, modelled as the code is written.
- Command.FullNameIsJoin: assumes non-empty command names. An empty name makes `full_name` skip a separator, which plain joining does not.
- BitVectorScenarios.ReverseOnesIteration states only the first three positions. Two iteration checks are not restated as numbers:
  - the 42 ones of test/unit/bitvector.cc:128 are covered in general by `BitVector.OnesCount` and `BitVector.OnesInSpec`;
  - the final position 0 at `rend` (line 138) belongs to the iterator facade, which is not modelled.
- BitVector.FindPrev: the bit-vector header is not part of this model, and the unit test calls `find_prev(i)` only with i inside the vector. For i past the size the model searches from the end, so the result is that of `find_last()`; this is an assumption about the unseen code.
- BitstreamPolymorphic.FindPrev: forwards to the bit-vector search, so it shares the assumption above for i past the size.
- BitVector.Count: its contract alone only bounds the result. The count is pinned by `CountAppend`, `CountNot`, `CountOrAnd` and `OnesCount`.
- `size_type` and block-width integers are unbounded. No overflow of sizes is modelled.
- The repository's remaining files are outside the modelled core: they are I/O, actors and type registration. These are the source readers, the archive, the start command and runtime type information.
