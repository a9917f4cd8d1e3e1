# OpenRQ source-block decoder contract and dense byte-matrix builders

This project models two pieces of OpenRQ, a Java implementation of the
RaptorQ forward-error-correction code of RFC 6330.

- **The source-block decoder contract** (`SourceBlockDecoder`). A receiver
  collects the encoding symbols of one source block. Source symbols have
  identifiers (ESIs) `0 .. K-1`; repair symbols have ESIs `K .. MAX_ESI`. The
  decoder answers which symbols it holds, lists the missing source ESIs in
  ascending order, and lists the repair ESIs in the order they arrived (or
  nothing once the block is decoded). `putEncodingPacket` stores a packet's
  symbols and reports `INCOMPLETE`, `DECODED` or `DECODING_FAILURE`. The model
  is the class `SourceBlockDecoding.SourceBlockDecoder`. Its state is the set
  of held source ESIs and the arrival-ordered, duplicate-free list of repair
  ESIs. The block number and K are constants.
- **The byte-vector and byte-matrix builders** (`BasicFactory`,
  `Basic2DFactory`). Each builder allocates a Java `byte[]` or `byte[][]` and
  fills it in loops. The models allocate a Dafny `array<int8>` or
  `array2<int8>` zero-filled, as Java does, and fill it with the same loops.
  Java's `byte` is the signed newtype `int8`. The cast `(byte) x` is
  `JavaTypes.ByteCast`, which keeps the low 8 bits. A `java.util.Random` is
  `JavaTypes.RandomSource`, a given infinite stream of `int` values with a
  counter of the values drawn so far.

Java exceptions are results, not preconditions (`Exceptions.Result`):
`IllegalArgumentException`, `NegativeArraySizeException` for a negative
array size, and `IndexOutOfBoundsException` for a matrix read outside its
shape.

The decoding algorithm of RFC 6330 is not part of this model. Whether a
decoding attempt succeeds is the input `decodes` of `PutEncodingPacket`.
The model says when an attempt is made: not every source symbol is held yet,
and at least K distinct symbols have been received. Below K received symbols
the constraint matrix of section 5.4 of RFC 6330 has fewer rows than
unknowns, so no attempt can succeed.

## Model

| member | source | states |
|---|---|---|
| `SourceBlockDecoding.SourceBlockDecoder.constructor` | src/net/fec/openrq/decoder/SourceBlockDecoder.java:58-70 | a new decoder has the given block number and K, and holds no symbol |
| `SourceBlockDecoding.SourceBlockDecoder.ContainsSourceSymbol` | src/net/fec/openrq/decoder/SourceBlockDecoder.java:72-90 | IllegalArgumentException exactly when the ESI is outside `[0, K)`; otherwise true iff that source symbol is held |
| `SourceBlockDecoding.SourceBlockDecoder.ContainsRepairSymbol` | src/net/fec/openrq/decoder/SourceBlockDecoder.java:92-112 | IllegalArgumentException exactly when the ESI is outside `[K, MAX_ESI]`; otherwise true iff that repair symbol is held |
| `SourceBlockDecoding.FullIffCardinality` | src/net/fec/openrq/decoder/SourceBlockDecoder.java:114-121 | a set of source ESIs holds all K of them iff it has K elements |
| `SourceBlockDecoding.SourceBlockDecoder.IsSourceBlockDecoded` | src/net/fec/openrq/decoder/SourceBlockDecoder.java:114-121 | decoded iff `ContainsSourceSymbol(e)` is true for every `e` in `[0, K)` |
| `SourceBlockDecoding.MissingFrom` | src/net/fec/openrq/decoder/SourceBlockDecoder.java:123-129 | strictly ascending; holds exactly the ESIs of the range that are not held |
| `SourceBlockDecoding.SourceBlockDecoder.MissingSourceSymbols` | src/net/fec/openrq/decoder/SourceBlockDecoder.java:123-129 | strictly ascending; `e` is listed iff `ContainsSourceSymbol(e)` returns false |
| `SourceBlockDecoding.SourceBlockDecoder.DecodedIffNothingMissing` | src/net/fec/openrq/decoder/SourceBlockDecoder.java:114-129 | the block is decoded iff no source ESI is missing |
| `SourceBlockDecoding.SourceBlockDecoder.AvailableRepairSymbols` | src/net/fec/openrq/decoder/SourceBlockDecoder.java:131-140 | empty once decoded; otherwise the held repair ESIs in arrival order; no duplicates; every listed ESI is a held repair symbol |
| `SourceBlockDecoding.AppendRepairs` | src/net/fec/openrq/decoder/SourceBlockDecoder.java:135 | receiving symbols extends the old repair list (arrival order kept); the new list holds the old ESIs plus the packet's repair ESIs, and no ESI twice |
| `SourceBlockDecoding.AppendRepairsOne` | src/net/fec/openrq/decoder/SourceBlockDecoder.java:135 | one received symbol appends its ESI exactly when it is a repair ESI not listed yet, and otherwise leaves the list unchanged |
| `SourceBlockDecoding.AppendRepairsConcat` | src/net/fec/openrq/decoder/SourceBlockDecoder.java:135 | receiving `s1` then `s2` gives the same list as receiving `s1 + s2`; with `AppendRepairsOne` this fixes the list as the repair ESIs in order of first arrival, within a packet too |
| `SourceBlockDecoding.AppendRepairsAbsorbs` | src/net/fec/openrq/decoder/SourceBlockDecoder.java:131-140 | symbols whose repair ESIs are all listed already leave the list unchanged |
| `SourceBlockDecoding.AppendRepairsIdempotent` | src/net/fec/openrq/decoder/SourceBlockDecoder.java:40-42 | storing the same symbols twice gives the same repair list as storing them once |
| `SourceBlockDecoding.SourceBlockDecoder.StoreSymbols` | src/net/fec/openrq/decoder/SourceBlockDecoder.java:40-42 | source ESIs join the held set; new repair ESIs are appended in arrival order |
| `SourceBlockDecoding.SourceBlockDecoder.PutEncodingPacket` | src/net/fec/openrq/decoder/SourceBlockDecoder.java:142-160 | another block's packet throws IllegalArgumentException and changes nothing; otherwise every ESI of the packet is held afterwards, the repair list grows in arrival order, the result is DECODED iff the block is decoded afterwards, INCOMPLETE iff fewer than K distinct symbols have been received, counting this packet, and then no attempt is made and nothing beyond the packet's symbols is held, DECODING_FAILURE only when the attempt fails; a failed attempt recovers nothing, so with K or more symbols it yields DECODING_FAILURE; the missing set never grows and decoded stays decoded |
| `JavaTypes.ByteCast` | src/main/net/fec/openrq/util/linearalgebra/factory/BasicFactory.java:96 | `(byte) x` is congruent to `x` modulo 256, and leaves a value that fits in a byte unchanged |
| `JavaTypes.ByteCastUnique` | src/main/net/fec/openrq/util/linearalgebra/factory/BasicFactory.java:96 | the byte congruent to `x` modulo 256 is unique, so it is `(byte) x` |
| `JavaTypes.RandomSource.NextInt` | src/main/net/fec/openrq/util/linearalgebra/factory/BasicFactory.java:96 | `random.nextInt()` returns the next value of the stream and advances it by one |
| `BasicFactory.Fill` | src/main/net/fec/openrq/util/linearalgebra/factory/BasicFactory.java:86 | `Arrays.fill` sets every entry to the value |
| `BasicFactory.CreateConstantVector` | src/main/net/fec/openrq/util/linearalgebra/factory/BasicFactory.java:82-89 | a negative length throws; otherwise a new array of exactly `length` entries, each equal to `value` |
| `BasicFactory.CreateRandomVector` | src/main/net/fec/openrq/util/linearalgebra/factory/BasicFactory.java:91-100 | a negative length throws and draws nothing; otherwise `length` entries, entry `i` is the low byte of the `i`-th draw, exactly `length` draws |
| `Basic2DFactory.FillRow` | src/main/net/fec/openrq/util/linearalgebra/factory/Basic2DFactory.java:91 | `Arrays.fill(array[i], value)` sets row `i` and leaves the other rows unchanged |
| `Basic2DFactory.CreateConstantMatrix` | src/main/net/fec/openrq/util/linearalgebra/factory/Basic2DFactory.java:85-95 | a negative size throws; otherwise `rows` x `columns`, every entry equal to `value` |
| `Basic2DFactory.CreateRandomMatrix` | src/main/net/fec/openrq/util/linearalgebra/factory/Basic2DFactory.java:97-109 | a negative size throws and draws nothing; otherwise `rows` x `columns`, entry `(i, j)` is the low byte of draw `i * columns + j`, exactly `rows * columns` draws |
| `Basic2DFactory.RowMajorIsBijective` | src/main/net/fec/openrq/util/linearalgebra/factory/Basic2DFactory.java:102-106 | the row-major draw indices of distinct entries are distinct and lie in `[0, rows * columns)` |
| `Basic2DFactory.CreateRandomSymmetricMatrix` | src/main/net/fec/openrq/util/linearalgebra/factory/Basic2DFactory.java:111-125 | a negative size throws; otherwise `size` x `size`, `m[i, j] == m[j, i]` for all `i`, `j`, the upper triangle filled row by row from the draws, exactly `size * (size + 1) / 2` draws |
| `Basic2DFactory.RowStartClosedForm` | src/main/net/fec/openrq/util/linearalgebra/factory/Basic2DFactory.java:116-121 | the rows before row `i` hold `i * (2 * size - i + 1) / 2` upper-triangle entries |
| `Basic2DFactory.RowStartMono` | src/main/net/fec/openrq/util/linearalgebra/factory/Basic2DFactory.java:116-117 | the number of draws made before row `i'` exceeds the number before row `i` by at least `i' - i` |
| `Basic2DFactory.UpperIndexIsBijective` | src/main/net/fec/openrq/util/linearalgebra/factory/Basic2DFactory.java:116-121 | each upper-triangle entry gets its own draw, and every draw index is below `size * (size + 1) / 2` |
| `Basic2DFactory.CreateIdentityMatrix` | src/main/net/fec/openrq/util/linearalgebra/factory/Basic2DFactory.java:133-143 | a negative size throws; otherwise `size` x `size`, 1 on the diagonal and 0 elsewhere |
| `Basic2DFactory.CreateDiagonalMatrix` | src/main/net/fec/openrq/util/linearalgebra/factory/Basic2DFactory.java:176-187 | `n` x `n` for `n = diagonal.length`, `diagonal[i]` at `(i, i)` and 0 elsewhere |
| `JavaTypes.WrapAdd` | src/main/net/fec/openrq/util/linearalgebra/factory/Basic2DFactory.java:153 | `int` addition wraps modulo 2^32; two non-negative sizes whose sum exceeds `Integer.MAX_VALUE` give a negative size |
| `Basic2DFactory.CreateBlockMatrix` | src/main/net/fec/openrq/util/linearalgebra/factory/Basic2DFactory.java:145-174 | incompatible sides throw IllegalArgumentException; overflowing sizes throw NegativeArraySizeException; a read outside a block throws; otherwise `(a.rows + c.rows)` x `(a.columns + b.columns)`, `a` in the top-left corner, every entry as the code writes it (`CellAsWritten`) |
| `Basic2DFactory.AllReadsInBoundsIffDegenerate` | src/main/net/fec/openrq/util/linearalgebra/factory/Basic2DFactory.java:156-171 | for compatible blocks, no read of `b`, `c` or `d` leaves its block iff: `b` stays in range when `a` has no rows or no columns, or `b` is at most one column wide; `c` when `a` has no rows or no columns, or `c` is at most one row tall; `d` only when `a` is 0 x 0, or `d` is at most one row tall or one column wide |
| `Basic2DFactory.SeamStaysZero` | src/main/net/fec/openrq/util/linearalgebra/factory/Basic2DFactory.java:158-169 | row `a.rows()` and column `a.columns()` are never written and stay 0, though in the intended layout they hold the first column of `b`, the first row of `c` or an entry of `d` |
| `Basic2DFactory.UnitBlocksCounterexample` | src/main/net/fec/openrq/util/linearalgebra/factory/Basic2DFactory.java:161-163 | with four 1 x 1 blocks, entry `(0, 1)` is 0 rather than `b`'s entry |
| `Basic2DFactory.WideBlockCounterexample` | src/main/net/fec/openrq/util/linearalgebra/factory/Basic2DFactory.java:161-163 | a 1 x 1 `a` beside a 1 x 2 `b` passes the side check but reads `b` out of range |
| `Basic2DFactory.CreateBlockMatrixIntended` | src/main/net/fec/openrq/util/linearalgebra/factory/Basic2DFactory.java:145-174 | with `>=` tests and shifted reads, the result holds `a`, `b`, `c` and `d` entry for entry in their four blocks, and never reads out of range |

## Left out

- `dataDecoder()` (SourceBlockDecoder.java:51-56): a back-reference to the owning data decoder, which is not part of this model.
- The RaptorQ decoding itself (matrix construction, inactivation decoding, GF(256) arithmetic). Its success is the input `decodes`. No source payload is reconstructed: a successful attempt marks every source ESI as held.
- Symbol payloads: packets carry them, but the model keeps only ESIs, because no operation of the interface returns a payload. A source ESI received twice keeps no payload either way.
- `MAX_ESI` is fixed at 2^24 - 1, the largest value of the ESI field. `ParameterChecker` is not part of this model.
- `EncodingPacket` is reduced to a block number and a sequence of (ESI, payload) pairs whose ESIs are already in `[0, MAX_ESI]`, as packets are validated when built.
- The result `DECODED` is also returned without an attempt when every source symbol is already held; the interface text speaks only of an attempt that succeeded.
- The pure delegating builders `createMatrix(...)`, `createSquareMatrix`, `createVector(...)` and the `MatrixSource`/`VectorSource` overloads. They only call the constructors of `Basic2DByteMatrix` and `BasicByteVector`, which are not part of this model. Each builder here returns the filled array itself. A `byte[][]` is a rectangular `array2`.
- Basic2DFactory.CreateBlockMatrix: the blocks `a`, `b`, `c` and `d` are modelled as dense `byte[][]` arrays, whose `get` outside the shape throws `IndexOutOfBoundsException`. `ByteMatrix` is an interface whose implementations are not part of this model; one that answers an out-of-range `get` without throwing (a sparse matrix, say) would give a result where this model gives `IndexOutOfBounds`.
- The generator arithmetic of `java.util.Random`: the model takes the stream of `nextInt()` results as given.
- `null` arguments (`NullPointerException`) and `OutOfMemoryError`: Dafny arrays are never null, and memory is unbounded.
- `serialVersionUID` and serialization.
- The benchmark harnesses `XorTest` and `ArrayAllocationTest`: they measure throughput and contain no product logic.

## Findings

| source | as written | input that shows it | evidently intended | confidence | as-written member | corrected member |
|---|---|---|---|---|---|---|
| src/main/net/fec/openrq/util/linearalgebra/factory/Basic2DFactory.java:161-168 | the tests `j > a.columns()` and `i > a.rows()` are strict, so row `a.rows()` and column `a.columns()` are never written and stay 0 | four 1 x 1 blocks with `b = [[2]]`: entry `(0, 1)` is 0, not 2 (lemma `Basic2DFactory.UnitBlocksCounterexample`) | `j >= a.columns()` and `i >= a.rows()` | high (not executed) | `Basic2DFactory.CreateBlockMatrix` | `Basic2DFactory.CreateBlockMatrixIntended` |
| src/main/net/fec/openrq/util/linearalgebra/factory/Basic2DFactory.java:161-168 | `b`, `c` and `d` are read at the unshifted `(i, j)`, out of range for all but degenerate shapes | `a` 1 x 1, `b` 1 x 2, `c` 1 x 1, `d` 1 x 2: the side check passes, then `b.get(0, 2)` is out of range (lemma `Basic2DFactory.WideBlockCounterexample`) | read `b` at `(i, j - a.columns())`, `c` at `(i - a.rows(), j)`, `d` at `(i - a.rows(), j - a.columns())` | high (not executed) | `Basic2DFactory.CreateBlockMatrix` | `Basic2DFactory.CreateBlockMatrixIntended` |
