# Symbolic bignum multiplication, modelled in Dafny

The system multiplies two arbitrary-size non-negative integers. A number is a
*symbolic number*: a vector of base-256 digits, least significant first.

- A digit table holds every single-digit product: `data[i*256 + j] == i*j`. Two
  helpers walk the table to warm the cache.
- Multiplication is schoolbook. The rows of the first operand are split into
  contiguous blocks, one block per worker thread. Each worker adds the table
  products of its rows into its own unreduced column sums. The partial sums are
  added together, then carries are propagated.
- A decimal codec converts between decimal strings and symbolic numbers by
  repeated long division: by 256 when parsing, by 10 when formatting.

The model has five modules.

- `Digits`: the integer ranges `u8`/`u16`/`u64`/`u128`, and `Pow`.
  - Little- and big-endian readings of a digit vector (`ValueLE`, `ValueBE`).
  - The canonical expansion `Expand` and reversal.
  - Their lemmas: inverse, uniqueness, injectivity, bounds.
- `Cache`: the digit table as a class over an `array<u16>`, the cache-warming
  scan and the simulated worker.
- `Schoolbook`: the meaning of the multiplier's intermediate state.
  - `ColumnSum`/`Coefficient`: the unreduced column sums.
  - `Block`: the accumulator of one row block.
  - Proofs that the sums read as the product, their bound, and the block
    partition.
- `SymbolicNumbers`: the symbolic-number datatype, `FromU128`, the worker, the
  spawn and combine loops, carry propagation and `MultiplyParallel`.
- `DecimalConversion`: parsing, formatting as written, the corrected
  formatter, round trips, and the formatter's defect.

Rust's `wrapping_add` on `u64` is modelled by `Cache.WrappingAdd`, addition
modulo 2^64.

Where the code departs from the documented behaviour, the model follows the
code:
- `from_u128(0)` returns the empty vector, not `[0]`.
- A product keeps exactly n + m digits, zeros included, so it is not
  canonical: zero times anything is n + m zero digits.
- The formatter reads the vector big-endian (see Findings), so the described
  round trip and the end-to-end "123" × "456" = "56088" scenario do not hold
  as written.

## Model

| member | source | states |
|---|---|---|
| Cache.AlignedTable.constructor | bignum_project/src/cache.rs:14-26 | after construction every entry at index i*256 + j holds i*j, for all digits i, j |
| Cache.EntryAt | bignum_project/src/cache.rs:19-22 | for digits i, j the write index row_start + j is below 65536, and the entry there stands for the product i*j |
| Cache.ProductFits | bignum_project/src/cache.rs:22 | every single-digit product is at most 65025, so the cast to u16 loses nothing |
| Cache.AlignedTable.Lookup | bignum_project/src/symbolic_number.rs:47 | the lookup data[a*256 + b] yields a*b for any two digits a, b |
| Cache.StridedSumClosed | bignum_project/src/cache.rs:36-43 | closed form of the sum of the first c strided entries: the reads 8r+s visit row r at column 32s |
| Cache.TouchCache | bignum_project/src/cache.rs:30-50 | reads exactly the indices 0, 32, …, 65504, all in bounds, without writing the table; the wrapping checksum is 29,245,440, so the "weird" branch is never taken |
| Cache.ScanRow | bignum_project/src/cache.rs:61-64 | one scan of row a adds a·(0+…+255) to the wrapping accumulator and reads exactly the indices a·256 … a·256+255 |
| Cache.WorkerSimulatedMultiply | bignum_project/src/cache.rs:54-68 | returns iterations·913,920 mod 2^64, that is iterations·(0+…+7)·(0+…+255); the indices read are exactly 0 … 8·256−1, and none when iterations = 0 |
| Schoolbook.ColumnSumSplit | bignum_project/src/symbolic_number.rs:57-62 | the column sums of adjacent row ranges add up to those of their union |
| Schoolbook.CoefficientBound | bignum_project/src/symbolic_number.rs:25 | each unreduced column sum Σ_{i+j=k} a[i]·b[j] is at most min(n, m)·65025 |
| Schoolbook.ConvolutionValue | bignum_project/src/symbolic_number.rs:42-62 | the vector of column sums, read little-endian in base 256, equals value(a)·value(b) |
| Schoolbook.ProductBound | bignum_project/src/symbolic_number.rs:25 | the product of an n-digit and an m-digit number is below 256^(n+m) |
| Schoolbook.BlockSizeCovers | bignum_project/src/symbolic_number.rs:30 | workers·ceil(n/workers) ≥ n, and the block size is at least 1 when n > 0 |
| Schoolbook.BlocksPartition | bignum_project/src/symbolic_number.rs:30-35 | every row index i < n lies in block i / size, which is a worker's block, and in no other block |
| Schoolbook.EmptyOperandSkipsEveryBlock | bignum_project/src/symbolic_number.rs:35 | when n = 0 every worker's block is empty, so none is spawned |
| SymbolicNumbers.FromU128 | bignum_project/src/symbolic_number.rs:13-20 | the digits are the canonical base-256 expansion of n, empty exactly when n = 0, at most 16 of them, and their little-endian value is n |
| SymbolicNumbers.AccumulateBlock | bignum_project/src/symbolic_number.rs:41-52 | the worker's partial vector holds, in every column k, Σ a[i]·b[k−i] over the rows i of its block |
| SymbolicNumbers.SpawnWorkers | bignum_project/src/symbolic_number.rs:28-54 | one handle per non-empty block, in order, each holding its block's partial sums; at most `workers` handles, and together they cover all n rows |
| SymbolicNumbers.CombinePartials | bignum_project/src/symbolic_number.rs:56-62 | after the handles are added up, result[k] = Σ_{i+j=k} a[i]·b[j] for every column k, whatever the partition |
| SymbolicNumbers.PropagateCarry | bignum_project/src/symbolic_number.rs:64-75 | the digits have the value of the unreduced vector and at least as many positions; when that value is below 256^len the final carry is zero, so the trailing loop adds nothing |
| SymbolicNumbers.MultiplyParallel | bignum_project/src/symbolic_number.rs:22-78 | the result's value is the product of the operands' values and it has exactly n + m digits |
| SymbolicNumbers.MultiplyIsDeterministic | bignum_project/src/symbolic_number.rs:22-78 | multiply(x, y) with p workers and multiply(y, x) with q workers give the identical digit vector |
| DecimalConversion.CharDigits | bignum_project/src/decimal_conversion.rs:11-12 | a character yields one digit exactly when it is '0'..'9' |
| DecimalConversion.DecimalDigits | bignum_project/src/decimal_conversion.rs:9-13 | the filtered digits are all below 10 and there are no more of them than characters in s |
| DecimalConversion.NoDecimalDigits | bignum_project/src/decimal_conversion.rs:9-13 | the filtered vector is empty exactly when s has no digit character |
| DecimalConversion.DecimalDigitsAppend | bignum_project/src/decimal_conversion.rs:9-13 | filtering distributes over concatenation |
| DecimalConversion.IgnoresNonDigits | bignum_project/src/decimal_conversion.rs:9-13 | "1a2b3" and "123" yield the same digits [1, 2, 3] |
| DecimalConversion.DivideDecimalBy256 | bignum_project/src/decimal_conversion.rs:21-31 | one division pass: value(dec) = 256·value(quotient) + remainder, remainder < 256, every quotient digit below 10, no leading zero, and the quotient is strictly shorter |
| DecimalConversion.DecimalToBase256 | bignum_project/src/decimal_conversion.rs:19-35 | the collected remainders are the canonical base-256 expansion of the decimal value |
| DecimalConversion.Parse | bignum_project/src/decimal_conversion.rs:6-38 | the result is the canonical base-256 expansion of the number the digit characters of s spell (its little-endian value is that number); without digit characters it is [0] |
| DecimalConversion.DivideBy10 | bignum_project/src/decimal_conversion.rs:51-61 | one division pass: value_BE(digits) = 10·value_BE(quotient) + remainder, remainder < 10, every quotient digit below 256, no leading zero |
| DecimalConversion.DecimalString | bignum_project/src/decimal_conversion.rs:67-69 | the decimal notation is non-empty, has only '0'..'9', and has no leading '0' unless it is "0" |
| DecimalConversion.Format | bignum_project/src/decimal_conversion.rs:41-70 | as written: returns the decimal notation of the BIG-endian reading of the digit vector; the empty vector gives "0" |
| DecimalConversion.FormatLittleEndian | bignum_project/src/decimal_conversion.rs:41-70 | corrected: returns the decimal notation of the number's little-endian value |
| DecimalConversion.DecimalStringValue | bignum_project/src/decimal_conversion.rs:67-69 | the digits of the decimal notation of v are the reversed expansion of v and read back as v |
| DecimalConversion.DecimalStringInjective | bignum_project/src/decimal_conversion.rs:67-69 | two numbers have the same decimal notation exactly when they are equal |
| DecimalConversion.CanonicalDecimalString | bignum_project/src/decimal_conversion.rs:9-13 | a canonical decimal string is the notation of the number it spells |
| DecimalConversion.RoundTrip | bignum_project/src/decimal_conversion.rs:6-70 | formatting (corrected) the parse of a canonical decimal string gives the string back |
| DecimalConversion.FormatThenParse | bignum_project/src/decimal_conversion.rs:6-70 | parsing the (corrected) decimal notation of a number gives its canonical digits and value back |
| DecimalConversion.MultiplyDecimal | bignum_project/src/main.rs:22-30 | parse, multiply and corrected format give the decimal notation of the product of the two numbers written in the inputs |
| DecimalConversion.AsWrittenRoundTripIffPalindrome | bignum_project/src/decimal_conversion.rs:54-57 | with the formatter as written, format(parse(s)) gives back the notation of s exactly when the base-256 digits of the number read the same both ways |
| DecimalConversion.AsWrittenFormats256As1 | bignum_project/src/decimal_conversion.rs:54-57 | "256" parses to [0, 1], which the formatter as written prints as "1" |
| DecimalConversion.AsWrittenMultiply123By456 | bignum_project/src/decimal_conversion.rs:54-57 | with the formatter as written, "123" × "456" prints "1628928", not the notation of 56088 |

## Left out

- Threads, `Arc`, `join().unwrap()` and `available_parallelism`. The workers run one after the other, and their number is a parameter `workers ≥ 1`. Nothing about interleaving is modelled, because the workers share no mutable state.
- `#[repr(align(64))]` and `read_volatile`. They only affect performance, so table reads are plain array reads.
- `println!`. `TouchCache` returns a `weird` flag instead of printing.
- `main` in cache.rs (cache.rs:70-104) is not modelled at all: it runs `touch_cache` and `worker_simulated_multiply(…, 4)` on several threads and wrapping-adds their results.
- `main` in main.rs: its parse–multiply–format pipeline is modelled with the corrected formatter, as `MultiplyDecimal`. With the formatter as written (main.rs:30) it is modelled only for the input "123" × "456", as `AsWrittenMultiply123By456`. The general as-written pipeline, and the two 100-digit inputs of main.rs:17-20, are not modelled.
- SymbolicNumbers.AccumulateBlock: does not model u32 overflow of the partial and result accumulators; they are unbounded. `CoefficientBound` bounds every column by min(n, m)·65025, which fits in u32 for min(n, m) ≤ 66051.
- SymbolicNumbers.PropagateCarry: does not model u32 overflow of `r + carry`; the carry is unbounded.
- The decimal parser and formatter use u16 for `num` and `remainder`. The model keeps those types, and every intermediate value is proved to fit.
- Characters are Dafny `char`s. `is_ascii_digit` is `'0' <= c <= '9'`, and UTF-8 encoding is not modelled. Every formatted character is proved to be a decimal digit, so `from_utf8` cannot fail.

## Findings

| source | as written | input that shows it | evidently intended | confidence | as-written member | corrected member |
|---|---|---|---|---|---|---|
| bignum_project/src/decimal_conversion.rs:54-57 | the long division by 10 walks the digit vector from index 0, so it treats digits[0] as the most significant base-256 digit | "256" parses to [0, 1] and formats as "1"; "123" × "456" gives digits [24, 219, 0], printed as "1628928" instead of "56088" | walk the little-endian vector from its last digit, so that formatting prints the number's value | high; not executed | DecimalConversion.AsWrittenFormats256As1 | DecimalConversion.FormatLittleEndian |

`Format` models the formatter as written. `AsWrittenRoundTripIffPalindrome` describes exactly where the as-written round trip still holds: the
base-256 digits must read the same in both directions. So it is not only numbers below 256: "257" parses to [1, 1] and comes back unchanged.
`FormatLittleEndian` is the corrected formatter; `RoundTrip`, `FormatThenParse` and `MultiplyDecimal` are proved with it.
