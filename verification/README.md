# Bitmap run-length codec, modelled in Dafny

This project models `BitmapCompressor`, a run-length codec for bitmaps made of long runs
of equal bits. The compressor reads a bit stream. For each run it writes one 8-bit block
(`BLOCK_LEN = 8`) that holds the run's length. Run values are never written. They
alternate, and the first block always counts 0s. Two cases need special blocks:

- An input that starts with a 1 gets a leading zero-length block: "no zeros".
- A run that reaches `MAX_LEN = 255` is written at once. The count then restarts at 0
  with the value flipped. If the same run goes on, a zero-length block for the opposite
  value comes next.

The expander reads blocks and writes `count` copies of the current value for each one.
It flips the value after every block, zero-length blocks included.

The bit streams are sequences: the input is a `seq<bool>` and the compressed stream is a
`seq<nat>` with one element per 8-bit block.

Modules:

- `Format` (`format.dfy`): the constants, the decoding `Expand`, and the `Canonical`
  shape of a complete compressed stream. Every block is at most 255. A zero-length block
  after the first one comes only right after a 255. The last block is below 255.
- `Compressor` (`compressor.dfy`): one loop iteration as `Step`, the loop as `Feed`,
  the whole operation as `CompressBits`, and the method `Compress`, which follows the
  original loop statement by statement.
- `Expander` (`expander.dfy`): the method `ExpandStream`, with both loops of the original.
- `Canonicity` (`canonicity.dfy`): two canonical streams that decode to the same bits are
  equal. So the compressor's output is the only canonical encoding of its input, and
  compressing the decoding of a canonical stream gives the stream back.
- `Runs` (`runs.dfy`): what is written for runs below, at and past the cap, plus the
  concrete scenarios.

Empty input follows the code. A description of this codec asks that an empty input
compress to no blocks. The code instead reads the first bit without checking that there
is one (line 41), and the stream library throws on an empty stream. In the model, an
empty input gives the error `EmptyInput`.

## Model

| member | source | states |
|---|---|---|
| `Format.ExpandFrom` | src/BitmapCompressor.java:77-84 | the number of bits decoded is the sum of the block counts, so no blocks decode to no bits |
| `Format.ExpandAppend` | src/BitmapCompressor.java:78-84 | decoding a concatenation is decoding the first part, then the second part, whose starting value is set by how many blocks came before it |
| `Format.ExpandSnoc` | src/BitmapCompressor.java:79-83 | block number n adds exactly its count of copies of its value, which is 1 when n is odd |
| `Format.ExpandBlock` | src/BitmapCompressor.java:77-84 | block k lands at the offset equal to the total of the earlier blocks and is blocks[k] copies of 0 for even k and of 1 for odd k; a zero-length block adds nothing but still flips the value |
| `Format.ExpandTrailingZero` | src/BitmapCompressor.java:80-83 | a trailing zero-length block adds no bits |
| `Format.LeadBlock` | src/BitmapCompressor.java:40-42 | in a cap-shaped stream, the first decoded bit is 1 exactly when the first block has length 0 |
| `Expander.ExpandStream` | src/BitmapCompressor.java:76-87 | the two nested loops write exactly the decoding of the block stream, whose length is the sum of the counts |
| `Compressor.FeedAppendsOnly` | src/BitmapCompressor.java:46-65 | blocks already written are never changed, and each input bit writes at most one block |
| `Compressor.StartInv` | src/BitmapCompressor.java:41-45 | after the first bit, the loop invariant holds: the marker is written if the bit is 1, and count is 1 |
| `Compressor.StepEndsRun` | src/BitmapCompressor.java:48-54 | a bit of the other value writes the pending count and starts a run of 1 of the other value, keeping the invariant |
| `Compressor.StepCapsRun` | src/BitmapCompressor.java:57-63 | a bit that brings the run to 255 writes one block of 255, resets count to 0 and flips the value, keeping the invariant |
| `Compressor.StepGrowsRun` | src/BitmapCompressor.java:55-58 | a bit that continues the run below the cap only increments count, keeping the invariant |
| `Compressor.StepInv` | src/BitmapCompressor.java:46-64 | every iteration keeps the invariant: 0 <= count < 255, the pending value is that of the next block, the written blocks are cap-shaped, and decoding them followed by count gives exactly the bits read so far |
| `Compressor.FeedInv` | src/BitmapCompressor.java:46-65 | the invariant holds at the top of every iteration, whatever the bits read |
| `Compressor.ScanInv` | src/BitmapCompressor.java:41-65 | the state after reading the first bit and then any further bits satisfies the invariant for all bits read |
| `Compressor.CompressBits` | src/BitmapCompressor.java:39-70 | an empty input is an error and any other input succeeds; decoding the result gives back the input; the result is canonical, every block fits in 8 bits, and the last block is below 255; the first block has length 0 exactly when the input starts with 1; at most one block more than there are bits |
| `Compressor.Compress` | src/BitmapCompressor.java:39-70 | the loop, statement for statement, fails on empty input, round-trips through decoding, and computes the same blocks as the step-by-step scan, keeping the central invariant on every iteration |
| `Canonicity.CanonicalUnique` | src/BitmapCompressor.java:36-67 | two canonical block streams that decode to the same bits are equal |
| `Canonicity.CompressIsCanonicalEncoding` | src/BitmapCompressor.java:39-70 | for a non-empty input, the compressor writes the one canonical stream that decodes to that input |
| `Canonicity.CompressExpand` | src/BitmapCompressor.java:39-87 | reverse round trip: compressing the decoding of a canonical stream that decodes to at least one bit gives the same stream back |
| `Canonicity.EmptyDecoding` | src/BitmapCompressor.java:41-42 | the only canonical stream that decodes to no bits is the lone zero-length block, which the compressor never writes |
| `Runs.FeedAppend` | src/BitmapCompressor.java:46-65 | scanning a concatenation is scanning its parts one after the other |
| `Runs.FeedSame` | src/BitmapCompressor.java:55-57 | while the run stays below the cap, more bits of the same value only raise count and write nothing |
| `Runs.ReachCap` | src/BitmapCompressor.java:57-63 | a run that reaches 255 writes exactly one block of 255, leaves count 0 and flips the value |
| `Runs.ResumeAfterCap` | src/BitmapCompressor.java:47-53 | right after a cap, a continuing run writes a zero-length block for the opposite value and resumes counting |
| `Runs.PastCap` | src/BitmapCompressor.java:47-63 | a run that goes j bits past the cap, 1 <= j < 255, writes one block of 255, then a zero-length block for the opposite value, and leaves count at j with the original value pending |
| `Runs.ConstantRun` | src/BitmapCompressor.java:39-70 | n equal bits compress to: the marker if the bits are 1s, a pair (255, 0) for each complete 255 bits, then the remainder if it is not 0 |
| `Runs.ShortRun` | src/BitmapCompressor.java:45-57 | k equal bits, 1 <= k < 255, compress to exactly one block of k, after the marker if the bits are 1s |
| `Runs.FullRun` | src/BitmapCompressor.java:57-67 | exactly 255 equal bits compress to a block of 255 and a trailing zero-length block |
| `Runs.FullRunPlusOne` | src/BitmapCompressor.java:47-63 | 256 equal bits compress to 255, then 0, then 1 |
| `Runs.CapScenario` | src/BitmapCompressor.java:39-70 | 300 ones followed by 5 zeros compress to 0, 255, 0, 45, 5 |
| `Runs.AlternationScenario` | src/BitmapCompressor.java:46-67 | 000111000 compresses to 3, 3, 3 |

## Left out

- Stream input and output (`BinaryStdIn`, `BinaryStdOut`): byte buffering, the
  `isEmpty` test, and the zero padding that `close()` adds. The input is a sequence of
  bits and the output is a sequence of blocks. Inputs from standard input are always
  whole bytes; the model accepts any number of bits.
- Packing blocks into bytes: because `BLOCK_LEN = 8`, each block is one value in
  0..255. Truncated blocks cannot occur, since the stream is whole bytes, so no format
  error is modelled for them.
- `main`'s command-line dispatch on `-` and `+` and its `IllegalArgumentException`: these
  only pick the operation.
- Java `int` overflow: `count` is proved to stay below 255, so it is an unbounded `nat`.
- `Expander.ExpandStream` takes any natural counts, while `readInt(BLOCK_LEN)` only
  yields values in 0..255. The decoding is the same on that range.
