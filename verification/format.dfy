/**
  The wire format of the bitmap run-length codec: a flat sequence of fixed-width
  blocks, each holding the length of one run. Run values are not written; they
  alternate, and the first block always counts 0s. This module fixes the constants,
  the meaning of a block sequence (`Expand`) and the shape every block sequence the
  compressor writes has (`Canonical`).
 */
module Format {

  /** Width in bits of one block on the wire. */
  const BLOCK_LEN: nat := 8

  /** Longest run one block may carry; a longer run is split. */
  const MAX_LEN: nat := 255

  /** Errors the codec reports instead of producing output. */
  datatype Error =
    /** The input stream held no bit at all, so there was no first bit to read. */
    | EmptyInput

  datatype Result<+T> = Success(value: T) | Failure(error: Error)

  function Pow2(n: nat): (r: nat)
    ensures r >= 1
  {
    if n == 0 then 1 else 2 * Pow2(n - 1)
  }

  /** `v` repeated `n` times. */
  function Repeat(v: bool, n: nat): (r: seq<bool>)
    ensures |r| == n
    ensures forall i :: 0 <= i < n ==> r[i] == v
  {
    seq(n, _ => v)
  }

  /** Total of the block lengths. */
  function Sum(blocks: seq<nat>): nat
  {
    if |blocks| == 0 then 0 else blocks[0] + Sum(blocks[1..])
  }

  /** True exactly when `n` is odd: the value carried by block number `n`. */
  function Parity(n: nat): bool
  {
    n % 2 == 1
  }

  /**
    Decoding of `blocks` when the first block carries `v`: each block contributes
    that many copies of the current value, and the value flips after every block,
    a zero-length one included.
   */
  function ExpandFrom(blocks: seq<nat>, v: bool): (bits: seq<bool>)
    ensures |bits| == Sum(blocks)
  {
    if |blocks| == 0 then []
    else Repeat(v, blocks[0]) + ExpandFrom(blocks[1..], !v)
  }

  /** Decoding of a whole block sequence: the first block counts 0s. */
  function Expand(blocks: seq<nat>): (bits: seq<bool>)
  {
    ExpandFrom(blocks, false)
  }

  /**
    Every block is at most `MAX_LEN`, and a zero-length block after the first one
    occurs only right behind a full block of `MAX_LEN`: it marks a run that was
    split at the cap and continues.
   */
  predicate CapShaped(blocks: seq<nat>)
  {
    && (forall k :: 0 <= k < |blocks| ==> blocks[k] <= MAX_LEN)
    && (forall k :: 0 < k < |blocks| && blocks[k] == 0 ==> blocks[k - 1] == MAX_LEN)
  }

  /**
    The shape of a complete compressed stream: at least one block, cap-shaped, and
    the final block holds a pending count that is always below `MAX_LEN`.
   */
  predicate Canonical(blocks: seq<nat>)
  {
    && |blocks| >= 1
    && CapShaped(blocks)
    && blocks[|blocks| - 1] < MAX_LEN
  }

  lemma CapShapedPrefix(blocks: seq<nat>, c: nat)
    requires CapShaped(blocks + [c])
    ensures CapShaped(blocks)
  {
    assert forall k :: 0 <= k < |blocks| ==> blocks[k] == (blocks + [c])[k];
  }

  /** Appending a block keeps the shape when it is within the cap and, if it is a
      zero-length block after the first, it follows a full block. */
  lemma CapShapedSnoc(blocks: seq<nat>, c: nat)
    requires CapShaped(blocks)
    requires c <= MAX_LEN
    requires c == 0 && |blocks| > 0 ==> blocks[|blocks| - 1] == MAX_LEN
    ensures CapShaped(blocks + [c])
  {
    var r := blocks + [c];
    assert forall k :: 0 <= k < |blocks| ==> r[k] == blocks[k];
  }

  lemma RepeatSnoc(v: bool, n: nat)
    ensures Repeat(v, n + 1) == Repeat(v, n) + [v]
  {
  }

  lemma RepeatAppend(v: bool, i: nat, j: nat)
    ensures Repeat(v, i + j) == Repeat(v, i) + Repeat(v, j)
  {
  }

  /** Decoding distributes over concatenation; the value of the second part depends
      on how many blocks precede it. */
  lemma {:induction false} ExpandAppend(a: seq<nat>, b: seq<nat>, v: bool)
    ensures ExpandFrom(a + b, v) == ExpandFrom(a, v) + ExpandFrom(b, v != Parity(|a|))
  {
    if |a| == 0 {
      assert a + b == b;
    } else {
      calc {
        ExpandFrom(a + b, v);
        { assert (a + b)[1..] == a[1..] + b; }
        Repeat(v, a[0]) + ExpandFrom(a[1..] + b, !v);
        { ExpandAppend(a[1..], b, !v); }
        Repeat(v, a[0]) + (ExpandFrom(a[1..], !v) + ExpandFrom(b, !v != Parity(|a| - 1)));
        ExpandFrom(a, v) + ExpandFrom(b, v != Parity(|a|));
      }
    }
  }

  /** Appending block number `|blocks|` adds that many copies of its value. */
  lemma ExpandSnoc(blocks: seq<nat>, c: nat)
    ensures Expand(blocks + [c]) == Expand(blocks) + Repeat(Parity(|blocks|), c)
  {
    ExpandAppend(blocks, [c], false);
    assert ExpandFrom([c], Parity(|blocks|)) == Repeat(Parity(|blocks|), c) + [];
  }

  /**
    Block number `k` decodes, at the offset given by the total of the blocks before
    it, to exactly `blocks[k]` copies of its value: 0 for even `k`, 1 for odd `k`.
    A zero-length block therefore contributes nothing but still flips the value.
   */
  lemma ExpandBlock(blocks: seq<nat>, k: nat)
    requires k < |blocks|
    ensures Sum(blocks[..k + 1]) == Sum(blocks[..k]) + blocks[k]
    ensures Sum(blocks[..k + 1]) <= |Expand(blocks)|
    ensures Expand(blocks)[Sum(blocks[..k])..Sum(blocks[..k + 1])] == Repeat(Parity(k), blocks[k])
  {
    ExpandAppend(blocks[..k], blocks[k..], false);
    assert blocks == blocks[..k] + blocks[k..];
    ExpandAppend(blocks[..k], [blocks[k]], false);
    assert blocks[..k + 1] == blocks[..k] + [blocks[k]];
    ExpandAppend(blocks[..k + 1], blocks[k + 1..], false);
    assert blocks == blocks[..k + 1] + blocks[k + 1..];
    var tail := ExpandFrom(blocks[k..], Parity(k));
    assert tail == Repeat(Parity(k), blocks[k]) + ExpandFrom(blocks[k + 1..], !Parity(k));
  }

  /** A trailing zero-length block decodes to nothing. */
  lemma ExpandTrailingZero(blocks: seq<nat>)
    ensures Expand(blocks + [0]) == Expand(blocks)
  {
    ExpandSnoc(blocks, 0);
  }

  /** In a cap-shaped sequence the first decoded bit is 1 exactly when the first block
      is the zero-length "no zeros" marker. */
  lemma LeadBlock(blocks: seq<nat>)
    requires CapShaped(blocks)
    requires |Expand(blocks)| > 0
    ensures blocks[0] == 0 <==> Expand(blocks)[0]
  {
    if blocks[0] == 0 {
      assert |blocks| >= 2;
      assert blocks[1] != 0;
      assert ExpandFrom(blocks[1..], true)[0] == true;
    }
  }
}
