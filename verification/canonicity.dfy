/**
  A canonical block sequence is determined by the bits it decodes to. Since the
  compressor always writes a canonical sequence that decodes to its input, this gives
  an independent description of the compressor's output and the reverse round trip:
  compressing the decoding of a canonical stream gives the stream back.
 */
module Canonicity {
  import opened Format
  import opened Compressor

  lemma SumCoversFirst(blocks: seq<nat>)
    requires |blocks| >= 1
    ensures blocks[0] <= Sum(blocks)
  {
  }

  /** Where a block of length below `MAX_LEN` ends, the next block is non-empty, so the
      first bit past it has the other value. */
  lemma ExpandAtBoundary(a: seq<nat>, v: bool)
    requires CapShaped(a)
    requires |a| >= 2 && a[0] < MAX_LEN
    ensures a[0] < |ExpandFrom(a, v)|
    ensures ExpandFrom(a, v)[a[0]] == !v
  {
    assert a[1] != 0;
    var tail := ExpandFrom(a[1..], !v);
    SumCoversFirst(a[1..]);
    assert tail[0] == Repeat(!v, a[1])[0];
    assert ExpandFrom(a, v) == Repeat(v, a[0]) + tail;
  }

  /** Canonical sequences that decode to the same bits start with the same block. */
  lemma FirstBlocksAgree(a: seq<nat>, b: seq<nat>, v: bool)
    requires Canonical(a) && Canonical(b)
    requires ExpandFrom(a, v) == ExpandFrom(b, v)
    ensures a[0] == b[0]
  {
    if a[0] < b[0] {
      Divergence(a, b, v);
    } else if b[0] < a[0] {
      Divergence(b, a, v);
    }
  }

  /** A canonical sequence whose first block is shorter than the first block of `b`
      decodes to different bits than `b`. */
  lemma Divergence(a: seq<nat>, b: seq<nat>, v: bool)
    requires Canonical(a) && Canonical(b)
    requires a[0] < b[0]
    ensures ExpandFrom(a, v) != ExpandFrom(b, v)
  {
    SumCoversFirst(b);
    var eb := ExpandFrom(b, v);
    assert eb[..b[0]] == Repeat(v, b[0]);
    if |a| >= 2 {
      ExpandAtBoundary(a, v);
      assert eb[a[0]] == v;
    } else {
      assert ExpandFrom(a, v) == Repeat(v, a[0]) + [];
    }
  }

  /** After a first block below `MAX_LEN`, the blocks that follow decode to at least
      one bit: the next block is not the zero-length continuation marker. */
  lemma TailNotEmpty(b: seq<nat>, v: bool)
    requires Canonical(b) && |b| >= 2
    requires b[0] < MAX_LEN
    ensures ExpandFrom(b[1..], v) != []
  {
    assert b[1] != 0;
    SumCoversFirst(b[1..]);
  }

  /** Uniqueness for decoding that starts with value `v`, by induction on the blocks. */
  lemma {:induction false} UniqueFrom(a: seq<nat>, b: seq<nat>, v: bool)
    requires Canonical(a) && Canonical(b)
    requires ExpandFrom(a, v) == ExpandFrom(b, v)
    ensures a == b
    decreases |a|
  {
    FirstBlocksAgree(a, b, v);
    var ta := ExpandFrom(a[1..], !v);
    var tb := ExpandFrom(b[1..], !v);
    var p := Repeat(v, a[0]);
    assert p + ta == p + tb;
    assert (p + ta)[|p|..] == ta && (p + tb)[|p|..] == tb;
    if |a| >= 2 && |b| >= 2 {
      assert Canonical(a[1..]);
      assert Canonical(b[1..]);
      UniqueFrom(a[1..], b[1..], !v);
      assert a == [a[0]] + a[1..];
      assert b == [b[0]] + b[1..];
    } else if |a| >= 2 {
      TailNotEmpty(a, !v);
    } else if |b| >= 2 {
      TailNotEmpty(b, !v);
    }
  }

  /** Two canonical block sequences that decode to the same bits are equal. */
  lemma CanonicalUnique(a: seq<nat>, b: seq<nat>)
    requires Canonical(a) && Canonical(b)
    requires Expand(a) == Expand(b)
    ensures a == b
  {
    UniqueFrom(a, b, false);
  }

  /** The compressor's output is the one canonical encoding of the input. */
  lemma CompressIsCanonicalEncoding(bits: seq<bool>, blocks: seq<nat>)
    requires Canonical(blocks) && Expand(blocks) == bits
    requires |bits| > 0
    ensures CompressBits(bits) == Success(blocks)
  {
    CanonicalUnique(CompressBits(bits).value, blocks);
  }

  /** Reverse round trip: compressing the decoding of a canonical stream that decodes to
      at least one bit gives the stream back. */
  lemma CompressExpand(blocks: seq<nat>)
    requires Canonical(blocks)
    requires |Expand(blocks)| > 0
    ensures CompressBits(Expand(blocks)) == Success(blocks)
  {
    CompressIsCanonicalEncoding(Expand(blocks), blocks);
  }

  /** The only canonical stream that decodes to no bits is the lone marker block, which
      the compressor never writes because it always reads a first bit. */
  lemma EmptyDecoding(blocks: seq<nat>)
    requires Canonical(blocks)
    requires Expand(blocks) == []
    ensures blocks == [0]
  {
    CanonicalUnique(blocks, [0]);
  }
}
