/**
  The expander: reads one block at a time and writes that many copies of the current
  value, flipping the value after every block.
 */
module Expander {
  import opened Format

  /** The expansion loop of the original, with the inner per-bit loop kept. */
  method ExpandStream(blocks: seq<nat>) returns (bits: seq<bool>)
    ensures bits == Expand(blocks)
    ensures |bits| == Sum(blocks)
  {
    var val := false;
    bits := [];
    var k := 0;
    while k < |blocks|
      invariant 0 <= k <= |blocks|
      invariant val == Parity(k)
      invariant bits == Expand(blocks[..k])
    {
      var count := blocks[k];
      var i := 0;
      while i < count
        invariant 0 <= i <= count
        invariant bits == Expand(blocks[..k]) + Repeat(val, i)
      {
        RepeatSnoc(val, i);
        bits := bits + [val];
        i := i + 1;
      }
      ExpandSnoc(blocks[..k], count);
      assert blocks[..k + 1] == blocks[..k] + [count];
      val := !val;
      k := k + 1;
    }
    assert blocks[..k] == blocks;
  }
}
