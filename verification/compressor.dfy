/**
  The compressor: scans the input bits once, counting the current run, and writes one
  block per run. A run that reaches `MAX_LEN` is written at once and the count restarts
  at 0 with the value flipped, so a run that continues afterwards is announced by a
  zero-length block of the opposite value.
 */
module Compressor {
  import opened Format

  /** The scan state between two input bits: the value of the run being counted, its
      length so far, and the blocks already written. */
  datatype Scanner = Scanner(target: bool, count: nat, out: seq<nat>)

  /** State after the first bit: a leading 1 means there are no leading 0s, which is
      written as a zero-length block. */
  function Start(first: bool): Scanner
  {
    Scanner(first, 1, if first then [0] else [])
  }

  /** One iteration of the scan loop on input bit `bit`. */
  function Step(s: Scanner, bit: bool): Scanner
  {
    if bit != s.target then
      Scanner(!s.target, 1, s.out + [s.count])
    else if s.count + 1 == MAX_LEN then
      Scanner(!s.target, 0, s.out + [s.count + 1])
    else
      s.(count := s.count + 1)
  }

  /** The scan loop over `bits`, started in state `s`. */
  function Feed(s: Scanner, bits: seq<bool>): Scanner
    decreases |bits|
  {
    if |bits| == 0 then s
    else Step(Feed(s, bits[..|bits| - 1]), bits[|bits| - 1])
  }

  /** Blocks once written are never changed, and each bit writes at most one block. */
  lemma {:induction false} FeedAppendsOnly(s: Scanner, bits: seq<bool>)
    ensures |s.out| <= |Feed(s, bits).out| <= |s.out| + |bits|
    ensures Feed(s, bits).out[..|s.out|] == s.out
    decreases |bits|
  {
    if |bits| > 0 {
      var prev := Feed(s, bits[..|bits| - 1]);
      FeedAppendsOnly(s, bits[..|bits| - 1]);
      var t := Step(prev, bits[|bits| - 1]);
      assert t.out[..|prev.out|] == prev.out;
      assert t.out[..|s.out|] == prev.out[..|s.out|];
    }
  }

  /** Final write once the input is exhausted: the pending count becomes the last block. */
  function Finish(s: Scanner): seq<nat>
  {
    s.out + [s.count]
  }

  /**
    What holds at the top of every iteration after `read` has been consumed: the
    pending count is below the cap, `target` is the value of the next block to be
    written (values alternate, starting with 0s), and decoding the written blocks
    followed by the pending count gives back exactly `read`.
   */
  predicate Inv(s: Scanner, read: seq<bool>)
  {
    && s.count < MAX_LEN
    && s.target == Parity(|s.out|)
    && CapShaped(Finish(s))
    && Expand(Finish(s)) == read
  }

  lemma StartInv(first: bool)
    ensures Inv(Start(first), [first])
  {
    var s := Start(first);
    ExpandSnoc(s.out, 1);
    if first {
      ExpandSnoc([], 0);
    }
  }

  /** A bit of the other value ends the run: its count is written and a run of
      length 1 of the other value begins. */
  lemma StepEndsRun(s: Scanner, read: seq<bool>, bit: bool)
    requires Inv(s, read)
    requires bit != s.target
    ensures Inv(Step(s, bit), read + [bit])
  {
    var t := Step(s, bit);
    assert Finish(t) == Finish(s) + [1];
    CapShapedSnoc(Finish(s), 1);
    ExpandSnoc(Finish(s), 1);
  }

  /** A bit that brings the run to the cap: the full run is written and the count
      restarts at 0 for the other value. */
  lemma StepCapsRun(s: Scanner, read: seq<bool>, bit: bool)
    requires Inv(s, read)
    requires bit == s.target && s.count + 1 == MAX_LEN
    ensures Inv(Step(s, bit), read + [bit])
  {
    var t := Step(s, bit);
    var full := s.out + [MAX_LEN];
    assert Finish(t) == full + [0];
    CapShapedPrefix(s.out, s.count);
    CapShapedSnoc(s.out, MAX_LEN);
    CapShapedSnoc(full, 0);
    ExpandSnoc(s.out, s.count);
    ExpandSnoc(s.out, MAX_LEN);
    ExpandTrailingZero(full);
    RepeatSnoc(s.target, s.count);
  }

  /** A bit that continues the run below the cap only increments the count. */
  lemma StepGrowsRun(s: Scanner, read: seq<bool>, bit: bool)
    requires Inv(s, read)
    requires bit == s.target && s.count + 1 != MAX_LEN
    ensures Inv(Step(s, bit), read + [bit])
  {
    var t := Step(s, bit);
    assert Finish(t) == s.out + [s.count + 1];
    CapShapedPrefix(s.out, s.count);
    CapShapedSnoc(s.out, s.count + 1);
    ExpandSnoc(s.out, s.count);
    ExpandSnoc(s.out, s.count + 1);
    RepeatSnoc(s.target, s.count);
  }

  lemma StepInv(s: Scanner, read: seq<bool>, bit: bool)
    requires Inv(s, read)
    ensures Inv(Step(s, bit), read + [bit])
  {
    if bit != s.target {
      StepEndsRun(s, read, bit);
    } else if s.count + 1 == MAX_LEN {
      StepCapsRun(s, read, bit);
    } else {
      StepGrowsRun(s, read, bit);
    }
  }

  lemma {:induction false} FeedInv(s: Scanner, read: seq<bool>, bits: seq<bool>)
    requires Inv(s, read)
    ensures Inv(Feed(s, bits), read + bits)
    decreases |bits|
  {
    if |bits| > 0 {
      var init := bits[..|bits| - 1];
      FeedInv(s, read, init);
      StepInv(Feed(s, init), read + init, bits[|bits| - 1]);
      assert read + bits == (read + init) + [bits[|bits| - 1]];
    }
  }

  /** The state of the scan after the first bit `first` and then `rest`. */
  function Scan(first: bool, rest: seq<bool>): Scanner
  {
    Feed(Start(first), rest)
  }

  /** After the first bit and any further bits, the loop invariant holds for all the
      bits read. */
  lemma ScanInv(first: bool, rest: seq<bool>)
    ensures Inv(Scan(first, rest), [first] + rest)
  {
    StartInv(first);
    FeedInv(Start(first), [first], rest);
  }

  lemma ScanSnoc(first: bool, rest: seq<bool>, bit: bool)
    ensures Scan(first, rest + [bit]) == Step(Scan(first, rest), bit)
  {
    assert (rest + [bit])[..|rest|] == rest;
  }

  /** The invariant of the compression loop after `i` bits, read off the scan state. */
  lemma ScanFacts(bits: seq<bool>, i: nat, s: Scanner)
    requires 1 <= i <= |bits|
    requires s == Scan(bits[0], bits[1..i])
    ensures s.count < MAX_LEN
    ensures s.target == Parity(|s.out|)
    ensures Expand(s.out + [s.count]) == bits[..i]
  {
    ScanInv(bits[0], bits[1..i]);
    assert bits[..i] == [bits[0]] + bits[1..i];
  }

  /**
    Compression of a whole input. Decoding the result gives the input back, the result
    is canonical (so every block fits in `BLOCK_LEN` bits), and its first block is the
    zero-length marker exactly when the input starts with a 1. An empty input has no
    first bit to read and is an error.
   */
  function CompressBits(bits: seq<bool>): (r: Result<seq<nat>>)
    ensures r.Failure? <==> |bits| == 0
    ensures r.Success? ==> Expand(r.value) == bits
    ensures r.Success? ==> Canonical(r.value)
    ensures r.Success? ==> forall k :: 0 <= k < |r.value| ==> r.value[k] < Pow2(BLOCK_LEN)
    ensures r.Success? ==> (r.value[0] == 0 <==> bits[0])
    ensures r.Success? ==> |r.value| <= |bits| + 1
  {
    if |bits| == 0 then Failure(EmptyInput)
    else
      var s := Scan(bits[0], bits[1..]);
      ScanInv(bits[0], bits[1..]);
      assert [bits[0]] + bits[1..] == bits;
      FeedAppendsOnly(Start(bits[0]), bits[1..]);
      LeadBlock(Finish(s));
      Success(Finish(s))
  }

  /**
    The compression loop, one statement per statement of the original: read the first
    bit, write the "no zeros" marker if it is a 1, then count runs, writing a block at
    every change of value and at every cap, and write the pending count at the end.
   */
  method Compress(bits: seq<bool>) returns (r: Result<seq<nat>>)
    ensures r.Failure? <==> |bits| == 0
    ensures r.Success? ==> Expand(r.value) == bits
    ensures r == CompressBits(bits)
  {
    if |bits| == 0 {
      return Failure(EmptyInput);
    }
    var target := bits[0];
    var out: seq<nat> := [];
    if target {
      out := out + [0];
    }
    var count: nat := 1;
    var i := 1;
    assert bits[1..i] == [];
    ScanFacts(bits, i, Scanner(target, count, out));
    while i < |bits|
      invariant 1 <= i <= |bits|
      invariant Scanner(target, count, out) == Scan(bits[0], bits[1..i])
      invariant 0 <= count < MAX_LEN
      invariant target == Parity(|out|)
      invariant Expand(out + [count]) == bits[..i]
    {
      ghost var before := Scanner(target, count, out);
      var nextBit := bits[i];
      if nextBit != target {
        out := out + [count];
        target := !target;
        count := 1;
      } else {
        count := count + 1;
        if count == MAX_LEN {
          out := out + [count];
          count := 0;
          target := !target;
        }
      }
      assert Scanner(target, count, out) == Step(before, nextBit);
      ScanSnoc(bits[0], bits[1..i], nextBit);
      assert bits[1..i + 1] == bits[1..i] + [nextBit];
      i := i + 1;
      ScanFacts(bits, i, Scanner(target, count, out));
    }
    out := out + [count];
    assert bits[1..i] == bits[1..];
    r := Success(out);
  }
}
