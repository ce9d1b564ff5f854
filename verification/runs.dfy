/**
  What the compressor writes for long runs: a run is counted in one block while it is
  shorter than `MAX_LEN`; at `MAX_LEN` it is cut, and a continuing run is announced by
  a zero-length block of the opposite value before counting resumes.
 */
module Runs {
  import opened Format
  import opened Compressor
  import opened Canonicity

  /** Scanning a concatenation is scanning the parts one after the other. */
  lemma {:induction false} FeedAppend(s: Scanner, a: seq<bool>, b: seq<bool>)
    ensures Feed(s, a + b) == Feed(Feed(s, a), b)
    decreases |b|
  {
    if |b| == 0 {
      assert a + b == a;
    } else {
      var init := b[..|b| - 1];
      assert (a + b)[..|a + b| - 1] == a + init;
      FeedAppend(s, a, init);
    }
  }

  /** While a run stays below the cap, each further bit of it only increments the
      count; nothing is written. */
  lemma {:induction false} FeedSame(s: Scanner, k: nat)
    requires s.count + k < MAX_LEN
    ensures Feed(s, Repeat(s.target, k)) == s.(count := s.count + k)
    decreases k
  {
    if k > 0 {
      assert Repeat(s.target, k)[..k - 1] == Repeat(s.target, k - 1);
      FeedSame(s, k - 1);
    }
  }

  /** A run that reaches the cap is written as one block of `MAX_LEN`; the count
      restarts at 0 and the value flips. */
  lemma ReachCap(s: Scanner)
    requires s.count < MAX_LEN
    ensures Feed(s, Repeat(s.target, MAX_LEN - s.count))
      == Scanner(!s.target, 0, s.out + [MAX_LEN])
  {
    var b := s.target;
    var before := MAX_LEN - 1 - s.count;
    RepeatSnoc(b, before);
    var r := Repeat(b, before) + [b];
    assert r[..|r| - 1] == Repeat(b, before) && r[|r| - 1] == b;
    assert Feed(s, r) == Step(Feed(s, Repeat(b, before)), b);
    FeedSame(s, before);
  }

  /** Right after a cap, a bit of the capped value is announced by a zero-length block
      of the other value, and the run resumes counting from 1. */
  lemma ResumeAfterCap(b: bool, out: seq<nat>, j: nat)
    requires 1 <= j < MAX_LEN
    ensures Feed(Scanner(!b, 0, out), Repeat(b, j)) == Scanner(b, j, out + [0])
  {
    var capped := Scanner(!b, 0, out);
    var resumed := Scanner(b, 1, out + [0]);
    RepeatAppend(b, 1, j - 1);
    assert Repeat(b, 1) == [b];
    FeedAppend(capped, [b], Repeat(b, j - 1));
    assert [b][..0] == [];
    assert Feed(capped, [b]) == resumed;
    FeedSame(resumed, j - 1);
  }

  /**
    A run that goes on past the cap: with `count` pending and `k` more bits of the
    same value, where `count + k` exceeds `MAX_LEN` by `j`, exactly one block of
    `MAX_LEN` is written, then a zero-length block for the opposite value, and the
    count is `j`. (A run that stops exactly at the cap is `ReachCap`.)
   */
  lemma PastCap(s: Scanner, k: nat, j: nat)
    requires s.count < MAX_LEN
    requires 1 <= j < MAX_LEN && s.count + k == MAX_LEN + j
    ensures Feed(s, Repeat(s.target, k)) == Scanner(s.target, j, s.out + [MAX_LEN, 0])
  {
    var b := s.target;
    var upTo := MAX_LEN - s.count;
    var capped := Scanner(!b, 0, s.out + [MAX_LEN]);
    ReachCap(s);
    RepeatAppend(b, upTo, j);
    assert Repeat(b, k) == Repeat(b, upTo) + Repeat(b, j);
    FeedAppend(s, Repeat(b, upTo), Repeat(b, j));
    assert Feed(s, Repeat(b, k)) == Feed(capped, Repeat(b, j));
    ResumeAfterCap(b, s.out + [MAX_LEN], j);
    assert s.out + [MAX_LEN] + [0] == s.out + [MAX_LEN, 0];
  }

  /** The "no zeros" marker written before a leading run of 1s. */
  function Lead(b: bool): seq<nat>
  {
    if b then [0] else []
  }

  /** `q` full blocks, each followed by the zero-length block of a continuing run. */
  function Pairs(q: nat): seq<nat>
  {
    if q == 0 then [] else Pairs(q - 1) + [MAX_LEN, 0]
  }

  /** The scan state after `n` copies of `b`, written in terms of `n / MAX_LEN` full
      blocks and `n % MAX_LEN` pending bits. */
  function ConstantState(b: bool, n: nat): Scanner
    requires n >= 1
  {
    if n % MAX_LEN == 0 then Scanner(!b, 0, Lead(b) + Pairs(n / MAX_LEN - 1) + [MAX_LEN])
    else Scanner(b, n % MAX_LEN, Lead(b) + Pairs(n / MAX_LEN))
  }

  /** The blocks written for `n` copies of `b`: the marker if the value is 1, one full
      block and one zero-length block per complete `MAX_LEN` bits, then the remainder
      if it is not 0. */
  function ConstantBlocks(b: bool, n: nat): seq<nat>
  {
    Lead(b) + Pairs(n / MAX_LEN) + (if n % MAX_LEN == 0 then [] else [n % MAX_LEN])
  }

  lemma StepConstant(b: bool, n: nat)
    requires n >= 1
    ensures Step(ConstantState(b, n), b) == ConstantState(b, n + 1)
  {
    var q := n / MAX_LEN;
    var m := n % MAX_LEN;
    assert n == q * MAX_LEN + m;
    if m == 0 {
      assert (n + 1) / MAX_LEN == q && (n + 1) % MAX_LEN == 1;
      assert Lead(b) + Pairs(q - 1) + [MAX_LEN] + [0] == Lead(b) + Pairs(q);
    } else if m + 1 == MAX_LEN {
      assert (n + 1) / MAX_LEN == q + 1 && (n + 1) % MAX_LEN == 0;
    } else {
      assert (n + 1) / MAX_LEN == q && (n + 1) % MAX_LEN == m + 1;
    }
  }

  lemma {:induction false} ScanConstant(b: bool, n: nat)
    requires n >= 1
    ensures Scan(b, Repeat(b, n - 1)) == ConstantState(b, n)
    decreases n
  {
    if n > 1 {
      assert Repeat(b, n - 1)[..n - 2] == Repeat(b, n - 2);
      ScanConstant(b, n - 1);
      StepConstant(b, n - 1);
    }
  }

  lemma FinishConstant(b: bool, n: nat)
    requires n >= 1
    ensures Finish(ConstantState(b, n)) == ConstantBlocks(b, n)
  {
    if n % MAX_LEN == 0 {
      assert Pairs(n / MAX_LEN) == Pairs(n / MAX_LEN - 1) + [MAX_LEN, 0];
    }
  }

  /** Compression of `n` copies of one bit value. */
  lemma ConstantRun(b: bool, n: nat)
    requires n >= 1
    ensures CompressBits(Repeat(b, n)) == Success(ConstantBlocks(b, n))
  {
    var bits := Repeat(b, n);
    assert bits[0] == b;
    assert bits[1..] == Repeat(b, n - 1);
    ScanConstant(b, n);
    FinishConstant(b, n);
  }

  /** A run of `k` bits below the cap is written as exactly one block of `k`, after the
      marker when the bits are 1s. */
  lemma ShortRun(b: bool, k: nat)
    requires 1 <= k < MAX_LEN
    ensures CompressBits(Repeat(b, k)) == Success(Lead(b) + [k])
  {
    ConstantRun(b, k);
    assert k / MAX_LEN == 0 && k % MAX_LEN == k;
    assert ConstantBlocks(b, k) == Lead(b) + [k];
  }

  /** A run of exactly `MAX_LEN` bits is written as one full block and a trailing
      zero-length block. */
  lemma FullRun(b: bool)
    ensures CompressBits(Repeat(b, MAX_LEN)) == Success(Lead(b) + [MAX_LEN, 0])
  {
    ConstantRun(b, MAX_LEN);
    assert MAX_LEN / MAX_LEN == 1 && MAX_LEN % MAX_LEN == 0;
    assert Pairs(1) == [MAX_LEN, 0];
    assert ConstantBlocks(b, MAX_LEN) == Lead(b) + [MAX_LEN, 0];
  }

  /** One bit past the cap: full block, zero-length block, then a block of 1. */
  lemma FullRunPlusOne(b: bool)
    ensures CompressBits(Repeat(b, MAX_LEN + 1)) == Success(Lead(b) + [MAX_LEN, 0, 1])
  {
    ConstantRun(b, MAX_LEN + 1);
    assert (MAX_LEN + 1) / MAX_LEN == 1 && (MAX_LEN + 1) % MAX_LEN == 1;
    assert Pairs(1) == [MAX_LEN, 0];
    assert ConstantBlocks(b, MAX_LEN + 1) == Lead(b) + [MAX_LEN, 0, 1];
  }

  /** 300 ones followed by 5 zeros. */
  lemma CapScenario()
    ensures CompressBits(Repeat(true, 300) + Repeat(false, 5)) == Success([0, MAX_LEN, 0, 45, 5])
  {
    var blocks: seq<nat> := [0, MAX_LEN, 0, 45, 5];
    assert Canonical(blocks);
    assert Repeat(true, 300) == Repeat(true, MAX_LEN) + Repeat(true, 45);
    assert ExpandFrom([5], false) == Repeat(false, 5);
    assert ExpandFrom([45, 5], true) == Repeat(true, 45) + Repeat(false, 5);
    assert ExpandFrom([0, 45, 5], false) == Repeat(true, 45) + Repeat(false, 5);
    assert ExpandFrom([MAX_LEN, 0, 45, 5], true)
      == Repeat(true, MAX_LEN) + (Repeat(true, 45) + Repeat(false, 5));
    assert Expand(blocks) == Repeat(true, 300) + Repeat(false, 5);
    CompressIsCanonicalEncoding(Repeat(true, 300) + Repeat(false, 5), blocks);
  }

  /** Three runs of three: 000111000. */
  lemma AlternationScenario()
    ensures CompressBits([false, false, false, true, true, true, false, false, false])
      == Success([3, 3, 3])
  {
    var blocks: seq<nat> := [3, 3, 3];
    assert Canonical(blocks);
    assert Expand(blocks) == [false, false, false, true, true, true, false, false, false];
    CompressIsCanonicalEncoding(Expand(blocks), blocks);
  }
}
