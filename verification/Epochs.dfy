/** From block numbers to subnet epochs. */
module Epochs {
  import opened XorMetric

  const BLOCK_SECS: nat := 6

  datatype EpochData = EpochData(block: nat, epoch: nat, blockPerEpoch: nat, secondsPerEpoch: nat,
                                 percentComplete: real, blocksElapsed: nat, blocksRemaining: nat,
                                 secondsElapsed: nat, secondsRemaining: nat)

  function Zero(block: nat, length: nat): (d: EpochData) {
    EpochData(block, 0, length, length * BLOCK_SECS, 0.0, 0, length, 0, length * BLOCK_SECS)
  }

  function SubnetEpochData(block: nat, slot: nat, length: nat): (d: EpochData)
    requires length > 0
  {
    if block < slot then Zero(block, length)
    else
      var since := block - slot;
      var elapsed := since % length;
      EpochData(block, since / length, length, length * BLOCK_SECS, elapsed as real / length as real,
                elapsed, length - elapsed, elapsed * BLOCK_SECS, (length - elapsed) * BLOCK_SECS)
  }

  /** The chain's view of a subnet at one block: epoch and progress. */
  function EpochAt(block: nat, slot: nat, length: nat): (e: nat)
    requires length > 0
  {
    SubnetEpochData(block, slot, length).epoch
  }

  function PercentAt(block: nat, slot: nat, length: nat): (p: real)
    requires length > 0
  {
    SubnetEpochData(block, slot, length).percentComplete
  }

  lemma {:induction false} DivisionOrder(a: nat, b: nat, n: nat)
    requires n > 0 && a <= b
    ensures a / n <= b / n && (a / n == b / n ==> a % n <= b % n)
  {
    var p, q := a / n, b / n;
    assert a == n * p + a % n && b == n * q + b % n;
    if q < p { assert n * p == n * q + n * (p - q); assert n * (p - q) >= n by { MulGe(n, p - q); } }
  }

  lemma {:induction false} RealSelf(x: real)
    requires x > 0.0
    ensures x / x == 1.0
  {
  }

  lemma {:induction false} PercentOrder(x: nat, y: nat, n: nat)
    requires n > 0
    ensures x <= y <==> x as real / n as real <= y as real / n as real
  {
    var p, q := x as real / n as real, y as real / n as real;
    assert p * n as real == x as real && q * n as real == y as real;
  }

  /** Epoch data locate the block exactly: the epoch, how far into it, and how much is left. */
  lemma {:induction false} EpochDataLocates(block: nat, slot: nat, length: nat)
    requires length > 0
    ensures var d := SubnetEpochData(block, slot, length);
            && 0.0 <= d.percentComplete < 1.0
            && d.blocksElapsed + d.blocksRemaining == length && d.blocksElapsed < length
            && d.percentComplete * length as real == d.blocksElapsed as real
            && d.secondsElapsed == 6 * d.blocksElapsed && d.secondsPerEpoch == 6 * length
            && d.secondsElapsed + d.secondsRemaining == d.secondsPerEpoch
            && (block >= slot ==> slot + length * d.epoch + d.blocksElapsed == block)
            && (block < slot ==> d.epoch == 0 && d.blocksElapsed == 0)
  {
    var d := SubnetEpochData(block, slot, length);
    PercentOrder(0, d.blocksElapsed, length);
    PercentOrder(length, d.blocksElapsed, length);
    RealSelf(length as real);
    assert d.blocksElapsed * BLOCK_SECS + (length - d.blocksElapsed) * BLOCK_SECS == length * BLOCK_SECS;
  }

  /** Later blocks never lie earlier: first the epoch, then the progress inside it, can only grow. */
  lemma {:induction false} EpochsAdvance(a: nat, b: nat, slot: nat, length: nat)
    requires length > 0 && a <= b
    ensures EpochAt(a, slot, length) <= EpochAt(b, slot, length)
    ensures EpochAt(a, slot, length) == EpochAt(b, slot, length) ==>
              PercentAt(a, slot, length) <= PercentAt(b, slot, length)
  {
    if slot <= a {
      DivisionOrder(a - slot, b - slot, length);
      PercentOrder((a - slot) % length, (b - slot) % length, length);
    } else {
      EpochDataLocates(b, slot, length);
    }
  }
}
