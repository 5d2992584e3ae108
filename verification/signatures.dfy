/** Signature digest and similarity metric of the phase detector
    (src/phase_detector.cc, `hash_address` and
    `difference_measure_of_signatures`). A signature, a bitset of width
    2^log2_signature_len, is modelled as the set of the indices of its one
    bits: `^` becomes symmetric difference and `|` becomes union. */
module Signatures {
  import opened Common
  import opened Rational

  /** The configuration constants of the detector. They live in a header that
      is not part of this model, so they are parameters here. `hash` stands for
      `std::hash<bitset<64>>`, an opaque library function: any total function
      from 64-bit words to 64-bit words (size_t). */
  datatype Config = Config(
    dropBits: nat,
    log2SignatureLen: nat,
    intervalLen: nat,
    thresholdNum: nat,
    thresholdDen: nat,
    stableMin: int,
    hash: U64 -> U64)

  /** The configurations the detector is meant to run with: a positive interval,
      a signature no wider than the 32 bits the hash is cut to, and a threshold
      in (0, 1]. */
  predicate ValidConfig(cfg: Config)
  {
    && cfg.intervalLen > 0
    && 0 < cfg.log2SignatureLen <= 32
    && 0 < cfg.thresholdNum <= cfg.thresholdDen
  }

  function Threshold(cfg: Config): Ratio
  {
    Ratio(cfg.thresholdNum, cfg.thresholdDen)
  }

  type Signature = set<nat>

  /** Number of bits of a signature: 2^log2_signature_len. */
  function Width(cfg: Config): nat
  {
    Pow2(cfg.log2SignatureLen)
  }

  /** Every set bit lies inside the bitset. */
  ghost predicate InRange(cfg: Config, sig: Signature)
  {
    forall b :: b in sig ==> b < Width(cfg)
  }

  /** The 32-bit hash of an address with its low `dropBits` bits removed. */
  function Hash32(cfg: Config, address: U64): (h: nat)
    ensures h < TWO_32
  {
    var dropped := ShiftRight(address, cfg.dropBits);
    Trunc32(cfg.hash(dropped))
  }

  /** The bit index an address sets: the top log2_signature_len bits of the
      32-bit hash. The index is always inside the signature, and it is the
      unique idx whose block of 2^(32 - log2_signature_len) hash values holds
      the hash. */
  function HashAddress(cfg: Config, address: U64): (idx: nat)
    requires ValidConfig(cfg)
    ensures idx < Width(cfg)
    ensures var block := Pow2(32 - cfg.log2SignatureLen);
            idx * block <= Hash32(cfg, address) < (idx + 1) * block
  {
    var h := Hash32(cfg, address);
    var k := cfg.log2SignatureLen;
    var block := Pow2(32 - k);
    var idx := ShiftRight(h, 32 - k);
    assert block * Pow2(k) == TWO_32 by {
      Pow2Add(32 - k, k);
      Pow2ThirtyTwo();
    }
    TopBitsBound(h, block, Pow2(k));
    idx
  }

  lemma TopBitsBound(h: nat, block: nat, count: nat)
    requires block > 0 && h < block * count
    ensures h / block < count
    ensures (h / block) * block <= h < (h / block + 1) * block
  {
    var q := h / block;
    assert h == q * block + h % block;
    CancelFactor(q, count, block);
  }

  lemma CancelFactor(q: nat, count: nat, block: nat)
    requires block > 0 && q * block < count * block
    ensures q < count
  {
  }

  /** The similarity metric |A xor B| / |A or B| as an exact ratio. */
  function Distance(a: Signature, b: Signature): (d: Ratio)
    ensures d.num == |(a - b) + (b - a)|
    ensures d.den == |a + b|
    ensures Proper(d)
  {
    var x := (a - b) + (b - a);
    var u := a + b;
    assert x <= u;
    SubsetCard(x, u);
    Ratio(|x|, |u|)
  }

  lemma SubsetCard(x: set<nat>, u: set<nat>)
    requires x <= u
    ensures |x| <= |u|
  {
    assert u == x + (u - x);
  }

  /** `diff < threshold` from lines 76 and 96. */
  predicate BelowThreshold(cfg: Config, d: Ratio)
  {
    Lt(d, Threshold(cfg))
  }

  /** The metric is symmetric. */
  lemma DistanceSymmetric(a: Signature, b: Signature)
    ensures Distance(a, b) == Distance(b, a)
  {
    assert (a - b) + (b - a) == (b - a) + (a - b);
    assert a + b == b + a;
  }

  /** Identical non-empty signatures are at distance 0, and 0 is below every
      valid threshold. */
  lemma DistanceToSelf(cfg: Config, a: Signature)
    requires ValidConfig(cfg) && a != {}
    ensures Distance(a, a).num == 0 && Distance(a, a).den > 0
    ensures BelowThreshold(cfg, Distance(a, a))
  {
    assert (a - a) + (a - a) == {};
    var x :| x in a;
    assert x in a + a;
  }

  /** Distance 0 means the signatures are equal. */
  lemma ZeroDistanceMeansEqual(a: Signature, b: Signature)
    requires Distance(a, b).num == 0
    ensures a == b
  {
    assert (a - b) + (b - a) == {};
    assert a - b == {} && b - a == {};
  }

  /** When either signature has a set bit the union is non-empty, so the
      quotient is a real number and not 0/0; in `detect` the current signature
      always has the bit just set. */
  lemma DistanceDefined(a: Signature, b: Signature, i: nat)
    requires i in a
    ensures Distance(a, b).den > 0 && Distance(b, a).den > 0
  {
    assert i in a + b;
    assert i in b + a;
  }

  /** Two signatures with no common bit are at distance 1, which no valid
      threshold exceeds: they are never "stable". */
  lemma DisjointNeverStable(cfg: Config, a: Signature, b: Signature)
    requires ValidConfig(cfg) && a != {} && a !! b
    ensures Distance(a, b).num == Distance(a, b).den > 0
    ensures !BelowThreshold(cfg, Distance(a, b))
  {
    assert (a - b) + (b - a) == a + b;
    var x :| x in a;
    assert x in a + b;
    var d := Distance(a, b);
    MulLe(cfg.thresholdNum, cfg.thresholdDen, d.num);
  }

  /** The pair (0, 0) that two empty signatures give is never below the
      threshold: the source divides 0 by 0, and a NaN compares false. */
  lemma EmptySignaturesNotStable(cfg: Config)
    ensures !BelowThreshold(cfg, Distance({}, {}))
  {
  }
}
