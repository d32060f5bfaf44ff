/**
 * The fixed-point RSSI low-pass filter of `core.h`. Averages are kept
 * multiplied by `ATH_RSSI_EP_MULTIPLIER` (128). A state equal to
 * `ATH_RSSI_DUMMY_MARKER` (0x127, that is 295) means "no sample yet". Each
 * accepted sample `y >= RSSI_LPF_THRESHOLD` replaces the state `x` by
 * `(9 * x + 128 * y) / 10`, truncated as C divides. All values are C
 * `int`s; overflow of `9 * x` is not modelled.
 */
module Rssi {
  import opened CArith

  const RSSI_LPF_THRESHOLD: int := -20
  const ATH_RSSI_EP_MULTIPLIER: int := 128
  const ATH_RSSI_LPF_LEN: int := 10
  const ATH_RSSI_DUMMY_MARKER: int := 0x127

  function Min(a: int, b: int): int { if a < b then a else b }
  function Max(a: int, b: int): int { if a < b then b else a }

  /** `ATH_EP_MUL(x, mul)`. */
  function EpMul(x: int, mul: int): int
  {
    x * mul
  }

  /**
   * `ATH_EP_RND(x, mul)`: `x / mul` rounded up when the remainder is at
   * least half of `mul`, with C's `%` and `/`.
   */
  function EpRnd(x: int, mul: int): int
    requires mul != 0
  {
    if CMod(x, mul) >= CDiv(mul, 2) then CDiv(x + (mul - 1), mul) else CDiv(x, mul)
  }

  /** `ATH_RSSI_OUT(x)`: the average back in dB, or the marker unchanged. */
  function RssiOut(x: int): int
  {
    if x != ATH_RSSI_DUMMY_MARKER then EpRnd(x, ATH_RSSI_EP_MULTIPLIER) else ATH_RSSI_DUMMY_MARKER
  }

  /** `ATH_RSSI_IN(x)`: a sample in the filter's fixed-point scale. */
  function RssiIn(x: int): int
  {
    EpMul(x, ATH_RSSI_EP_MULTIPLIER)
  }

  /**
   * `ATH_LPF_RSSI(x, y, len)`: the new average of `len` with the sample `y`;
   * the first sample replaces the marker.
   */
  function LpfRssi(x: int, y: int, len: int): int
    requires len != 0
  {
    if x != ATH_RSSI_DUMMY_MARKER then CDiv(x * (len - 1) + y, len) else y
  }

  /**
   * The value `ATH_RSSI_LPF(x, y)` assigns to `x`. A sample below the
   * threshold leaves the average alone; the first accepted sample seeds it;
   * later ones pull it toward the scaled sample and never past it.
   */
  function RssiLpf(x: int, y: int): (x': int)
    ensures y < RSSI_LPF_THRESHOLD ==> x' == x
    ensures y >= RSSI_LPF_THRESHOLD && x == ATH_RSSI_DUMMY_MARKER ==> x' == RssiIn(y)
    ensures y >= RSSI_LPF_THRESHOLD && x != ATH_RSSI_DUMMY_MARKER ==>
      Min(x, RssiIn(y)) <= x' <= Max(x, RssiIn(y))
  {
    if y >= RSSI_LPF_THRESHOLD then
      LpfBetween(x, RssiIn(y));
      LpfRssi(x, RssiIn(y), ATH_RSSI_LPF_LEN)
    else x
  }

  /** Nine parts of `x` and one of `t`, truncated, lie between them. */
  lemma LpfBetween(x: int, t: int)
    ensures Min(x, t) <= CDiv(x * 9 + t, 10) <= Max(x, t)
  {
    var n := x * 9 + t;
    CDivModIdentity(n, 10);
    var q, r := CDiv(n, 10), CMod(n, 10);
    assert n == 10 * q + r && -10 < r < 10;
    assert 10 * Min(x, t) <= n <= 10 * Max(x, t);
  }

  /**
   * Once the average is at least 10 units (of 1/128 dB) away from the
   * scaled sample, every accepted sample brings it strictly closer;
   * truncation never lets it move away.
   */
  lemma RssiLpfConverges(x: int, y: int)
    requires y >= RSSI_LPF_THRESHOLD && x != ATH_RSSI_DUMMY_MARKER
    ensures Abs(RssiLpf(x, y) - RssiIn(y)) <= Abs(x - RssiIn(y))
    ensures Abs(x - RssiIn(y)) >= 10 ==> Abs(RssiLpf(x, y) - RssiIn(y)) < Abs(x - RssiIn(y))
  {
    var t := RssiIn(y);
    var n := x * 9 + t;
    CDivModIdentity(n, 10);
    var q, r := CDiv(n, 10), CMod(n, 10);
    assert RssiLpf(x, y) == q;
    assert 10 * (q - t) == 9 * (x - t) - r && -10 < r < 10;
  }

  /**
   * The rounding of `ATH_RSSI_OUT`: a non-negative average goes to the
   * nearest whole dB, halves rounding up; a negative one is truncated
   * toward zero, because C's `%` is then never positive.
   */
  lemma RssiOutRounds(x: int)
    ensures x == ATH_RSSI_DUMMY_MARKER ==> RssiOut(x) == ATH_RSSI_DUMMY_MARKER
    ensures x != ATH_RSSI_DUMMY_MARKER && x >= 0 ==>
      128 * RssiOut(x) - 64 <= x < 128 * RssiOut(x) + 64
    ensures x < 0 ==> x <= 128 * RssiOut(x) < x + 128
  {
    if x != ATH_RSSI_DUMMY_MARKER {
      CDivModIdentity(x, 128);
      CDivModIdentity(x + 127, 128);
      assert CDiv(128, 2) == 64;
    }
  }

  /** A sample scaled in and read out again is the sample. */
  lemma RssiInOut(y: int)
    ensures RssiOut(RssiIn(y)) == y
  {
    var x := RssiIn(y);
    assert x != ATH_RSSI_DUMMY_MARKER by {
      if y >= 3 { assert x >= 384; } else { assert x <= 256; }
    }
    CDivModIdentity(x, 128);
    assert CDiv(128, 2) == 64;
    DivModUnique(Abs(x), 128, Abs(y), 0);
  }

  /**
   * The marker is not a reserved value: the samples -10, 99 and 15, in that
   * order, take a fresh filter to an average of exactly 0x127, which
   * `ATH_RSSI_OUT` then reports as the marker and the next sample treats as
   * "no sample yet".
   */
  lemma MarkerReachable()
    ensures RssiLpf(ATH_RSSI_DUMMY_MARKER, -10) == -1280
    ensures RssiLpf(-1280, 99) == 115
    ensures RssiLpf(115, 15) == ATH_RSSI_DUMMY_MARKER
  {
  }
}
