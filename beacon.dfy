/**
 * Two small conversions of the beacon and VAP code: milliseconds to time
 * units, and the BSSID mask that lets up to four VAPs share the radio's MAC
 * address.
 */
module Beacon {
  import opened CArith

  const ATH_BCBUF: int := 4

  type Byte = x: int | 0 <= x < 256

  /**
   * `IEEE80211_MS_TO_TU(x)`: `(x * 1000) / 1024`, from milliseconds to time
   * units of 1024 microseconds, truncated toward zero as C divides.
   */
  function MsToTu(x: int): (tu: int)
    ensures x >= 0 ==> 1024 * tu <= 1000 * x < 1024 * (tu + 1)
    ensures x <= 0 ==> 1024 * (tu - 1) < 1000 * x <= 1024 * tu
  {
    CDivModIdentity(x * 1000, 1024);
    CDiv(x * 1000, 1024)
  }

  /** Milliseconds and their negation give opposite time units. */
  lemma MsToTuOdd(x: int)
    ensures MsToTu(-x) == -MsToTu(x)
  {
    CDivSigns(x * 1000, 1024);
    assert -x * 1000 == -(x * 1000);
  }

  /**
   * The byte `ATH_SET_VAP_BSSID_MASK` leaves in the first position of the
   * mask: `b & ~(((ATH_BCBUF - 1) << 2) | 0x02)`, in C's `int` arithmetic.
   * It clears the U/L bit (bit 1) and the two VAP-index bits (bits 2 and 3)
   * and keeps every other bit of `b`.
   */
  function VapBssidMaskByte(b: Byte): (r: Byte)
    ensures r % 2 == b % 2
    ensures (r / 2) % 8 == 0
    ensures r / 16 == b / 16
  {
    VapMaskClearsBits(b);
    KeptDigits(b);
    BitAnd(b, -(((ATH_BCBUF - 1) * 4 + 2) + 1))
  }

  /** What `16 * (x / 16) + x % 2` keeps of `x`, digit by digit. */
  lemma KeptDigits(x: int)
    ensures var r := 16 * (x / 16) + x % 2;
      r % 2 == x % 2 && (r / 2) % 8 == 0 && r / 16 == x / 16
  {
    var q, p := x / 16, x % 2;
    var r := 16 * q + p;
    DivModUnique(r, 16, q, p);
    DivModUnique(r, 2, 8 * q, p);
    DivModUnique(8 * q, 8, q, 0);
  }

  /** `x & ~0x0E` keeps bits 4 and up and bit 0 of `x`. */
  lemma VapMaskClearsBits(x: int)
    ensures BitAnd(x, -15) == 16 * (x / 16) + x % 2
  {
    if x == 0 {
    } else if x == -1 {
    } else {
      BitAndStep(x, -15);
      assert -15 / 2 == -8 && -15 % 2 == 1;
      assert Pow2(3) == 8;
      ClearLowBits(x / 2, 3);
      ModHalves(x, 8);
    }
  }

  /** `x & -(1 << k)` clears the low `k` bits of `x`. */
  lemma {:induction false} ClearLowBits(x: int, k: nat)
    ensures BitAnd(x, -(Pow2(k) as int)) == x - x % Pow2(k)
    decreases k
  {
    var p: int := Pow2(k);
    if k == 0 {
      assert p == 1;
    } else if x == 0 {
      DivModUnique(0, p, 0, 0);
    } else if x == -1 {
      DivModUnique(-1, p, -1, p - 1);
    } else {
      ClearLowBits(x / 2, k - 1);
      ClearLowBitsStep(x, k);
    }
  }

  /** The inductive step of `ClearLowBits`, from `x / 2` and `k - 1` to `x` and `k`. */
  lemma ClearLowBitsStep(x: int, k: nat)
    requires k >= 1 && x != 0 && x != -1
    requires BitAnd(x / 2, -(Pow2(k - 1) as int)) == x / 2 - (x / 2) % Pow2(k - 1)
    ensures BitAnd(x, -(Pow2(k) as int)) == x - x % Pow2(k)
  {
    var h: int := Pow2(k - 1);
    assert Pow2(k) == 2 * h;
    BitAndEvenStep(x, h);
    ModHalves(x, h);
  }

  /** One step of `BitAnd` against an even negative mask `-2h`. */
  lemma BitAndEvenStep(x: int, h: int)
    requires x != 0 && x != -1 && h >= 1
    ensures BitAnd(x, -(2 * h)) == 2 * BitAnd(x / 2, -h)
  {
    var m := -(2 * h);
    DivModUnique(m, 2, -h, 0);
    BitAndStep(x, m);
  }

  /**
   * `ATH_SET_VAP_BSSID_MASK(bssid_mask)`: clears the VAP bits of the first
   * byte of the mask in place and leaves the other bytes alone.
   */
  method SetVapBssidMask(bssidMask: array<Byte>)
    requires bssidMask.Length >= 1
    modifies bssidMask
    ensures bssidMask[0] == VapBssidMaskByte(old(bssidMask[0]))
    ensures forall i :: 1 <= i < bssidMask.Length ==> bssidMask[i] == old(bssidMask[i])
  {
    bssidMask[0] := VapBssidMaskByte(bssidMask[0]);
  }

  /** Applying the mask twice is applying it once. */
  lemma VapBssidMaskIdempotent(b: Byte)
    ensures VapBssidMaskByte(VapBssidMaskByte(b)) == VapBssidMaskByte(b)
  {
    var r := VapBssidMaskByte(b);
    VapMaskClearsBits(r);
    VapMaskClearsBits(b);
  }
}
