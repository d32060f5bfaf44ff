/**
 * Block-ack window arithmetic, the block-ack bitmap test, aggregate
 * delimiter padding and the TID to access-category map of the driver's
 * 802.11n aggregation code (`core.h`).
 *
 * Sequence numbers are 12 bits wide (IEEE 802.11n-2009, section 9.10): the
 * offset of a sequence number from the start of a window is taken modulo
 * 4096, and the block-ack bitmap covers 64 sequence numbers.
 */
module BlockAck {
  import opened CArith

  const WME_BA_BMP_SIZE: int := 64
  const IEEE80211_SEQ_MAX: int := 4096
  const ATH_AGGR_DELIM_SZ: int := 4
  const ATH_AGGR_MINPLEN: int := 256

  const WME_AC_BE: int := 0
  const WME_AC_BK: int := 1
  const WME_AC_VI: int := 2
  const WME_AC_VO: int := 3
  const WME_NUM_AC: int := 4

  /**
   * The scalar part of `struct ath_atx_tid`, the per-TID transmit
   * aggregation state of one destination. The pending-buffer queue, the array
   * of frames in flight and the back pointers to the node and the access
   * category are not represented.
   */
  datatype AtxTid = AtxTid(
    seqStart: int,            // starting sequence of the BA window
    seqNext: int,             // next sequence to be used
    bawSize: int,             // BA window size
    tidNo: int,
    bawHead: int,             // first un-acked tx buffer slot
    bawTail: int,             // next unused tx buffer slot
    sched: bool,
    paused: bool,
    cleanupInProgress: bool,
    addbaExchangeComplete: bool,
    addbaExchangeInProgress: int,
    addbaExchangeAttempts: int)

  /**
   * The scalar part of `struct ath_arx_tid`, the per-TID receive reordering
   * state; the reorder buffer, its timer and its lock are not represented.
   */
  datatype ArxTid = ArxTid(
    bawHead: int,             // seq_next at head
    bawTail: int,             // tail of the block-ack window
    seqReset: bool,           // the start sequence must be reset
    addbaExchangeComplete: bool,
    seqNext: int,             // next expected sequence
    bawSize: int)

  /**
   * `ATH_BA_INDEX(st, seq)`: the offset of `sn` from the window start `st`
   * in the 12-bit sequence space, `(sn - st) & (IEEE80211_SEQ_MAX - 1)`.
   * It is the unique offset in [0, 4096) that carries `st` to `sn`.
   */
  function BaIndex(st: int, sn: int): (idx: int)
    ensures 0 <= idx < IEEE80211_SEQ_MAX
    ensures (st + idx) % IEEE80211_SEQ_MAX == sn % IEEE80211_SEQ_MAX
  {
    SeqMaskIsMod(sn - st);
    BitAnd(sn - st, IEEE80211_SEQ_MAX - 1)
  }

  /** The 12-bit mask `& 4095` is the Euclidean remainder modulo 4096. */
  lemma SeqMaskIsMod(d: int)
    ensures BitAnd(d, 4095) == d % 4096
  {
    assert Pow2(12) == 4096;
    BitAndLowMask(d, 12);
  }

  /**
   * `BAW_WITHIN(start, bawsz, seqno)`: `seqno` lies in the block-ack window
   * of `bawsz` sequence numbers that begins at `start`.
   */
  predicate BawWithin(start: int, bawsz: int, seqno: int)
  {
    BitAnd(seqno - start, 4095) < bawsz
  }

  /** The window test is exactly "the block-ack index is below the size". */
  lemma BawWithinIsBaIndex(start: int, bawsz: int, seqno: int)
    ensures BawWithin(start, bawsz, seqno) <==> BaIndex(start, seqno) < bawsz
  {
  }

  /** No other offset in [0, 4096) carries `st` to `sn`. */
  lemma BaIndexUnique(st: int, sn: int, k: int)
    requires 0 <= k < IEEE80211_SEQ_MAX
    requires (st + k) % IEEE80211_SEQ_MAX == sn % IEEE80211_SEQ_MAX
    ensures BaIndex(st, sn) == k
  {
    var i := BaIndex(st, sn);
    SameResidue(st + k, st + i, sn);
  }

  lemma SameResidue(a: int, b: int, c: int)
    requires a % 4096 == c % 4096 && b % 4096 == c % 4096
    ensures (a - b) % 4096 == 0
  {
    DivModUnique(a - b, 4096, a / 4096 - b / 4096, 0);
  }

  /** Advancing the start by `k` sequence numbers gives offset `k`. */
  lemma BaIndexOfAdvance(st: int, k: int)
    requires 0 <= k < IEEE80211_SEQ_MAX
    ensures BaIndex(st, st + k) == k
  {
    BaIndexUnique(st, st + k, k);
  }

  /**
   * Sliding the window start forward by `d`, not past `sn`, lowers the
   * offset of `sn` by `d`.
   */
  lemma BaIndexSlide(st: int, sn: int, d: int)
    requires 0 <= d <= BaIndex(st, sn)
    ensures BaIndex(st + d, sn) == BaIndex(st, sn) - d
  {
    var i := BaIndex(st, sn);
    BaIndexUnique(st + d, sn, i - d);
  }

  /** The window holds its own start exactly when it is not empty. */
  lemma BawWithinStart(st: int, sz: int)
    ensures BawWithin(st, sz, st) <==> sz > 0
  {
    BaIndexOfAdvance(st, 0);
  }

  /**
   * The window is half open: the sequence number `sz` places past the start
   * is outside it, for every size below the sequence space.
   */
  lemma BawWithinEnd(st: int, sz: int)
    requires 0 <= sz < IEEE80211_SEQ_MAX
    ensures !BawWithin(st, sz, st + sz)
  {
    BaIndexOfAdvance(st, sz);
    BawWithinIsBaIndex(st, sz, st + sz);
  }

  /** A window of size zero (no session yet) admits nothing. */
  lemma BawWithinEmpty(st: int, sz: int, sn: int)
    requires sz <= 0
    ensures !BawWithin(st, sz, sn)
  {
  }

  /**
   * The window of size `sz` (at most the sequence space) holds exactly the
   * sequence numbers `st, st + 1, ..., st + sz - 1` modulo 4096.
   */
  lemma BawWithinMembers(st: int, sz: int, sn: int)
    requires sz <= IEEE80211_SEQ_MAX
    ensures BawWithin(st, sz, sn) <==> exists k :: 0 <= k < sz && Carries(st, k, sn)
  {
    if BawWithin(st, sz, sn) {
      var k := BaIndex(st, sn);
      assert 0 <= k < sz && Carries(st, k, sn);
    }
    if exists k :: 0 <= k < sz && Carries(st, k, sn) {
      var k :| 0 <= k < sz && Carries(st, k, sn);
      BaIndexUnique(st, sn, k);
    }
  }

  /** Advancing `st` by `k` places reaches `sn` in the 12-bit space. */
  predicate Carries(st: int, k: int, sn: int)
  {
    (st + k) % IEEE80211_SEQ_MAX == sn % IEEE80211_SEQ_MAX
  }

  /** The number of values of a `u_int32_t` word, `1 << 32`. */
  const WORD: int := 0x1_0000_0000

  lemma Pow2Word()
    ensures Pow2(32) == WORD
  {
    assert Pow2(4) == 16;
    Pow2Add(4, 4);
    Pow2Add(8, 8);
    Pow2Add(16, 16);
  }

  /** The 64-bit block-ack bitmap whose low word is `bm[0]`. */
  function Bitmap64(bm: seq<int>): int
    requires |bm| >= 2
  {
    bm[0] + WORD * bm[1]
  }

  /** Every word of the bitmap array is a `u_int32_t`. */
  ghost predicate Words32(bm: seq<int>)
  {
    forall i :: 0 <= i < |bm| ==> 0 <= bm[i] < WORD
  }

  /**
   * `ATH_BA_ISSET(bm, n)`: `n < WME_BA_BMP_SIZE` and bit `n & 31` of the word
   * `bm[n >> 5]` is set. A negative `n` would read before the array, so `n`
   * is a natural number (callers pass a block-ack index).
   */
  predicate BaIsSet(bm: seq<int>, n: nat)
    requires |bm| >= 2
  {
    n < WME_BA_BMP_SIZE && BitAnd(bm[n / 32], Pow2(BitAnd(n, 31))) != 0
  }

  /**
   * The bitmap test reads bit `n` of the 64-bit block-ack bitmap, and is
   * false for every index at or beyond its 64 bits.
   */
  lemma {:induction false} BaIsSetIsBitmapBit(bm: seq<int>, n: nat)
    requires |bm| >= 2 && Words32(bm)
    ensures BaIsSet(bm, n) <==> n < WME_BA_BMP_SIZE && Bit(Bitmap64(bm), n)
  {
    if n < WME_BA_BMP_SIZE {
      var lo, hi := bm[0], bm[1];
      assert 0 <= lo < WORD && 0 <= hi;
      BitOfWords(lo, hi, n);
      if n < 32 {
        BaIsSetWord(bm, n, 0);
        assert BaIsSet(bm, n) <==> Bit(lo, n);
      } else {
        BaIsSetWord(bm, n, 1);
        assert BaIsSet(bm, n) <==> Bit(hi, n - 32);
      }
    } else {
      assert !BaIsSet(bm, n);
    }
  }

  /** Below 64, the bitmap test reads bit `n - 32 * i` of word `i = n / 32`. */
  lemma BaIsSetWord(bm: seq<int>, n: nat, i: nat)
    requires |bm| >= 2 && i < 2 && 32 * i <= n < 32 * i + 32
    ensures BaIsSet(bm, n) <==> Bit(bm[i], n - 32 * i)
  {
    DivModUnique(n, 32, i, n - 32 * i);
    var j := WordBit(n);
    BitAndSingleBit(bm[i], j);
  }

  /** `n & 31`, the bit of the word `n >> 5` that holds index `n`. */
  lemma WordBit(n: nat) returns (j: nat)
    ensures j == BitAnd(n, 31) == n % 32
  {
    assert Pow2(5) == 32;
    BitAndLowMask(n, 5);
    j := n % 32;
  }

  /** Bits of `lo + 2^32 * hi` are those of `lo`, then those of `hi`. */
  lemma BitOfWords(lo: int, hi: int, n: nat)
    requires 0 <= lo < WORD && 0 <= hi
    ensures n < 32 ==> (Bit(lo + WORD * hi, n) <==> Bit(lo, n))
    ensures n >= 32 ==> (Bit(lo + WORD * hi, n) <==> Bit(hi, n - 32))
  {
    Pow2Word();
    if n < 32 {
      BitOfWordsLow(lo, hi, n, 32, WORD);
    } else {
      BitOfWordsHigh(lo, hi, n);
    }
  }

  /** Adding a multiple of `2^w` changes no bit below `w`. */
  lemma BitOfWordsLow(lo: int, hi: int, n: nat, w: nat, pw: int)
    requires pw == Pow2(w) && 0 <= lo < pw && 0 <= hi && n < w
    ensures Bit(lo + pw * hi, n) <==> Bit(lo, n)
  {
    var pn, pr := Pow2(n), Pow2(w - n);
    Pow2Add(n, w - n);
    var half := Pow2(w - n - 1);
    assert pr == 2 * half;
    EvenIsEven(half);
    ParityAfterDiv(lo, pn, pr, hi);
    assert lo + pw * hi == lo + (pn * pr) * hi;
  }

  lemma EvenIsEven(h: int)
    ensures (2 * h) % 2 == 0
  {
  }

  lemma ParityAfterDiv(lo: int, pn: int, pr: int, hi: int)
    requires pn > 0 && pr % 2 == 0
    ensures ((lo + (pn * pr) * hi) / pn) % 2 == (lo / pn) % 2
  {
    var c := pr * hi;
    assert (pn * pr) * hi == pn * c;
    DivAddMultiple(lo, pn, c);
    EvenAddParity(lo / pn, pr, hi);
  }

  lemma DivAddMultiple(a: int, m: int, c: int)
    requires m > 0
    ensures (a + m * c) / m == a / m + c
  {
    Distrib(m, a / m, c);
    DivModUnique(a + m * c, m, a / m + c, a % m);
  }

  /** Bit `n` at or above 32 of `lo + 2^32 * hi` is bit `n - 32` of `hi`. */
  lemma BitOfWordsHigh(lo: int, hi: int, n: nat)
    requires 0 <= lo < WORD && 0 <= hi && n >= 32
    ensures Bit(lo + WORD * hi, n) <==> Bit(hi, n - 32)
  {
    var v := lo + WORD * hi;
    Pow2Add(32, n - 32);
    Pow2Word();
    DivModUnique(v, WORD, hi, lo);
    DivDiv(v, WORD, Pow2(n - 32));
    assert v / Pow2(n) == hi / Pow2(n - 32);
  }

  lemma EvenAddParity(a: int, e: int, h: int)
    requires e % 2 == 0
    ensures (a + e * h) % 2 == a % 2
  {
    var c := e / 2;
    assert e * h == 2 * (c * h);
    DivModUnique(a + e * h, 2, a / 2 + c * h, a % 2);
  }

  /**
   * `ATH_AGGR_GET_NDELIM(len)`: the number of 4-byte delimiters that pad a
   * subframe of `len` bytes (plus its own delimiter) toward the 256-byte
   * minimum; the padded length stays at most 256 and a further delimiter
   * would pass it. No padding once `len` plus one delimiter reaches 256.
   */
  function AggrGetNDelim(len: int): (nd: int)
    ensures nd >= 0
    ensures len + ATH_AGGR_DELIM_SZ >= ATH_AGGR_MINPLEN ==> nd == 0
    ensures len + ATH_AGGR_DELIM_SZ < ATH_AGGR_MINPLEN ==>
      ATH_AGGR_MINPLEN - ATH_AGGR_DELIM_SZ
        < len + ATH_AGGR_DELIM_SZ + ATH_AGGR_DELIM_SZ * nd
        <= ATH_AGGR_MINPLEN
  {
    // `>> 2` of a non-negative value is Euclidean division by 4
    (if len + ATH_AGGR_DELIM_SZ < ATH_AGGR_MINPLEN
     then ATH_AGGR_MINPLEN - len - ATH_AGGR_DELIM_SZ
     else 0) / 4
  }

  /** `TID_TO_WME_AC(tid)`: the access category that carries a TID. */
  function TidToWmeAc(tid: int): (ac: int)
    ensures 0 <= ac < WME_NUM_AC
  {
    if tid == 0 || tid == 3 then WME_AC_BE
    else if tid == 1 || tid == 2 then WME_AC_BK
    else if tid == 4 || tid == 5 then WME_AC_VI
    else WME_AC_VO
  }

  /**
   * The user-priority to access-category table of IEEE 802.11e (WMM):
   * priorities 1 and 2 are background, 0 and 3 best effort, 4 and 5 video,
   * 6 and 7 voice.
   */
  const UserPriorityAc: seq<int> :=
    [WME_AC_BE, WME_AC_BK, WME_AC_BK, WME_AC_BE, WME_AC_VI, WME_AC_VI, WME_AC_VO, WME_AC_VO]

  /**
   * The map agrees with the user-priority table on TIDs 0 to 7 and sends
   * every other TID (8 to 15, and any out-of-range value) to voice.
   */
  lemma TidToWmeAcTable(tid: int)
    ensures 0 <= tid < 8 ==> TidToWmeAc(tid) == UserPriorityAc[tid]
    ensures !(0 <= tid < 8) ==> TidToWmeAc(tid) == WME_AC_VO
  {
  }

  /** Each access category is the image of exactly two user priorities. */
  lemma TidToWmeAcTwoEach(ac: int)
    requires 0 <= ac < WME_NUM_AC
    ensures |set t | 0 <= t < 8 && TidToWmeAc(t) == ac| == 2
  {
    var s := set t | 0 <= t < 8 && TidToWmeAc(t) == ac;
    if ac == WME_AC_BE {
      assert s == {0, 3};
    } else if ac == WME_AC_BK {
      assert s == {1, 2};
    } else if ac == WME_AC_VI {
      assert s == {4, 5};
    } else {
      assert s == {6, 7};
    }
  }
}
