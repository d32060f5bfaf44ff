# ath9k `core.h` helpers in Dafny

This is a model of the self-contained logic in the header of the ath9k
802.11n wireless driver:

- the queue-splicing helpers on the kernel's circular doubly linked lists
  (`__list_splice_tail`, `list_splice_tail`, `list_splice_tail_init`,
  `__list_cut_position`, `list_cut_position`);
- the ring-index macros `INCR` and `DECR`, and `A_MAX`;
- the 802.11n block-ack arithmetic: `ATH_BA_INDEX`, `BAW_WITHIN`,
  `ATH_BA_ISSET`, and the aggregate padding `ATH_AGGR_GET_NDELIM`;
- the TID to WMM access-category map `TID_TO_WME_AC`;
- the fixed-point RSSI low-pass filter (`ATH_RSSI_IN`, `ATH_RSSI_OUT`,
  `ATH_LPF_RSSI`, `ATH_RSSI_LPF`);
- `IEEE80211_MS_TO_TU` and `ATH_SET_VAP_BSSID_MASK`.

The model has six modules:

- `CArith` (arith.dfy) gives C's operators on unbounded integers. `BitAnd` is
  two's-complement `&`, `Pow2` is `1 << k`, and `CDiv` and `CMod` are C's
  `/` and `%`, which truncate toward zero. Dafny's own `/` and `%` are
  Euclidean. A right shift of a non-negative value is written as Euclidean
  division.
- `BlockAck` (aggr.dfy) covers the sequence window, the bitmap, delimiters,
  TIDs and ACs, and the scalar fields of `struct ath_atx_tid` and
  `struct ath_arx_tid`.
- `Util` (util.dfy) has `INCR`, `DECR` and `A_MAX`. In the source both
  `INCR` and `DECR` update a variable in place. Here each is a method that
  returns the new value.
- `Beacon` (beacon.dfy) has the time-unit conversion and the BSSID mask.
  The mask macro writes byte 0 of an array in place, and so does
  `SetVapBssidMask`.
- `Rssi` (rssi.dfy) is the filter. `ATH_RSSI_LPF` assigns to `x`;
  `RssiLpf` is the value it assigns.
- `Lists` (lists.dfy) has the list helpers. Memory is a class `ListPool`
  with arrays `next` and `prev` indexed by cell. Each helper is a method
  that rewrites those arrays exactly as the source writes its pointers.
  `Ring(nx, pv, h, s)` states that, in a snapshot of the arrays, head `h`
  heads a list whose entries in `next` order are `s`. `RingDetermined`
  proves that the snapshot fixes `s`, so the contracts describe the
  lists' real contents.

Behaviours of the source that the proofs bring out:

- The value 0x127, which the RSSI filter uses as "no sample yet", is also
  an ordinary average. The samples -10, 99 and 15 lead a fresh filter to
  it (`Rssi.MarkerReachable`). The next sample then restarts the average.
- `ATH_RSSI_OUT` rounds a non-negative average to the nearest dB. A
  negative average is truncated toward zero, because C's `%` is then never
  positive (`Rssi.RssiOutRounds`).
- `INCR` and `DECR` wrap correctly only when the ring size is a power of
  two (`Util.IncrNeedsPowerOfTwo`).

Source paths below are relative to the repository root. The header is
`package/ath9k/src/drivers/net/wireless/ath9k/core.h`.

## Model

| member | source | states |
|---|---|---|
| Lists.ListPool.SpliceTailRaw | package/ath9k/src/drivers/net/wireless/ath9k/core.h:55-66 | given a non-empty `list` disjoint from `head`, the old tail of `head` points forward to the first entry of `list`; the last entry of `list` points forward to `head`, and every other cell is unchanged; afterwards `head` holds its old entries followed by those of `list` |
| Lists.ListPool.ListSpliceTail | package/ath9k/src/drivers/net/wireless/ath9k/core.h:86-91 | an empty `list` changes nothing; otherwise the pointers change as in `__list_splice_tail`; `head` holds `b + a` and the cell of `list` keeps its old pointers |
| Lists.ListPool.ListSpliceTailInit | package/ath9k/src/drivers/net/wireless/ath9k/core.h:101-108 | `head` holds `b + a` and `list` is an empty list; an empty `list` changes nothing |
| Lists.ListPool.CutPositionRaw | package/ath9k/src/drivers/net/wireless/ath9k/core.h:68-79 | with `entry` the k-th entry of `head`, the exact new pointers; `list` holds entries 0..k of `head` in order, and `head` keeps the entries after k, in order |
| Lists.ListPool.ListCutPosition | package/ath9k/src/drivers/net/wireless/ath9k/core.h:117-127 | on a non-empty `head`, cutting at `head` empties `list` and leaves `head` intact; cutting at an entry splits `head` there, and the two parts concatenate back to the old contents |
| Lists.ListPool.InitListHead | package/ath9k/src/drivers/net/wireless/ath9k/core.h:106 | only the given cell changes, and it becomes an empty list |
| Lists.SpliceTailRing | package/ath9k/src/drivers/net/wireless/ath9k/core.h:58-65 | the four pointer writes of the splice turn lists `a` (on `list`) and `b` (on `head`) into the list `b + a` on `head` |
| Lists.CutRing | package/ath9k/src/drivers/net/wireless/ath9k/core.h:71-78 | the six pointer writes of the cut make `list` the list `b[..k+1]` and leave `b[k+1..]` on `head` |
| Lists.CutPositionGuards | package/ath9k/src/drivers/net/wireless/ath9k/core.h:120-122 | the first `BUG_ON` fires exactly on an empty `head`; on a singular `head` the second fires exactly when `entry` is neither `head` nor its entry |
| Lists.RingEmpty | package/ath9k/src/drivers/net/wireless/ath9k/core.h:89 | `Lists.ListPool.IsEmpty` (`list_empty`, head points to itself) holds exactly when the list has no entries |
| Lists.RingSingular | package/ath9k/src/drivers/net/wireless/ath9k/core.h:121 | `list_is_singular` holds exactly when the list has one entry |
| Lists.RingDetermined | package/ath9k/src/drivers/net/wireless/ath9k/core.h:55-127 | the pointers determine a list's entries: a head heads at most one sequence |
| Lists.RingFrame | package/ath9k/src/drivers/net/wireless/ath9k/core.h:104-106 | a list survives any write to cells outside its head and entries |
| Util.Incr | package/ath9k/src/drivers/net/wireless/ath9k/core.h:140-143 | the result is `(l + 1) & (sz - 1)`; for a power-of-two `sz` and `l` in the ring, it is the next slot, wrapping to 0 |
| Util.Decr | package/ath9k/src/drivers/net/wireless/ath9k/core.h:146-149 | the result is `(l - 1) & (sz - 1)`; for a power-of-two `sz` and `l` in the ring, it is the previous slot, wrapping to `sz - 1` |
| Util.MaskedIncrDecr | package/ath9k/src/drivers/net/wireless/ath9k/core.h:140-149 | in a power-of-two ring, `DECR` undoes `INCR` and `INCR` undoes `DECR` |
| Util.MaskIsRing | package/ath9k/src/drivers/net/wireless/ath9k/core.h:140-149 | the masked increment and decrement equal the ring successor and predecessor |
| Util.RingNextPrev | package/ath9k/src/drivers/net/wireless/ath9k/core.h:140-149 | the ring successor and predecessor stay in the ring, wrap at the ends and invert each other |
| Util.IncrNeedsPowerOfTwo | package/ath9k/src/drivers/net/wireless/ath9k/core.h:140-143 | with `sz` = 3, `INCR` takes slot 0 to slot 0, so the power-of-two condition is needed |
| Util.AMax | package/ath9k/src/drivers/net/wireless/ath9k/core.h:151 | the result is one of the two arguments and is at least both |
| BlockAck.BaIndex | package/ath9k/src/drivers/net/wireless/ath9k/core.h:686 | the index lies in [0, 4096) and advances the window start to the sequence number modulo 4096 |
| BlockAck.SeqMaskIsMod | package/ath9k/src/drivers/net/wireless/ath9k/core.h:686 | masking with `IEEE80211_SEQ_MAX - 1` is reduction modulo 4096, negative differences included |
| BlockAck.BaIndexUnique | package/ath9k/src/drivers/net/wireless/ath9k/core.h:686 | the index is the only offset in [0, 4096) that carries the start to the sequence number |
| BlockAck.BaIndexOfAdvance | package/ath9k/src/drivers/net/wireless/ath9k/core.h:686 | the sequence number `k` places past the start has index `k` |
| BlockAck.BaIndexSlide | package/ath9k/src/drivers/net/wireless/ath9k/core.h:686 | moving the start forward by `d`, not past the sequence number, lowers its index by `d` |
| BlockAck.BawWithinIsBaIndex | package/ath9k/src/drivers/net/wireless/ath9k/core.h:686-694 | `BlockAck.BawWithin`, the window test `BAW_WITHIN`, holds exactly when `ATH_BA_INDEX` of the sequence number from the window start is below the window size |
| BlockAck.BawWithinMembers | package/ath9k/src/drivers/net/wireless/ath9k/core.h:693-694 | for a window size up to 4096, the window holds exactly the sequence numbers `start`, ..., `start + size - 1` modulo 4096 |
| BlockAck.BawWithinStart | package/ath9k/src/drivers/net/wireless/ath9k/core.h:693-694 | the window holds its start exactly when its size is positive |
| BlockAck.BawWithinEnd | package/ath9k/src/drivers/net/wireless/ath9k/core.h:693-694 | the window is half open: `start + size` is outside it |
| BlockAck.BawWithinEmpty | package/ath9k/src/drivers/net/wireless/ath9k/core.h:693-694 | a window of size 0 or less admits nothing |
| BlockAck.BaIsSetIsBitmapBit | package/ath9k/src/drivers/net/wireless/ath9k/core.h:682-683 | `BlockAck.BaIsSet`, the test `ATH_BA_ISSET`, holds for two 32-bit words exactly when `n` < 64 and bit `n` of the 64-bit bitmap is set |
| BlockAck.AggrGetNDelim | package/ath9k/src/drivers/net/wireless/ath9k/core.h:689-691 | the delimiter count is never negative; it is 0 once `len + 4` reaches 256; otherwise the padded length ends within 4 bytes of 256 and never passes it |
| BlockAck.TidToWmeAc | package/ath9k/src/drivers/net/wireless/ath9k/core.h:495-499 | the result is one of the four access categories |
| BlockAck.TidToWmeAcTable | package/ath9k/src/drivers/net/wireless/ath9k/core.h:495-507 | TIDs 0-7 follow the WMM table BE, BK, BK, BE, VI, VI, VO, VO; every other TID maps to voice |
| BlockAck.TidToWmeAcTwoEach | package/ath9k/src/drivers/net/wireless/ath9k/core.h:495-507 | each access category receives exactly two of the eight user priorities |
| Rssi.RssiLpf | package/ath9k/src/drivers/net/wireless/ath9k/core.h:995-1002 | a sample below -20 leaves the average unchanged; the first sample seeds it with `128 * y`; later samples give a value between the old average and `128 * y` |
| Rssi.LpfBetween | package/ath9k/src/drivers/net/wireless/ath9k/core.h:995-997 | `Rssi.LpfRssi` (`ATH_LPF_RSSI` with length 10) gives `(9x + t) / 10`, truncated as C truncates, which lies between the old average `x` and the scaled sample `t` |
| Rssi.RssiLpfConverges | package/ath9k/src/drivers/net/wireless/ath9k/core.h:995-1002 | an accepted sample never moves the average away from `128 * y`, and strictly closer once it is at least 10 away |
| Rssi.RssiOutRounds | package/ath9k/src/drivers/net/wireless/ath9k/core.h:988-992 | `Rssi.RssiOut` (`ATH_RSSI_OUT`, through `Rssi.EpRnd`, `ATH_EP_RND`) returns the marker unchanged; it rounds a non-negative average to the nearest dB, halves upward, and truncates a negative one toward zero |
| Rssi.RssiInOut | package/ath9k/src/drivers/net/wireless/ath9k/core.h:987-994 | `Rssi.RssiIn` (`ATH_RSSI_IN`, through `Rssi.EpMul`, `ATH_EP_MUL`) scales a sample by 128, and `ATH_RSSI_OUT` gives it back unchanged |
| Rssi.MarkerReachable | package/ath9k/src/drivers/net/wireless/ath9k/core.h:985-1002 | the samples -10, 99, 15 take a fresh filter to the average 0x127, the marker value |
| Beacon.MsToTu | package/ath9k/src/drivers/net/wireless/ath9k/core.h:790 | the result is `1000x / 1024`, truncated toward zero: within one TU of the exact value, on the side of zero |
| Beacon.MsToTuOdd | package/ath9k/src/drivers/net/wireless/ath9k/core.h:790 | negating the milliseconds negates the time units |
| Beacon.VapBssidMaskByte | package/ath9k/src/drivers/net/wireless/ath9k/core.h:855-856 | the masked byte clears bits 1 to 3 and keeps bit 0 and bits 4 to 7 |
| Beacon.SetVapBssidMask | package/ath9k/src/drivers/net/wireless/ath9k/core.h:855-856 | byte 0 of the mask is masked in place; the other bytes are unchanged |
| Beacon.VapBssidMaskIdempotent | package/ath9k/src/drivers/net/wireless/ath9k/core.h:855-856 | applying the mask twice gives the same byte as applying it once |
| CArith.BitAndLowMask | package/ath9k/src/drivers/net/wireless/ath9k/core.h:141-142 | `x & ((1 << k) - 1)` is `x` modulo `2^k` for every integer `x` |
| CArith.BitAndSingleBit | package/ath9k/src/drivers/net/wireless/ath9k/core.h:683 | `x & (1 << j)` is `1 << j` when bit `j` of `x` is set and 0 otherwise |
| CArith.CDivModIdentity | package/ath9k/src/drivers/net/wireless/ath9k/core.h:988-989 | C's `/` and `%` satisfy `d * q + r == n`; `abs(r) < abs(d)`, and `r` has the sign of `n` |
| CArith.CDivSigns | package/ath9k/src/drivers/net/wireless/ath9k/core.h:790 | C's `/` commutes with negation of either operand |

## Left out

- RX reordering, TX scheduling and aggregation, and ADDBA/DELBA handling:
  the header only declares them. Their bodies are in other files, which are
  not part of this model.
- Locks, timers and tasklets: concurrency is not modelled. The fields of
  the per-TID structures that hold them are left out of `AtxTid` and
  `ArxTid`.
- The pending-buffer queue, the array of frames in flight and the node and
  access-category back pointers of `struct ath_atx_tid`; and the reorder
  buffer of `struct ath_arx_tid`. The header defines no operation on them.
- DMA, descriptor set-up and `ATH_TXBUF_RESET`: they are memory layout and
  hardware interaction.
- Beacon, VAP, antenna, chainmask, keycache and rate declarations: they are
  declarations and constants without logic.
- `get_timestamp`: it reads the kernel clock (`jiffies`, `HZ`).
- `ito64`: it dispatches on `sizeof`, which Dafny has no counterpart for.
- `DPRINTF`, `ASSERT`, `KASSERT` and `memzero`: logging, kernel panics and
  memory clearing. `BUG_ON` in `list_cut_position` becomes a precondition.
- `list_empty`, `list_is_singular` and `INIT_LIST_HEAD` come from
  `<linux/list.h>`, which is not part of this model. They are written after
  their standard definitions (`ListPool.IsEmpty`, `RingEmpty`,
  `RingSingular`, `ListPool.InitListHead`).
- Lists.ListPool.ListCutPosition: requires `entry` to be `head` or one of
  its entries on lists of every length. The source checks this only on
  singular lists and leaves longer lists undefined.
- Overflow of C's `int` is not modelled. All arithmetic is on unbounded
  integers: `9 * x` in the RSSI filter, `x * 1000` in
  `IEEE80211_MS_TO_TU`, and the sequence-number differences.
- BlockAck.BaIsSet: takes `n` as a natural number. A negative `n` in C
  passes the `< 64` test and indexes before the bitmap. `1 << 31` on a
  signed `int` is also undefined in C; the model treats it as bit 31.
- BlockAck.BaIsSetIsBitmapBit: assumes each bitmap word holds a 32-bit
  unsigned value (`Words32`).
