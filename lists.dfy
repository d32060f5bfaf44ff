/**
 * The queue-splicing helpers of `core.h` on circular doubly linked lists of
 * `struct list_head` cells.
 *
 * Memory is a pool of cells numbered from 0; cell `c` has the pointers
 * `next[c]` and `prev[c]`. A list is a head cell `h` together with the
 * sequence of entry cells met by following `next` from `h` until `h` comes
 * round again; `Ring` states that relation on a snapshot of the pointers.
 * The helpers rewrite the pointers of a few cells, in the order the source
 * does, and their contracts say what each list holds afterwards.
 *
 * `list_empty`, `list_is_singular` and `INIT_LIST_HEAD` come from the
 * kernel's `<linux/list.h>`, which is not part of this model; they are
 * written here after their standard definitions.
 */
module Lists {

  /** No cell occurs twice in `s`. */
  ghost predicate Distinct(s: seq<int>)
  {
    forall i, j :: 0 <= i < j < |s| ==> s[i] != s[j]
  }

  /** The entries `s` of a list headed by `h`, in a pool of `n` cells. */
  ghost predicate Cells(n: int, h: int, s: seq<int>)
  {
    && (forall i :: 0 <= i < |s| ==> 0 <= s[i] < n)
    && h !in s
    && Distinct(s)
  }

  /** Cell `x` points forward to `y` and `y` back to `x`. */
  ghost predicate Linked(nx: seq<int>, pv: seq<int>, x: int, y: int)
  {
    0 <= x < |nx| && 0 <= y < |pv| && nx[x] == y && pv[y] == x
  }

  /** Consecutive entries of `s` point at each other. */
  ghost predicate Links(nx: seq<int>, pv: seq<int>, s: seq<int>)
  {
    forall i :: 0 <= i < |s| - 1 ==> Linked(nx, pv, s[i], s[i + 1])
  }

  /** The head and the two ends of `s` point at each other. */
  ghost predicate Ends(nx: seq<int>, pv: seq<int>, h: int, s: seq<int>)
    requires 0 <= h < |nx| && |nx| == |pv| && forall i :: 0 <= i < |s| ==> 0 <= s[i] < |nx|
  {
    if s == [] then nx[h] == h && pv[h] == h
    else nx[h] == s[0] && pv[s[0]] == h && nx[s[|s| - 1]] == h && pv[h] == s[|s| - 1]
  }

  /**
   * In the pointer snapshot `nx`, `pv`, cell `h` heads a circular doubly
   * linked list whose entries, in `next` order, are `s`.
   */
  ghost predicate Ring(nx: seq<int>, pv: seq<int>, h: int, s: seq<int>)
  {
    && |nx| == |pv|
    && 0 <= h < |nx|
    && Cells(|nx|, h, s)
    && Ends(nx, pv, h, s)
    && Links(nx, pv, s)
  }

  /** The cell before the head: the last entry, or the head of an empty list. */
  function Tail(h: int, s: seq<int>): int
  {
    if s == [] then h else s[|s| - 1]
  }

  /** Two lists that share no cell. */
  ghost predicate Apart(l: int, a: seq<int>, h: int, b: seq<int>)
  {
    l != h && l !in b && h !in a && (forall x :: x in a ==> x !in b)
  }

  /** The position of `e` in `s`: its first occurrence. */
  function IndexOf(s: seq<int>, e: int): (k: nat)
    requires e in s
    ensures k < |s| && s[k] == e && e !in s[..k]
  {
    if s[0] == e then 0 else 1 + IndexOf(s[1..], e)
  }

  /** Two pointer snapshots that agree on cell `c`. */
  ghost predicate SameCell(nx: seq<int>, pv: seq<int>, nx': seq<int>, pv': seq<int>, c: int)
  {
    0 <= c < |nx| && c < |pv| && c < |nx'| && c < |pv'| && nx'[c] == nx[c] && pv'[c] == pv[c]
  }

  /** `list_empty(h)`: a list is empty exactly when its head points to itself. */
  lemma RingEmpty(nx: seq<int>, pv: seq<int>, h: int, s: seq<int>)
    requires Ring(nx, pv, h, s)
    ensures nx[h] == h <==> s == []
  {
  }

  /**
   * `list_is_singular(h)` (`!list_empty(h) && h->next == h->prev`): the
   * list has exactly one entry.
   */
  lemma RingSingular(nx: seq<int>, pv: seq<int>, h: int, s: seq<int>)
    requires Ring(nx, pv, h, s)
    ensures (nx[h] != h && nx[h] == pv[h]) <==> |s| == 1
  {
    if |s| >= 2 {
      assert s[0] != s[|s| - 1];
    }
  }

  /**
   * The two `BUG_ON`s of `list_cut_position` against its precondition: the
   * first fires exactly on an empty `head`; on a singular `head` the second
   * fires exactly when `entry` is neither `head` nor its one entry. On longer
   * lists the source checks nothing and the precondition is the caller's.
   */
  lemma CutPositionGuards(nx: seq<int>, pv: seq<int>, head: int, b: seq<int>, entry: int)
    requires Ring(nx, pv, head, b)
    ensures nx[head] == head <==> b == []
    ensures (nx[head] != head && nx[head] == pv[head]) ==>
      ((nx[head] != entry && head != entry) <==> !(entry == head || entry in b))
  {
    RingEmpty(nx, pv, head, b);
    RingSingular(nx, pv, head, b);
    if |b| == 1 {
      assert entry in b <==> entry == b[0];
    }
  }

  /** The `next` of entry `i` is the head exactly at the last entry. */
  lemma NextIsHeadIffLast(nx: seq<int>, pv: seq<int>, h: int, s: seq<int>, i: int)
    requires Ring(nx, pv, h, s) && 0 <= i < |s|
    ensures nx[s[i]] == h <==> i == |s| - 1
  {
    if i < |s| - 1 {
      assert nx[s[i]] == s[i + 1] && s[i + 1] in s;
    }
  }

  lemma {:induction false} PrefixAgrees(nx: seq<int>, pv: seq<int>, h: int, s: seq<int>, t: seq<int>, i: int)
    requires Ring(nx, pv, h, s) && Ring(nx, pv, h, t)
    requires 0 <= i < |s| && i < |t|
    ensures s[i] == t[i]
    decreases i
  {
    if i > 0 {
      PrefixAgrees(nx, pv, h, s, t, i - 1);
      assert s[i] == nx[s[i - 1]] && t[i] == nx[t[i - 1]];
    }
  }

  /**
   * The pointers determine the list: a head cell heads at most one sequence
   * of entries, so the sequences in the contracts below are the contents of
   * the lists and nothing the caller can choose.
   */
  lemma {:induction false} RingDetermined(nx: seq<int>, pv: seq<int>, h: int, s: seq<int>, t: seq<int>)
    requires Ring(nx, pv, h, s) && Ring(nx, pv, h, t)
    ensures s == t
  {
    RingEmpty(nx, pv, h, s);
    RingEmpty(nx, pv, h, t);
    var m := if |s| < |t| then |s| else |t|;
    if m > 0 {
      PrefixAgrees(nx, pv, h, s, t, m - 1);
      NextIsHeadIffLast(nx, pv, h, s, m - 1);
      NextIsHeadIffLast(nx, pv, h, t, m - 1);
    }
    forall i | 0 <= i < |s| && i < |t|
      ensures s[i] == t[i]
    {
      PrefixAgrees(nx, pv, h, s, t, i);
    }
  }

  /**
   * A list is untouched by any change to cells outside it: if the new
   * snapshot agrees with the old one on the head and on every entry, the
   * list is still there.
   */
  lemma RingFrame(nx: seq<int>, pv: seq<int>, nx': seq<int>, pv': seq<int>, h: int, s: seq<int>)
    requires Ring(nx, pv, h, s) && |nx'| == |nx| && |pv'| == |pv|
    requires SameCell(nx, pv, nx', pv', h)
    requires forall i :: 0 <= i < |s| ==> SameCell(nx, pv, nx', pv', s[i])
    ensures Ring(nx', pv', h, s)
  {
    if s != [] {
      assert SameCell(nx, pv, nx', pv', s[0]);
      assert SameCell(nx, pv, nx', pv', s[|s| - 1]);
    }
    forall i | 0 <= i < |s| - 1
      ensures nx'[s[i]] == s[i + 1] && pv'[s[i + 1]] == s[i]
    {
      assert SameCell(nx, pv, nx', pv', s[i]);
      assert SameCell(nx, pv, nx', pv', s[i + 1]);
    }
  }

  /** `INIT_LIST_HEAD` on a cell outside a list leaves that list intact. */
  lemma InitKeepsOthers(nx: seq<int>, pv: seq<int>, l: int, h: int, s: seq<int>)
    requires Ring(nx, pv, h, s) && 0 <= l < |nx| && l != h && l !in s
    ensures Ring(nx[l := l], pv[l := l], h, s)
  {
    forall i | 0 <= i < |s|
      ensures SameCell(nx, pv, nx[l := l], pv[l := l], s[i])
    {
    }
    RingFrame(nx, pv, nx[l := l], pv[l := l], h, s);
  }

  /** A slice of a list's entries is again free of repeats and of `h`. */
  lemma CellsSlice(n: int, h: int, s: seq<int>, lo: int, hi: int)
    requires Cells(n, h, s) && 0 <= lo <= hi <= |s|
    ensures Cells(n, h, s[lo..hi])
  {
    var r := s[lo..hi];
    forall i, j | 0 <= i < j < |r| ensures r[i] != r[j] {
      assert r[i] == s[lo + i] && r[j] == s[lo + j];
    }
    assert forall i :: 0 <= i < |r| ==> r[i] == s[lo + i];
  }

  /** Two disjoint sets of entries together are again free of repeats. */
  lemma CellsConcat(n: int, h: int, b: seq<int>, a: seq<int>)
    requires Cells(n, h, b) && Cells(n, h, a)
    requires forall x :: x in a ==> x !in b
    ensures Cells(n, h, b + a)
  {
    var c := b + a;
    forall i, j | 0 <= i < j < |c|
      ensures c[i] != c[j]
    {
      if j < |b| {
      } else if i >= |b| {
        assert c[i] == a[i - |b|] && c[j] == a[j - |b|];
      } else {
        assert c[i] in b && c[j] in a;
      }
    }
  }

  /**
   * The links inside a slice of a list survive any change that keeps the
   * `next` of each of its cells but the last and the `prev` of each but the
   * first.
   */
  lemma LinksSlice(nx: seq<int>, pv: seq<int>, nx': seq<int>, pv': seq<int>, s: seq<int>, lo: int, hi: int)
    requires Links(nx, pv, s) && 0 <= lo <= hi <= |s|
    requires forall i :: lo <= i < hi - 1 ==> 0 <= s[i] < |nx| && s[i] < |nx'| && nx'[s[i]] == nx[s[i]]
    requires forall i :: lo < i < hi ==> 0 <= s[i] < |pv| && s[i] < |pv'| && pv'[s[i]] == pv[s[i]]
    ensures Links(nx', pv', s[lo..hi])
  {
    var r := s[lo..hi];
    forall i | 0 <= i < |r| - 1
      ensures Linked(nx', pv', r[i], r[i + 1])
    {
      assert r[i] == s[lo + i] && r[i + 1] == s[lo + i + 1];
      assert Linked(nx, pv, s[lo + i], s[lo + i + 1]);
    }
  }

  /** Two linked runs joined last-to-first form one linked run. */
  lemma LinksConcat(nx: seq<int>, pv: seq<int>, b: seq<int>, a: seq<int>)
    requires Links(nx, pv, b) && Links(nx, pv, a)
    requires b != [] && a != [] ==>
      0 <= b[|b| - 1] < |nx| && 0 <= a[0] < |pv| && nx[b[|b| - 1]] == a[0] && pv[a[0]] == b[|b| - 1]
    ensures Links(nx, pv, b + a)
  {
    var c := b + a;
    forall i | 0 <= i < |c| - 1
      ensures Linked(nx, pv, c[i], c[i + 1])
    {
      if i < |b| - 1 {
        assert c[i] == b[i] && c[i + 1] == b[i + 1];
        assert Linked(nx, pv, b[i], b[i + 1]);
      } else if i == |b| - 1 {
        assert c[i] == b[|b| - 1] && c[i + 1] == a[0];
      } else {
        assert c[i] == a[i - |b|] && c[i + 1] == a[i - |b| + 1];
        assert Linked(nx, pv, a[i - |b|], a[i - |b| + 1]);
      }
    }
  }

  /**
   * The rewiring of `__list_splice_tail`, as `ListPool.SpliceTailRaw` states
   * it: the two boundary links, from the old tail of `head` to the first
   * moved entry and from the last moved entry back to `head`, are made in
   * both directions. The result appends the entries of `list` to those of
   * `head`.
   */
  lemma SpliceTailRing(nx: seq<int>, pv: seq<int>, list: int, head: int, a: seq<int>, b: seq<int>)
    requires Ring(nx, pv, list, a) && a != []
    requires Ring(nx, pv, head, b)
    requires Apart(list, a, head, b)
    ensures Ring(nx[Tail(head, b) := a[0]][a[|a| - 1] := head],
                 pv[head := a[|a| - 1]][a[0] := Tail(head, b)],
                 head, b + a)
  {
    var t, first, last := Tail(head, b), a[0], a[|a| - 1];
    var nx' := nx[t := first][last := head];
    var pv' := pv[head := last][first := t];
    assert t == head || t in b;
    assert Cells(|nx|, head, a);
    CellsConcat(|nx|, head, b, a);
    SpliceKeepsHeadLinks(nx, pv, nx', pv', head, a, b);
    SpliceKeepsListLinks(nx, pv, nx', pv', list, head, a, b);
    LinksConcat(nx', pv', b, a);
    var c := b + a;
    assert c[|c| - 1] == last;
    if b != [] {
      assert c[0] == b[0] && b[0] != first && b[0] != head;
    } else {
      assert c[0] == first;
    }
  }

  /** The splice keeps the links between the old entries of `head`. */
  lemma SpliceKeepsHeadLinks(nx: seq<int>, pv: seq<int>, nx': seq<int>, pv': seq<int>,
                             head: int, a: seq<int>, b: seq<int>)
    requires |nx| == |pv| && 0 <= head < |nx| && Cells(|nx|, head, b) && Links(nx, pv, b)
    requires a != [] && (forall x :: x in a ==> x !in b)
    requires forall i :: 0 <= i < |a| ==> 0 <= a[i] < |nx|
    requires nx' == nx[Tail(head, b) := a[0]][a[|a| - 1] := head]
    requires pv' == pv[head := a[|a| - 1]][a[0] := Tail(head, b)]
    ensures Links(nx', pv', b)
  {
    forall i | 0 <= i < |b| - 1
      ensures nx'[b[i]] == nx[b[i]]
    {
      assert b[i] != b[|b| - 1] && b[i] !in a;
    }
    forall i | 0 < i < |b|
      ensures pv'[b[i]] == pv[b[i]]
    {
      assert b[i] !in a;
    }
    assert b[0..|b|] == b;
    LinksSlice(nx, pv, nx', pv', b, 0, |b|);
  }

  /** The splice keeps the links between the moved entries. */
  lemma SpliceKeepsListLinks(nx: seq<int>, pv: seq<int>, nx': seq<int>, pv': seq<int>,
                             list: int, head: int, a: seq<int>, b: seq<int>)
    requires |nx| == |pv| && Cells(|nx|, list, a) && Links(nx, pv, a) && a != []
    requires head !in a && Tail(head, b) !in a && 0 <= head < |nx| && 0 <= Tail(head, b) < |nx|
    requires nx' == nx[Tail(head, b) := a[0]][a[|a| - 1] := head]
    requires pv' == pv[head := a[|a| - 1]][a[0] := Tail(head, b)]
    ensures Links(nx', pv', a)
  {
    forall i | 0 <= i < |a| - 1
      ensures nx'[a[i]] == nx[a[i]]
    {
      assert a[i] != a[|a| - 1];
    }
    forall i | 0 < i < |a|
      ensures pv'[a[i]] == pv[a[i]]
    {
      assert a[i] != a[0];
    }
    assert a[0..|a|] == a;
    LinksSlice(nx, pv, nx', pv', a, 0, |a|);
  }

  /**
   * The rewiring of `__list_cut_position`, with `entry` the `k`-th entry of
   * `head`, as `ListPool.CutPositionRaw` states it. `list` is linked both
   * ways to the first entry and to `entry`, which closes the front part into
   * a ring on `list`. `head` is linked both ways to the entry after `entry`,
   * or to itself when there is none. The entries up to and including
   * `entry` move to `list` and the rest stay on `head`.
   */
  lemma CutRing(nx: seq<int>, pv: seq<int>, list: int, head: int, b: seq<int>, k: int)
    requires Ring(nx, pv, head, b) && 0 <= k < |b|
    requires 0 <= list < |nx| && list != head && list !in b
    ensures var e, nf := b[k], if k + 1 < |b| then b[k + 1] else head;
      var nx', pv' := nx[list := b[0]][e := list][head := nf], pv[b[0] := list][list := e][nf := head];
      Ring(nx', pv', list, b[..k + 1]) && Ring(nx', pv', head, b[k + 1..])
  {
    var e, nf := b[k], if k + 1 < |b| then b[k + 1] else head;
    var nx', pv' := nx[list := b[0]][e := list][head := nf], pv[b[0] := list][list := e][nf := head];
    CutFront(nx, pv, nx', pv', list, head, b, k, nf);
    CutBack(nx, pv, nx', pv', list, head, b, k, nf);
  }

  /** The cut part of `CutRing`: `list` heads the entries 0 to `k`. */
  lemma CutFront(nx: seq<int>, pv: seq<int>, nx': seq<int>, pv': seq<int>,
                 list: int, head: int, b: seq<int>, k: int, nf: int)
    requires Ring(nx, pv, head, b) && 0 <= k < |b|
    requires 0 <= list < |nx| && list != head && list !in b
    requires nf == if k + 1 < |b| then b[k + 1] else head
    requires nx' == nx[list := b[0]][b[k] := list][head := nf]
    requires pv' == pv[b[0] := list][list := b[k]][nf := head]
    ensures Ring(nx', pv', list, b[..k + 1])
  {
    var f := b[..k + 1];
    assert f == b[0..k + 1];
    forall i | 0 <= i < k
      ensures nx'[b[i]] == nx[b[i]]
    {
      assert b[i] != b[k];
    }
    forall i | 0 < i <= k
      ensures pv'[b[i]] == pv[b[i]]
    {
      assert b[i] != b[0] && b[i] != nf;
    }
    LinksSlice(nx, pv, nx', pv', b, 0, k + 1);
    assert Cells(|nx|, list, b);
    CellsSlice(|nx|, list, b, 0, k + 1);
    assert nf != b[0];
    assert f[0] == b[0] && f[|f| - 1] == b[k];
  }

  /** The remaining part of `CutRing`: `head` keeps the entries after `k`. */
  lemma CutBack(nx: seq<int>, pv: seq<int>, nx': seq<int>, pv': seq<int>,
                list: int, head: int, b: seq<int>, k: int, nf: int)
    requires Ring(nx, pv, head, b) && 0 <= k < |b|
    requires 0 <= list < |nx| && list != head && list !in b
    requires nf == if k + 1 < |b| then b[k + 1] else head
    requires nx' == nx[list := b[0]][b[k] := list][head := nf]
    requires pv' == pv[b[0] := list][list := b[k]][nf := head]
    ensures Ring(nx', pv', head, b[k + 1..])
  {
    var r := b[k + 1..];
    assert r == b[k + 1..|b|];
    forall i | k + 1 <= i < |b| - 1
      ensures nx'[b[i]] == nx[b[i]]
    {
      assert b[i] != b[k];
    }
    forall i | k + 1 < i < |b|
      ensures pv'[b[i]] == pv[b[i]]
    {
      assert b[i] != b[0] && b[i] != nf;
    }
    LinksSlice(nx, pv, nx', pv', b, k + 1, |b|);
    CellsSlice(|nx|, head, b, k + 1, |b|);
    CutBackEnds(nx, pv, nx', pv', list, head, b, k, nf);
  }

  /** `head` and the new first and last of its entries point at each other. */
  lemma CutBackEnds(nx: seq<int>, pv: seq<int>, nx': seq<int>, pv': seq<int>,
                    list: int, head: int, b: seq<int>, k: int, nf: int)
    requires Ring(nx, pv, head, b) && 0 <= k < |b|
    requires 0 <= list < |nx| && list != head && list !in b
    requires nf == if k + 1 < |b| then b[k + 1] else head
    requires nx' == nx[list := b[0]][b[k] := list][head := nf]
    requires pv' == pv[b[0] := list][list := b[k]][nf := head]
    ensures Ends(nx', pv', head, b[k + 1..])
  {
    var r := b[k + 1..];
    if r != [] {
      assert nf == r[0] && r[|r| - 1] == b[|b| - 1];
      assert b[|b| - 1] != b[k] && head != nf && head != b[0];
    }
  }

  /**
   * A pool of `struct list_head` cells: the memory the helpers rewire. The
   * two arrays are fixed; their contents are the pointers.
   */
  class ListPool {
    const next: array<int>
    const prev: array<int>

    ghost predicate Valid()
      reads this
    {
      next != prev && next.Length == prev.Length
    }

    /** A pool of `n` cells, each initialised as an empty list head. */
    constructor (n: nat)
      ensures Valid() && next.Length == n && fresh(next) && fresh(prev)
      ensures forall h :: 0 <= h < n ==> Ring(next[..], prev[..], h, [])
    {
      next := new int[n](i => i);
      prev := new int[n](i => i);
    }

    /** `list_empty(h)`. */
    predicate IsEmpty(h: int)
      reads this, next
      requires 0 <= h < next.Length
    {
      next[h] == h
    }

    /** `INIT_LIST_HEAD(h)`: `h` becomes the head of an empty list. */
    method InitListHead(h: int)
      requires Valid() && 0 <= h < next.Length
      modifies next, prev
      ensures next[..] == old(next[..])[h := h]
      ensures prev[..] == old(prev[..])[h := h]
      ensures Ring(next[..], prev[..], h, [])
    {
      next[h] := h;
      prev[h] := h;
    }

    /**
     * `__list_splice_tail(list, head)`: moves every entry of the non-empty
     * list `list` behind the entries of `head`. `list` itself is not
     * written; its pointers still name the moved entries.
     */
    method SpliceTailRaw(list: int, head: int, ghost a: seq<int>, ghost b: seq<int>)
      requires Valid()
      requires Ring(next[..], prev[..], list, a) && a != []
      requires Ring(next[..], prev[..], head, b)
      requires Apart(list, a, head, b)
      modifies next, prev
      ensures next[..] == old(next[..])[Tail(head, b) := a[0]][a[|a| - 1] := head]
      ensures prev[..] == old(prev[..])[head := a[|a| - 1]][a[0] := Tail(head, b)]
      ensures Ring(next[..], prev[..], head, b + a)
    {
      var first := next[list];
      var last := prev[list];
      var currentTail := prev[head];
      next[currentTail] := first;
      next[last] := head;
      prev[head] := last;
      prev[first] := currentTail;
      SpliceTailRing(old(next[..]), old(prev[..]), list, head, a, b);
    }

    /**
     * `list_splice_tail(list, head)`: the entries of `list` follow those of
     * `head`. An empty `list` changes nothing. `list` keeps its stale
     * pointers.
     */
    method ListSpliceTail(list: int, head: int, ghost a: seq<int>, ghost b: seq<int>)
      requires Valid()
      requires Ring(next[..], prev[..], list, a)
      requires Ring(next[..], prev[..], head, b)
      requires Apart(list, a, head, b)
      modifies next, prev
      ensures Ring(next[..], prev[..], head, b + a)
      ensures a == [] ==> next[..] == old(next[..]) && prev[..] == old(prev[..])
      ensures a != [] ==> next[..] == old(next[..])[Tail(head, b) := a[0]][a[|a| - 1] := head]
      ensures a != [] ==> prev[..] == old(prev[..])[head := a[|a| - 1]][a[0] := Tail(head, b)]
      ensures next[list] == old(next[list]) && prev[list] == old(prev[list])
    {
      RingEmpty(next[..], prev[..], list, a);
      if !IsEmpty(list) {
        SpliceTailRaw(list, head, a, b);
      } else {
        assert b + a == b;
      }
    }

    /**
     * `list_splice_tail_init(list, head)`: the entries of `list` follow those
     * of `head` and `list` is reinitialised as an empty list. An empty
     * `list` changes nothing.
     */
    method ListSpliceTailInit(list: int, head: int, ghost a: seq<int>, ghost b: seq<int>)
      requires Valid()
      requires Ring(next[..], prev[..], list, a)
      requires Ring(next[..], prev[..], head, b)
      requires Apart(list, a, head, b)
      modifies next, prev
      ensures Ring(next[..], prev[..], head, b + a)
      ensures Ring(next[..], prev[..], list, [])
      ensures a == [] ==> next[..] == old(next[..]) && prev[..] == old(prev[..])
      ensures a != [] ==> next[..] == old(next[..])[Tail(head, b) := a[0]][a[|a| - 1] := head][list := list]
      ensures a != [] ==> prev[..] == old(prev[..])[head := a[|a| - 1]][a[0] := Tail(head, b)][list := list]
    {
      RingEmpty(next[..], prev[..], list, a);
      if !IsEmpty(list) {
        SpliceTailRaw(list, head, a, b);
        InitKeepsOthers(next[..], prev[..], list, head, b + a);
        InitListHead(list);
      } else {
        assert b + a == b;
      }
    }

    /**
     * `__list_cut_position(list, head, entry)`: with `entry` an entry of
     * `head`, `list` receives the entries of `head` from the first through
     * `entry`, and `head` keeps the rest. The old pointers of `list` are
     * overwritten.
     */
    method CutPositionRaw(list: int, head: int, entry: int, ghost b: seq<int>)
      requires Valid()
      requires Ring(next[..], prev[..], head, b) && entry in b
      requires 0 <= list < next.Length && list != head && list !in b
      modifies next, prev
      ensures var k := IndexOf(b, entry);
        var newFirst := if k + 1 < |b| then b[k + 1] else head;
        && next[..] == old(next[..])[list := b[0]][entry := list][head := newFirst]
        && prev[..] == old(prev[..])[b[0] := list][list := entry][newFirst := head]
      ensures Ring(next[..], prev[..], list, b[..IndexOf(b, entry) + 1])
      ensures Ring(next[..], prev[..], head, b[IndexOf(b, entry) + 1..])
    {
      ghost var k := IndexOf(b, entry);
      var newFirst := if next[entry] != head then next[entry] else head;
      assert newFirst == if k + 1 < |b| then b[k + 1] else head;
      next[list] := next[head];
      prev[next[list]] := list;
      prev[list] := entry;
      next[entry] := list;
      next[head] := newFirst;
      prev[newFirst] := head;
      CutRing(old(next[..]), old(prev[..]), list, head, b, k);
    }

    /**
     * `list_cut_position(list, head, entry)`: `head` must not be empty and
     * `entry` must be `head` itself or one of its entries (the source stops
     * the kernel otherwise). Cutting at `head` leaves `list` empty and
     * `head` as it was; otherwise `list` receives the entries of `head` from
     * the first through `entry`, in order, and `head` keeps the others, in
     * order. Together they hold every old entry of `head` exactly once.
     */
    method ListCutPosition(list: int, head: int, entry: int, ghost b: seq<int>)
      requires Valid()
      requires Ring(next[..], prev[..], head, b)
      requires b != []
      requires entry == head || entry in b
      requires 0 <= list < next.Length && list != head && list !in b
      modifies next, prev
      ensures entry == head ==> next[..] == old(next[..])[list := list] && prev[..] == old(prev[..])[list := list]
      ensures entry == head ==> Ring(next[..], prev[..], list, []) && Ring(next[..], prev[..], head, b)
      ensures entry != head ==>
        var k := IndexOf(b, entry);
        var newFirst := if k + 1 < |b| then b[k + 1] else head;
        && next[..] == old(next[..])[list := b[0]][entry := list][head := newFirst]
        && prev[..] == old(prev[..])[b[0] := list][list := entry][newFirst := head]
      ensures entry != head ==>
        && Ring(next[..], prev[..], list, b[..IndexOf(b, entry) + 1])
        && Ring(next[..], prev[..], head, b[IndexOf(b, entry) + 1..])
        && b[..IndexOf(b, entry) + 1] + b[IndexOf(b, entry) + 1..] == b
    {
      if entry == head {
        InitKeepsOthers(next[..], prev[..], list, head, b);
        InitListHead(list);
      } else {
        CutPositionRaw(list, head, entry, b);
        assert b[..IndexOf(b, entry) + 1] + b[IndexOf(b, entry) + 1..] == b;
      }
    }
  }
}
