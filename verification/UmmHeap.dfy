/** The block allocator: a heap of equal blocks, an address-ordered list of all areas and a list of the
    free ones threaded through the free areas themselves. */
module UmmHeap {

  type U16 = x: int | 0 <= x < 0x1_0000

  /** One block, as link words; the last two, and every block but the first of an area, are user data
      while the area is allocated. */
  datatype Block = Block(next: U16, prev: U16, nfree: U16, pfree: U16)

  type Heap = seq<Block>

  const FREELIST_MASK: U16 := 0x8000

  /** x & UMM_FREELIST_MASK */
  predicate Marked(x: U16) {
    x >= 0x8000
  }

  /** x & UMM_BLOCKNO_MASK */
  function No(x: U16): (n: U16)
    ensures n < 0x8000
  {
    if x >= 0x8000 then x - 0x8000 else x
  }

  /** x | mask, for mask 0 or UMM_FREELIST_MASK */
  function Or(x: U16, mask: U16): (r: U16)
    requires mask == 0 || mask == FREELIST_MASK
    ensures No(r) == No(x) && (Marked(r) <==> Marked(x) || mask == FREELIST_MASK)
  {
    if mask == 0 || Marked(x) then x else x + 0x8000
  }

  /** Links of the area at b. */
  function Next(h: Heap, b: nat): (n: nat) {
    if b < |h| then No(h[b].next) else 0
  }

  function Prev(h: Heap, b: nat): (n: nat) {
    if b < |h| then h[b].prev else 0
  }

  predicate IsFree(h: Heap, b: nat) {
    b < |h| && Marked(h[b].next)
  }

  /** The links of the areas that start at bs mirror each other, in address order up to the last one, tail. */
  ghost predicate Linked(h: Heap, bs: set<nat>, tail: nat) {
    && {0, 1, tail} <= bs && 0 < tail < |h| <= 0x7FFF && Next(h, 0) == 1 && h[tail].next == 0
    && (forall b :: b in bs ==> b <= tail)
    && (forall b {:trigger Next(h, b)} :: b in bs && b != tail ==>
          b < Next(h, b) && Next(h, b) in bs && Prev(h, Next(h, b)) == b)
    && (forall b {:trigger Prev(h, b)} :: b in bs && b != 0 ==>
          Prev(h, b) < b && Prev(h, b) in bs && Next(h, Prev(h, b)) == b)
  }

  /** No area starts inside another. */
  ghost predicate Apart(h: Heap, bs: set<nat>, tail: nat) {
    forall b, x {:trigger Next(h, b), x in bs} :: b in bs && b != tail && x in bs ==> x <= b || Next(h, b) <= x
  }

  /** Block 0 is never free, the tail carries no mark, and no two neighbours are both free. */
  ghost predicate Spread(h: Heap, bs: set<nat>, tail: nat) {
    && !IsFree(h, 0) && !IsFree(h, tail)
    && (forall b {:trigger IsFree(h, Next(h, b))} :: b in bs && b != tail && IsFree(h, b) ==> !IsFree(h, Next(h, b)))
  }

  ghost predicate Areas(h: Heap, bs: set<nat>, tail: nat) {
    Linked(h, bs, tail) && Apart(h, bs, tail) && Spread(h, bs, tail)
  }

  /** What the links of the i-th free area hold: 0 for no area. */
  function After(fl: seq<nat>, i: nat): nat {
    if i + 1 < |fl| then fl[i + 1] else 0
  }

  function Before(fl: seq<nat>, i: nat): nat {
    if 0 < i <= |fl| then fl[i - 1] else 0
  }

  /** fl is the free list: it starts at block 0's link and its links mirror each other. */
  ghost predicate FreeList(h: Heap, fl: seq<nat>) {
    && 0 < |fl| && 0 < |h|
    && (forall i :: 0 <= i < |fl| ==> 0 < fl[i] < |h|)
    && (forall i, j :: 0 <= i < j < |fl| ==> fl[i] != fl[j])
    && h[0].nfree == fl[0]
    && (forall i: nat {:trigger After(fl, i)} :: i < |fl| ==> h[fl[i]].nfree == After(fl, i))
    && (forall i: nat {:trigger Before(fl, i)} :: i < |fl| ==> h[fl[i]].pfree == Before(fl, i))
  }

  /** The free list is exactly the marked areas, followed by the tail. */
  ghost predicate Members(h: Heap, bs: set<nat>, tail: nat, fl: seq<nat>) {
    && 0 < |fl| && fl[|fl| - 1] == tail
    && (forall b :: b in bs ==> b < |h|)
    && (forall b :: b in fl <==> b == tail || (b in bs && IsFree(h, b)))
  }

  ghost predicate WellFormed(h: Heap, bs: set<nat>, tail: nat, fl: seq<nat>) {
    Areas(h, bs, tail) && FreeList(h, fl) && Members(h, bs, tail, fl)
  }

  function Size(h: Heap, c: nat): nat {
    if c <= Next(h, c) then Next(h, c) - c else 0
  }

  /** The allocated areas, with their sizes in blocks. */
  ghost function LiveMap(h: Heap, bs: set<nat>, tail: nat): map<nat, nat> {
    map c | c in bs && 0 < c < tail && !IsFree(h, c) :: Size(h, c)
  }

  /** The user data of the area of n blocks at c is the same in both heaps. */
  ghost predicate SameData(h: Heap, h': Heap, c: nat, n: nat) {
    && c + n <= |h| == |h'| && 0 < n
    && h'[c].nfree == h[c].nfree && h'[c].pfree == h[c].pfree
    && (forall x :: c < x < c + n ==> h'[x] == h[x])
  }

  ghost predicate AllData(h: Heap, h': Heap, live: map<nat, nat>) {
    forall d :: d in live ==> SameData(h, h', d, live[d])
  }

  /** Allocated areas lie inside the heap and share no block. */
  lemma LiveAreasDisjoint(h: Heap, bs: set<nat>, tail: nat, c: nat, d: nat)
    requires Areas(h, bs, tail) && c in LiveMap(h, bs, tail) && d in LiveMap(h, bs, tail) && c != d
    ensures var live := LiveMap(h, bs, tail);
        && (c + live[c] <= d || d + live[d] <= c)
        && 0 < c && 0 < live[c] && c + live[c] <= tail < |h|
  {
  }

  /** The application may write whatever it likes into its areas: the heap stays well formed. */
  lemma UserWritesKeepHeap(h: Heap, h': Heap, bs: set<nat>, tail: nat, fl: seq<nat>)
    requires WellFormed(h, bs, tail, fl) && |h'| == |h|
    requires forall b :: b in bs ==> h'[b].next == h[b].next && h'[b].prev == h[b].prev
    requires forall b :: b in bs && (b == 0 || b in fl) ==> h'[b] == h[b]
    ensures WellFormed(h', bs, tail, fl) && LiveMap(h', bs, tail) == LiveMap(h, bs, tail)
  {
    hide Areas, FreeList, LiveMap;
    FreeIsArea(h, bs, tail, fl);
    StartsInHeap(h, bs, tail);
    AreasKept(h, h', bs, tail);
    FreeListKept(h, h', fl);
    LiveKept(h, h', bs, tail);
  }

  lemma LiveKept(h: Heap, h': Heap, bs: set<nat>, tail: nat)
    requires |h'| == |h| && forall b :: b in bs ==> b < |h| && h'[b].next == h[b].next
    ensures LiveMap(h', bs, tail) == LiveMap(h, bs, tail)
  {
  }

  lemma StartsInHeap(h: Heap, bs: set<nat>, tail: nat)
    requires Areas(h, bs, tail)
    ensures 0 in bs && tail in bs && 0 < tail < |h| <= 0x7FFF && forall b :: b in bs ==> b < |h|
  {
  }

  lemma AreasKept(h: Heap, h': Heap, bs: set<nat>, tail: nat)
    requires Areas(h, bs, tail) && |h'| == |h|
    requires forall b :: b in bs ==> b < |h| && h'[b].next == h[b].next && h'[b].prev == h[b].prev
    ensures Areas(h', bs, tail)
  {
    assert forall b :: b in bs ==>
        Next(h', b) == Next(h, b) && Prev(h', b) == Prev(h, b) && IsFree(h', b) == IsFree(h, b);
  }

  lemma FreeListKept(h: Heap, h': Heap, fl: seq<nat>)
    requires FreeList(h, fl) && |h'| == |h|
    requires h'[0].nfree == h[0].nfree
    requires forall b :: b in fl ==> b < |h| && h'[b].nfree == h[b].nfree && h'[b].pfree == h[b].pfree
    ensures FreeList(h', fl)
  {
    forall i | 0 <= i < |fl|
      ensures h'[fl[i]].nfree == After(fl, i) && h'[fl[i]].pfree == Before(fl, i)
    {
      assert fl[i] in fl;
    }
  }

  lemma FreeIsArea(h: Heap, bs: set<nat>, tail: nat, fl: seq<nat>)
    requires WellFormed(h, bs, tail, fl)
    ensures forall i :: 0 <= i < |fl| ==> fl[i] in bs
    ensures forall i :: 0 <= i < |fl| - 1 ==> fl[i] < tail && IsFree(h, fl[i])
  {
    forall i | 0 <= i < |fl|
      ensures fl[i] in bs && (i < |fl| - 1 ==> fl[i] < tail && IsFree(h, fl[i]))
    {
      assert fl[i] in fl;
    }
  }

  // ---------- the list operations, on heap contents ----------

  function Disconnected(h: Heap, c: nat): (r: Heap)
    requires c < |h| && h[c].pfree < |h| && h[c].nfree < |h|
    ensures |r| == |h|
  {
    var p, n := h[c].pfree, h[c].nfree;
    var h1 := h[p := h[p].(nfree := n)];
    var h2 := h1[n := h1[n].(pfree := p)];
    h2[c := h2[c].(next := No(h2[c].next))]
  }

  function WithNewBlock(h: Heap, c: nat, k: nat, mask: U16): (r: Heap)
    requires c < |h| && c + k < |h| <= 0x7FFF && No(h[c].next) < |h| && (mask == 0 || mask == FREELIST_MASK)
    ensures |r| == |h|
  {
    var n := No(h[c].next);
    var h1 := h[c + k := h[c + k].(next := n, prev := c)];
    var h2 := h1[n := h1[n].(prev := c + k)];
    h2[c := h2[c].(next := Or(c + k, mask))]
  }

  function Without<T>(s: seq<T>, k: nat): (r: seq<T>)
    requires k < |s|
    ensures |r| == |s| - 1
  {
    s[..k] + s[k + 1..]
  }

  /** The links of the j-th free area after unlinking the k-th. */
  lemma DisconnectedAt(h: Heap, fl: seq<nat>, k: nat, j: nat)
    requires FreeList(h, fl) && k < |fl| - 1 && j < |fl| && j != k
    ensures h[fl[k]].pfree == Before(fl, k) < |h| && h[fl[k]].nfree == fl[k + 1] < |h|
    ensures var r := Disconnected(h, fl[k]);
        && r[fl[j]].nfree == (if j + 1 == k then fl[k + 1] else After(fl, j))
        && r[fl[j]].pfree == (if j == k + 1 then Before(fl, k) else Before(fl, j))
        && r[0].nfree == (if k == 0 then fl[1] else fl[0])
  {
    var c, n, p := fl[k], fl[k + 1], Before(fl, k);
    assert After(fl, k) == n && h[c].pfree == p;
    assert h[fl[j]].nfree == After(fl, j) && h[fl[j]].pfree == Before(fl, j);
    assert fl[j] != c && (fl[j] == n <==> j == k + 1) && (fl[j] == p <==> j + 1 == k);
  }

  lemma WithoutLinks(fl: seq<nat>, k: nat, i: nat)
    requires k < |fl| - 1 && i < |fl| - 1
    ensures var fl', j := Without(fl, k), if i < k then i else i + 1;
        && fl'[i] == fl[j]
        && After(fl', i) == (if j + 1 == k then fl[k + 1] else After(fl, j))
        && Before(fl', i) == (if j == k + 1 then Before(fl, k) else Before(fl, j))
  {
  }

  /** Unlinking the k-th free area takes it off the free list. */
  lemma DisconnectedList(h: Heap, fl: seq<nat>, k: nat)
    requires FreeList(h, fl) && k < |fl| - 1
    ensures h[fl[k]].pfree < |h| && h[fl[k]].nfree < |h|
    ensures FreeList(Disconnected(h, fl[k]), Without(fl, k))
  {
    hide Disconnected, After, Before;
    DisconnectedAt(h, fl, k, |fl| - 1);
    var r, fl' := Disconnected(h, fl[k]), Without(fl, k);
    forall i: nat | i < |fl'|
      ensures r[fl'[i]].nfree == After(fl', i) && r[fl'[i]].pfree == Before(fl', i)
    {
      WithoutLinks(fl, k, i);
      DisconnectedAt(h, fl, k, if i < k then i else i + 1);
    }
  }

  function Grown(h: Heap, t: nat, k: nat): (r: Heap)
    requires t < |h| && t + k < |h| <= 0x7FFF && h[t].pfree < |h|
    ensures |r| == |h|
  {
    var p := h[t].pfree;
    var h1 := h[p := h[p].(nfree := t + k)];
    var h2 := h1[t + k := h1[t]];
    var h3 := h2[t := h2[t].(next := t + k)];
    h3[t + k := h3[t + k].(prev := t)]
  }

  /** c and the area after it made one. */
  function MergedUp(h: Heap, c: nat): (r: Heap)
    requires c < |h| <= 0x7FFF && Next(h, c) < |h| && Next(h, Next(h, c)) < |h|
    ensures |r| == |h|
  {
    var n := Next(h, Next(h, c));
    var h1 := h[n := h[n].(prev := c)];
    h1[c := h1[c].(next := n)]
  }

  /** c made part of the area before it, which is marked with mask. */
  function MergedDown(h: Heap, c: nat, mask: U16): (r: Heap)
    requires c < |h| && h[c].next < |h| && h[c].prev < |h| && (mask == 0 || mask == FREELIST_MASK)
    ensures |r| == |h|
  {
    var p, n := h[c].prev, h[c].next;
    var h1 := h[p := h[p].(next := Or(h[c].next, mask))];
    h1[n := h1[n].(prev := h1[c].prev)]
  }

  function Pushed(h: Heap, c: nat): (r: Heap)
    requires 0 < c < |h| <= 0x7FFF && h[0].nfree < |h|
    ensures |r| == |h|
  {
    var f := h[0].nfree;
    var h1 := h[f := h[f].(pfree := c)];
    var h2 := h1[c := h1[c].(nfree := h1[0].nfree, pfree := 0)];
    var h3 := h2[0 := h2[0].(nfree := c)];
    h3[c := h3[c].(next := Or(h3[c].next, FREELIST_MASK))]
  }

  // ---------- what they do to the areas ----------

  /** Links stay, marks may go. */
  lemma AreasUnmarked(h: Heap, h': Heap, bs: set<nat>, tail: nat)
    requires Areas(h, bs, tail) && |h'| == |h| && h'[tail].next == 0
    requires forall b ::
      b in bs ==> Next(h', b) == Next(h, b) && Prev(h', b) == Prev(h, b) && (IsFree(h', b) ==> IsFree(h, b))
    ensures Areas(h', bs, tail)
  {
  }

  /** m becomes an area of its own inside the area at c. */
  lemma LinkedInserted(h: Heap, r: Heap, bs: set<nat>, tail: nat, c: nat, m: nat)
    requires Linked(h, bs, tail) && |r| == |h| && c in bs && 0 < c && c != tail && c < m < Next(h, c) && m !in bs
    requires Next(r, c) == m && Next(r, m) == Next(h, c) && Prev(r, m) == c && Prev(r, Next(h, c)) == m
    requires r[tail].next == 0
    requires forall b {:trigger Next(r, b)} :: b in bs && b != c ==> Next(r, b) == Next(h, b)
    requires forall b {:trigger Prev(r, b)} :: b in bs && b != Next(h, c) ==> Prev(r, b) == Prev(h, b)
    ensures Linked(r, bs + {m}, tail)
  {
    hide Next, Prev;
  }

  lemma ApartInserted(h: Heap, r: Heap, bs: set<nat>, tail: nat, c: nat, m: nat)
    requires Apart(h, bs, tail) && c in bs && c != tail && c < m < Next(h, c)
    requires Next(r, c) == m && Next(r, m) == Next(h, c)
    requires forall b {:trigger Next(r, b)} :: b in bs && b != c ==> Next(r, b) == Next(h, b)
    ensures Apart(r, bs + {m}, tail)
  {
    hide Next;
  }

  lemma SpreadInserted(h: Heap, r: Heap, bs: set<nat>, tail: nat, c: nat, m: nat)
    requires Linked(h, bs, tail) && Spread(h, bs, tail) && c in bs && c != tail && IsFree(h, c)
    requires Next(r, c) == m && Next(r, m) == Next(h, c) && !IsFree(r, m)
    requires forall b {:trigger Next(r, b)} :: b in bs && b != c ==> Next(r, b) == Next(h, b)
    requires forall b {:trigger IsFree(r, b)} :: b in bs ==> IsFree(r, b) == IsFree(h, b)
    ensures Spread(r, bs + {m}, tail)
  {
    hide Next, Prev, IsFree;
    assert 0 in bs && tail in bs;
    forall b | b in bs + {m} && b != tail && IsFree(r, b)
      ensures !IsFree(r, Next(r, b))
    {
      if b != c && b != m {
        assert Next(h, b) in bs && Next(r, b) == Next(h, b) && IsFree(h, b);
      }
    }
  }

  /** A new tail t after the old one. */
  lemma LinkedAppended(h: Heap, r: Heap, bs: set<nat>, tail: nat, t: nat)
    requires Linked(h, bs, tail) && |r| == |h| && tail < t < |r|
    requires Next(r, tail) == t && Prev(r, t) == tail && r[t].next == 0
    requires forall b {:trigger Next(r, b)} :: b in bs && b != tail ==> Next(r, b) == Next(h, b)
    requires forall b {:trigger Prev(r, b)} :: b in bs ==> Prev(r, b) == Prev(h, b)
    ensures Linked(r, bs + {t}, t)
  {
    hide Next, Prev;
  }

  lemma ApartAppended(h: Heap, r: Heap, bs: set<nat>, tail: nat, t: nat)
    requires Linked(h, bs, tail) && Apart(h, bs, tail) && tail < t && Next(r, tail) == t
    requires forall b {:trigger Next(r, b)} :: b in bs && b != tail ==> Next(r, b) == Next(h, b)
    ensures Apart(r, bs + {t}, t)
  {
    hide Next, Prev;
  }

  lemma SpreadAppended(h: Heap, r: Heap, bs: set<nat>, tail: nat, t: nat)
    requires Linked(h, bs, tail) && Spread(h, bs, tail) && Next(r, tail) == t && !IsFree(r, t)
    requires forall b {:trigger Next(r, b)} :: b in bs && b != tail ==> Next(r, b) == Next(h, b)
    requires forall b {:trigger IsFree(r, b)} :: b in bs ==> IsFree(r, b) == IsFree(h, b)
    ensures Spread(r, bs + {t}, t)
  {
    hide Next, Prev, IsFree;
    assert 0 in bs && tail in bs;
    forall b | b in bs + {t} && b != t && IsFree(r, b)
      ensures !IsFree(r, Next(r, b))
    {
      assert Next(h, b) in bs && Next(r, b) == Next(h, b) && IsFree(h, b);
    }
  }

  /** The area m joins the area c before it. */
  lemma LinkedRemoved(h: Heap, r: Heap, bs: set<nat>, tail: nat, c: nat, m: nat)
    requires Linked(h, bs, tail) && |r| == |h| && c in bs && 0 < c < tail && Next(h, c) == m && m in bs && m != tail
    requires Next(r, c) == Next(h, m) && Prev(r, Next(h, m)) == c && r[tail].next == 0
    requires forall b {:trigger Next(r, b)} :: b in bs && b != c && b != m ==> Next(r, b) == Next(h, b)
    requires forall b {:trigger Prev(r, b)} :: b in bs && b != m && b != Next(h, m) ==> Prev(r, b) == Prev(h, b)
    ensures Linked(r, bs - {m}, tail)
  {
    hide Next, Prev;
    assert 0 in bs && m != 1 && c < m;
    forall b | b in bs - {m} && b != tail
      ensures b < Next(r, b) && Next(r, b) in bs - {m} && Prev(r, Next(r, b)) == b
    {
      if b != c {
        assert Next(h, b) in bs && Prev(h, Next(h, b)) == b && Next(h, b) != Next(h, m);
      } else {
        assert Next(h, m) in bs && m < Next(h, m);
      }
    }
    forall b | b in bs - {m} && b != 0
      ensures Prev(r, b) < b && Prev(r, b) in bs - {m} && Next(r, Prev(r, b)) == b
    {
      if b != Next(h, m) {
        assert Prev(h, b) in bs && Next(h, Prev(h, b)) == b;
      }
    }
  }

  lemma ApartRemoved(h: Heap, r: Heap, bs: set<nat>, tail: nat, c: nat, m: nat)
    requires Apart(h, bs, tail) && c in bs && c != tail && Next(h, c) == m && m in bs && m != tail && m < Next(h, m)
    requires Next(r, c) == Next(h, m)
    requires forall b {:trigger Next(r, b)} :: b in bs && b != c && b != m ==> Next(r, b) == Next(h, b)
    ensures Apart(r, bs - {m}, tail)
  {
    hide Next;
  }

  lemma SpreadRemoved(h: Heap, r: Heap, bs: set<nat>, tail: nat, c: nat, m: nat)
    requires Linked(h, bs, tail) && Spread(h, bs, tail) && c in bs
    requires 0 < c < tail && Next(h, c) == m && m in bs && m != tail
    requires Next(r, c) == Next(h, m) && !IsFree(h, m) && !IsFree(h, Next(h, m))
    requires IsFree(r, c) ==> IsFree(h, c)
    requires forall b {:trigger Next(r, b)} :: b in bs && b != c && b != m ==> Next(r, b) == Next(h, b)
    requires forall b {:trigger IsFree(r, b)} :: b in bs && b != c && b != m ==> IsFree(r, b) == IsFree(h, b)
    ensures Spread(r, bs - {m}, tail)
  {
    hide Next, Prev, IsFree;
    assert 0 in bs && tail in bs && c < m && m < Next(h, m) && Next(h, m) in bs;
    forall b | b in bs - {m} && b != tail && IsFree(r, b)
      ensures !IsFree(r, Next(r, b))
    {
      assert Next(h, b) in bs && Prev(h, Next(h, b)) == b && b < Next(h, b);
      if b != c {
        assert Next(r, b) == Next(h, b) && IsFree(h, b);
      }
    }
  }

  /** Marks change at c only, and its neighbours are not free. */
  lemma SpreadMarked(h: Heap, r: Heap, bs: set<nat>, tail: nat, c: nat)
    requires Linked(h, bs, tail) && Spread(h, bs, tail) && c in bs && 0 < c < tail
    requires !IsFree(h, Next(h, c)) && !IsFree(h, Prev(h, c))
    requires forall b {:trigger Next(r, b)} :: b in bs ==> Next(r, b) == Next(h, b)
    requires forall b {:trigger IsFree(r, b)} :: b in bs && b != c ==> IsFree(r, b) == IsFree(h, b)
    ensures Spread(r, bs, tail)
  {
    hide Next, Prev, IsFree;
    assert 0 in bs && tail in bs;
    forall b | b in bs && b != tail && IsFree(r, b)
      ensures !IsFree(r, Next(r, b))
    {
      assert Next(h, b) in bs && Prev(h, Next(h, b)) == b && b < Next(h, b);
    }
  }

  // ---------- each list operation ----------

  /** The links around an area that is neither block 0 nor the tail. */
  lemma Around(h: Heap, bs: set<nat>, tail: nat, c: nat)
    requires Areas(h, bs, tail) && c in bs && 0 < c < tail
    ensures var p, n := Prev(h, c), Next(h, c);
        && p < c < n <= tail < |h| <= 0x7FFF && p in bs && n in bs && Prev(h, n) == c && Next(h, p) == c
        && h[tail].next == 0 && h[c].prev == p && No(h[c].next) == n
        && (n != tail ==> n < Next(h, n) <= tail && Next(h, n) in bs && Prev(h, Next(h, n)) == n)
    ensures forall x :: c < x < Next(h, c) ==> x !in bs
    ensures forall b :: b in bs ==> b <= tail
  {
  }

  lemma SplitLinks(h: Heap, c: nat, k: nat)
    requires 0 < k && c < |h| <= 0x7FFF && c + k < No(h[c].next) < |h|
    ensures var r, m, n := WithNewBlock(h, c, k, FREELIST_MASK), c + k, Next(h, c);
        && Next(r, c) == m && Next(r, m) == n && Prev(r, m) == c && Prev(r, n) == m && r[n].next == h[n].next
        && IsFree(r, c) && !IsFree(r, m)
        && (forall b {:trigger Next(r, b)} :: b != c && b != m ==> Next(r, b) == Next(h, b))
        && (forall b {:trigger IsFree(r, b)} :: b != c && b != m ==> IsFree(r, b) == IsFree(h, b))
        && (forall b {:trigger Prev(r, b)} :: b != m && b != n ==> Prev(r, b) == Prev(h, b))
        && (forall b {:trigger r[b]} :: 0 <= b < |h| && b != c && b != m && b != n ==> r[b] == h[b])
        && (forall b {:trigger r[b]} :: 0 <= b < |h| ==> r[b].nfree == h[b].nfree && r[b].pfree == h[b].pfree)
  {
  }

  lemma AreasSplit(h: Heap, bs: set<nat>, tail: nat, c: nat, k: nat)
    requires Areas(h, bs, tail) && c in bs && 0 < c < tail && IsFree(h, c) && 0 < k && c + k < Next(h, c)
    ensures Next(h, c) < |h|
    ensures Areas(WithNewBlock(h, c, k, FREELIST_MASK), bs + {c + k}, tail)
  {
    hide Linked, Apart, Spread, WithNewBlock, Prev;
    Around(h, bs, tail, c);
    var r, m := WithNewBlock(h, c, k, FREELIST_MASK), c + k;
    SplitLinks(h, c, k);
    assert r[tail].next == h[tail].next;
    LinkedInserted(h, r, bs, tail, c, m);
    ApartInserted(h, r, bs, tail, c, m);
    SpreadInserted(h, r, bs, tail, c, m);
  }

  lemma GrownLinks(h: Heap, t: nat, k: nat)
    requires 0 < k && t + k < |h| <= 0x7FFF && h[t].pfree < |h| && h[t].pfree != t
    ensures var r, m := Grown(h, t, k), t + k;
        && Next(r, t) == m && Prev(r, m) == t && r[m].next == h[t].next && !IsFree(r, t)
        && (forall b {:trigger Next(r, b)} :: b != t && b != m ==> Next(r, b) == Next(h, b))
        && (forall b {:trigger IsFree(r, b)} :: b != t && b != m ==> IsFree(r, b) == IsFree(h, b))
        && (forall b {:trigger Prev(r, b)} :: b != m ==> Prev(r, b) == Prev(h, b))
        && (forall b {:trigger r[b]} :: 0 <= b < |h| && b != t && b != m && b != h[t].pfree ==> r[b] == h[b])
  {
  }

  lemma AreasGrown(h: Heap, bs: set<nat>, tail: nat, k: nat)
    requires Areas(h, bs, tail) && 0 < k && tail + k < |h| && h[tail].pfree < |h| && h[tail].pfree != tail
    ensures Areas(Grown(h, tail, k), bs + {tail + k}, tail + k)
  {
    hide Prev, Grown, Spread, Apart;
    var r, t := Grown(h, tail, k), tail + k;
    assert tail in bs && t !in bs;
    GrownLinks(h, tail, k);
    assert !IsFree(h, tail) && !IsFree(r, t);
    hide Linked;
    LinkedAppended(h, r, bs, tail, t);
    ApartAppended(h, r, bs, tail, t);
    SpreadAppended(h, r, bs, tail, t);
  }

  lemma MergedUpLinks(h: Heap, c: nat)
    requires c < Next(h, c) < |h| <= 0x7FFF && Next(h, c) < Next(h, Next(h, c)) < |h|
    ensures var r, m, n := MergedUp(h, c), Next(h, c), Next(h, Next(h, c));
        && Next(r, c) == n && Prev(r, n) == c && !IsFree(r, c) && r[n].next == h[n].next
        && (forall b {:trigger Next(r, b)} :: b != c ==> Next(r, b) == Next(h, b))
        && (forall b {:trigger IsFree(r, b)} :: b != c ==> IsFree(r, b) == IsFree(h, b))
        && (forall b {:trigger Prev(r, b)} :: b != n ==> Prev(r, b) == Prev(h, b))
        && (forall b {:trigger r[b]} :: 0 <= b < |h| && b != c && b != n ==> r[b] == h[b])
        && (forall b {:trigger r[b]} :: 0 <= b < |h| ==> r[b].nfree == h[b].nfree && r[b].pfree == h[b].pfree)
  {
  }

  lemma AreasMergedUp(h: Heap, bs: set<nat>, tail: nat, c: nat)
    requires Areas(h, bs, tail) && c in bs && 0 < c < tail && Next(h, c) != tail
    requires !IsFree(h, c) && !IsFree(h, Next(h, c)) && !IsFree(h, Next(h, Next(h, c)))
    ensures Next(h, c) < tail && Next(h, Next(h, c)) < |h|
    ensures Areas(MergedUp(h, c), bs - {Next(h, c)}, tail)
  {
    hide Linked, Apart, Spread, MergedUp, Prev;
    Around(h, bs, tail, c);
    var r, m := MergedUp(h, c), Next(h, c);
    MergedUpLinks(h, c);
    assert r[tail].next == h[tail].next;
    LinkedRemoved(h, r, bs, tail, c, m);
    ApartRemoved(h, r, bs, tail, c, m);
    SpreadRemoved(h, r, bs, tail, c, m);
  }

  lemma MergedDownLinks(h: Heap, c: nat)
    requires c < |h| <= 0x7FFF && h[c].prev < c < h[c].next < |h|
    ensures var r, p, n := MergedDown(h, c, FREELIST_MASK), Prev(h, c), Next(h, c);
        && Next(r, p) == n && Prev(r, n) == p && IsFree(r, p) && r[n].next == h[n].next
        && (forall b {:trigger Next(r, b)} :: b != p ==> Next(r, b) == Next(h, b))
        && (forall b {:trigger IsFree(r, b)} :: b != p ==> IsFree(r, b) == IsFree(h, b))
        && (forall b {:trigger Prev(r, b)} :: b != n ==> Prev(r, b) == Prev(h, b))
        && (forall b {:trigger r[b]} :: 0 <= b < |h| && b != p && b != n ==> r[b] == h[b])
        && (forall b {:trigger r[b]} :: 0 <= b < |h| ==> r[b].nfree == h[b].nfree && r[b].pfree == h[b].pfree)
  {
  }

  lemma AreasMergedDown(h: Heap, bs: set<nat>, tail: nat, c: nat)
    requires Areas(h, bs, tail) && c in bs && 0 < c < tail
    requires !IsFree(h, c) && !IsFree(h, Next(h, c)) && IsFree(h, Prev(h, c))
    ensures h[c].next < |h| && h[c].prev < |h|
    ensures Areas(MergedDown(h, c, FREELIST_MASK), bs - {c}, tail)
  {
    hide Linked, Apart, Spread, MergedDown;
    Around(h, bs, tail, c);
    var r, p := MergedDown(h, c, FREELIST_MASK), Prev(h, c);
    BlockZeroUsed(h, bs, tail, p);
    MergedDownLinks(h, c);
    assert r[tail].next == h[tail].next;
    LinkedRemoved(h, r, bs, tail, p, c);
    ApartRemoved(h, r, bs, tail, p, c);
    SpreadRemoved(h, r, bs, tail, p, c);
  }

  lemma BlockZeroUsed(h: Heap, bs: set<nat>, tail: nat, p: nat)
    requires Areas(h, bs, tail) && IsFree(h, p)
    ensures p != 0 && p != tail
  {
  }

  lemma PushedLinks(h: Heap, c: nat)
    requires 0 < c < |h| <= 0x7FFF && h[0].nfree < |h|
    ensures var r := Pushed(h, c);
        && IsFree(r, c)
        && (forall b {:trigger Next(r, b)} :: Next(r, b) == Next(h, b))
        && (forall b {:trigger IsFree(r, b)} :: b != c ==> IsFree(r, b) == IsFree(h, b))
        && (forall b {:trigger Prev(r, b)} :: Prev(r, b) == Prev(h, b))
        && (forall b {:trigger r[b]} :: 0 <= b < |h| && b != c ==> r[b].next == h[b].next)
        && (forall b {:trigger r[b]} :: 0 <= b < |h| && b != c && b != 0 && b != h[0].nfree ==> r[b] == h[b])
  {
  }

  lemma AreasPushed(h: Heap, bs: set<nat>, tail: nat, c: nat)
    requires Areas(h, bs, tail) && c in bs && 0 < c < tail && h[0].nfree < |h|
    requires !IsFree(h, c) && !IsFree(h, Next(h, c)) && !IsFree(h, Prev(h, c))
    ensures Areas(Pushed(h, c), bs, tail)
  {
    hide Pushed, IsFree, Prev;
    var r := Pushed(h, c);
    PushedLinks(h, c);
    assert Linked(r, bs, tail);
    assert Apart(r, bs, tail);
    hide Linked, Apart;
    SpreadMarked(h, r, bs, tail, c);
  }

  // ---------- what they do to the free list ----------

  lemma GrownList(h: Heap, fl: seq<nat>, t: nat, k: nat)
    requires FreeList(h, fl) && fl[|fl| - 1] == t && 0 < k && t + k < |h| <= 0x7FFF
    requires forall b :: b in fl ==> b <= t
    ensures h[t].pfree < |h| && h[t].pfree == Before(fl, |fl| - 1) != t
    ensures FreeList(Grown(h, t, k), fl[..|fl| - 1] + [t + k])
  {
    hide Grown, Before, After;
    LastLinks(h, fl);
    var r, fl' := Grown(h, t, k), fl[..|fl| - 1] + [t + k];
    GrownListAt(h, fl, t, k, 0);
    forall j: nat | j < |fl'|
      ensures r[fl'[j]].nfree == After(fl', j) && r[fl'[j]].pfree == Before(fl', j)
    {
      GrownListAt(h, fl, t, k, j);
    }
    assert forall j :: 0 <= j < |fl| ==> fl[j] in fl;
  }

  lemma LastLinks(h: Heap, fl: seq<nat>)
    requires FreeList(h, fl)
    ensures var t := fl[|fl| - 1];
        h[t].nfree == 0 && h[t].pfree == Before(fl, |fl| - 1) < |h| && h[t].pfree != t
  {
    var i := |fl| - 1;
    assert h[fl[i]].pfree == Before(fl, i) && h[fl[i]].nfree == After(fl, i) == 0;
  }

  lemma GrownListAt(h: Heap, fl: seq<nat>, t: nat, k: nat, j: nat)
    requires FreeList(h, fl) && fl[|fl| - 1] == t && 0 < k && t + k < |h| <= 0x7FFF && j < |fl|
    requires forall b :: b in fl ==> b <= t
    requires h[t].pfree == Before(fl, |fl| - 1) && h[t].nfree == 0 && h[t].pfree < |h|
    ensures var r, fl' := Grown(h, t, k), fl[..|fl| - 1] + [t + k];
        r[fl'[j]].nfree == After(fl', j) && r[fl'[j]].pfree == Before(fl', j) && r[0].nfree == fl'[0]
  {
    assert h[fl[j]].pfree == Before(fl, j) && h[fl[j]].nfree == After(fl, j) && fl[j] in fl;
    var i := |fl| - 1;
    if 0 < i {
      assert fl[i - 1] in fl;
      assert j < i - 1 ==> fl[j] != fl[i - 1];
    }
  }

  lemma PushedFields(h: Heap, c: nat)
    requires 0 < c < |h| <= 0x7FFF && 0 < h[0].nfree < |h| && h[0].nfree != c
    ensures var r, f := Pushed(h, c), h[0].nfree;
      && r[c].nfree == f && r[c].pfree == 0 && r[0].nfree == c && r[f].pfree == c && r[f].nfree == h[f].nfree
      && (forall b {:trigger r[b]} :: 0 < b < |h| && b != c ==>
            r[b].nfree == h[b].nfree && (b != f ==> r[b].pfree == h[b].pfree))
  {
  }

  lemma PushedList(h: Heap, fl: seq<nat>, c: nat)
    requires FreeList(h, fl) && 0 < c < |h| <= 0x7FFF && c !in fl
    ensures h[0].nfree < |h| && FreeList(Pushed(h, c), [c] + fl)
  {
    assert fl[0] in fl;
    PushedFields(h, c);
    var r, fl' := Pushed(h, c), [c] + fl;
    hide Pushed;
    assert forall i :: 0 <= i < |fl| ==> fl[i] in fl;
    forall j: nat | j < |fl'|
      ensures r[fl'[j]].nfree == After(fl', j) && r[fl'[j]].pfree == Before(fl', j)
    {
      if 0 < j {
        var i: nat := j - 1;
        assert h[fl[i]].nfree == After(fl, i) && h[fl[i]].pfree == Before(fl, i) && fl[i] in fl;
        assert 0 < i ==> fl[i] != fl[0];
      }
    }
  }

  lemma WithoutMembers(fl: seq<nat>, k: nat)
    requires k < |fl| && forall i, j :: 0 <= i < j < |fl| ==> fl[i] != fl[j]
    ensures forall b :: b in Without(fl, k) <==> b in fl && b != fl[k]
  {
    forall b | b in fl && b != fl[k]
      ensures b in Without(fl, k)
    {
      var i :| 0 <= i < |fl| && fl[i] == b;
      assert Without(fl, k)[if i < k then i else i - 1] == b;
    }
  }

  // ---------- the steps of malloc and free ----------

  lemma DisconnectedLinks(h: Heap, c: nat)
    requires c < |h| && h[c].pfree < |h| && h[c].nfree < |h|
    ensures var r := Disconnected(h, c);
        && !IsFree(r, c)
        && (forall b {:trigger Next(r, b)} :: Next(r, b) == Next(h, b))
        && (forall b {:trigger IsFree(r, b)} :: b != c ==> IsFree(r, b) == IsFree(h, b))
        && (forall b {:trigger Prev(r, b)} :: Prev(r, b) == Prev(h, b))
        && (forall b {:trigger r[b]} :: 0 <= b < |h| && b != c ==> r[b].next == h[b].next)
        && (forall b {:trigger r[b]} :: 0 <= b < |h| && b != c && b != h[c].pfree && b != h[c].nfree ==> r[b] == h[b])
  {
  }

  /** The k-th free area is taken off the list, and so allocated as it is. */
  lemma DisconnectedKeeps(h: Heap, bs: set<nat>, tail: nat, fl: seq<nat>, k: nat)
    requires WellFormed(h, bs, tail, fl) && k < |fl| - 1
    ensures h[fl[k]].pfree < |h| && h[fl[k]].nfree < |h|
    ensures WellFormed(Disconnected(h, fl[k]), bs, tail, Without(fl, k))
    ensures LiveMap(Disconnected(h, fl[k]), bs, tail) == LiveMap(h, bs, tail)[fl[k] := Size(h, fl[k])]
    ensures AllData(h, Disconnected(h, fl[k]), LiveMap(h, bs, tail))
  {
    hide Disconnected, Linked, Apart, Spread;
    var c := fl[k];
    FreeIsArea(h, bs, tail, fl);
    DisconnectedList(h, fl, k);
    DisconnectedLinks(h, c);
    var r := Disconnected(h, c);
    Around(h, bs, tail, c);
    AreasUnmarked(h, r, bs, tail);
    DisconnectedData(h, bs, tail, fl, k, r);
    hide Areas, AllData, Size, Next, IsFree, Prev, FreeList, LiveMap, Members;
    DisconnectedMembers(h, r, bs, tail, fl, k);
    DisconnectedLive(h, r, bs, tail, c);
  }

  lemma DisconnectedMembers(h: Heap, r: Heap, bs: set<nat>, tail: nat, fl: seq<nat>, k: nat)
    requires Members(h, bs, tail, fl) && k < |fl| - 1 && |r| == |h| && fl[k] != tail && !IsFree(r, fl[k])
    requires forall i, j :: 0 <= i < j < |fl| ==> fl[i] != fl[j]
    requires forall b {:trigger IsFree(r, b)} :: b != fl[k] ==> IsFree(r, b) == IsFree(h, b)
    ensures Members(r, bs, tail, Without(fl, k))
  {
    hide IsFree;
    WithoutMembers(fl, k);
  }

  lemma DisconnectedLive(h: Heap, r: Heap, bs: set<nat>, tail: nat, c: nat)
    requires !IsFree(r, c) && c in bs && 0 < c < tail
    requires forall b {:trigger Next(r, b)} :: Next(r, b) == Next(h, b)
    requires forall b {:trigger IsFree(r, b)} :: b != c ==> IsFree(r, b) == IsFree(h, b)
    ensures LiveMap(r, bs, tail) == LiveMap(h, bs, tail)[c := Size(h, c)]
  {
    hide Next, IsFree;
  }

  lemma DisconnectedData(h: Heap, bs: set<nat>, tail: nat, fl: seq<nat>, k: nat, r: Heap)
    requires WellFormed(h, bs, tail, fl) && k < |fl| - 1 && |r| == |h|
    requires var c := fl[k];
      forall b {:trigger r[b]} :: 0 <= b < |h| && b != c && b != h[c].pfree && b != h[c].nfree ==> r[b] == h[b]
    ensures AllData(h, r, LiveMap(h, bs, tail))
  {
    FreeIsArea(h, bs, tail, fl);
    var c := fl[k];
    assert h[c].nfree == After(fl, k) && h[c].pfree == Before(fl, k);
    var p: nat, n: nat := h[c].pfree, h[c].nfree;
    assert p in bs && n in bs && !(0 < p < tail && !IsFree(h, p)) && !(n < tail && !IsFree(h, n));
    forall d | d in LiveMap(h, bs, tail)
      ensures SameData(h, r, d, Size(h, d))
    {
      Around(h, bs, tail, d);
    }
  }

  /** The last k' blocks of a free area become an allocated area. */
  lemma SplitKeeps(h: Heap, bs: set<nat>, tail: nat, fl: seq<nat>, c: nat, k: nat)
    requires WellFormed(h, bs, tail, fl) && c in bs && 0 < c < tail && IsFree(h, c) && 0 < k && c + k < Next(h, c)
    ensures Next(h, c) < |h|
    ensures WellFormed(WithNewBlock(h, c, k, FREELIST_MASK), bs + {c + k}, tail, fl)
    ensures LiveMap(WithNewBlock(h, c, k, FREELIST_MASK), bs + {c + k}, tail)
         == LiveMap(h, bs, tail)[c + k := Size(h, c) - k]
    ensures AllData(h, WithNewBlock(h, c, k, FREELIST_MASK), LiveMap(h, bs, tail))
  {
    hide Linked, Apart, Spread, WithNewBlock, Prev, FreeList;
    Around(h, bs, tail, c);
    AreasSplit(h, bs, tail, c, k);
    SplitLinks(h, c, k);
    var r := WithNewBlock(h, c, k, FREELIST_MASK);
    assert c + k != tail;
    FreeListKept(h, r, fl);
    SplitData(h, bs, tail, c, k, r);
    hide Areas, AllData, LiveMap, Members, Size, Next, IsFree;
    SplitLive(h, r, bs, tail, c, k);
    SplitMembers(h, r, bs, tail, fl, c, k);
  }

  lemma SplitLive(h: Heap, r: Heap, bs: set<nat>, tail: nat, c: nat, k: nat)
    requires c in bs && 0 < c < tail && IsFree(h, c) && 0 < k && c + k < Next(h, c) <= tail && c + k !in bs
    requires Next(r, c + k) == Next(h, c) && IsFree(r, c) && !IsFree(r, c + k)
    requires forall b {:trigger Next(r, b)} :: b != c && b != c + k ==> Next(r, b) == Next(h, b)
    requires forall b {:trigger IsFree(r, b)} :: b != c && b != c + k ==> IsFree(r, b) == IsFree(h, b)
    ensures LiveMap(r, bs + {c + k}, tail) == LiveMap(h, bs, tail)[c + k := Size(h, c) - k]
  {
    hide Next, IsFree;
  }

  lemma SplitMembers(h: Heap, r: Heap, bs: set<nat>, tail: nat, fl: seq<nat>, c: nat, k: nat)
    requires Members(h, bs, tail, fl) && |r| == |h| && c + k < |h| && c + k !in bs && c + k != tail
    requires IsFree(h, c) && IsFree(r, c) && !IsFree(r, c + k)
    requires forall b {:trigger IsFree(r, b)} :: b != c && b != c + k ==> IsFree(r, b) == IsFree(h, b)
    ensures Members(r, bs + {c + k}, tail, fl)
  {
    hide IsFree;
  }

  lemma SplitData(h: Heap, bs: set<nat>, tail: nat, c: nat, k: nat, r: Heap)
    requires Areas(h, bs, tail) && c in bs && 0 < c < tail && IsFree(h, c) && 0 < k && c + k < Next(h, c) && |r| == |h|
    requires forall b {:trigger r[b]} :: 0 <= b < |h| && b != c && b != c + k && b != Next(h, c) ==> r[b] == h[b]
    requires forall b {:trigger r[b]} :: 0 <= b < |h| ==> r[b].nfree == h[b].nfree && r[b].pfree == h[b].pfree
    ensures AllData(h, r, LiveMap(h, bs, tail))
  {
    Around(h, bs, tail, c);
    forall d | d in LiveMap(h, bs, tail)
      ensures SameData(h, r, d, Size(h, d))
    {
      Around(h, bs, tail, d);
      assert d + Size(h, d) <= c || Next(h, c) <= d;
    }
  }

  /** The first k blocks of the tail become an allocated area. */
  lemma GrownKeeps(h: Heap, bs: set<nat>, tail: nat, fl: seq<nat>, k: nat)
    requires WellFormed(h, bs, tail, fl) && 0 < k && tail + k < |h|
    ensures h[tail].pfree < |h|
    ensures WellFormed(Grown(h, tail, k), bs + {tail + k}, tail + k, fl[..|fl| - 1] + [tail + k])
    ensures LiveMap(Grown(h, tail, k), bs + {tail + k}, tail + k) == LiveMap(h, bs, tail)[tail := k]
    ensures AllData(h, Grown(h, tail, k), LiveMap(h, bs, tail))
  {
    var i, t := |fl| - 1, tail + k;
    TailIsLast(h, bs, tail, fl);
    hide Grown, Apart, Spread, FreeList, Linked;
    GrownList(h, fl, tail, k);
    AreasGrown(h, bs, tail, k);
    GrownLinks(h, tail, k);
    hide Areas, Before, LiveMap, AllData, Size, Next, IsFree;
    var r, fl' := Grown(h, tail, k), fl[..i] + [t];
    GrownMembers(h, r, bs, tail, fl, t);
    GrownLive(h, r, bs, tail, k);
    GrownData(h, bs, tail, fl, k, r);
  }

  lemma GrownMembers(h: Heap, r: Heap, bs: set<nat>, tail: nat, fl: seq<nat>, t: nat)
    requires Members(h, bs, tail, fl) && tail < t < |h| == |r| && !IsFree(r, tail) && !IsFree(r, t)
    requires tail in bs && tail !in fl[..|fl| - 1] && !IsFree(h, tail) && t !in bs
    requires forall b {:trigger IsFree(r, b)} :: b != tail && b != t ==> IsFree(r, b) == IsFree(h, b)
    ensures Members(r, bs + {t}, t, fl[..|fl| - 1] + [t])
  {
    hide IsFree;
    var fl' := fl[..|fl| - 1] + [t];
    assert fl == fl[..|fl| - 1] + [tail];
    assert forall b :: b in fl' <==> b == t || (b in fl && b != tail);
  }

  lemma GrownLive(h: Heap, r: Heap, bs: set<nat>, tail: nat, k: nat)
    requires tail in bs && 0 < tail && 0 < k && !IsFree(r, tail) && Next(r, tail) == tail + k
    requires forall b :: b in bs ==> b <= tail
    requires forall b {:trigger Next(r, b)} :: b != tail && b != tail + k ==> Next(r, b) == Next(h, b)
    requires forall b {:trigger IsFree(r, b)} :: b != tail && b != tail + k ==> IsFree(r, b) == IsFree(h, b)
    ensures LiveMap(r, bs + {tail + k}, tail + k) == LiveMap(h, bs, tail)[tail := k]
  {
    hide Next, IsFree;
  }

  lemma TailIsLast(h: Heap, bs: set<nat>, tail: nat, fl: seq<nat>)
    requires WellFormed(h, bs, tail, fl)
    ensures 0 < tail < |h| <= 0x7FFF && tail in bs && !IsFree(h, tail) && h[tail].next == 0
    ensures forall b :: b in bs ==> b <= tail
    ensures forall b :: b in fl ==> b <= tail
    ensures tail !in fl[..|fl| - 1]
    ensures h[tail].pfree < |h| && h[tail].pfree in bs
    ensures h[tail].pfree == 0 || IsFree(h, h[tail].pfree)
  {
    var i: nat := |fl| - 1;
    assert h[fl[i]].pfree == Before(fl, i);
    FreeIsArea(h, bs, tail, fl);
  }

  lemma GrownData(h: Heap, bs: set<nat>, tail: nat, fl: seq<nat>, k: nat, r: Heap)
    requires WellFormed(h, bs, tail, fl) && |r| == |h| && 0 < k
    requires forall b {:trigger r[b]} ::
      0 <= b < |h| && b != tail && b != tail + k && b != h[tail].pfree ==> r[b] == h[b]
    ensures AllData(h, r, LiveMap(h, bs, tail))
  {
    TailIsLast(h, bs, tail, fl);
    forall d | d in LiveMap(h, bs, tail)
      ensures SameData(h, r, d, Size(h, d))
    {
      Around(h, bs, tail, d);
    }
  }

  /** The area after c, just unlinked, joins c. */
  lemma MergedUpKeeps(h: Heap, bs: set<nat>, tail: nat, fl: seq<nat>, c: nat)
    requires WellFormed(h, bs, tail, fl) && c in LiveMap(h, bs, tail) && Next(h, c) in LiveMap(h, bs, tail)
    requires !IsFree(h, Next(h, Next(h, c)))
    ensures c < Next(h, c) < Next(h, Next(h, c)) < |h|
    ensures WellFormed(MergedUp(h, c), bs - {Next(h, c)}, tail, fl)
    ensures LiveMap(MergedUp(h, c), bs - {Next(h, c)}, tail)
         == (LiveMap(h, bs, tail) - {Next(h, c)})[c := Size(h, c) + Size(h, Next(h, c))]
    ensures AllData(h, MergedUp(h, c), LiveMap(h, bs, tail))
  {
    hide Linked, Apart, Spread, MergedUp, Prev, FreeList;
    Around(h, bs, tail, c);
    Around(h, bs, tail, Next(h, c));
    AreasMergedUp(h, bs, tail, c);
    MergedUpLinks(h, c);
    var r, m := MergedUp(h, c), Next(h, c);
    FreeListKept(h, r, fl);
    LinksData(h, bs, tail, c, Next(h, m), r);
    hide Areas, AllData, Size, Next, IsFree;
    MergedUpLive(h, r, bs, tail, c, m);
  }

  lemma MergedUpLive(h: Heap, r: Heap, bs: set<nat>, tail: nat, c: nat, m: nat)
    requires c in LiveMap(h, bs, tail) && m in LiveMap(h, bs, tail) && c < m < Next(h, m) && Next(h, c) == m
    requires Next(r, c) == Next(h, m) && !IsFree(r, c)
    requires forall b {:trigger Next(r, b)} :: b != c ==> Next(r, b) == Next(h, b)
    requires forall b {:trigger IsFree(r, b)} :: b != c ==> IsFree(r, b) == IsFree(h, b)
    ensures LiveMap(r, bs - {m}, tail) == (LiveMap(h, bs, tail) - {m})[c := Size(h, c) + Size(h, m)]
  {
    hide Next, IsFree;
  }

  /** Only the links of two areas change. */
  lemma LinksData(h: Heap, bs: set<nat>, tail: nat, c: nat, n: nat, r: Heap)
    requires Areas(h, bs, tail) && c in bs && n in bs && |r| == |h|
    requires forall b {:trigger r[b]} :: 0 <= b < |h| && b != c && b != n ==> r[b] == h[b]
    requires forall b {:trigger r[b]} :: 0 <= b < |h| ==> r[b].nfree == h[b].nfree && r[b].pfree == h[b].pfree
    ensures AllData(h, r, LiveMap(h, bs, tail))
  {
    forall d | d in LiveMap(h, bs, tail)
      ensures SameData(h, r, d, Size(h, d))
    {
      Around(h, bs, tail, d);
    }
  }

  /** c joins the free area before it. */
  lemma MergedDownKeeps(h: Heap, bs: set<nat>, tail: nat, fl: seq<nat>, c: nat)
    requires WellFormed(h, bs, tail, fl) && c in LiveMap(h, bs, tail)
    requires !IsFree(h, Next(h, c)) && IsFree(h, Prev(h, c))
    ensures h[c].next < |h| && h[c].prev < |h|
    ensures WellFormed(MergedDown(h, c, FREELIST_MASK), bs - {c}, tail, fl)
    ensures LiveMap(MergedDown(h, c, FREELIST_MASK), bs - {c}, tail) == LiveMap(h, bs, tail) - {c}
    ensures AllData(h, MergedDown(h, c, FREELIST_MASK), LiveMap(h, bs, tail))
  {
    hide Linked, Apart, Spread, MergedDown, FreeList;
    Around(h, bs, tail, c);
    AreasMergedDown(h, bs, tail, c);
    MergedDownLinks(h, c);
    var r := MergedDown(h, c, FREELIST_MASK);
    assert forall b :: b in fl ==> b < |h|;
    FreeListKept(h, r, fl);
    LinksData(h, bs, tail, Prev(h, c), Next(h, c), r);
    BlockZeroUsed(h, bs, tail, Prev(h, c));
  }

  /** c goes to the head of the free list. */
  lemma PushedKeeps(h: Heap, bs: set<nat>, tail: nat, fl: seq<nat>, c: nat)
    requires WellFormed(h, bs, tail, fl) && c in LiveMap(h, bs, tail)
    requires !IsFree(h, Next(h, c)) && !IsFree(h, Prev(h, c))
    ensures h[0].nfree < |h|
    ensures WellFormed(Pushed(h, c), bs, tail, [c] + fl)
    ensures LiveMap(Pushed(h, c), bs, tail) == LiveMap(h, bs, tail) - {c}
    ensures AllData(h, Pushed(h, c), LiveMap(h, bs, tail) - {c})
  {
    assert 0 < |h| && h[0].nfree == fl[0] && fl[0] in fl;
    hide Linked, Apart, Spread, Pushed, FreeList;
    Around(h, bs, tail, c);
    AreasPushed(h, bs, tail, c);
    PushedLinks(h, c);
    PushedList(h, fl, c);
    PushedData(h, bs, tail, fl, c, Pushed(h, c));
    hide Areas, AllData, Size, Next, IsFree, Prev;
    PushedLive(h, Pushed(h, c), bs, tail, c);
  }

  lemma PushedLive(h: Heap, r: Heap, bs: set<nat>, tail: nat, c: nat)
    requires IsFree(r, c)
    requires forall b {:trigger Next(r, b)} :: Next(r, b) == Next(h, b)
    requires forall b {:trigger IsFree(r, b)} :: b != c ==> IsFree(r, b) == IsFree(h, b)
    ensures LiveMap(r, bs, tail) == LiveMap(h, bs, tail) - {c}
  {
    hide Next, IsFree;
  }

  lemma PushedData(h: Heap, bs: set<nat>, tail: nat, fl: seq<nat>, c: nat, r: Heap)
    requires WellFormed(h, bs, tail, fl) && |r| == |h| && c in LiveMap(h, bs, tail)
    requires forall b {:trigger r[b]} :: 0 <= b < |h| && b != c && b != 0 && b != h[0].nfree ==> r[b] == h[b]
    ensures AllData(h, r, LiveMap(h, bs, tail) - {c})
  {
    var f: nat := h[0].nfree;
    assert f == fl[0] && f in fl;
    forall d | d in LiveMap(h, bs, tail) - {c}
      ensures SameData(h, r, d, Size(h, d))
    {
      Around(h, bs, tail, d);
    }
  }

  // ---------- sizes and the search ----------

  const MAX_REQUEST: nat := 524276

  /** The number of blocks that hold size bytes, in 16 bits: a block's header takes 4 of the first 8 bytes. */
  method Blocks(size: nat) returns (n: U16)
    ensures 0 < size ==> (size <= 8 * n - 4 <==> size <= MAX_REQUEST)
    ensures 0 < size <= MAX_REQUEST ==> 0 < n && 8 * (n - 1) - 4 < size
    ensures n == BlockCount(size)
  {
    if size <= 4 {
      n := 1;
    } else {
      n := (2 + (size - 5) / 8) % 0x1_0000;
    }
  }

  function BlockCount(size: nat): U16 {
    if size <= 4 then 1 else (2 + (size - 5) / 8) % 0x1_0000
  }

  /** The blocks counted hold the bytes asked for, and one less would not. */
  lemma CountHolds(size: nat)
    ensures 0 < size <= 524276 ==> 0 < BlockCount(size) && 8 * (BlockCount(size) - 1) < size + 4 <= 8 * BlockCount(size)
  {
  }

  /** The sizes for which no blocks at all are counted: one in 65536 of the requests that are too large. */
  lemma CountWrapsToZero(size: nat)
    ensures BlockCount(size) == 0 <==> 5 <= size && (size - 5) / 8 % 0x1_0000 == 0xFFFE
    ensures BlockCount(MAX_REQUEST + 1) == 0
  {
    if 5 <= size {
      var q := (size - 5) / 8;
      assert q == q / 0x1_0000 * 0x1_0000 + q % 0x1_0000;
    }
  }

  /** No areas can be read off the heap, and it is not an untouched one. */
  ghost predicate Broken(h: Heap) {
    !Untouched(h) && forall bs, tail :: !Areas(h, bs, tail)
  }

  /** Splitting no blocks off a free area links the area behind it to itself. */
  lemma EmptySplitCorrupts(h: Heap, bs: set<nat>, tail: nat, c: nat)
    requires Areas(h, bs, tail) && c in bs && 0 < c < tail && IsFree(h, c)
    ensures c + Size(h, c) == Next(h, c) < |h| <= 0x7FFF && c < |h|
    ensures Broken(WithNewBlock(h, c, Size(h, c), FREELIST_MASK))
  {
    Around(h, bs, tail, c);
    var n := Next(h, c);
    var r := WithNewBlock(h, c, Size(h, c), FREELIST_MASK);
    assert Next(r, n) == n && r[n].next != 0;
    assert forall x {:trigger Next(r, x)} :: 0 <= x < n ==> Next(r, x) == Next(h, x);
    hide WithNewBlock, Next;
    LinkedToItself(h, bs, tail, r, n);
  }

  /** So does cutting no blocks off the tail. */
  lemma EmptyGrowthCorrupts(h: Heap, bs: set<nat>, tail: nat, fl: seq<nat>)
    requires WellFormed(h, bs, tail, fl)
    ensures 0 < tail < |h| <= 0x7FFF && h[tail].pfree < |h|
    ensures Broken(Grown(h, tail, 0))
  {
    TailIsLast(h, bs, tail, fl);
    var r := Grown(h, tail, 0);
    assert Next(r, tail) == tail && r[tail].next != 0;
    assert forall x {:trigger Next(r, x)} :: 0 <= x < tail ==> Next(r, x) == Next(h, x);
    hide Grown, Next, FreeList, Members;
    LinkedToItself(h, bs, tail, r, tail);
  }

  /** Whoever follows the links from block 0 on comes to the area linked to itself, and no further. */
  lemma LinkedToItself(h: Heap, bs: set<nat>, tail: nat, r: Heap, n: nat)
    requires Areas(h, bs, tail) && |r| == |h| && n in bs && n < |r| && Next(r, n) == n && r[n].next != 0
    requires forall x {:trigger Next(r, x)} :: 0 <= x < n ==> Next(r, x) == Next(h, x)
    ensures Broken(r)
  {
    hide Next, Apart, Spread;
    forall bs', tail'
      ensures !Areas(r, bs', tail')
    {
      if Areas(r, bs', tail') {
        OnTheWay(h, bs, tail, r, n, bs', tail', n);
        assert false;
      }
    }
  }

  lemma {:induction false} OnTheWay(h: Heap, bs: set<nat>, tail: nat, r: Heap, n: nat, bs': set<nat>, tail': nat,
                                    b: nat)
    requires Linked(h, bs, tail) && Linked(r, bs', tail') && b in bs && b <= n
    requires forall x {:trigger Next(r, x)} :: 0 <= x < n ==> Next(r, x) == Next(h, x)
    ensures b in bs'
    decreases b
  {
    if b > 0 {
      var p := Prev(h, b);
      OnTheWay(h, bs, tail, r, n, bs', tail', p);
      assert Next(r, p) == b;
    }
  }

  /** The first area on the free list, from the k-th on, with n blocks; the last one if there is none. */
  function FirstFit(h: Heap, fl: seq<nat>, k: nat, n: nat): (i: nat)
    requires k < |fl|
    ensures k <= i < |fl|
    ensures forall j :: k <= j < i ==> Size(h, fl[j]) < n
    ensures i < |fl| - 1 ==> n <= Size(h, fl[i])
    decreases |fl| - k
  {
    if k == |fl| - 1 || n <= Size(h, fl[k]) then k else FirstFit(h, fl, k + 1, n)
  }

  /** n blocks at c are the end of the first area on the free list that holds them or, where none does, they are at
      the tail, which is block 1 of an untouched heap. */
  ghost predicate AtFirstFit(h: Heap, fl: seq<nat>, tail: nat, n: nat, c: nat) {
    if fl == [] then
      c == 1
    else if forall j :: 0 <= j < |fl| - 1 ==> Size(h, fl[j]) < n then
      c == tail
    else
      exists k :: 0 <= k < |fl| - 1 && n <= Size(h, fl[k]) && (forall j :: 0 <= j < k ==> Size(h, fl[j]) < n)
        && c + n == Next(h, fl[k])
  }

  /** Where n blocks go: the end of the first free area that holds them, or else the tail. */
  function Place(h: Heap, fl: seq<nat>, n: nat): (c: nat) {
    if fl == [] then 1
    else
      var i := FirstFit(h, fl, 0, n);
      if i == |fl| - 1 then fl[i] else fl[i] + Size(h, fl[i]) - n
  }

  lemma AllDataTwice(h: Heap, g: Heap, r: Heap, l: map<nat, nat>, l': map<nat, nat>)
    requires AllData(h, g, l) && AllData(g, r, l')
    requires forall d :: d in l ==> d in l' && l'[d] == l[d]
    ensures AllData(h, r, l)
  {
    forall d | d in l
      ensures SameData(h, r, d, l[d])
    {
      assert SameData(h, g, d, l[d]) && SameData(g, r, d, l'[d]);
    }
  }

  /** The free area m after c can be unlinked. */
  lemma TakenUpReady(h: Heap, bs: set<nat>, tail: nat, fl: seq<nat>, c: nat, k: nat)
    requires WellFormed(h, bs, tail, fl) && c in LiveMap(h, bs, tail) && k < |fl| - 1 && Next(h, c) == fl[k]
    ensures var m := fl[k];
        && m < |h| <= 0x7FFF && h[m].pfree < |h| && h[m].nfree < |h| && h[m].pfree != m && h[c].next == m
        && c in bs && 0 < c < m < tail && m < Next(h, m) && m !in LiveMap(h, bs, tail) && !IsFree(h, Next(h, m))
        && Next(h, m) != m
  {
    hide FreeList, Linked, Apart, Spread;
    Around(h, bs, tail, c);
    FreeIsArea(h, bs, tail, fl);
    Around(h, bs, tail, fl[k]);
    FreeLinks(h, fl, k);
    AfterFree(h, bs, tail, fl[k]);
  }

  /** The free area m after c is unlinked and joins c. */
  lemma TakenUpKeeps(h: Heap, g: Heap, bs: set<nat>, tail: nat, fl: seq<nat>, c: nat, k: nat)
    requires WellFormed(h, bs, tail, fl) && c in LiveMap(h, bs, tail) && k < |fl| - 1 && Next(h, c) == fl[k]
    requires var m := fl[k]; m < |h| && h[m].pfree < |h| && h[m].nfree < |h| && g == Disconnected(h, m)
    ensures c < Next(g, c) < Next(g, Next(g, c)) < |g| <= 0x7FFF && Next(g, c) == fl[k] == g[c].next
    ensures var r := MergedUp(g, c);
        && WellFormed(r, bs - {fl[k]}, tail, Without(fl, k))
        && LiveMap(r, bs - {fl[k]}, tail) == LiveMap(h, bs, tail)[c := Size(h, c) + Size(h, fl[k])]
        && AllData(h, r, LiveMap(h, bs, tail))
        && !IsFree(r, Next(r, c)) && Prev(r, c) == Prev(h, c)
  {
    hide MergedUp, FreeList, Disconnected, Areas, LiveMap, Members, AllData, IsFree, Without;
    var m := fl[k];
    TakenUpReady(h, bs, tail, fl, c, k);
    DisconnectedKeeps(h, bs, tail, fl, k);
    DisconnectedLinks(h, m);
    TakenUpLive(h, g, bs, tail, Without(fl, k), c, m);
    AllDataTwice(h, g, MergedUp(g, c), LiveMap(h, bs, tail), LiveMap(g, bs, tail));
  }

  lemma AfterFree(h: Heap, bs: set<nat>, tail: nat, m: nat)
    requires Areas(h, bs, tail) && m in bs && m != tail && IsFree(h, m)
    ensures !IsFree(h, Next(h, m))
  {
  }

  lemma FreeLinks(h: Heap, fl: seq<nat>, k: nat)
    requires FreeList(h, fl) && k < |fl| - 1
    ensures h[fl[k]].pfree < |h| && h[fl[k]].nfree < |h| && h[fl[k]].pfree != fl[k]
  {
    assert h[fl[k]].pfree == Before(fl, k) && h[fl[k]].nfree == After(fl, k);
  }

  lemma TakenUpLive(h: Heap, g: Heap, bs: set<nat>, tail: nat, fl: seq<nat>, c: nat, m: nat)
    requires WellFormed(g, bs, tail, fl) && Next(g, c) == m && Prev(g, c) == Prev(h, c)
    requires c in LiveMap(h, bs, tail) && m !in LiveMap(h, bs, tail)
    requires Size(g, c) == Size(h, c) && Size(g, m) == Size(h, m)
    requires LiveMap(g, bs, tail) == LiveMap(h, bs, tail)[m := Size(h, m)]
    requires !IsFree(g, Next(g, m))
    ensures c < m < Next(g, m) < |g| <= 0x7FFF && g[c].next == m
    ensures var r := MergedUp(g, c);
        && WellFormed(r, bs - {m}, tail, fl)
        && LiveMap(r, bs - {m}, tail) == LiveMap(h, bs, tail)[c := Size(h, c) + Size(h, m)]
        && AllData(g, r, LiveMap(g, bs, tail))
        && !IsFree(r, Next(r, c)) && Prev(r, c) == Prev(h, c)
  {
    hide MergedUp, FreeList, Disconnected, Linked, Apart, Spread, Members, Size;
    assert c in LiveMap(g, bs, tail) && m in LiveMap(g, bs, tail);
    Around(g, bs, tail, c);
    MergedUpKeeps(g, bs, tail, fl, c);
    MergedUpLinks(g, c);
    assert (LiveMap(h, bs, tail)[m := Size(h, m)] - {m}) == LiveMap(h, bs, tail);
  }

  function IndexOf(fl: seq<nat>, b: nat): (k: nat)
    ensures b in fl ==> k < |fl| && fl[k] == b
  {
    if fl == [] || fl[0] == b then 0 else 1 + IndexOf(fl[1..], b)
  }

  /** No marked area holds n blocks. */
  ghost predicate NoFit(h: Heap, bs: set<nat>, n: nat) {
    forall b :: b in bs && IsFree(h, b) ==> Size(h, b) < n
  }

  lemma FitOrTail(h: Heap, bs: set<nat>, tail: nat, fl: seq<nat>, n: nat)
    requires WellFormed(h, bs, tail, fl)
    ensures FirstFit(h, fl, 0, n) == |fl| - 1 <==> NoFit(h, bs, n)
  {
    hide Areas, Size, FreeList;
    var i := FirstFit(h, fl, 0, n);
    if i < |fl| - 1 {
      FreeIsArea(h, bs, tail, fl);
    } else {
      TailUnmarked(h, bs, tail);
      forall b | b in bs && IsFree(h, b)
        ensures Size(h, b) < n
      {
        assert b in fl;
        var j :| 0 <= j < |fl| && fl[j] == b;
      }
    }
  }

  lemma TailUnmarked(h: Heap, bs: set<nat>, tail: nat)
    requires Areas(h, bs, tail)
    ensures !IsFree(h, tail)
  {
  }

  // ---------- the statistics ----------

  /** Block x belongs to an allocated area. */
  ghost predicate Taken(live: map<nat, nat>, x: nat) {
    exists d :: d in live && d <= x < d + live[d]
  }

  /** The blocks below b that belong to allocated areas. */
  ghost function Covered(live: map<nat, nat>, b: nat): set<nat> {
    set x: nat | x < b && Taken(live, x)
  }

  ghost function StartsBelow(starts: set<nat>, b: nat): set<nat> {
    set d | d in starts && d < b
  }

  /** The starts of the free areas before the tail. */
  ghost function FreeStarts(h: Heap, bs: set<nat>): set<nat> {
    set b | b in bs && IsFree(h, b)
  }

  ghost function Range(lo: nat, hi: nat): (r: set<nat>)
    requires lo <= hi
    ensures |r| == hi - lo && forall x: nat :: x in r <==> lo <= x < hi
    decreases hi - lo
  {
    if lo == hi then {} else Range(lo, hi - 1) + {hi - 1}
  }

  /** Between b and the next area, either no block is taken or all are. */
  lemma TakenStep(h: Heap, bs: set<nat>, tail: nat, b: nat, x: nat)
    requires Areas(h, bs, tail) && b in bs && 0 < b < tail && b <= x < Next(h, b)
    ensures Taken(LiveMap(h, bs, tail), x) <==> !IsFree(h, b)
  {
    var live := LiveMap(h, bs, tail);
    if !IsFree(h, b) {
      assert b in live && live[b] == Next(h, b) - b;
    } else {
      forall d | d in live
        ensures !(d <= x < d + live[d])
      {
        assert Next(h, d) <= b || Next(h, b) <= d;
      }
    }
  }

  lemma CoveredStep(h: Heap, bs: set<nat>, tail: nat, b: nat)
    requires Areas(h, bs, tail) && b in bs && 0 < b < tail
    ensures var live, n := LiveMap(h, bs, tail), Next(h, b);
        |Covered(live, n)| == |Covered(live, b)| + (if IsFree(h, b) then 0 else n - b)
  {
    var live, n := LiveMap(h, bs, tail), Next(h, b);
    assert b < n;
    forall x: nat | b <= x < n
      ensures Taken(live, x) <==> !IsFree(h, b)
    {
      TakenStep(h, bs, tail, b, x);
    }
    hide Areas, LiveMap, Taken, Next, IsFree;
    assert Covered(live, n) == Covered(live, b) + (if IsFree(h, b) then {} else Range(b, n));
  }

  lemma StartsStep(s: set<nat>, b: nat, n: nat)
    requires b < n && forall d :: d in s && b <= d < n ==> d == b
    ensures |StartsBelow(s, n)| == |StartsBelow(s, b)| + (if b in s then 1 else 0)
  {
    assert StartsBelow(s, n) == StartsBelow(s, b) + (if b in s then {b} else {});
  }

  lemma EntriesStep(h: Heap, bs: set<nat>, tail: nat, b: nat)
    requires Areas(h, bs, tail) && b in bs && 0 < b < tail
    ensures var live, n, free := LiveMap(h, bs, tail).Keys, Next(h, b), FreeStarts(h, bs);
        && |StartsBelow(live, n)| == |StartsBelow(live, b)| + (if IsFree(h, b) then 0 else 1)
        && |StartsBelow(free, n)| == |StartsBelow(free, b)| + (if IsFree(h, b) then 1 else 0)
  {
    hide StartsBelow;
    assert b < Next(h, b);
    StartsStep(LiveMap(h, bs, tail).Keys, b, Next(h, b));
    StartsStep(FreeStarts(h, bs), b, Next(h, b));
  }

  lemma StatisticsEnds(h: Heap, bs: set<nat>, tail: nat)
    requires Areas(h, bs, tail)
    ensures var live, free := LiveMap(h, bs, tail), FreeStarts(h, bs);
        && Covered(live, 1) == {} && StartsBelow(live.Keys, 1) == {} && StartsBelow(free, 1) == {}
        && Covered(live, tail) == Covered(live, |h|)
        && StartsBelow(live.Keys, tail) == live.Keys && StartsBelow(free, tail) == free
  {
    var live, free := LiveMap(h, bs, tail), FreeStarts(h, bs);
    assert forall d :: d in live ==> d + live[d] <= tail;
    assert forall d :: d in free ==> 0 < d < tail;
  }

  lemma WalkStep(h: Heap, bs: set<nat>, tail: nat, b: nat)
    requires Areas(h, bs, tail) && b in bs && 0 < b <= tail
    ensures b < |h| && (No(h[b].next) == 0 <==> b == tail) && Next(h, b) == No(h[b].next)
    ensures b < tail ==> b < Next(h, b) <= tail && Next(h, b) in bs && forall x :: b < x < Next(h, b) ==> x !in bs
    ensures forall x :: x in bs ==> x <= tail && !IsFree(h, tail) && !IsFree(h, 0)
  {
    if b < tail {
      assert b < Next(h, b);
    }
  }

  predicate Untouched(h: Heap) {
    forall i :: 0 <= i < |h| ==> h[i] == Block(0, 0, 0, 0)
  }

  lemma InitialisedIsWellFormed(h: Heap, r: Heap)
    requires Untouched(h) && 1 < |h| <= 0x7FFF && r == h[0 := Block(1, 0, 1, 0)]
    ensures WellFormed(r, {0, 1}, 1, [1]) && LiveMap(r, {0, 1}, 1) == map[]
  {
  }

  datatype Pointer = Null | Address(offset: nat)

  /** size bytes from offset on lie in the n blocks at c, behind the four bytes of link words, and fill all blocks. */
  predicate Bytes(c: nat, n: nat, offset: nat, size: nat) {
    offset == 8 * c + 4 && 8 * (c + n - 1) < offset + size <= 8 * (c + n)
  }

  /** The user data of the area at block c. */
  function Data(c: nat): (p: Pointer) {
    Address(8 * c + 4)
  }

  datatype HeapInfo = HeapInfo(totalEntries: nat, usedEntries: nat, freeEntries: nat,
                               totalBlocks: nat, usedBlocks: nat, freeBlocks: nat)

  class Allocator {
    const heap: array<Block>
    /** The starts of the areas, the last of them, and the free list: absent until the first allocation. */
    ghost var starts: set<nat>
    ghost var tail: nat
    ghost var free: seq<nat>

    ghost predicate Valid()
      reads this, heap
    {
      && 0 < heap.Length <= 0x7FFF
      && (if free == [] then Untouched(heap[..]) && starts == {} && tail == 0
          else WellFormed(heap[..], starts, tail, free))
    }

    /** The allocated areas and their sizes in blocks. */
    ghost function Live(): map<nat, nat>
      reads this, heap
    {
      LiveMap(heap[..], starts, tail)
    }

    constructor (blocks: nat)
      requires 0 < blocks <= 0x7FFF
      ensures Valid() && Live() == map[] && heap.Length == blocks && fresh(heap)
    {
      heap := new Block[blocks](_ => Block(0, 0, 0, 0));
      starts, tail, free := {}, 0, [];
    }

    method MakeNewBlock(c: nat, k: nat, mask: U16)
      requires c < heap.Length <= 0x7FFF && c + k < heap.Length && No(heap[c].next) < heap.Length
      requires mask == 0 || mask == FREELIST_MASK
      modifies heap
      ensures heap[..] == WithNewBlock(old(heap[..]), c, k, mask)
    {
      heap[c + k] := heap[c + k].(next := No(heap[c].next));
      heap[c + k] := heap[c + k].(prev := c);
      heap[No(heap[c].next)] := heap[No(heap[c].next)].(prev := c + k);
      heap[c] := heap[c].(next := Or(c + k, mask));
    }

    method DisconnectFromFreeList(c: nat)
      requires c < heap.Length && heap[c].pfree < heap.Length && heap[c].nfree < heap.Length
      requires heap[c].pfree != c
      modifies heap
      ensures heap[..] == Disconnected(old(heap[..]), c)
    {
      heap[heap[c].pfree] := heap[heap[c].pfree].(nfree := heap[c].nfree);
      heap[heap[c].nfree] := heap[heap[c].nfree].(pfree := heap[c].pfree);
      heap[c] := heap[c].(next := No(heap[c].next));
    }

    method AssimilateUp(c: nat)
      requires Valid() && c in Live()
      modifies heap, `starts, `free
      ensures Valid() && c in Live() && Live() == old(Live())[c := Live()[c]]
      ensures !IsFree(heap[..], Next(heap[..], c)) && Prev(heap[..], c) == old(Prev(heap[..], c))
      ensures AllData(old(heap[..]), heap[..], old(Live()))
    {
      hide WellFormed, Disconnected, MergedUp, AllData;
      ghost var h := heap[..];
      LiveStart(h, starts, tail, free, c);
      if Marked(heap[heap[c].next].next) {
        ghost var k := IndexOf(free, heap[c].next);
        TakenUpReady(h, starts, tail, free, c, k);
        DisconnectFromFreeList(heap[c].next);
        ghost var m: nat := heap[c].next;
        ghost var g := heap[..];
        TakenUpKeeps(h, g, starts, tail, free, c, k);
        heap[No(heap[heap[c].next].next)] := heap[No(heap[heap[c].next].next)].(prev := c);
        heap[c] := heap[c].(next := No(heap[heap[c].next].next));
        assert heap[..] == MergedUp(g, c) by { MergedUpIs(g, c); }
        starts, free := starts - {m}, Without(free, k);
      } else {
        AllDataSame(h, Live());
      }
    }

    method AssimilateDown(c: nat, mask: U16) returns (r: U16)
      requires c < heap.Length && heap[c].next < heap.Length && heap[c].prev < c < heap[c].next
      requires mask == 0 || mask == FREELIST_MASK
      modifies heap
      ensures heap[..] == MergedDown(old(heap[..]), c, mask) && r == old(heap[c].prev)
    {
      heap[heap[c].prev] := heap[heap[c].prev].(next := Or(heap[c].next, mask));
      heap[heap[c].next] := heap[heap[c].next].(prev := heap[c].prev);
      r := heap[c].prev;
    }

    method PushFree(c: nat)
      requires 0 < c < heap.Length <= 0x7FFF && heap[0].nfree < heap.Length && heap[0].nfree != c
      modifies heap
      ensures heap[..] == Pushed(old(heap[..]), c)
    {
      heap[heap[0].nfree] := heap[heap[0].nfree].(pfree := c);
      heap[c] := heap[c].(nfree := heap[0].nfree);
      heap[c] := heap[c].(pfree := 0);
      heap[0] := heap[0].(nfree := c);
      heap[c] := heap[c].(next := Or(heap[c].next, FREELIST_MASK));
    }

    /** c, with no free area after it, joins the one before it or goes on the free list. */
    method Release(c: nat)
      requires Valid() && c in Live() && !IsFree(heap[..], Next(heap[..], c))
      modifies heap, `starts, `free
      ensures Valid() && Live() == old(Live()) - {c}
      ensures AllData(old(heap[..]), heap[..], old(Live()) - {c})
    {
      hide WellFormed, MergedDown, Pushed, AllData;
      ghost var g, live := heap[..], Live();
      LiveStart(g, starts, tail, free, c);
      if Marked(heap[heap[c].prev].next) {
        MergedDownKeeps(g, starts, tail, free, c);
        AllDataFewer(g, MergedDown(g, c, FREELIST_MASK), live, live - {c});
        var _ := AssimilateDown(c, FREELIST_MASK);
        starts := starts - {c};
      } else {
        PushedKeeps(g, starts, tail, free, c);
        PushFree(c);
        free := [c] + free;
      }
    }

    /** The area that p points to is free again; the others keep their place and their data. */
    method Free(p: Pointer)
      requires Valid() && (p.Address? ==> exists c :: c in Live() && p == Data(c))
      modifies heap, `starts, `free
      ensures Valid()
      ensures p.Null? ==> heap[..] == old(heap[..]) && Live() == old(Live())
      ensures p.Address? ==> Live() == old(Live()) - {(p.offset - 4) / 8}
      ensures AllData(old(heap[..]), heap[..], Live())
    {
      hide WellFormed, AllData;
      if p.Null? {
        NothingMoves(heap[..], starts, tail, free);
      } else {
        var c := p.offset / 8;
        assert c in Live() && c == (p.offset - 4) / 8;
        ghost var h, before := heap[..], Live();
        AssimilateUp(c);
        ghost var g := heap[..];
        Release(c);
        assert Live() == before - {c};
        AllDataFewer(h, g, before, before - {c});
        AllDataTwice(h, g, heap[..], before - {c}, before - {c});
      }
    }

    /** Scans the free list for the first area of n blocks; the scan ends at the tail if there is none. */
    method FindFit(n: nat) returns (cf: nat, size: nat, ghost k: nat)
      requires Valid()
      ensures free == [] ==> cf == 0
      ensures free != [] ==> k == FirstFit(heap[..], free, 0, n) && cf == free[k]
      ensures free != [] && k < |free| - 1 ==> size == Size(heap[..], cf)
    {
      hide Areas, Members;
      cf, size, k := heap[0].nfree, 0, 0;
      while heap[cf].nfree != 0
        invariant free == [] ==> cf == 0
        invariant free != [] ==> k < |free| && cf == free[k] < heap.Length
        invariant free != [] ==> FirstFit(heap[..], free, 0, n) == FirstFit(heap[..], free, k, n)
        decreases |free| - k
      {
        assert heap[..][free[k]].nfree == After(free, k);
        FreeForward(heap[..], starts, tail, free, k);
        size := No(heap[cf].next) - cf;
        if n <= size {
          break;
        }
        cf := heap[cf].nfree;
        k := k + 1;
      }
      assert free != [] ==> heap[..][free[k]].nfree == After(free, k);
    }

    /** The last n blocks of a free area are allocated. */
    method TakeFree(cf: nat, size: nat, n: nat, ghost k: nat) returns (c: nat)
      requires Valid() && free != [] && k < |free| - 1 && cf == free[k] && size == Size(heap[..], cf) && n <= size
      modifies heap, `starts, `free
      ensures c == cf + size - n
      ensures 0 < n ==> Valid() && c !in old(Live()) && Live() == old(Live())[c := n]
      ensures 0 < n ==> AllData(old(heap[..]), heap[..], old(Live()))
      ensures n == 0 ==> Broken(heap[..])
    {
      hide WellFormed, AllData, Disconnected, WithNewBlock, Broken;
      FreeForward(heap[..], starts, tail, free, k);
      if size == n {
        DisconnectedKeeps(heap[..], starts, tail, free, k);
        c := cf;
        DisconnectFromFreeList(cf);
        free := Without(free, k);
      } else {
        if n > 0 {
          SplitKeeps(heap[..], starts, tail, free, cf, size - n);
        } else {
          FormedAreas(heap[..], starts, tail, free);
          EmptySplitCorrupts(heap[..], starts, tail, cf);
        }
        MakeNewBlock(cf, size - n, FREELIST_MASK);
        c := cf + size - n;
        starts := starts + {c};
      }
    }

    /** The first k blocks of the tail t are allocated. */
    method Grow(t: nat, k: nat)
      requires t + k < heap.Length <= 0x7FFF && heap[t].pfree < heap.Length
      modifies heap
      ensures heap[..] == Grown(old(heap[..]), t, k)
    {
      heap[heap[t].pfree] := heap[heap[t].pfree].(nfree := t + k);
      heap[t + k] := heap[t];
      heap[t] := heap[t].(next := t + k);
      heap[t + k] := heap[t + k].(prev := t);
    }

    method Initialise()
      requires Valid() && free == [] && 1 < heap.Length
      modifies heap, this
      ensures Valid() && free == [1] && tail == 1 && Live() == map[]
    {
      ghost var h := heap[..];
      heap[0] := heap[0].(next := 1);
      heap[0] := heap[0].(nfree := 1);
      InitialisedIsWellFormed(h, heap[..]);
      starts, tail, free := {0, 1}, 1, [1];
    }

    /** The first n blocks of the tail t are allocated; none of them breaks the heap. */
    method CutTail(t: nat, n: nat)
      requires Valid() && free != [] && t == tail && t + n < heap.Length
      modifies heap, `starts, `tail, `free
      ensures 0 < n ==> Valid() && t !in old(Live()) && Live() == old(Live())[t := n]
      ensures 0 < n ==> AllData(old(heap[..]), heap[..], old(Live()))
      ensures n == 0 ==> Broken(heap[..])
    {
      hide WellFormed, AllData, Grown, Broken;
      if n == 0 {
        EmptyGrowthCorrupts(heap[..], starts, tail, free);
      } else {
        GrownKeeps(heap[..], starts, tail, free, n);
      }
      Grow(t, n);
      starts, tail, free := starts + {t + n}, t + n, free[..|free| - 1] + [t + n];
    }

    /** n blocks are cut off the tail, if one more than n is left. */
    method TakeTail(cf: nat, n: nat) returns (c: nat)
      requires Valid() && cf == tail
      modifies heap, this
      ensures c == 0 <==> heap.Length <= old(tail) + n + 1
      ensures c == 0 ==> heap[..] == old(heap[..]) && starts == old(starts) && tail == old(tail) && free == old(free)
      ensures c != 0 ==> c == if old(free) == [] then 1 else old(tail)
      ensures c != 0 && 0 < n ==> c !in old(Live()) && Live() == old(Live())[c := n]
      ensures c == 0 || 0 < n ==> Valid() && AllData(old(heap[..]), heap[..], old(Live()))
      ensures c != 0 && n == 0 ==> Broken(heap[..])
    {
      hide WellFormed, AllData, Grown, Broken;
      NothingMoves(heap[..], starts, tail, free);
      if heap.Length <= cf + n + 1 {
        c := 0;
        return;
      }
      c := cf;
      if c == 0 {
        Initialise();
        c := 1;
      }
      ghost var h, live := heap[..], Live();
      assert live == old(Live()) && (h == old(heap[..]) || live == map[]);
      CutTail(c, n);
      if n > 0 {
        AllDataFrom(old(heap[..]), h, heap[..], live);
      }
    }

    lemma BrokenIsInvalid()
      ensures Broken(heap[..]) ==> !Valid()
    {
    }

    /** No area on the free list holds what is asked for, and the tail is too short. */
    ghost predicate Refuses(size: nat)
      reads this, heap
    {
      || size == 0
      || (NoFit(heap[..], starts, BlockCount(size)) && heap.Length <= tail + BlockCount(size) + 1)
    }

    /** Allocates size bytes in the first free area that has room, or at the end of the heap. A size that is
        counted as no blocks breaks the heap unless it is refused. */
    method Malloc(size: nat) returns (p: Pointer)
      requires Valid()
      modifies heap, this
      ensures p.Null? <==> old(Refuses(size))
      ensures p.Null? ==> heap[..] == old(heap[..]) && Live() == old(Live())
      ensures Valid() <==> p.Null? || 0 < BlockCount(size)
      ensures p.Address? && 0 < BlockCount(size) ==>
        var c := Place(old(heap[..]), old(free), BlockCount(size));
        && p == Data(c) && c !in old(Live()) && Live() == old(Live())[c := BlockCount(size)]
        && AtFirstFit(old(heap[..]), old(free), old(tail), BlockCount(size), c)
      ensures p.Address? && 0 < size <= 524276 ==>
        exists c :: c in Live() && c !in old(Live()) && Bytes(c, Live()[c], p.offset, size)
      ensures p.Address? ==> (size <= 8 * BlockCount(size) - 4 <==> size <= MAX_REQUEST)
      ensures Valid() ==> AllData(old(heap[..]), heap[..], old(Live()))
      ensures !Valid() ==> Broken(heap[..])
    {
      hide WellFormed, AllData, NoFit, FirstFit, Size, Broken, AtFirstFit, BlockCount;
      p := Null;
      if size == 0 {
        NothingMoves(heap[..], starts, tail, free);
        return;
      }
      var n := Blocks(size);
      var cf, found, k := FindFit(n);
      AtTail(heap[..], starts, tail, free, n);
      PlaceIsFirstFit(heap[..], starts, tail, free, n);
      if No(heap[cf].next) != 0 {
        var c := TakeFree(cf, found, n, k);
        p := Address(8 * c + 4);
      } else {
        var c := TakeTail(cf, n);
        if c != 0 {
          p := Address(8 * c + 4);
        }
      }
      BrokenIsInvalid();
      CountHolds(size);
    }

    /** The application stores v at block x of its allocation at c; the link words are not its to write. */
    method Store(c: nat, x: nat, v: Block)
      requires Valid() && c in Live() && x < Live()[c]
      modifies heap
      ensures Valid() && Live() == old(Live())
      ensures UserBlock(heap[..], c, x) == Cut(x, v)
      ensures forall d, y: nat :: d in Live() && y < Live()[d] && (d != c || y != x) ==>
        UserBlock(heap[..], d, y) == old(UserBlock(heap[..], d, y))
    {
      ghost var h := heap[..];
      StoreInside(h, starts, tail, free, c, x);
      if x == 0 {
        heap[c] := heap[c].(nfree := v.nfree, pfree := v.pfree);
      } else {
        heap[c + x] := v;
      }
      hide WellFormed, LiveMap;
      StoredOnly(h, heap[..], starts, tail, free, c, x, v);
    }

    /** Counts areas and blocks; stops early at a free area whose first block p points to. */
    method Info(p: Pointer) returns (r: Pointer, info: HeapInfo)
      requires Valid()
      ensures r == if exists b :: b in starts && IsFree(heap[..], b) && p == Address(8 * b) then p else Null
      ensures (exists c :: p == Data(c)) ==> r.Null?
      ensures r.Address? ==> Counted(info, heap[..], starts, tail, Next(heap[..], r.offset / 8))
      ensures r.Null? ==> info.usedBlocks == |Covered(Live(), heap.Length)| && info.usedEntries == |Live().Keys|
      ensures r.Null? ==> info.freeEntries == |FreeStarts(heap[..], starts)|
      ensures r.Null? ==> info.totalEntries == info.usedEntries + info.freeEntries
      ensures r.Null? ==>
        info.totalBlocks == info.usedBlocks + info.freeBlocks == (if free == [] then heap.Length else heap.Length - 1)
    {
      hide FreeList, Members, Linked, Apart, Spread, FreeStarts, StartsBelow, Covered, LiveMap;
      info := HeapInfo(0, 0, 0, 0, 0, 0);
      r := Null;
      ghost var h := heap[..];
      var b: nat := No(heap[0].next);
      if free == [] {
        NothingCounted(h);
      } else {
        StatisticsEnds(h, starts, tail);
        Start(h, starts, tail);
      }
      while No(heap[b].next) != 0
        invariant b < heap.Length && r.Null?
        invariant free == [] ==> b == 0 && info == HeapInfo(0, 0, 0, 0, 0, 0)
        invariant free != [] ==> b in starts && 0 < b <= tail && Counted(info, h, starts, tail, b)
        invariant forall x :: x in starts && x < b && IsFree(h, x) ==> p != Address(8 * x)
        decreases heap.Length - b
      {
        WalkStep(h, starts, tail, b);
        CoveredStep(h, starts, tail, b);
        EntriesStep(h, starts, tail, b);
        var n: nat := No(heap[b].next);
        info := info.(totalEntries := info.totalEntries + 1, totalBlocks := info.totalBlocks + n - b);
        if Marked(heap[b].next) {
          info := info.(freeEntries := info.freeEntries + 1, freeBlocks := info.freeBlocks + n - b);
          if p == Address(8 * b) {
            r := p;
            return;
          }
        } else {
          info := info.(usedEntries := info.usedEntries + 1, usedBlocks := info.usedBlocks + n - b);
        }
        b := n;
      }
      if free != [] {
        WalkStep(h, starts, tail, b);
      }
      info := info.(freeBlocks := info.freeBlocks + heap.Length - b, totalBlocks := info.totalBlocks + heap.Length - b);
    }
  }

  /** The counts over the areas before b. */
  ghost predicate Counted(info: HeapInfo, h: Heap, bs: set<nat>, tail: nat, b: nat) {
    && info.usedBlocks == |Covered(LiveMap(h, bs, tail), b)|
    && info.usedEntries == |StartsBelow(LiveMap(h, bs, tail).Keys, b)|
    && info.freeEntries == |StartsBelow(FreeStarts(h, bs), b)|
    && info.totalEntries == info.usedEntries + info.freeEntries
    && info.totalBlocks == info.usedBlocks + info.freeBlocks == b - 1
  }

  lemma NothingCounted(h: Heap)
    ensures var live := LiveMap(h, {}, 0);
        live == map[] && Covered(live, |h|) == {} && FreeStarts(h, {}) == {}
  {
  }

  lemma Start(h: Heap, bs: set<nat>, tail: nat)
    requires Areas(h, bs, tail)
    ensures No(h[0].next) == 1 && 1 in bs && 1 <= tail < |h| && !IsFree(h, 0)
  {
  }

  // ---------- what the application sees ----------

  /** The user data in block x of the area at c: in its first block, two words. */
  function UserBlock(h: Heap, c: nat, x: nat): Block {
    if c + x < |h| then Cut(x, h[c + x]) else Block(0, 0, 0, 0)
  }

  function Cut(x: nat, v: Block): Block {
    if x == 0 then v.(next := 0, prev := 0) else v
  }

  /** The heap after the application stored v. */
  function WithStored(h: Heap, c: nat, x: nat, v: Block): (r: Heap)
    requires c + x < |h|
    ensures |r| == |h|
  {
    if x == 0 then h[c := h[c].(nfree := v.nfree, pfree := v.pfree)] else h[c + x := v]
  }

  lemma StoreInside(h: Heap, bs: set<nat>, tail: nat, fl: seq<nat>, c: nat, x: nat)
    requires (fl == [] ==> bs == {}) && (fl != [] ==> WellFormed(h, bs, tail, fl))
    requires c in LiveMap(h, bs, tail) && x < Size(h, c)
    ensures fl != [] && c + x < tail < |h| && c !in fl && 0 < c && (0 < x ==> c + x !in bs)
    ensures forall d :: d in LiveMap(h, bs, tail) && d != c ==> d + Size(h, d) <= c || c + Size(h, c) <= d
  {
    Around(h, bs, tail, c);
  }

  lemma StoredOnly(h: Heap, r: Heap, bs: set<nat>, tail: nat, fl: seq<nat>, c: nat, x: nat, v: Block)
    requires fl != [] && WellFormed(h, bs, tail, fl) && c in LiveMap(h, bs, tail) && x < Size(h, c) && c + x < |h|
    requires r == WithStored(h, c, x, v)
    ensures WellFormed(r, bs, tail, fl) && LiveMap(r, bs, tail) == LiveMap(h, bs, tail)
    ensures UserBlock(r, c, x) == Cut(x, v)
    ensures forall d, y: nat :: d in LiveMap(h, bs, tail) && y < Size(h, d) && (d != c || y != x) ==>
      UserBlock(r, d, y) == UserBlock(h, d, y)
  {
    hide WellFormed, Size;
    StoreInside(h, bs, tail, fl, c, x);
    StartsHere(h, bs, tail, fl);
    UserWritesKeepHeap(h, r, bs, tail, fl);
  }

  lemma StartsHere(h: Heap, bs: set<nat>, tail: nat, fl: seq<nat>)
    requires WellFormed(h, bs, tail, fl)
    ensures forall b :: b in bs ==> b < |h|
  {
  }

  lemma AllDataFrom(h: Heap, g: Heap, r: Heap, l: map<nat, nat>)
    requires AllData(g, r, l) && (h == g || l == map[])
    ensures AllData(h, r, l)
  {
  }

  /** Where the scan of the free list has stopped. */
  lemma AtTail(h: Heap, bs: set<nat>, tail: nat, fl: seq<nat>, n: nat)
    requires 0 < |h| && (if fl == [] then Untouched(h) && bs == {} && tail == 0 else WellFormed(h, bs, tail, fl))
    ensures fl == [] ==> NoFit(h, bs, n) && No(h[0].next) == 0
    ensures fl != [] ==>
      var k := FirstFit(h, fl, 0, n);
      && (k == |fl| - 1 <==> NoFit(h, bs, n)) && fl[k] < |h| && (k == |fl| - 1 <==> No(h[fl[k]].next) == 0)
      && (k == |fl| - 1 ==> fl[k] == tail) && (k < |fl| - 1 ==> n <= Size(h, fl[k]))
  {
    hide Size, Areas, FreeList;
    if fl != [] {
      FitOrTail(h, bs, tail, fl, n);
      TailIsLast(h, bs, tail, fl);
      var k := FirstFit(h, fl, 0, n);
      if k < |fl| - 1 {
        FreeForward(h, bs, tail, fl, k);
      }
    }
  }

  lemma PlaceIsFirstFit(h: Heap, bs: set<nat>, tail: nat, fl: seq<nat>, n: nat)
    requires fl != [] ==> WellFormed(h, bs, tail, fl)
    ensures AtFirstFit(h, fl, tail, n, Place(h, fl, n))
  {
    if fl != [] {
      var i := FirstFit(h, fl, 0, n);
      if i < |fl| - 1 {
        FreeForward(h, bs, tail, fl, i);
      }
    }
  }

  lemma FormedAreas(h: Heap, bs: set<nat>, tail: nat, fl: seq<nat>)
    requires WellFormed(h, bs, tail, fl)
    ensures Areas(h, bs, tail)
  {
  }

  lemma FreeForward(h: Heap, bs: set<nat>, tail: nat, fl: seq<nat>, k: nat)
    requires WellFormed(h, bs, tail, fl) && k < |fl| - 1
    ensures var c := fl[k];
        && 0 < c < Next(h, c) <= tail < |h| <= 0x7FFF && c in bs && IsFree(h, c)
        && h[c].pfree < |h| && h[c].nfree < |h| && h[c].pfree != c && Next(h, c) == No(h[c].next)
    ensures forall x :: fl[k] < x < Next(h, fl[k]) ==> x !in bs
  {
    FreeIsArea(h, bs, tail, fl);
    Around(h, bs, tail, fl[k]);
    FreeLinks(h, fl, k);
  }

  lemma AllDataFewer(h: Heap, r: Heap, l: map<nat, nat>, l': map<nat, nat>)
    requires AllData(h, r, l) && forall d :: d in l' ==> d in l && l'[d] == l[d]
    ensures AllData(h, r, l')
  {
  }

  lemma NothingMoves(h: Heap, bs: set<nat>, tail: nat, fl: seq<nat>)
    requires fl == [] ==> bs == {}
    requires fl != [] ==> WellFormed(h, bs, tail, fl)
    ensures AllData(h, h, LiveMap(h, bs, tail))
    ensures fl != [] ==> 0 < tail
  {
    forall d | d in LiveMap(h, bs, tail)
      ensures SameData(h, h, d, Size(h, d))
    {
      LiveStart(h, bs, tail, fl, d);
    }
  }

  lemma MergedUpIs(g: Heap, c: nat)
    requires c < |g| <= 0x7FFF && Next(g, c) < |g| && Next(g, Next(g, c)) < |g| && g[c].next == Next(g, c)
    ensures var n := No(g[g[c].next].next);
      var h1 := g[n := g[n].(prev := c)];
      MergedUp(g, c) == h1[c := h1[c].(next := No(h1[h1[c].next].next))]
  {
  }

  lemma AllDataSame(h: Heap, live: map<nat, nat>)
    requires forall d :: d in live ==> 0 < live[d] && d + live[d] <= |h|
    ensures AllData(h, h, live)
  {
  }

  /** What the code relies on at an allocated area. */
  lemma LiveStart(h: Heap, bs: set<nat>, tail: nat, fl: seq<nat>, c: nat)
    requires WellFormed(h, bs, tail, fl) && c in LiveMap(h, bs, tail)
    ensures 0 < c < |h| <= 0x7FFF && c < h[c].next < |h| && h[c].prev < c
    ensures Next(h, c) == h[c].next && Prev(h, c) == h[c].prev
    ensures h[0].nfree < |h| && h[0].nfree != c
    ensures IsFree(h, h[c].next) ==>
        (var m: nat := h[c].next; var k := IndexOf(fl, m); m in fl && k < |fl| - 1 && fl[k] == m)
    ensures forall d :: d in LiveMap(h, bs, tail) ==> 0 < Size(h, d) && d + Size(h, d) <= |h|
  {
    hide Areas, IndexOf;
    Around(h, bs, tail, c);
    assert fl[0] in fl;
    LiveInHeap(h, bs, tail);
    if IsFree(h, h[c].next) {
      FreeIndexed(h, bs, tail, fl, h[c].next);
    }
  }

  lemma FreeIndexed(h: Heap, bs: set<nat>, tail: nat, fl: seq<nat>, m: nat)
    requires WellFormed(h, bs, tail, fl) && m in bs && IsFree(h, m)
    ensures m in fl && IndexOf(fl, m) < |fl| - 1 && fl[IndexOf(fl, m)] == m
  {
    hide Areas, FreeList, IndexOf;
    TailUnmarked(h, bs, tail);
  }

  lemma LiveInHeap(h: Heap, bs: set<nat>, tail: nat)
    requires Areas(h, bs, tail)
    ensures forall d :: d in LiveMap(h, bs, tail) ==> 0 < Size(h, d) && d + Size(h, d) <= |h|
  {
    hide Linked, Apart, Spread;
    forall d | d in LiveMap(h, bs, tail)
      ensures 0 < Size(h, d) && d + Size(h, d) <= |h|
    {
      Around(h, bs, tail, d);
    }
  }
}
