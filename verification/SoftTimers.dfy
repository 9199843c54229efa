/** The soft timers: two binary heaps of timers, one for the current round of the tick counter and one for
    the next. */
module SoftTimers {
  import Arith


  type U16 = x: int | 0 <= x < 0x1_0000

  const TICK_COUNT_OVERFLOW: U16 := 65532
  const TIMER_MAX_COUNTER: U16 := 65531

  type Tick = x: int | 0 <= x < TICK_COUNT_OVERFLOW

  datatype State = NotAllocated | NotUsed | Stopped | Running

  datatype Callback = NoCallback | Callback(id: nat)

  datatype Timer = Timer(func: Callback, timeout: U16, state: State)

  /** A timer block by its place in the table, or no timer. */
  type Ref = int

  const NULL: Ref := -1

  // ---------- binary heaps ----------

  /** The timeout of the timer in slot i. */
  function Key(mem: seq<Timer>, ts: seq<Ref>, i: nat): int {
    if i < |ts| && 0 <= ts[i] < |mem| then mem[ts[i]].timeout else 0
  }

  function Parent(i: nat): (p: nat)
    ensures 1 < i ==> 1 <= p < i
  {
    i / 2
  }

  /** Every slot in 1..n holds a timer that expires no earlier than its parent's, except perhaps in slot up
      and in the slots below slot down. */
  ghost predicate HeapBut(mem: seq<Timer>, ts: seq<Ref>, n: nat, up: nat, down: nat) {
    forall j: nat :: 2 <= j <= n && j != up && Parent(j) != down ==> Key(mem, ts, Parent(j)) <= Key(mem, ts, j)
  }

  ghost predicate IsHeap(mem: seq<Timer>, ts: seq<Ref>, n: nat) {
    HeapBut(mem, ts, n, 0, 0)
  }

  /** Timers two levels apart around slot i are in order. */
  ghost predicate Bridged(mem: seq<Timer>, ts: seq<Ref>, n: nat, i: nat) {
    1 < i ==> forall j: nat :: 2 <= j <= n && Parent(j) == i ==> Key(mem, ts, Parent(i)) <= Key(mem, ts, j)
  }

  function Swapped<T>(s: seq<T>, i: nat, j: nat): (r: seq<T>)
    requires i < |s| && j < |s|
    ensures |r| == |s|
  {
    s[i := s[j]][j := s[i]]
  }

  /** The timers in slots 1..n. */
  ghost function Held(ts: seq<Ref>, n: nat): multiset<Ref>
    requires n < |ts|
  {
    multiset(ts[1..n + 1])
  }

  /** No timer twice. */
  ghost predicate Once(timers: multiset<Ref>) {
    forall x :: timers[x] <= 1
  }

  lemma SwapHolds(ts: seq<Ref>, n: nat, i: nat, j: nat)
    requires 1 <= i <= n < |ts| && 1 <= j <= n
    ensures Held(Swapped(ts, i, j), n) == Held(ts, n)
  {
    var s := ts[1..n + 1];
    assert Swapped(ts, i, j)[1..n + 1] == Swapped(s, i - 1, j - 1);
    assert Swapped(s, i - 1, j - 1) == s[i - 1 := s[j - 1]][j - 1 := s[i - 1]];
  }

  lemma KeySwapped(mem: seq<Timer>, ts: seq<Ref>, i: nat, j: nat, k: nat)
    requires i < |ts| && j < |ts|
    ensures Key(mem, Swapped(ts, i, j), k) == Key(mem, ts, if k == i then j else if k == j then i else k)
  {
  }

  /** Moving a timer one slot up mends the heap there. */
  lemma RaisedHeap(mem: seq<Timer>, ts: seq<Ref>, n: nat, i: nat)
    requires 1 < i <= n < |ts| && HeapBut(mem, ts, n, i, 0) && Bridged(mem, ts, n, i)
    requires Key(mem, ts, i) < Key(mem, ts, Parent(i))
    ensures var r := Swapped(ts, Parent(i), i);
        HeapBut(mem, r, n, Parent(i), 0) && Bridged(mem, r, n, Parent(i))
  {
    var p := Parent(i);
    var r := Swapped(ts, p, i);
    forall j: nat | 2 <= j <= n
      ensures j != p ==> Key(mem, r, Parent(j)) <= Key(mem, r, j)
      ensures 1 < p && Parent(j) == p ==> Key(mem, r, Parent(p)) <= Key(mem, r, j)
    {
      KeySwapped(mem, ts, p, i, j);
      KeySwapped(mem, ts, p, i, Parent(j));
      KeySwapped(mem, ts, p, i, Parent(p));
      assert j != i ==> Key(mem, ts, Parent(j)) <= Key(mem, ts, j);
      assert 1 < p ==> Key(mem, ts, Parent(p)) <= Key(mem, ts, p);
    }
  }

  lemma LoweredHeap(mem: seq<Timer>, ts: seq<Ref>, n: nat, i: nat, son: nat)
    requires 1 <= i < son <= n < |ts| && Parent(son) == i && HeapBut(mem, ts, n, 0, i) && Bridged(mem, ts, n, i)
    requires forall j: nat :: 2 <= j <= n && Parent(j) == i ==> Key(mem, ts, son) <= Key(mem, ts, j)
    requires Key(mem, ts, son) < Key(mem, ts, i)
    ensures var r := Swapped(ts, son, i);
        HeapBut(mem, r, n, 0, son) && Bridged(mem, r, n, son)
  {
    var r := Swapped(ts, son, i);
    forall j: nat | 2 <= j <= n
      ensures Parent(j) != son ==> Key(mem, r, Parent(j)) <= Key(mem, r, j)
      ensures Parent(j) == son ==> Key(mem, r, Parent(son)) <= Key(mem, r, j)
    {
      KeySwapped(mem, ts, son, i, j);
      KeySwapped(mem, ts, son, i, Parent(j));
      KeySwapped(mem, ts, son, i, i);
      assert Parent(j) != i ==> Key(mem, ts, Parent(j)) <= Key(mem, ts, j);
    }
  }

  /** The timer in slot 1 expires first. */
  lemma {:induction false} RootFirst(mem: seq<Timer>, ts: seq<Ref>, n: nat, j: nat)
    requires IsHeap(mem, ts, n) && 1 <= j <= n
    ensures Key(mem, ts, 1) <= Key(mem, ts, j)
  {
    if j > 1 {
      RootFirst(mem, ts, n, Parent(j));
    }
  }

  lemma TopBridged(mem: seq<Timer>, ts: seq<Ref>, n: nat, i: nat)
    requires i == n || i <= 1
    ensures Bridged(mem, ts, n, i)
  {
  }

  lemma HeapDone(mem: seq<Timer>, ts: seq<Ref>, n: nat, up: nat, down: nat)
    requires HeapBut(mem, ts, n, up, down)
    requires 2 <= up <= n ==> down != Parent(up) && Key(mem, ts, Parent(up)) <= Key(mem, ts, up)
    requires forall j: nat :: 2 <= j <= n && Parent(j) == down ==> Key(mem, ts, down) <= Key(mem, ts, j)
    ensures IsHeap(mem, ts, n)
  {
  }

  lemma SwapKeepsRest(ts: seq<Ref>, n: nat, i: nat, j: nat)
    requires 1 <= i <= n < |ts| && 1 <= j <= n
    ensures Swapped(ts, i, j)[n + 1..] == ts[n + 1..] && Swapped(ts, i, j)[0] == ts[0]
  {
  }

  method Swap(timers: array<Ref>, i: nat, j: nat)
    requires i < timers.Length && j < timers.Length
    modifies timers
    ensures timers[..] == Swapped(old(timers[..]), i, j)
  {
    var tmp := timers[i];
    timers[i] := timers[j];
    timers[j] := tmp;
  }

  /** Moves the timer in the last slot up to where its parent does not expire later. */
  method Subir(mem: array<Timer>, timers: array<Ref>, n: nat)
    requires 1 <= n < timers.Length && forall j :: 1 <= j <= n ==> 0 <= timers[j] < mem.Length
    modifies timers
    ensures old(HeapBut(mem[..], timers[..], n, n, 0)) ==> IsHeap(mem[..], timers[..], n)
    ensures Held(timers[..], n) == old(Held(timers[..], n))
    ensures timers[n + 1..] == old(timers[n + 1..])
  {
    hide HeapBut, Bridged, Held, Swapped;
    var i := n;
    ghost var heaped := HeapBut(mem[..], timers[..], n, n, 0);
    TopBridged(mem[..], timers[..], n, i);
    while i > 1 && mem[timers[Parent(i)]].timeout > mem[timers[i]].timeout
      invariant 1 <= i <= n
      invariant heaped ==> HeapBut(mem[..], timers[..], n, i, 0) && Bridged(mem[..], timers[..], n, i)
      invariant Held(timers[..], n) == old(Held(timers[..], n)) && timers[..][n + 1..] == old(timers[n + 1..])
      invariant forall j :: 1 <= j <= n ==> 0 <= timers[j] < mem.Length
    {
      ghost var ts := timers[..];
      if heaped {
        RaisedHeap(mem[..], ts, n, i);
      }
      SwapHolds(ts, n, Parent(i), i);
      SwapKeepsRest(ts, n, Parent(i), i);
      SwapInRange(ts, n, Parent(i), i, mem.Length);
      Swap(timers, Parent(i), i);
      i := Parent(i);
    }
    if heaped {
      HeapDone(mem[..], timers[..], n, i, 0);
    }
  }

  lemma SwapInRange(ts: seq<Ref>, n: nat, i: nat, j: nat, m: nat)
    requires 1 <= i <= n < |ts| && 1 <= j <= n && forall k :: 1 <= k <= n ==> 0 <= ts[k] < m
    ensures forall k :: 1 <= k <= n ==> 0 <= Swapped(ts, i, j)[k] < m
  {
  }

  /** Moves the timer in slot i down to where neither child expires earlier. */
  method Descer(mem: array<Timer>, timers: array<Ref>, start: nat, n: nat)
    requires (1 <= start <= n || start == 1) && n < timers.Length <= 128
    requires HeapBut(mem[..], timers[..], n, 0, start) && Bridged(mem[..], timers[..], n, start)
    requires forall j :: 1 <= j <= n ==> 0 <= timers[j] < mem.Length
    modifies timers
    ensures IsHeap(mem[..], timers[..], n)
    ensures Held(timers[..], n) == old(Held(timers[..], n))
    ensures timers[n + 1..] == old(timers[n + 1..])
  {
    hide HeapBut, Bridged, Held, Swapped;
    var i := start;
    while true
      invariant 1 <= i && 2 * i + 1 < 0x100
      invariant HeapBut(mem[..], timers[..], n, 0, i) && Bridged(mem[..], timers[..], n, i)
      invariant Held(timers[..], n) == old(Held(timers[..], n)) && timers[..][n + 1..] == old(timers[n + 1..])
      invariant forall j :: 1 <= j <= n ==> 0 <= timers[j] < mem.Length
      decreases if i <= n then n - i else -1
    {
      var son := 2 * i;
      if 2 * i + 1 <= n && mem[timers[2 * i + 1]].timeout < mem[timers[2 * i]].timeout {
        son := 2 * i + 1;
      }
      ghost var ts := timers[..];
      assert forall j: nat :: Parent(j) == i ==> j == 2 * i || j == 2 * i + 1;
      if son <= n && mem[timers[son]].timeout < mem[timers[i]].timeout {
        LoweredHeap(mem[..], ts, n, i, son);
        SwapHolds(ts, n, son, i);
        SwapKeepsRest(ts, n, son, i);
        SwapInRange(ts, n, son, i, mem.Length);
        Swap(timers, son, i);
        i := son;
      } else {
        HeapDone(mem[..], ts, n, 0, i);
        break;
      }
    }
  }

  // ---------- timers in and out of a heap ----------

  /** The first n slots after slot 0 hold timers, of which there are m; the slots behind hold none. */
  ghost predicate Slots(ts: seq<Ref>, n: nat, m: nat) {
    && n < |ts|
    && (forall j :: 1 <= j <= n ==> 0 <= ts[j] < m)
    && (forall j :: n < j < |ts| ==> ts[j] == NULL)
  }

  /** The timers of a list are distinct and form a heap. */
  ghost predicate ListOk(mem: seq<Timer>, ts: seq<Ref>, n: nat) {
    Slots(ts, n, |mem|) && IsHeap(mem, ts, n) && Once(Held(ts, n))
  }

  lemma ListSlots(mem: seq<Timer>, ts: seq<Ref>, n: nat)
    requires ListOk(mem, ts, n)
    ensures Slots(ts, n, |mem|)
  {
  }

  lemma HeldAt(ts: seq<Ref>, n: nat, j: nat)
    requires 1 <= j <= n < |ts|
    ensures ts[j] in Held(ts, n)
  {
    assert ts[1..n + 1][j - 1] == ts[j];
  }

  lemma HeldSlot(ts: seq<Ref>, n: nat, x: Ref) returns (j: nat)
    requires n < |ts| && x in Held(ts, n)
    ensures 1 <= j <= n && ts[j] == x
  {
    var i :| 0 <= i < n && ts[1..n + 1][i] == x;
    j := i + 1;
  }

  /** A timer held once is in one slot. */
  lemma HeldOnce(ts: seq<Ref>, n: nat, i: nat, j: nat)
    requires 1 <= i < j <= n < |ts| && Held(ts, n)[ts[i]] <= 1
    ensures ts[i] != ts[j]
  {
    var s := ts[1..n + 1];
    assert s == s[..i] + s[i..];
    assert s[..i][i - 1] == ts[i] && s[i..][j - i - 1] == ts[j];
  }

  function Appended(ts: seq<Ref>, n: nat, p: Ref): (r: seq<Ref>)
    requires n + 1 < |ts|
    ensures |r| == |ts|
  {
    ts[n + 1 := p]
  }

  function WithoutRoot(ts: seq<Ref>, n: nat): (r: seq<Ref>)
    requires 1 <= n < |ts|
    ensures |r| == |ts|
  {
    ts[1 := ts[n]][n := NULL]
  }

  lemma AppendedHolds(ts: seq<Ref>, n: nat, p: Ref)
    requires n + 1 < |ts|
    ensures Held(Appended(ts, n, p), n + 1) == Held(ts, n) + multiset{p}
  {
    assert Appended(ts, n, p)[1..n + 2] == ts[1..n + 1] + [p];
  }

  lemma WithoutRootHolds(ts: seq<Ref>, n: nat)
    requires 1 <= n < |ts|
    ensures Held(WithoutRoot(ts, n), n - 1) == Held(ts, n) - multiset{ts[1]}
  {
    var s, r := ts[1..n + 1], WithoutRoot(ts, n)[1..n];
    if n == 1 {
      assert s == [ts[1]];
    } else {
      assert s == [ts[1]] + ts[2..n] + [ts[n]];
      assert r == [ts[n]] + ts[2..n];
    }
  }

  /** Timers outside the heap may change. */
  lemma HeapKept(mem: seq<Timer>, mem': seq<Timer>, ts: seq<Ref>, n: nat, up: nat, down: nat)
    requires HeapBut(mem, ts, n, up, down)
    requires forall j: nat :: 1 <= j <= n ==> Key(mem', ts, j) == Key(mem, ts, j)
    ensures HeapBut(mem', ts, n, up, down)
  {
  }

  lemma ListKept(mem: seq<Timer>, mem': seq<Timer>, ts: seq<Ref>, n: nat, p: Ref)
    requires ListOk(mem, ts, n) && p !in Held(ts, n) && |mem'| == |mem|
    requires forall x :: 0 <= x < |mem| && x != p ==> mem'[x] == mem[x]
    ensures ListOk(mem', ts, n)
  {
    hide Held;
    forall j: nat | 1 <= j <= n
      ensures Key(mem', ts, j) == Key(mem, ts, j)
    {
      HeldAt(ts, n, j);
    }
    HeapKept(mem, mem', ts, n, 0, 0);
  }

  /** A list that holds a timer twice is not in order, whatever order it has. */
  lemma TwiceInList(mem: seq<Timer>, r: seq<Ref>, n: nat, held: multiset<Ref>, p: Ref)
    requires n < |r| && p in held && Held(r, n) == held + multiset{p}
    ensures !ListOk(mem, r, n)
  {
    assert Held(r, n)[p] >= 2;
  }

  /** Everything but the timeouts may change. */
  lemma SameTimeouts(mem: seq<Timer>, mem': seq<Timer>, ts: seq<Ref>, n: nat)
    requires ListOk(mem, ts, n) && |mem'| == |mem|
    requires forall x :: 0 <= x < |mem| ==> mem'[x].timeout == mem[x].timeout
    ensures ListOk(mem', ts, n)
  {
    hide Held;
    HeapKept(mem, mem', ts, n, 0, 0);
  }

  lemma AppendedHeap(mem: seq<Timer>, ts: seq<Ref>, n: nat, p: Ref)
    requires ListOk(mem, ts, n) && n + 1 < |ts|
    ensures HeapBut(mem, Appended(ts, n, p), n + 1, n + 1, 0)
  {
  }

  /** The root's timer is taken out, its block having changed in any way. */
  lemma WithoutRootHeap(mem: seq<Timer>, mem': seq<Timer>, ts: seq<Ref>, n: nat)
    requires ListOk(mem, ts, n) && 1 <= n && |mem'| == |mem|
    requires forall x :: 0 <= x < |mem| && x != ts[1] ==> mem'[x] == mem[x]
    ensures HeapBut(mem', WithoutRoot(ts, n), n - 1, 0, 1)
    ensures forall j :: 1 <= j <= n - 1 ==> 0 <= WithoutRoot(ts, n)[j] < |mem|
  {
    hide Held;
    var r := WithoutRoot(ts, n);
    forall j: nat | 2 <= j <= n - 1 && Parent(j) != 1
      ensures Key(mem', r, Parent(j)) <= Key(mem', r, j)
    {
      HeldOnce(ts, n, 1, j);
      HeldOnce(ts, n, 1, Parent(j));
      assert Key(mem, ts, Parent(j)) <= Key(mem, ts, j);
    }
  }

  /** The root's timer changes. */
  lemma RootChangedHeap(mem: seq<Timer>, mem': seq<Timer>, ts: seq<Ref>, n: nat)
    requires ListOk(mem, ts, n) && 1 <= n && |mem'| == |mem|
    requires forall x :: 0 <= x < |mem| && x != ts[1] ==> mem'[x] == mem[x]
    ensures HeapBut(mem', ts, n, 0, 1)
  {
    hide Held;
    forall j: nat | 2 <= j <= n && Parent(j) != 1
      ensures Key(mem', ts, Parent(j)) <= Key(mem', ts, j)
    {
      HeldOnce(ts, n, 1, j);
      HeldOnce(ts, n, 1, Parent(j));
      assert Key(mem, ts, Parent(j)) <= Key(mem, ts, j);
    }
  }

  class TimerList {
    const timers: array<Ref>
    var count: nat

    constructor (capacity: nat)
      requires 1 <= capacity
      ensures timers.Length == capacity && count == 0 && fresh(timers)
      ensures forall j :: 0 <= j < capacity ==> timers[j] == NULL
    {
      timers := new Ref[capacity](_ => NULL);
      count := 0;
    }
  }

  /** Puts timer p into the list, as if it were not there. */
  method Insert(mem: array<Timer>, list: TimerList, p: Ref)
    requires Slots(list.timers[..], list.count, mem.Length) && list.count + 1 < list.timers.Length
    requires 0 <= p < mem.Length
    modifies list, list.timers
    ensures list.count == old(list.count) + 1 && Slots(list.timers[..], list.count, mem.Length)
    ensures Held(list.timers[..], list.count) == old(Held(list.timers[..], list.count)) + multiset{p}
    ensures old(ListOk(mem[..], list.timers[..], list.count) && p !in Held(list.timers[..], list.count)) ==>
      ListOk(mem[..], list.timers[..], list.count)
  {
    hide IsHeap, HeapBut, Held, Once;
    ghost var ts, n, ok := list.timers[..], list.count, ListOk(mem[..], list.timers[..], list.count);
    AppendedHolds(ts, n, p);
    if ok {
      AppendedHeap(mem[..], ts, n, p);
    }
    list.count := list.count + 1;
    list.timers[list.count] := p;
    assert list.timers[..] == Appended(ts, n, p);
    Subir(mem, list.timers, list.count);
    RestIsNull(Appended(ts, n, p), list.timers[..], n + 1);
    RefsInRange(list.timers[..], Appended(ts, n, p), n + 1, mem.Length);
    if ok && p !in Held(ts, n) {
      InsertedOnce(ts, n, p, list.timers[..]);
    }
  }

  lemma InsertedOnce(ts: seq<Ref>, n: nat, p: Ref, r: seq<Ref>)
    requires n + 1 < |ts| && n + 1 < |r| && p !in Held(ts, n) && Once(Held(ts, n))
    requires Held(r, n + 1) == Held(ts, n) + multiset{p}
    ensures Once(Held(r, n + 1))
  {
    hide Held;
  }

  lemma RestIsNull(ts: seq<Ref>, r: seq<Ref>, n: nat)
    requires n < |ts| == |r| && r[n + 1..] == ts[n + 1..] && forall j :: n < j < |ts| ==> ts[j] == NULL
    ensures forall j :: n < j < |r| ==> r[j] == NULL
  {
    forall j | n < j < |r|
      ensures r[j] == NULL
    {
      assert r[n + 1..][j - n - 1] == ts[n + 1..][j - n - 1];
    }
  }

  /** Slots permuted in range stay in range. */
  lemma RefsInRange(r: seq<Ref>, ts: seq<Ref>, n: nat, m: nat)
    requires n < |ts| == |r| && Held(r, n) == Held(ts, n) && forall j :: 1 <= j <= n ==> 0 <= ts[j] < m
    ensures forall j :: 1 <= j <= n ==> 0 <= r[j] < m
  {
    hide Held;
    forall j: nat | 1 <= j <= n
      ensures 0 <= r[j] < m
    {
      HeldAt(r, n, j);
      var i := HeldSlot(ts, n, r[j]);
    }
  }

  /** Takes the timer in slot 1 out of the list: the last one takes its place for now. */
  method RemoveRoot(list: TimerList)
    requires 1 <= list.count < list.timers.Length
    modifies list, list.timers
    ensures list.count == old(list.count) - 1
    ensures list.timers[..] == WithoutRoot(old(list.timers[..]), old(list.count))
  {
    list.timers[1] := list.timers[list.count];
    list.timers[list.count] := NULL;
    list.count := list.count - 1;
  }

  /** The tick at which a timer set for wait ticks expires, in this round of the counter or the next. */
  function Deadline(tick: Tick, wait: U16): (d: U16) {
    if tick + wait >= TICK_COUNT_OVERFLOW then tick + wait - TICK_COUNT_OVERFLOW else tick + wait
  }

  /** The timeout is a value that the tick counter reaches, unless the timer is set for two rounds or more. */
  lemma DeadlineIsReached(tick: Tick, wait: U16)
    ensures Deadline(tick, wait) < TICK_COUNT_OVERFLOW <==> tick + wait < 2 * TICK_COUNT_OVERFLOW
    ensures Deadline(TIMER_MAX_COUNTER, 0xFFFF) == 65534
  {
  }

  /** Ticks from tick until timeout, in this round or the next. */
  function Remaining(timeout: U16, tick: Tick): (r: U16) {
    if timeout >= tick then timeout - tick else (TIMER_MAX_COUNTER - tick + timeout + 1) % 0x1_0000
  }

  /** Some ticks after a timer was set, those and the remaining ones make up the time it was set for. */
  lemma RemainingCountsDown(tick: Tick, wait: U16, elapsed: nat)
    requires elapsed <= wait < TICK_COUNT_OVERFLOW
    ensures Remaining(Deadline(tick, wait), (tick + elapsed) % TICK_COUNT_OVERFLOW) == wait - elapsed
  {
    var now := tick + elapsed;
    assert now % TICK_COUNT_OVERFLOW == if now < TICK_COUNT_OVERFLOW then now else now - TICK_COUNT_OVERFLOW;
  }

  /** Right after a timer was set its remaining time is the one it was set for, unless that was more than a round. */
  lemma RemainingAtOnce(tick: Tick, wait: U16)
    ensures Remaining(Deadline(tick, wait), tick) == wait <==> wait < TICK_COUNT_OVERFLOW
  {
  }

  datatype Status = OK | NULL_EVENT_POINTER | NO_AVAILABLE_EVENT | ERR_EVENT_NO_CREATED

  /** The first block, from the i-th on, that is unused or was given back. */
  function FirstVacant(mem: seq<Timer>, i: nat): (k: nat)
    requires i <= |mem|
    ensures i <= k <= |mem|
    ensures forall j :: i <= j < k ==> mem[j].state != NotAllocated && mem[j].state != NotUsed
    ensures k < |mem| ==> mem[k].state == NotAllocated || mem[k].state == NotUsed
    decreases |mem| - i
  {
    if i == |mem| || mem[i].state == NotAllocated || mem[i].state == NotUsed then i else FirstVacant(mem, i + 1)
  }

  /** A timer block that its callback gave back ends the search for a vacant block, unless an unused block comes
      before it; Set then fails. */
  lemma RetiredEndsSearch(mem: seq<Timer>, p: nat, tick: Tick)
    requires p < |mem|
    ensures var mem' := mem[p := Fired(mem[p], tick, 0)];
      && FirstVacant(mem', 0) <= p && mem'[p].state == NotAllocated
      && (FirstVacant(mem', 0) == p <==>
            forall j :: 0 <= j < p ==> mem[j].state != NotAllocated && mem[j].state != NotUsed)
  {
    var mem' := mem[p := Fired(mem[p], tick, 0)];
    var k := FirstVacant(mem', 0);
    assert mem'[p].state == NotAllocated;
    assert forall j :: 0 <= j < p ==> mem'[j] == mem[j];
  }

  predicate NextRound(tick: Tick, wait: U16) {
    tick + wait >= TICK_COUNT_OVERFLOW
  }

  /** A timer set for less than a round is due when its wait is over, and once in every round; it joins the current
      list exactly if the counter comes to its timeout before it wraps. */
  lemma ExpiresAfterWait(tick: Tick, wait: U16, elapsed: nat)
    requires 0 < wait < 65532
    ensures (tick + elapsed) % 65532 == Deadline(tick, wait) <==> (elapsed - wait) % 65532 == 0
    ensures NextRound(tick, wait) <==> Deadline(tick, wait) <= tick
    ensures NextRound(tick, wait) <==> tick + wait >= 65532
  {
    var d: int, q: int := Deadline(tick, wait), (tick + elapsed) / 65532;
    var late: int := if tick + wait < 65532 then 0 else 1;
    assert tick + elapsed == 65532 * q + (tick + elapsed) % 65532 && tick + wait == d + 65532 * late;
    if (tick + elapsed) % 65532 == d {
      assert elapsed - wait == 65532 * (q - late);
    }
    if (elapsed - wait) % 65532 == 0 {
      Arith.DivModUnique(tick + elapsed, 65532, (elapsed - wait) / 65532 + late, d);
    }
  }

  /** What becomes of a timer block when its callback answers repeat. */
  function Fired(t: Timer, tick: Tick, repeat: U16): Timer {
    if repeat == 0 then Timer(NoCallback, 0, NotAllocated) else t.(timeout := Deadline(tick, repeat))
  }

  class TimerService {
    const mem: array<Timer>
    var current: TimerList
    var future: TimerList

    ghost function InCurrent(): multiset<Ref>
      reads this, current, current.timers
      requires current.count < current.timers.Length
    {
      Held(current.timers[..], current.count)
    }

    ghost function InFuture(): multiset<Ref>
      reads this, future, future.timers
      requires future.count < future.timers.Length
    {
      Held(future.timers[..], future.count)
    }

    /** Two lists with a slot for every timer but one. */
    ghost predicate Shaped()
      reads this, current, future
    {
      && current != future && current.timers != future.timers
      && mem.Length == current.timers.Length == future.timers.Length && 2 <= mem.Length <= 128
      && current.count < mem.Length && future.count < mem.Length
    }

    /** Both lists are heaps and no timer is in both; timers in a list run and have a callback. */
    ghost predicate Valid()
      reads this, mem, current, future, current.timers, future.timers
    {
      && Shaped()
      && ListOk(mem[..], current.timers[..], current.count)
      && ListOk(mem[..], future.timers[..], future.count)
      && Apart(mem[..], InCurrent(), InFuture())
      && current.count + future.count < mem.Length
    }

    constructor (capacity: nat)
      requires 2 <= capacity <= 128
      ensures fresh(mem) && fresh(current) && fresh(future) && fresh(current.timers) && fresh(future.timers)
      ensures Valid() && InCurrent() == multiset{} && InFuture() == multiset{} && mem.Length == capacity
      ensures forall x :: 0 <= x < capacity ==> mem[x].state == NotUsed
    {
      mem := new Timer[capacity](_ => Timer(NoCallback, 0, NotUsed));
      current := new TimerList(capacity);
      future := new TimerList(capacity);
    }

    /** The first timer, whose block has changed, leaves the current list. */
    method TakeFirst(ghost before: seq<Timer>)
      requires 1 <= current.count < current.timers.Length <= 128 && |before| == mem.Length
      requires ListOk(before, current.timers[..], current.count)
      requires forall x :: 0 <= x < mem.Length && x != current.timers[1] ==> mem[x] == before[x]
      modifies current, current.timers
      ensures current.count == old(current.count) - 1
      ensures ListOk(mem[..], current.timers[..], current.count)
      ensures InCurrent() == old(InCurrent()) - multiset{old(current.timers[1])}
    {
      hide IsHeap, HeapBut, Held;
      ghost var ts, n := current.timers[..], current.count;
      WithoutRootHeap(before, mem[..], ts, n);
      WithoutRootHolds(ts, n);
      RemoveRoot(current);
      TopBridged(mem[..], current.timers[..], n - 1, 1);
      Descer(mem, current.timers, 1, current.count);
      RestIsNull(WithoutRoot(ts, n), current.timers[..], n - 1);
      RefsInRange(current.timers[..], WithoutRoot(ts, n), n - 1, mem.Length);
    }

    /** The first timer is rearmed in the current round. */
    method Rearm(p: Ref, timeout: U16)
      requires Valid() && 1 <= current.count && p == current.timers[1]
      modifies mem, current.timers
      ensures Valid() && InCurrent() == old(InCurrent()) && InFuture() == old(InFuture())
      ensures 0 <= p < mem.Length && mem[..] == old(mem[..])[p := old(mem[p]).(timeout := timeout)]
    {
      hide IsHeap, HeapBut, Held;
      ghost var m, ts, n := mem[..], current.timers[..], current.count;
      HeldAt(ts, n, 1);
      mem[p] := mem[p].(timeout := timeout);
      RootChangedHeap(m, mem[..], ts, n);
      ListKept(m, mem[..], future.timers[..], future.count, p);
      TopBridged(mem[..], ts, n, 1);
      Descer(mem, current.timers, 1, current.count);
      RestIsNull(ts, current.timers[..], n);
      RefsInRange(current.timers[..], ts, n, mem.Length);
    }

    /** The first timer is rearmed in the next round. */
    method Postpone(p: Ref, timeout: U16)
      requires Valid() && 1 <= current.count && p == current.timers[1]
      modifies mem, current, future, current.timers, future.timers
      ensures Valid() && InCurrent() == old(InCurrent()) - multiset{p} && InFuture() == old(InFuture()) + multiset{p}
      ensures 0 <= p < mem.Length && mem[..] == old(mem[..])[p := old(mem[p]).(timeout := timeout)]
    {
      hide IsHeap, HeapBut, Held;
      ghost var m, ts, n := mem[..], current.timers[..], current.count;
      HeldAt(ts, n, 1);
      mem[p] := mem[p].(timeout := timeout);
      ListKept(m, mem[..], future.timers[..], future.count, p);
      Insert(mem, future, p);
      TakeFirst(m);
    }

    /** The first timer is not needed any more. */
    method Retire(p: Ref)
      requires Valid() && 1 <= current.count && p == current.timers[1]
      modifies mem, current, current.timers
      ensures Valid() && InCurrent() == old(InCurrent()) - multiset{p} && InFuture() == old(InFuture())
      ensures 0 <= p < mem.Length && mem[..] == old(mem[..])[p := Timer(NoCallback, 0, NotAllocated)]
    {
      hide IsHeap, HeapBut, Held;
      ghost var m, ts, n := mem[..], current.timers[..], current.count;
      HeldAt(ts, n, 1);
      mem[p] := mem[p].(timeout := 0);
      mem[p] := mem[p].(state := NotAllocated);
      mem[p] := mem[p].(func := NoCallback);
      ListKept(m, mem[..], future.timers[..], future.count, p);
      TakeFirst(m);
    }

    /** OSTimerStart and OSTimerSet from the deadline on. The lists stay in order just if the timer was in neither. */
    method Arm(p: Ref, wait: U16, tick: Tick)
      requires Valid() && 0 <= p < mem.Length && current.count + future.count + 1 < mem.Length
      modifies mem, current, future, current.timers, future.timers
      ensures Shaped()
      ensures Valid() <==> p !in old(InCurrent()) && p !in old(InFuture()) && old(mem[p]).func != NoCallback
      ensures mem[..] == old(mem[..])[p := old(mem[p]).(timeout := Deadline(tick, wait), state := Running)]
      ensures InCurrent() == old(InCurrent()) + if NextRound(tick, wait) then multiset{} else multiset{p}
      ensures InFuture() == old(InFuture()) + if NextRound(tick, wait) then multiset{p} else multiset{}
    {
      hide IsHeap, HeapBut, Held, ListOk, Apart, Slots;
      var timeout := tick + wait;
      ghost var m, cur, fut, apart := mem[..], InCurrent(), InFuture(), p !in InCurrent() && p !in InFuture();
      ListSlots(m, current.timers[..], current.count);
      ListSlots(m, future.timers[..], future.count);
      if timeout >= TICK_COUNT_OVERFLOW {
        mem[p] := mem[p].(timeout := timeout - TICK_COUNT_OVERFLOW);
        ListsKept(m, apart, p);
        Insert(mem, future, p);
      } else {
        mem[p] := mem[p].(timeout := timeout);
        ListsKept(m, apart, p);
        Insert(mem, current, p);
      }
      ghost var m1 := mem[..];
      mem[p] := mem[p].(state := Running);
      assert mem[..] == m[p := mem[p]] && cur + multiset{} == cur && fut + multiset{} == fut;
      if apart {
        SameTimeouts(m1, mem[..], current.timers[..], current.count);
        SameTimeouts(m1, mem[..], future.timers[..], future.count);
        ApartArmed(m, cur, fut, p, mem[p], NextRound(tick, wait));
      } else {
        RestartDoubles(cur, fut, p);
      }
    }

    /** What a start on a timer of either list leaves: it is in one of them twice, or in both. */
    lemma RestartDoubles(cur: multiset<Ref>, fut: multiset<Ref>, p: Ref)
      requires Shaped() && (p in cur || p in fut)
      requires (InCurrent() == cur + multiset{p} && InFuture() == fut)
            || (InCurrent() == cur && InFuture() == fut + multiset{p})
      ensures !Valid()
    {
      hide IsHeap, HeapBut, Slots, Held;
      if InFuture() == fut && p in cur {
        TwiceInList(mem[..], current.timers[..], current.count, cur, p);
      } else if InCurrent() == cur && p in fut {
        TwiceInList(mem[..], future.timers[..], future.count, fut, p);
      } else {
        assert p in InCurrent() && p in InFuture();
      }
    }

    /** A block changes; a list that does not hold it stays in order. */
    lemma ListsKept(m: seq<Timer>, apart: bool, p: Ref)
      requires current.count < current.timers.Length && future.count < future.timers.Length
      requires ListOk(m, current.timers[..], current.count) && ListOk(m, future.timers[..], future.count)
      requires mem.Length == |m| && forall x :: 0 <= x < mem.Length && x != p ==> mem[x] == m[x]
      ensures p !in InCurrent() ==> ListOk(mem[..], current.timers[..], current.count)
      ensures p !in InFuture() ==> ListOk(mem[..], future.timers[..], future.count)
    {
      hide IsHeap, HeapBut, Slots, Held;
      if p !in InCurrent() {
        ListKept(m, mem[..], current.timers[..], current.count, p);
      }
      if p !in InFuture() {
        ListKept(m, mem[..], future.timers[..], future.count, p);
      }
    }

    /** OSTimerStart: clipped, and refused without a timer or a wait. A timer must be in neither list and have a
        callback, or the lists are not in order afterwards. */
    method Start(p: Ref, wait: U16, tick: Tick) returns (r: Status)
      requires Valid() && current.count + future.count + 1 < mem.Length && (p == NULL || 0 <= p < mem.Length)
      modifies mem, current, future, current.timers, future.timers
      ensures Shaped()
      ensures (r == NULL_EVENT_POINTER || r == OK) && (r == OK <==> p != NULL && wait != 0)
      ensures Valid() <==>
        r != OK || (p !in old(InCurrent()) && p !in old(InFuture()) && old(mem[p].func) != NoCallback)
      ensures r != OK ==> mem[..] == old(mem[..]) && InCurrent() == old(InCurrent()) && InFuture() == old(InFuture())
      ensures r == OK ==>
        var w := if wait > 65531 then 65531 else wait;
        && mem[..] == old(mem[..])[p := old(mem[p]).(timeout := Deadline(tick, w), state := Running)]
        && InCurrent() == old(InCurrent()) + (if NextRound(tick, w) then multiset{} else multiset{p})
        && InFuture() == old(InFuture()) + (if NextRound(tick, w) then multiset{p} else multiset{})
    {
      hide IsHeap, HeapBut, Held, ListOk, Apart;
      r := NULL_EVENT_POINTER;
      if p != NULL && wait != 0 {
        Arm(p, if wait > TIMER_MAX_COUNTER then TIMER_MAX_COUNTER else wait, tick);
        r := OK;
      }
    }

    /** Creates a timer in the first vacant block and, unless wait is 0, starts it. A block that was given
        back is not used again: it ends the search. */
    method Set(cb: Callback, wait: U16, tick: Tick) returns (r: Status, p: Ref)
      requires Valid()
      requires var k := FirstVacant(mem[..], 0);
        cb != NoCallback && wait > 0 && k < mem.Length && mem[k].state == NotUsed ==>
          current.count + future.count + 1 < mem.Length
      modifies mem, current, future, current.timers, future.timers
      ensures Valid()
      ensures var k := FirstVacant(old(mem[..]), 0);
        r == (if cb == NoCallback then NULL_EVENT_POINTER else if k == mem.Length then NO_AVAILABLE_EVENT
              else if old(mem[..])[k].state == NotAllocated then ERR_EVENT_NO_CREATED else OK)
      ensures r != OK ==> mem[..] == old(mem[..]) && InCurrent() == old(InCurrent()) && InFuture() == old(InFuture())
      ensures r == OK ==> 0 <= p < mem.Length && p == FirstVacant(old(mem[..]), 0)
      ensures r == OK && wait == 0 ==>
        && mem[..] == old(mem[..])[p := old(mem[..])[p].(func := cb, state := Stopped)]
        && InCurrent() == old(InCurrent()) && InFuture() == old(InFuture())
      ensures r == OK && wait > 0 ==>
        && mem[..] == old(mem[..])[p := Timer(cb, Deadline(tick, wait), Running)]
        && InCurrent() == old(InCurrent()) + (if NextRound(tick, wait) then multiset{} else multiset{p})
        && InFuture() == old(InFuture()) + (if NextRound(tick, wait) then multiset{p} else multiset{})
    {
      hide IsHeap, HeapBut, Held, ListOk;
      p := NULL;
      if cb == NoCallback {
        r := NULL_EVENT_POINTER;
        return;
      }
      var i := 0;
      while i < mem.Length && mem[i].state != NotAllocated && mem[i].state != NotUsed
        invariant 0 <= i <= mem.Length && FirstVacant(mem[..], 0) == FirstVacant(mem[..], i)
      {
        i := i + 1;
      }
      if i >= mem.Length {
        r := NO_AVAILABLE_EVENT;
        return;
      }
      if mem[i].state == NotAllocated {
        r := ERR_EVENT_NO_CREATED;
        return;
      }
      p := i;
      ghost var m := mem[..];
      mem[p] := mem[p].(state := Stopped);
      mem[p] := mem[p].(func := cb);
      SameTimeouts(m, mem[..], current.timers[..], current.count);
      SameTimeouts(m, mem[..], future.timers[..], future.count);
      if wait > 0 {
        Arm(p, wait, tick);
      }
      r := OK;
    }

    /** The remaining time of a running timer. */
    method Get(p: Ref, tick: Tick) returns (r: U16)
      requires p == NULL || 0 <= p < mem.Length
      ensures r == if p != NULL && mem[p].state == Running then Remaining(mem[p].timeout, tick) else 0
    {
      r := 0;
      if p != NULL && mem[p].state == Running {
        if mem[p].timeout >= tick {
          r := mem[p].timeout - tick;
        } else {
          r := (TIMER_MAX_COUNTER - tick + mem[p].timeout + 1) % 0x1_0000;
        }
      }
    }

    /** The first timer has been called and asks to be called again after repeat ticks, or not if that is 0. */
    method Expire(p: Ref, tick: Tick, repeat: U16)
      requires Valid() && 1 <= current.count && p == current.timers[1]
      modifies mem, current, future, current.timers, future.timers
      ensures Valid() && 0 <= p < mem.Length && mem[..] == old(mem[..])[p := Fired(old(mem[p]), tick, repeat)]
      ensures var stays := repeat > 0 && !NextRound(tick, repeat);
        InCurrent() == if stays then old(InCurrent()) else old(InCurrent()) - multiset{p}
      ensures var later := repeat > 0 && NextRound(tick, repeat);
        InFuture() == if later then old(InFuture()) + multiset{p} else old(InFuture())
    {
      hide IsHeap, HeapBut, Held, ListOk, Apart;
      if repeat > 0 {
        var timeout := tick + repeat;
        if timeout >= TICK_COUNT_OVERFLOW {
          Postpone(p, timeout - TICK_COUNT_OVERFLOW);
        } else {
          Rearm(p, timeout);
        }
      } else {
        Retire(p);
      }
    }

    /** Calls every timer of the current round that has expired; the i-th call is answered with the number of
        ticks after which the timer is to expire again, or 0. */
    method Drain(tick: Tick, answers: nat -> U16) returns (calls: seq<Ref>)
      requires Valid()
      modifies mem, current, future, current.timers, future.timers
      ensures Valid()
      ensures Ordered(old(mem[..]), calls, old(InCurrent()), tick)
      ensures Outcome(old(mem[..]), mem[..], calls, tick, answers)
      ensures Moved(old(InCurrent()), InCurrent(), old(InFuture()), InFuture(), calls, tick, answers)
      ensures forall x :: x in InCurrent() ==> 0 <= x < mem.Length && tick < mem[x].timeout
    {
      hide IsHeap, HeapBut, Held, ListOk, Ordered, Outcome, Moved, Later;
      calls := [];
      ghost var m0, cur0, fut0 := mem[..], InCurrent(), InFuture();
      NothingCalled(m0, cur0, fut0, tick, answers);
      FirstSlot(m0, current.timers[..], current.count);
      var p := current.timers[1];
      while p != NULL && mem[p].timeout <= tick
        invariant Valid() && p == current.timers[1] && p < mem.Length && (p == NULL || 0 <= p)
        invariant Ordered(m0, calls, cur0, tick) && Later(m0, mem[..], calls, InCurrent(), tick)
        invariant Outcome(m0, mem[..], calls, tick, answers)
        invariant Moved(cur0, InCurrent(), fut0, InFuture(), calls, tick, answers)
        decreases Due(mem[..], InCurrent(), tick)
      {
        var repeat := answers(|calls|);
        ghost var m, cur, fut := mem[..], InCurrent(), InFuture();
        FirstIsDue(m, current.timers[..], current.count, tick);
        Expire(p, tick, repeat);
        CalledOne(m0, m, mem[..], calls, p, cur0, cur, InCurrent(), fut0, fut, InFuture(), tick, answers);
        calls := calls + [p];
        p := current.timers[1];
        assert p < mem.Length && (p == NULL || 0 <= p) by { FirstSlot(mem[..], current.timers[..], current.count); }
      }
      NoneDue(mem[..], current.timers[..], current.count, tick);
    }
  }

  // ---------- a drain, seen from outside ----------

  /** Each call is of a timer of the current round that was due, none is called twice, and they come in order
      of their timeouts. */
  ghost predicate Ordered(mem: seq<Timer>, calls: seq<Ref>, cur: multiset<Ref>, tick: Tick) {
    && (forall i :: 0 <= i < |calls| ==> calls[i] in cur && 0 <= calls[i] < |mem| && mem[calls[i]].timeout <= tick)
    && (forall i, j :: 0 <= i < j < |calls| ==> calls[i] != calls[j] && mem[calls[i]].timeout <= mem[calls[j]].timeout)
  }

  /** The blocks of the called timers changed as their callbacks asked, and no others. */
  ghost predicate Outcome(mem: seq<Timer>, mem': seq<Timer>, calls: seq<Ref>, tick: Tick, answers: nat -> U16) {
    && |mem'| == |mem|
    && (forall i :: 0 <= i < |calls| ==>
          0 <= calls[i] < |mem| && mem'[calls[i]] == Fired(mem[calls[i]], tick, answers(i)))
    && (forall x :: 0 <= x < |mem| && x !in calls ==> mem'[x] == mem[x])
  }

  /** Called timers stay, go to the next round, or leave both lists; the others stay where they are. */
  ghost predicate Moved(cur: multiset<Ref>, cur': multiset<Ref>, fut: multiset<Ref>, fut': multiset<Ref>,
                        calls: seq<Ref>, tick: Tick, answers: nat -> U16) {
    && (forall i :: 0 <= i < |calls| ==>
          (calls[i] in cur' <==> answers(i) > 0 && !NextRound(tick, answers(i)))
          && (calls[i] in fut' <==> answers(i) > 0 && NextRound(tick, answers(i))))
    && (forall x :: x !in calls ==> cur'[x] == cur[x] && fut'[x] == fut[x])
  }

  /** The called timers were not due after those still to be called, and will not be due again. */
  ghost predicate Later(mem: seq<Timer>, mem': seq<Timer>, calls: seq<Ref>, cur: multiset<Ref>, tick: Tick) {
    && |mem'| == |mem|
    && (forall x :: x in cur ==> 0 <= x < |mem|)
    && (forall x :: x in calls ==> 0 <= x < |mem|)
    && (forall x :: x in calls && x in cur ==> tick < mem'[x].timeout)
    && (forall x, y :: x in calls && y in cur && y !in calls ==> mem[x].timeout <= mem'[y].timeout)
  }

  ghost function Due(mem: seq<Timer>, cur: multiset<Ref>, tick: Tick): set<Ref> {
    set x | x in cur && 0 <= x < |mem| && mem[x].timeout <= tick
  }

  /** Slot 1 holds the timer that expires first. */
  ghost predicate First(mem: seq<Timer>, cur: multiset<Ref>, p: Ref) {
    && p in cur && cur[p] == 1 && 0 <= p < |mem|
    && (forall x :: x in cur ==> 0 <= x < |mem| && mem[p].timeout <= mem[x].timeout)
  }

  lemma FirstSlot(mem: seq<Timer>, ts: seq<Ref>, n: nat)
    requires ListOk(mem, ts, n) && 2 <= |ts|
    ensures ts[1] < |mem| && (ts[1] == NULL <==> n == 0) && (n > 0 ==> 0 <= ts[1])
  {
  }

  lemma FirstIsDue(mem: seq<Timer>, ts: seq<Ref>, n: nat, tick: Tick)
    requires ListOk(mem, ts, n) && 2 <= |ts| && ts[1] != NULL
    ensures 1 <= n && First(mem, Held(ts, n), ts[1])
  {
    hide Held, HeapBut;
    FirstSlot(mem, ts, n);
    HeldAt(ts, n, 1);
    forall x | x in Held(ts, n)
      ensures 0 <= x < |mem| && mem[ts[1]].timeout <= mem[x].timeout
    {
      var j := HeldSlot(ts, n, x);
      RootFirst(mem, ts, n, j);
    }
  }

  lemma NoneDue(mem: seq<Timer>, ts: seq<Ref>, n: nat, tick: Tick)
    requires ListOk(mem, ts, n) && 2 <= |ts| && (ts[1] == NULL || (0 <= ts[1] < |mem| && tick < mem[ts[1]].timeout))
    ensures forall x :: x in Held(ts, n) ==> 0 <= x < |mem| && tick < mem[x].timeout
  {
    FirstSlot(mem, ts, n);
    if ts[1] != NULL {
      FirstIsDue(mem, ts, n, tick);
    }
  }

  lemma NothingCalled(mem: seq<Timer>, cur: multiset<Ref>, fut: multiset<Ref>, tick: Tick, answers: nat -> U16)
    requires forall x :: x in cur ==> 0 <= x < |mem|
    ensures Ordered(mem, [], cur, tick) && Outcome(mem, mem, [], tick, answers) && Later(mem, mem, [], cur, tick)
    ensures Moved(cur, cur, fut, fut, [], tick, answers)
  {
  }

  lemma OrderedOne(m0: seq<Timer>, m: seq<Timer>, calls: seq<Ref>, cur0: multiset<Ref>, cur: multiset<Ref>, p: Ref,
                   tick: Tick)
    requires Ordered(m0, calls, cur0, tick) && Later(m0, m, calls, cur, tick) && p in cur && p in cur0 && p !in calls
    requires 0 <= p < |m0| && m[p] == m0[p] && m[p].timeout <= tick
    ensures Ordered(m0, calls + [p], cur0, tick)
  {
    forall i | 0 <= i < |calls|
      ensures m0[calls[i]].timeout <= m0[p].timeout
    {
      assert calls[i] in calls;
    }
  }

  lemma OutcomeOne(m0: seq<Timer>, m: seq<Timer>, calls: seq<Ref>, p: Ref, tick: Tick, answers: nat -> U16)
    requires Outcome(m0, m, calls, tick, answers) && 0 <= p < |m0| && p !in calls
    ensures m[p] == m0[p]
    ensures Outcome(m0, m[p := Fired(m[p], tick, answers(|calls|))], calls + [p], tick, answers)
  {
    hide Fired;
    assert forall i :: 0 <= i < |calls| ==> calls[i] in calls;
  }

  lemma MovedOne(cur0: multiset<Ref>, cur: multiset<Ref>, fut0: multiset<Ref>, fut: multiset<Ref>, calls: seq<Ref>,
                 p: Ref, tick: Tick, answers: nat -> U16)
    requires Moved(cur0, cur, fut0, fut, calls, tick, answers) && cur[p] == 1 && p !in fut && p !in calls
    ensures var repeat := answers(|calls|);
      Moved(cur0, if repeat > 0 && !NextRound(tick, repeat) then cur else cur - multiset{p},
            fut0, if repeat > 0 && NextRound(tick, repeat) then fut + multiset{p} else fut, calls + [p], tick, answers)
  {
    hide NextRound;
    assert forall i :: 0 <= i < |calls| ==> calls[i] in calls;
  }

  lemma LaterOne(m0: seq<Timer>, m: seq<Timer>, m': seq<Timer>, calls: seq<Ref>, cur: multiset<Ref>,
                 cur': multiset<Ref>,
                 p: Ref, tick: Tick)
    requires Later(m0, m, calls, cur, tick) && First(m, cur, p) && p !in calls && m[p] == m0[p] && |m'| == |m|
    requires forall x :: 0 <= x < |m| && x != p ==> m'[x] == m[x]
    requires forall x :: x in cur' ==> x in cur
    requires p in cur' ==> tick < m'[p].timeout
    ensures Later(m0, m', calls + [p], cur', tick)
  {
  }

  lemma DueOne(m: seq<Timer>, m': seq<Timer>, cur: multiset<Ref>, cur': multiset<Ref>, p: Ref, tick: Tick)
    requires p in cur && 0 <= p < |m| == |m'| && m[p].timeout <= tick
    requires forall x :: 0 <= x < |m| && x != p ==> m'[x] == m[x]
    requires forall x :: x in cur' ==> x in cur
    requires p in cur' ==> tick < m'[p].timeout
    ensures Due(m', cur', tick) < Due(m, cur, tick)
  {
    assert p in Due(m, cur, tick) && p !in Due(m', cur', tick);
  }

  /** One more call. */
  lemma CalledOne(m0: seq<Timer>, m: seq<Timer>, m': seq<Timer>, calls: seq<Ref>, p: Ref, cur0: multiset<Ref>,
                  cur: multiset<Ref>, cur': multiset<Ref>, fut0: multiset<Ref>, fut: multiset<Ref>, fut': multiset<Ref>,
                  tick: Tick, answers: nat -> U16)
    requires Ordered(m0, calls, cur0, tick) && Later(m0, m, calls, cur, tick) && Outcome(m0, m, calls, tick, answers)
    requires Moved(cur0, cur, fut0, fut, calls, tick, answers)
    requires First(m, cur, p) && m[p].timeout <= tick && p !in fut
    requires var repeat := answers(|calls|);
      && m' == m[p := Fired(m[p], tick, repeat)]
      && cur' == (if repeat > 0 && !NextRound(tick, repeat) then cur else cur - multiset{p})
      && fut' == (if repeat > 0 && NextRound(tick, repeat) then fut + multiset{p} else fut)
    ensures Ordered(m0, calls + [p], cur0, tick) && Later(m0, m', calls + [p], cur', tick)
    ensures Outcome(m0, m', calls + [p], tick, answers)
    ensures Moved(cur0, cur', fut0, fut', calls + [p], tick, answers)
    ensures Due(m', cur', tick) < Due(m, cur, tick)
  {
    hide Due;
    assert p !in calls;
    assert p in cur0 && |m'| == |m| == |m0|;
    hide Ordered, Later, Outcome, Moved, First;
    OutcomeOne(m0, m, calls, p, tick, answers);
    OrderedOne(m0, m, calls, cur0, cur, p, tick);
    MovedOne(cur0, cur, fut0, fut, calls, p, tick, answers);
    LaterOne(m0, m, m', calls, cur, cur', p, tick);
    DueOne(m, m', cur, cur', p, tick);
  }

  ghost predicate Apart(mem: seq<Timer>, cur: multiset<Ref>, fut: multiset<Ref>) {
    && cur !! fut
    && (forall x :: x in cur || x in fut ==> 0 <= x < |mem| && mem[x].func != NoCallback && mem[x].state == Running)
  }

  lemma HeldSize(ts: seq<Ref>, n: nat)
    requires n < |ts|
    ensures |Held(ts, n)| == n
  {
  }

  lemma ApartArmed(mem: seq<Timer>, cur: multiset<Ref>, fut: multiset<Ref>, p: Ref, t: Timer, later: bool)
    requires Apart(mem, cur, fut) && 0 <= p < |mem| && p !in cur
    requires p !in fut && t.state == Running
    ensures var now, next := if later then multiset{} else multiset{p}, if later then multiset{p} else multiset{};
      Apart(mem[p := t], cur + now, fut + next) <==> t.func != NoCallback
  {
    if later {
      assert p in fut + multiset{p};
    } else {
      assert p in cur + multiset{p};
    }
  }

  lemma CalledOrLeft(mem: seq<Timer>, mem': seq<Timer>, cur: multiset<Ref>, cur': multiset<Ref>, fut: multiset<Ref>,
                     fut': multiset<Ref>, calls: seq<Ref>, tick: Tick, answers: nat -> U16, p: Ref)
    requires Outcome(mem, mem', calls, tick, answers) && Moved(cur, cur', fut, fut', calls, tick, answers)
    requires p in cur && 0 <= p < |mem|
    ensures |mem'| == |mem| && (p in calls || (p in cur' && mem'[p] == mem[p]))
  {
  }

  /** The calls, in words: of due timers, none twice, in the order of their timeouts. */
  lemma CallsInOrder(mem: seq<Timer>, calls: seq<Ref>, cur: multiset<Ref>, tick: Tick, i: nat, j: nat)
    requires Ordered(mem, calls, cur, tick) && i < j < |calls|
    ensures calls[i] in cur && calls[j] in cur && calls[i] != calls[j]
    ensures 0 <= calls[i] < |mem| && 0 <= calls[j] < |mem|
    ensures mem[calls[i]].timeout <= mem[calls[j]].timeout <= tick
  {
  }

  /** A timer whose callback asked for more is set again, from the tick of the drain on, in the list of its round. */
  lemma CalledAgain(mem: seq<Timer>, mem': seq<Timer>, cur: multiset<Ref>, cur': multiset<Ref>, fut: multiset<Ref>,
                    fut': multiset<Ref>, calls: seq<Ref>, tick: Tick, answers: nat -> U16, i: nat)
    requires Outcome(mem, mem', calls, tick, answers) && Moved(cur, cur', fut, fut', calls, tick, answers)
    requires i < |calls| && 0 < answers(i) && tick + answers(i) < 2 * 65532
    ensures var p := calls[i];
      && 0 <= p < |mem| == |mem'|
      && mem'[p] == Timer(mem[p].func, (tick + answers(i)) % 65532, mem[p].state)
      && (p in cur' <==> tick + answers(i) < 65532) && (p in fut' <==> tick + answers(i) >= 65532)
  {
  }

  /** A drain calls a timer that is due; when it answers 0 its block is given back. */
  lemma DueIsRetired(mem: seq<Timer>, mem': seq<Timer>, cur: multiset<Ref>, cur': multiset<Ref>, fut: multiset<Ref>,
                     fut': multiset<Ref>, calls: seq<Ref>, tick: Tick, answers: nat -> U16, p: Ref)
    requires Outcome(mem, mem', calls, tick, answers) && Moved(cur, cur', fut, fut', calls, tick, answers)
    requires forall x :: x in cur' ==> 0 <= x < |mem'| && tick < mem'[x].timeout
    requires p in cur && 0 <= p < |mem| && mem[p].timeout <= tick && forall i :: answers(i) == 0
    ensures |mem'| == |mem| && mem'[p] == Timer(NoCallback, 0, NotAllocated)
  {
    CalledOrLeft(mem, mem', cur, cur', fut, fut', calls, tick, answers, p);
    var i :| 0 <= i < |calls| && calls[i] == p;
  }

  /** Two timer blocks, the first used once and given back: no timer can be set any more. */
  method SetAfterRetired() returns (r: Status)
    ensures r == ERR_EVENT_NO_CREATED
  {
    hide ListOk, Held, Apart, Ordered, Outcome, Moved, IsHeap, HeapBut;
    var service := new TimerService(2);
    HeldSize(service.current.timers[..], service.current.count);
    HeldSize(service.future.timers[..], service.future.count);
    var first, p := service.Set(Callback(1), 1, 0);
    assert p == 0;
    ghost var mem, cur, fut := service.mem[..], service.InCurrent(), service.InFuture();
    var calls := service.Drain(1, _ => 0);
    DueIsRetired(mem, service.mem[..], cur, service.InCurrent(), fut, service.InFuture(), calls, 1, _ => 0, p);
    assert service.mem[..][0].state == NotAllocated;
    var q;
    r, q := service.Set(Callback(2), 0, 1);
  }
}
