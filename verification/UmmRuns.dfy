/** Whole runs of an application over the block allocator: it allocates, releases and stores. */
module UmmRuns {
  import opened UmmHeap

  /** Allocations are named by the number of the operation that made them. */
  datatype Op = Alloc(size: nat) | Release(k: nat) | Put(k: nat, x: nat, v: Block)

  datatype Option<T> = None | Some(value: T)

  /** Operation k is an allocation that was not released later. */
  predicate Kept(ops: seq<Op>, k: nat) {
    k < |ops| && ops[k].Alloc? && forall j :: k < j < |ops| ==> ops[j] != Release(k)
  }

  /** What was last put into block x of the allocation that operation k made. */
  function Latest(ops: seq<Op>, k: nat, x: nat): Option<Block> {
    if |ops| <= k + 1 then None
    else
      var op := ops[|ops| - 1];
      if op.Put? && op.k == k && op.x == x then Some(op.v) else Latest(ops[..|ops| - 1], k, x)
  }

  /** The block at which an allocation starts. */
  function Start(p: Pointer): nat {
    if p.Address? && p.offset >= 4 then (p.offset - 4) / 8 else 0
  }

  predicate Held(ops: seq<Op>, ps: seq<Pointer>, k: nat) {
    Kept(ops, k) && k < |ps| && ps[k].Address?
  }

  /** The allocation that operation k made is there, with all its blocks and all that was put into them. */
  ghost predicate Backed(h: Heap, live: map<nat, nat>, ops: seq<Op>, p: Pointer, k: nat)
    requires k < |ops| && ops[k].Alloc?
  {
    var c := Start(p);
    && p == Data(c) && c in live && live[c] == BlockCount(ops[k].size)
    && (forall x: nat :: x < live[c] && Latest(ops, k, x).Some? ==>
          UserBlock(h, c, x) == Cut(x, Latest(ops, k, x).value))
  }

  ghost predicate AllBacked(h: Heap, live: map<nat, nat>, ops: seq<Op>, ps: seq<Pointer>) {
    forall k: nat :: Held(ops, ps, k) ==> Backed(h, live, ops, ps[k], k)
  }

  ghost predicate AllApart(ops: seq<Op>, ps: seq<Pointer>) {
    forall k: nat, l: nat :: Held(ops, ps, k) && Held(ops, ps, l) && k < l ==> ps[k] != ps[l]
  }

  ghost predicate NothingElse(live: map<nat, nat>, ops: seq<Op>, ps: seq<Pointer>) {
    forall c :: c in live ==> exists k: nat :: Held(ops, ps, k) && ps[k] == Data(c)
  }

  /** The heap holds just the allocations of a run that were not released, each in a place of its own. */
  ghost predicate Refines(h: Heap, live: map<nat, nat>, ops: seq<Op>, ps: seq<Pointer>) {
    |ps| == |ops| && AllBacked(h, live, ops, ps) && AllApart(ops, ps) && NothingElse(live, ops, ps)
  }

  lemma OneMoreOp(ops: seq<Op>, op: Op, k: nat)
    requires k < |ops|
    ensures Kept(ops + [op], k) <==> Kept(ops, k) && op != Release(k)
    ensures forall x: nat ::
      Latest(ops + [op], k, x) == if op.Put? && op.k == k && op.x == x then Some(op.v) else Latest(ops, k, x)
  {
    assert (ops + [op])[..|ops|] == ops;
    if Kept(ops, k) && op != Release(k) {
      assert forall j :: k < j < |ops + [op]| ==> (ops + [op])[j] == if j < |ops| then ops[j] else op;
    }
    if Kept(ops + [op], k) {
      assert forall j :: k < j < |ops| ==> ops[j] == (ops + [op])[j];
      assert (ops + [op])[|ops|] == op;
    }
  }

  lemma NewOp(ops: seq<Op>, op: Op)
    ensures Kept(ops + [op], |ops|) <==> op.Alloc?
    ensures forall x: nat :: Latest(ops + [op], |ops|, x) == None
  {
  }

  lemma SameUserData(h: Heap, r: Heap, c: nat, n: nat)
    requires SameData(h, r, c, n)
    ensures forall x: nat :: x < n ==> UserBlock(r, c, x) == UserBlock(h, c, x)
  {
  }

  /** An allocation that is still there after one more operation, which did not touch it. */
  lemma StillBacked(h: Heap, r: Heap, live: map<nat, nat>, live': map<nat, nat>, ops: seq<Op>, op: Op, p: Pointer,
                    k: nat)
    requires k < |ops| && ops[k].Alloc? && Backed(h, live, ops, p, k)
    requires Start(p) in live' && live'[Start(p)] == live[Start(p)]
    requires forall x: nat :: x < live[Start(p)] && !(op.Put? && op.k == k && op.x == x) ==>
      UserBlock(r, Start(p), x) == UserBlock(h, Start(p), x)
    requires op.Put? && op.k == k && op.x < live[Start(p)] ==> UserBlock(r, Start(p), op.x) == Cut(op.x, op.v)
    ensures Backed(r, live', ops + [op], p, k)
  {
    hide UserBlock, Cut, Latest, Start;
    OneMoreOp(ops, op, k);
  }

  lemma HeldBefore(ops: seq<Op>, ps: seq<Pointer>, op: Op, p: Pointer, k: nat)
    requires |ps| == |ops|
    ensures Held(ops + [op], ps + [p], k) <==>
      if k < |ops| then Held(ops, ps, k) && op != Release(k) else k == |ops| && op.Alloc? && p.Address?
  {
    if k < |ops| {
      OneMoreOp(ops, op, k);
    } else if k == |ops| {
      NewOp(ops, op);
    }
  }

  lemma HeldIsAlloc(ops: seq<Op>, ps: seq<Pointer>, k: nat)
    ensures Held(ops, ps, k) ==> k < |ops| && k < |ps| && ops[k].Alloc? && ps[k].Address?
  {
  }

  lemma HeldAfter(ops: seq<Op>, ps: seq<Pointer>, op: Op, p: Pointer)
    requires |ps| == |ops|
    ensures forall k: nat {:trigger Held(ops + [op], ps + [p], k)} :: Held(ops + [op], ps + [p], k) ==>
      if k < |ops| then Held(ops, ps, k) && op != Release(k) && ps[k].Address?
      else k == |ops| && op.Alloc? && p.Address?
    ensures forall k: nat {:trigger Held(ops, ps, k)} :: Held(ops, ps, k) && op != Release(k) ==>
      k < |ops| && Held(ops + [op], ps + [p], k)
    ensures op.Alloc? && p.Address? ==> Held(ops + [op], ps + [p], |ops|)
  {
    forall k: nat
      ensures Held(ops + [op], ps + [p], k) <==>
        if k < |ops| then Held(ops, ps, k) && op != Release(k) else k == |ops| && op.Alloc? && p.Address?
    {
      HeldBefore(ops, ps, op, p, k);
    }
  }

  lemma ApartAfter(ops: seq<Op>, ps: seq<Pointer>, op: Op, p: Pointer, live: map<nat, nat>, h: Heap)
    requires |ps| == |ops| && AllApart(ops, ps) && AllBacked(h, live, ops, ps)
    requires op.Alloc? && p.Address? ==> forall c :: c in live ==> p != Data(c)
    ensures AllApart(ops + [op], ps + [p])
  {
    HeldAfter(ops, ps, op, p);
    hide Held, Latest, UserBlock, Start, Cut, Data;
    forall k: nat, l: nat | Held(ops + [op], ps + [p], k) && Held(ops + [op], ps + [p], l) && k < l
      ensures k < |ops| + 1 && l < |ops| + 1 && (ps + [p])[k] != (ps + [p])[l]
    {
      HeldIsAlloc(ops, ps, k);
      HeldIsAlloc(ops, ps, l);
    }
  }

  lemma NothingElseAfter(ops: seq<Op>, ps: seq<Pointer>, op: Op, p: Pointer, live: map<nat, nat>, live': map<nat, nat>)
    requires |ps| == |ops| && NothingElse(live, ops, ps)
    requires forall d :: d in live' ==>
      (op.Alloc? && p == Data(d)) || (d in live && !(op.Release? && Held(ops, ps, op.k) && ps[op.k] == Data(d)))
    ensures NothingElse(live', ops + [op], ps + [p])
  {
    HeldAfter(ops, ps, op, p);
    hide Kept, Data;
    forall d | d in live'
      ensures exists k: nat :: Held(ops + [op], ps + [p], k) && (ps + [p])[k] == Data(d)
    {
      if op.Alloc? && p == Data(d) {
        DataIsAddress(d);
        assert Held(ops + [op], ps + [p], |ops|) && (ps + [p])[|ops|] == Data(d);
      } else {
        var k: nat :| Held(ops, ps, k) && ps[k] == Data(d);
        assert Held(ops + [op], ps + [p], k) && (ps + [p])[k] == Data(d);
      }
    }
  }

  lemma DataIsAddress(c: nat)
    ensures Data(c).Address? && Start(Data(c)) == c
  {
  }

  /** One more allocation, or none because there is no room. */
  lemma AfterAlloc(h: Heap, r: Heap, live: map<nat, nat>, live': map<nat, nat>, ops: seq<Op>, ps: seq<Pointer>,
                   size: nat, p: Pointer, c: nat)
    requires Refines(h, live, ops, ps) && AllData(h, r, live)
    requires if p.Null? then live' == live else p == Data(c) && c !in live && live' == live[c := BlockCount(size)]
    ensures Refines(r, live', ops + [Alloc(size)], ps + [p])
  {
    hide AllBacked, AllApart, NothingElse, AllData, Held;
    BackedAfterAlloc(h, r, live, live', ops, ps, size, p, c);
    ApartAfter(ops, ps, Alloc(size), p, live, h);
    NothingElseAfter(ops, ps, Alloc(size), p, live, live');
  }

  lemma BackedAfterAlloc(h: Heap, r: Heap, live: map<nat, nat>, live': map<nat, nat>, ops: seq<Op>, ps: seq<Pointer>,
                         size: nat, p: Pointer, c: nat)
    requires |ps| == |ops| && AllBacked(h, live, ops, ps) && AllData(h, r, live)
    requires if p.Null? then live' == live else p == Data(c) && c !in live && live' == live[c := BlockCount(size)]
    ensures AllBacked(r, live', ops + [Alloc(size)], ps + [p])
  {
    HeldAfter(ops, ps, Alloc(size), p);
    NewOp(ops, Alloc(size));
    DataIsAddress(c);
    hide Kept, Held, Latest, UserBlock, SameData, BlockCount, Start, Data, Cut;
    forall k: nat | Held(ops + [Alloc(size)], ps + [p], k)
      ensures k < |ops| + 1 && (ops + [Alloc(size)])[k].Alloc?
      ensures Backed(r, live', ops + [Alloc(size)], (ps + [p])[k], k)
    {
      HeldIsAlloc(ops, ps, k);
      if k < |ops| {
        SameUserData(h, r, Start(ps[k]), live[Start(ps[k])]);
        StillBacked(h, r, live, live', ops, Alloc(size), ps[k], k);
      }
    }
  }

  /** The released allocation is gone, the others have their data. */
  lemma AfterRelease(h: Heap, r: Heap, live: map<nat, nat>, live': map<nat, nat>, ops: seq<Op>, ps: seq<Pointer>,
                     k: nat)
    requires Refines(h, live, ops, ps) && AllData(h, r, live')
    requires live' == if Held(ops, ps, k) then live - {Start(ps[k])} else live
    ensures Refines(r, live', ops + [Release(k)], ps + [Null])
  {
    OthersStay(h, live, live', ops, ps, k);
    BackedAfterRelease(h, r, live, live', ops, ps, k);
    ApartAfter(ops, ps, Release(k), Null, live, h);
    hide AllBacked, AllApart, NothingElse, Held, AllData;
    if Held(ops, ps, k) {
      ReleasedStart(h, live, ops, ps, k);
    }
    NothingElseAfter(ops, ps, Release(k), Null, live, live');
  }

  lemma ReleasedStart(h: Heap, live: map<nat, nat>, ops: seq<Op>, ps: seq<Pointer>, k: nat)
    requires AllBacked(h, live, ops, ps) && Held(ops, ps, k)
    ensures ps[k] == Data(Start(ps[k])) && Start(ps[k]) in live
    ensures forall d :: Data(d) == ps[k] ==> d == Start(ps[k])
  {
  }

  lemma OthersStay(h: Heap, live: map<nat, nat>, live': map<nat, nat>, ops: seq<Op>, ps: seq<Pointer>, k: nat)
    requires AllBacked(h, live, ops, ps) && AllApart(ops, ps)
    requires live' == if Held(ops, ps, k) then live - {Start(ps[k])} else live
    ensures forall l: nat :: Held(ops, ps, l) && l != k ==>
      Start(ps[l]) in live' && Start(ps[l]) in live && live'[Start(ps[l])] == live[Start(ps[l])]
  {
    hide Kept, UserBlock, Latest, Cut;
    forall l: nat | Held(ops, ps, l) && l != k
      ensures Start(ps[l]) in live' && Start(ps[l]) in live && live'[Start(ps[l])] == live[Start(ps[l])]
    {
      ReleasedStart(h, live, ops, ps, l);
      if Held(ops, ps, k) {
        ReleasedStart(h, live, ops, ps, k);
        assert ps[k] != ps[l];
      }
    }
  }

  lemma BackedAfterRelease(h: Heap, r: Heap, live: map<nat, nat>, live': map<nat, nat>, ops: seq<Op>,
                           ps: seq<Pointer>, k: nat)
    requires |ps| == |ops| && AllBacked(h, live, ops, ps) && AllData(h, r, live')
    requires forall l: nat :: Held(ops, ps, l) && l != k ==>
      Start(ps[l]) in live' && Start(ps[l]) in live && live'[Start(ps[l])] == live[Start(ps[l])]
    ensures AllBacked(r, live', ops + [Release(k)], ps + [Null])
  {
    HeldAfter(ops, ps, Release(k), Null);
    hide Kept, Held, Latest, UserBlock, SameData, Start, Data, Cut;
    forall l: nat | Held(ops + [Release(k)], ps + [Null], l)
      ensures l < |ops| + 1 && (ops + [Release(k)])[l].Alloc?
      ensures Backed(r, live', ops + [Release(k)], (ps + [Null])[l], l)
    {
      HeldIsAlloc(ops, ps, l);
      SameUserData(h, r, Start(ps[l]), live'[Start(ps[l])]);
      StillBacked(h, r, live, live', ops, Release(k), ps[l], l);
    }
  }

  /** What was put into one block of one allocation is there, all other user data is as before. */
  lemma AfterPut(h: Heap, r: Heap, live: map<nat, nat>, ops: seq<Op>, ps: seq<Pointer>, k: nat, x: nat, v: Block)
    requires Refines(h, live, ops, ps)
    requires if Held(ops, ps, k) && Start(ps[k]) in live && x < live[Start(ps[k])]
             then PutAt(h, r, live, Start(ps[k]), x, v) else r == h
    ensures Refines(r, live, ops + [Put(k, x, v)], ps + [Null])
  {
    hide Held, UserBlock, Latest, Cut, PutAt, Data;
    BackedAfterPut(h, r, live, ops, ps, k, x, v);
    ApartAfter(ops, ps, Put(k, x, v), Null, live, h);
    NothingElseAfter(ops, ps, Put(k, x, v), Null, live, live);
  }

  ghost predicate PutAt(h: Heap, r: Heap, live: map<nat, nat>, c: nat, x: nat, v: Block) {
    && UserBlock(r, c, x) == Cut(x, v)
    && (forall d, y: nat :: d in live && y < live[d] && (d != c || y != x) ==> UserBlock(r, d, y) == UserBlock(h, d, y))
  }

  lemma BackedAfterPut(h: Heap, r: Heap, live: map<nat, nat>, ops: seq<Op>, ps: seq<Pointer>, k: nat, x: nat, v: Block)
    requires |ps| == |ops| && AllBacked(h, live, ops, ps) && AllApart(ops, ps)
    requires if Held(ops, ps, k) && Start(ps[k]) in live && x < live[Start(ps[k])]
             then PutAt(h, r, live, Start(ps[k]), x, v) else r == h
    ensures AllBacked(r, live, ops + [Put(k, x, v)], ps + [Null])
  {
    HeldAfter(ops, ps, Put(k, x, v), Null);
    hide Kept, Held, Latest, UserBlock, Start, Data, Cut;
    forall l: nat | Held(ops + [Put(k, x, v)], ps + [Null], l)
      ensures l < |ops| + 1 && (ops + [Put(k, x, v)])[l].Alloc?
      ensures Backed(r, live, ops + [Put(k, x, v)], (ps + [Null])[l], l)
    {
      HeldIsAlloc(ops, ps, l);
      HeldIsAlloc(ops, ps, k);
      if Held(ops, ps, k) && k != l {
        assert ps[l] == Data(Start(ps[l])) && ps[k] == Data(Start(ps[k])) && ps[k] != ps[l];
      }
      StillBacked(h, r, live, live, ops, Put(k, x, v), ps[l], l);
    }
  }

  method RunAlloc(a: Allocator, size: nat, ghost ops: seq<Op>, ghost ps: seq<Pointer>) returns (p: Pointer)
    requires a.Valid() && Refines(a.heap[..], a.Live(), ops, ps)
    modifies a, a.heap
    ensures p.Null? || 0 < BlockCount(size) ==>
      a.Valid() && Refines(a.heap[..], a.Live(), ops + [Alloc(size)], ps + [p])
    ensures p.Address? && BlockCount(size) == 0 ==> Broken(a.heap[..])
  {
    hide Refines, WellFormed, AllData, NoFit, Place, LiveMap, Broken;
    ghost var h, live := a.heap[..], a.Live();
    ghost var c := Place(h, a.free, BlockCount(size));
    p := a.Malloc(size);
    if p.Null? || 0 < BlockCount(size) {
      AfterAlloc(h, a.heap[..], live, a.Live(), ops, ps, size, p, c);
    }
  }

  method RunRelease(a: Allocator, k: nat, kept: bool, p: Pointer, ghost ops: seq<Op>, ghost ps: seq<Pointer>)
    requires a.Valid() && Refines(a.heap[..], a.Live(), ops, ps)
    requires (kept <==> k < |ps| && Kept(ops, k)) && (kept ==> p == ps[k])
    modifies a, a.heap
    ensures a.Valid() && Refines(a.heap[..], a.Live(), ops + [Release(k)], ps + [Null])
  {
    hide Refines, WellFormed, AllData, LiveMap, Kept;
    ghost var h, live := a.heap[..], a.Live();
    if kept {
      HeldPointer(h, live, ops, ps, k);
      a.Free(p);
    } else {
      NothingMoves(h, a.starts, a.tail, a.free);
    }
    AfterRelease(h, a.heap[..], live, a.Live(), ops, ps, k);
  }

  lemma HeldPointer(h: Heap, live: map<nat, nat>, ops: seq<Op>, ps: seq<Pointer>, k: nat)
    requires Refines(h, live, ops, ps)
    ensures Held(ops, ps, k) ==>
      ps[k] == Data(Start(ps[k])) && Start(ps[k]) in live && live[Start(ps[k])] == BlockCount(ops[k].size)
    ensures Kept(ops, k) ==> k < |ps|
  {
  }

  method RunPut(a: Allocator, k: nat, x: nat, v: Block, kept: bool, p: Pointer, n: nat, ghost ops: seq<Op>,
                ghost ps: seq<Pointer>)
    requires a.Valid() && Refines(a.heap[..], a.Live(), ops, ps)
    requires (kept <==> k < |ps| && Kept(ops, k)) && (kept ==> p == ps[k] && n == BlockCount(ops[k].size))
    modifies a, a.heap
    ensures a.Valid() && Refines(a.heap[..], a.Live(), ops + [Put(k, x, v)], ps + [Null])
  {
    hide Refines, WellFormed, LiveMap, Kept, UserBlock, Cut;
    ghost var h, live := a.heap[..], a.Live();
    HeldPointer(h, live, ops, ps, k);
    if kept && p.Address? && x < n {
      a.Store((p.offset - 4) / 8, x, v);
    }
    AfterPut(h, a.heap[..], live, ops, ps, k, x, v);
  }

  /** Runs the operations, up to the first allocation that breaks the heap; those on an allocation that was never
      made or is gone do nothing. */
  method Run(a: Allocator, ops: seq<Op>) returns (ps: seq<Pointer>)
    requires a.Valid() && a.Live() == map[]
    modifies a, a.heap
    ensures |ps| <= |ops|
    ensures |ps| == |ops| ==> a.Valid() && Refines(a.heap[..], a.Live(), ops, ps)
    ensures |ps| < |ops| ==> ops[|ps|].Alloc? && BlockCount(ops[|ps|].size) == 0 && Broken(a.heap[..])
  {
    hide Refines, Allocator.Valid, Allocator.Live, BlockCount, Broken;
    ps := [];
    var gone: set<nat> := {};
    NothingYet(a.heap[..]);
    var i := 0;
    assert ops[..0] == [];
    while i < |ops|
      invariant 0 <= i <= |ops| && a.Valid() && Refines(a.heap[..], a.Live(), ops[..i], ps)
      invariant |ps| == i && forall k :: k in gone ==> k < i
      invariant forall k: nat :: k < i ==> (Kept(ops[..i], k) <==> ops[k].Alloc? && k !in gone)
    {
      ghost var done := ops[..i];
      assert ops[..i + 1] == done + [ops[i]];
      KeptNext(done, ops[i]);
      hide Kept;
      var p := Null;
      match ops[i] {
        case Alloc(size) =>
          p := RunAlloc(a, size, done, ps);
          if p.Address? && BlockCount(size) == 0 {
            return;
          }
        case Release(k) =>
          var kept := k < i && ops[k].Alloc? && k !in gone;
          RunRelease(a, k, kept, if kept then ps[k] else Null, done, ps);
          if k < i {
            gone := gone + {k};
          }
        case Put(k, x, v) =>
          var kept := k < i && ops[k].Alloc? && k !in gone;
          RunPut(a, k, x, v, kept, if kept then ps[k] else Null, if kept then BlockCount(ops[k].size) else 0, done, ps);
      }
      ps := ps + [p];
      i := i + 1;
    }
    assert ops[..i] == ops;
  }

  lemma KeptNext(ops: seq<Op>, op: Op)
    ensures forall k: nat ::
      Kept(ops + [op], k) <==> if k < |ops| then Kept(ops, k) && op != Release(k) else k == |ops| && op.Alloc?
  {
    forall k: nat
      ensures Kept(ops + [op], k) <==> if k < |ops| then Kept(ops, k) && op != Release(k) else k == |ops| && op.Alloc?
    {
      if k < |ops| {
        OneMoreOp(ops, op, k);
      } else if k == |ops| {
        NewOp(ops, op);
      }
    }
  }

  lemma NothingYet(h: Heap)
    ensures Refines(h, map[], [], [])
  {
  }

  lemma HeldApart(h: Heap, live: map<nat, nat>, ops: seq<Op>, ps: seq<Pointer>, k: nat, l: nat)
    requires Refines(h, live, ops, ps) && Held(ops, ps, k) && Held(ops, ps, l) && k != l
    ensures ps[k] != ps[l]
  {
    hide AllBacked, NothingElse, Held;
    HeldIsAlloc(ops, ps, k);
    HeldIsAlloc(ops, ps, l);
    assert if k < l then ps[k] != ps[l] else ps[l] != ps[k];
  }

  /** What was put last into a block of an allocation that is kept is there, link words aside. */
  lemma KeptData(a: Allocator, ops: seq<Op>, ps: seq<Pointer>, k: nat, x: nat)
    requires a.Valid() && Refines(a.heap[..], a.Live(), ops, ps) && Held(ops, ps, k) && x < BlockCount(ops[k].size)
    requires Latest(ops, k, x).Some?
    ensures var i, v := ps[k].offset / 8 + x, Latest(ops, k, x).value;
      && i < a.heap.Length && a.heap[i].nfree == v.nfree && a.heap[i].pfree == v.pfree
      && (0 < x ==> a.heap[i].next == v.next && a.heap[i].prev == v.prev)
  {
    HeldIsAlloc(ops, ps, k);
    hide Held, Refines, BlockCount, Allocator.Valid, Allocator.Live, Latest, UserBlock, Cut, Start;
    HeldData(a.heap[..], a.Live(), ops, ps, k, x);
    KeptBlocks(a, ops, ps, k);
    CutFields(a.heap[..], Start(ps[k]), x, Latest(ops, k, x).value);
  }

  lemma CutFields(h: Heap, c: nat, x: nat, v: Block)
    requires c + x < |h| && UserBlock(h, c, x) == Cut(x, v)
    ensures h[c + x].nfree == v.nfree && h[c + x].pfree == v.pfree
    ensures 0 < x ==> h[c + x].next == v.next && h[c + x].prev == v.prev
  {
  }

  lemma KeptBlocks(a: Allocator, ops: seq<Op>, ps: seq<Pointer>, k: nat)
    requires a.Valid() && Refines(a.heap[..], a.Live(), ops, ps) && Held(ops, ps, k)
    ensures ps[k].offset == 8 * Start(ps[k]) + 4 && Start(ps[k]) + BlockCount(ops[k].size) <= a.heap.Length
  {
    HeldIsAlloc(ops, ps, k);
    hide Held, Refines, BlockCount, Allocator.Valid, Allocator.Live;
    HeldPointer(a.heap[..], a.Live(), ops, ps, k);
    AreasOfLive(a, Start(ps[k]));
    hide Areas, LiveMap;
    LiveInside(a.heap[..], a.starts, a.tail, Start(ps[k]));
  }

  lemma HeldData(h: Heap, live: map<nat, nat>, ops: seq<Op>, ps: seq<Pointer>, k: nat, x: nat)
    requires Refines(h, live, ops, ps) && Held(ops, ps, k) && x < BlockCount(ops[k].size) && Latest(ops, k, x).Some?
    ensures UserBlock(h, Start(ps[k]), x) == Cut(x, Latest(ops, k, x).value)
  {
    hide UserBlock, Cut;
    HeldPointer(h, live, ops, ps, k);
  }

  /** The bytes that a run got for an allocation lie inside the heap and are no link words. */
  lemma KeptInside(a: Allocator, ops: seq<Op>, ps: seq<Pointer>, k: nat)
    requires a.Valid() && Refines(a.heap[..], a.Live(), ops, ps) && Held(ops, ps, k) && 0 < ops[k].size <= 524276
    ensures var p, end := ps[k].offset, ps[k].offset + ops[k].size;
      && end <= 8 * a.heap.Length
      && (forall b :: b in a.starts ==> end <= 8 * b || 8 * b + 4 <= p)
      && (ops[k].size <= 4 ==> p % 8 == 4)
  {
    HeldIsAlloc(ops, ps, k);
    hide Held, Refines, BlockCount, Allocator.Valid, Allocator.Live;
    HeldPointer(a.heap[..], a.Live(), ops, ps, k);
    AreasOfLive(a, Start(ps[k]));
    hide Areas, LiveMap;
    LiveInside(a.heap[..], a.starts, a.tail, Start(ps[k]));
    CountHolds(ops[k].size);
    BytesInside(a.starts, Start(ps[k]), BlockCount(ops[k].size), ops[k].size, a.heap.Length);
  }

  lemma AreasOfLive(a: Allocator, c: nat)
    requires a.Valid() && c in a.Live()
    ensures Areas(a.heap[..], a.starts, a.tail) && a.Live() == LiveMap(a.heap[..], a.starts, a.tail)
  {
    hide Areas;
  }

  lemma BytesInside(bs: set<nat>, c: nat, n: nat, size: nat, len: nat)
    requires c + n <= len && size + 4 <= 8 * n && forall b :: b in bs ==> b <= c || c + n <= b
    ensures 8 * c + 4 + size <= 8 * len
    ensures forall b :: b in bs ==> 8 * c + 4 + size <= 8 * b || 8 * b + 4 <= 8 * c + 4
  {
  }

  lemma LiveInside(h: Heap, bs: set<nat>, tail: nat, c: nat)
    requires Areas(h, bs, tail) && c in LiveMap(h, bs, tail)
    ensures var n := LiveMap(h, bs, tail)[c];
      0 < c && c + n <= tail < |h| && forall b :: b in bs ==> b <= c || c + n <= b
  {
  }

  /** Allocations kept by a run share no block and no byte. */
  lemma KeptApart(a: Allocator, ops: seq<Op>, ps: seq<Pointer>, k: nat, l: nat)
    requires a.Valid() && Refines(a.heap[..], a.Live(), ops, ps) && Held(ops, ps, k) && Held(ops, ps, l) && k != l
    ensures var c, n, d, m := Start(ps[k]), BlockCount(ops[k].size), Start(ps[l]), BlockCount(ops[l].size);
      && (c + n <= d || d + m <= c) && 0 < c && c + n < a.heap.Length
      && (0 < ops[k].size <= MAX_REQUEST ==> ops[k].size <= 8 * n - 4)
    ensures var p, q := ps[k].offset, ps[l].offset;
      0 < ops[k].size <= 524276 && 0 < ops[l].size <= 524276 ==> p + ops[k].size <= q || q + ops[l].size <= p
  {
    hide Areas, FreeList, Members, Kept, Refines;
    HeldPointer(a.heap[..], a.Live(), ops, ps, k);
    HeldPointer(a.heap[..], a.Live(), ops, ps, l);
    HeldApart(a.heap[..], a.Live(), ops, ps, k, l);
    LiveAreasDisjoint(a.heap[..], a.starts, a.tail, Start(ps[k]), Start(ps[l]));
  }
}
