/** Cluster chains: what the table means, and the operations that stretch and free a chain. */
module FatChain {
  import opened FatTable
  import opened FatVolume

  /** ch is a chain of the table: it runs through distinct clusters and ends in an end mark. */
  ghost predicate IsChain(fat: seq<nat>, ch: seq<nat>) {
    && |ch| > 0
    && (forall i :: 0 <= i < |ch| ==> 2 <= ch[i] < |fat|)
    && (forall i, j :: 0 <= i < j < |ch| ==> ch[i] != ch[j])
    && (forall i :: 0 <= i < |ch| - 1 ==> fat[ch[i]] == ch[i + 1])
    && fat[ch[|ch| - 1]] >= |fat|
  }

  ghost predicate Disjoint(a: seq<nat>, b: seq<nat>) {
    forall c :: c in a ==> c !in b
  }

  ghost predicate OnSome(chains: set<seq<nat>>, c: nat) {
    exists ch :: ch in chains && c in ch
  }

  /** The table is a set of disjoint acyclic chains; every cluster in use is on one of them. */
  ghost predicate WellFormed(fat: seq<nat>, chains: set<seq<nat>>) {
    && (forall ch :: ch in chains ==> IsChain(fat, ch))
    && (forall a, b :: a in chains && b in chains && a != b ==> Disjoint(a, b))
    && (forall c :: 2 <= c < |fat| && fat[c] != 0 ==> OnSome(chains, c))
  }

  /** The end mark create_chain writes, as an entry of the given width holds it. */
  function EndMark(ty: FsType): nat {
    EntryRange(ty) - 1
  }

  /** The table with cluster c taken as a new last cluster: of the chain that ends in tail, or of its own. */
  function Linked(fat: seq<nat>, tail: nat, c: nat, mark: nat): (r: seq<nat>)
    requires c < |fat| && tail < |fat|
    ensures |r| == |fat|
  {
    if tail == 0 then fat[c := mark] else fat[c := mark][tail := c]
  }

  /** The table with every cluster of cs set free. */
  function Freed(fat: seq<nat>, cs: seq<nat>): (r: seq<nat>)
    ensures |r| == |fat|
  {
    seq(|fat|, c requires 0 <= c < |fat| => if c in cs then 0 else fat[c])
  }

  /** Number of free clusters from lo on. */
  function CountFree(fat: seq<nat>, lo: nat): (k: nat)
    requires lo <= |fat|
    ensures k <= |fat| - lo
    decreases |fat| - lo
  {
    if lo == |fat| then 0 else (if fat[lo] == 0 then 1 else 0) + CountFree(fat, lo + 1)
  }

  lemma {:induction false} CountFreeUpdate(fat: seq<nat>, lo: nat, c: nat, v: nat)
    requires lo <= |fat| && c < |fat|
    ensures CountFree(fat[c := v], lo) == CountFree(fat, lo)
        + (if lo <= c && v == 0 && fat[c] != 0 then 1 else 0)
        - (if lo <= c && v != 0 && fat[c] == 0 then 1 else 0)
    decreases |fat| - lo
  {
    if lo < |fat| {
      CountFreeUpdate(fat, lo + 1, c, v);
    }
  }

  lemma {:induction false} SomeUsedBoundsFree(fat: seq<nat>, lo: nat, c: nat)
    requires lo <= c < |fat| && fat[c] != 0
    ensures CountFree(fat, lo) < |fat| - lo
    decreases |fat| - lo
  {
    if lo < c {
      SomeUsedBoundsFree(fat, lo + 1, c);
    }
  }

  lemma ChainInUse(fat: seq<nat>, ch: seq<nat>)
    requires IsChain(fat, ch)
    ensures forall c :: c in ch ==> 2 <= c < |fat| && fat[c] != 0
  {
    forall i | 0 <= i < |ch|
      ensures fat[ch[i]] != 0
    {
      assert i < |ch| - 1 ==> fat[ch[i]] == ch[i + 1];
    }
  }

  function Tail(ch: seq<nat>): nat {
    if ch == [] then 0 else ch[|ch| - 1]
  }

  /** Taking free cluster c for a chain, or for a new one ([]), makes it the last cluster of that chain. */
  lemma LinkedExtends(fat: seq<nat>, ch: seq<nat>, c: nat, mark: nat)
    requires ch == [] || IsChain(fat, ch)
    requires 2 <= c < |fat| && fat[c] == 0 && mark >= |fat|
    ensures Tail(ch) < |fat| && IsChain(Linked(fat, Tail(ch), c, mark), ch + [c])
  {
    if ch != [] {
      ChainInUse(fat, ch);
      assert c !in ch;
      var r := Linked(fat, Tail(ch), c, mark);
      forall i | 0 <= i < |ch|
        ensures r[ch[i]] == (ch + [c])[i + 1]
      {
      }
    }
  }

  /** ... and every other chain is kept. */
  lemma LinkedKeepsOther(fat: seq<nat>, a: seq<nat>, ch: seq<nat>, c: nat, mark: nat)
    requires IsChain(fat, a) && Disjoint(ch, a)
    requires ch == [] || IsChain(fat, ch)
    requires 2 <= c < |fat| && fat[c] == 0
    ensures Tail(ch) < |fat| && IsChain(Linked(fat, Tail(ch), c, mark), a) && Disjoint(ch + [c], a)
  {
    ChainInUse(fat, a);
    OtherChainKept(fat, Linked(fat, Tail(ch), c, mark), a, ch + [c]);
  }

  /** create_chain on a well-formed table keeps it well formed: the chain it stretched, or the new one,
      is longer by one previously free cluster and no other chain changes. */
  lemma LinkedKeepsWellFormed(fat: seq<nat>, chains: set<seq<nat>>, ch: seq<nat>, c: nat, mark: nat)
    requires WellFormed(fat, chains)
    requires ch == [] || ch in chains
    requires 2 <= c < |fat| && fat[c] == 0 && mark >= |fat|
    ensures Tail(ch) < |fat| && WellFormed(Linked(fat, Tail(ch), c, mark), chains - {ch} + {ch + [c]})
  {
    var others, grown := chains - {ch}, ch + [c];
    LinkedExtends(fat, ch, c, mark);
    var r := Linked(fat, Tail(ch), c, mark);
    forall a | a in others
      ensures IsChain(r, a) && Disjoint(grown, a)
    {
      LinkedKeepsOther(fat, a, ch, c, mark);
    }
    forall d | 2 <= d < |r| && r[d] != 0 && d !in grown
      ensures OnSome(others, d)
    {
      assert fat[d] != 0;
      var a :| a in chains && d in a;
      assert a in others;
    }
    Assembled(r, others, grown);
  }

  lemma Assembled(fat: seq<nat>, others: set<seq<nat>>, ch: seq<nat>)
    requires forall a :: a in others ==> IsChain(fat, a) && Disjoint(ch, a)
    requires forall a, b :: a in others && b in others && a != b ==> Disjoint(a, b)
    requires IsChain(fat, ch)
    requires forall d :: 2 <= d < |fat| && fat[d] != 0 && d !in ch ==> OnSome(others, d)
    ensures WellFormed(fat, others + {ch})
  {
    var chains := others + {ch};
    forall d | 2 <= d < |fat| && fat[d] != 0
      ensures OnSome(chains, d)
    {
      if d in ch {
        assert ch in chains;
      } else {
        var a :| a in others && d in a;
        assert a in chains;
      }
    }
    forall a, b | a in chains && b in chains && a != b
      ensures Disjoint(a, b)
    {
      if b == ch {
        assert Disjoint(ch, a);
      }
    }
  }

  /** remove_chain on any table at all: cyclic and cross-linked ones included, every pass zeroes an entry. */
  function Removed(fat: seq<nat>, clst: nat): (r: (seq<nat>, FResult))
    requires 2 <= clst < |fat|
    ensures |r.0| == |fat|
    decreases |fat| - CountFree(fat, 0)
  {
    var nxt := fat[clst];
    if nxt == 0 then
      (fat, Ok)
    else if nxt == 1 then
      (fat, IntErr)
    else
      CountFreeUpdate(fat, 0, clst, 0);
      var freed := fat[clst := 0];
      if nxt < |fat| then Removed(freed, nxt) else (freed, Ok)
  }

  /** What is left of a chain when its first cluster is set free. */
  lemma RestIsChain(fat: seq<nat>, ch: seq<nat>)
    requires IsChain(fat, ch) && |ch| > 1
    ensures 2 <= ch[0] < |fat| && fat[ch[0]] == ch[1] && 2 <= ch[1] < |fat| && IsChain(fat[ch[0] := 0], ch[1..])
  {
    assert forall i :: 0 <= i < |ch| - 1 ==> ch[1..][i] == ch[i + 1];
  }

  lemma LoneCluster(fat: seq<nat>, ch: seq<nat>)
    requires IsChain(fat, ch) && |ch| == 1
    ensures 2 <= ch[0] < |fat| && Removed(fat, ch[0]) == (fat[ch[0] := 0], Ok) && Freed(fat, ch) == fat[ch[0] := 0]
  {
  }

  lemma FreedFirst(fat: seq<nat>, ch: seq<nat>)
    requires ch != [] && ch[0] < |fat|
    ensures Freed(fat[ch[0] := 0], ch[1..]) == Freed(fat, ch)
  {
    assert ch == [ch[0]] + ch[1..];
  }

  /** On a chain, removal frees exactly the clusters from the given one on. */
  lemma {:induction false} RemovedFreesChain(fat: seq<nat>, ch: seq<nat>)
    requires IsChain(fat, ch)
    ensures Removed(fat, ch[0]) == (Freed(fat, ch), Ok)
    decreases |ch|
  {
    if |ch| == 1 {
      LoneCluster(fat, ch);
    } else {
      RestIsChain(fat, ch);
      hide IsChain, Freed;
      RemovedFreesChain(fat[ch[0] := 0], ch[1..]);
      FreedFirst(fat, ch);
    }
  }

  /** The table as remove_chain has it after marking the cluster before the k-th as the end. */
  function CutBefore(fat: seq<nat>, ch: seq<nat>, k: nat, mark: nat): (r: seq<nat>)
    requires k < |ch| && (k > 0 ==> ch[k - 1] < |fat|)
    ensures |r| == |fat|
  {
    if k == 0 then fat else fat[ch[k - 1] := mark]
  }

  /** Removing a chain from its k-th cluster on frees exactly the clusters from there on. */
  lemma RemovedFreesSuffix(fat: seq<nat>, ch: seq<nat>, k: nat, mark: nat)
    requires IsChain(fat, ch) && k < |ch|
    ensures Removed(CutBefore(fat, ch, k, mark), ch[k]) == (Freed(CutBefore(fat, ch, k, mark), ch[k..]), Ok)
  {
    var s := ch[k..];
    assert forall i :: 0 <= i < |s| ==> s[i] == ch[k + i];
    RemovedFreesChain(CutBefore(fat, ch, k, mark), s);
  }

  /** ... and keeps the table well formed: the chain is cut there and no other chain changes. */
  lemma RemovedKeepsWellFormed(fat: seq<nat>, chains: set<seq<nat>>, ch: seq<nat>, k: nat, mark: nat)
    requires WellFormed(fat, chains) && ch in chains && k < |ch| && mark >= |fat|
    ensures WellFormed(Freed(CutBefore(fat, ch, k, mark), ch[k..]),
                       if k == 0 then chains - {ch} else chains - {ch} + {ch[..k]})
  {
    var r, others, kept := Freed(CutBefore(fat, ch, k, mark), ch[k..]), chains - {ch}, ch[..k];
    forall a | a in others
      ensures IsChain(r, a) && Disjoint(kept, a)
    {
      OtherChainSurvives(fat, ch, k, mark, a);
    }
    forall d | 2 <= d < |r| && r[d] != 0 && d !in kept
      ensures OnSome(others, d)
    {
      StillInUse(fat, chains, ch, k, mark, d);
    }
    if k > 0 {
      CutChain(fat, ch, k, mark);
      Assembled(r, others, kept);
    }
  }

  lemma OtherChainSurvives(fat: seq<nat>, ch: seq<nat>, k: nat, mark: nat, a: seq<nat>)
    requires IsChain(fat, ch) && IsChain(fat, a) && Disjoint(ch, a) && k < |ch|
    ensures IsChain(Freed(CutBefore(fat, ch, k, mark), ch[k..]), a) && Disjoint(ch[..k], a)
  {
    var r := Freed(CutBefore(fat, ch, k, mark), ch[k..]);
    forall c | 0 <= c < |fat| && c !in ch
      ensures r[c] == fat[c]
    {
      OutsideKept(fat, ch, k, mark, c);
    }
    OtherChainKept(fat, r, a, ch);
  }

  lemma OutsideKept(fat: seq<nat>, ch: seq<nat>, k: nat, mark: nat, c: nat)
    requires IsChain(fat, ch) && k < |ch| && c < |fat| && c !in ch
    ensures Freed(CutBefore(fat, ch, k, mark), ch[k..])[c] == fat[c]
  {
    assert c !in ch[k..];
    assert k > 0 ==> ch[k - 1] in ch;
  }

  lemma StillInUse(fat: seq<nat>, chains: set<seq<nat>>, ch: seq<nat>, k: nat, mark: nat, d: nat)
    requires WellFormed(fat, chains) && ch in chains && k < |ch| && 2 <= d < |fat|
    requires d !in ch[..k]
    requires Freed(CutBefore(fat, ch, k, mark), ch[k..])[d] != 0
    ensures OnSome(chains - {ch}, d)
  {
    hide IsChain, CutBefore;
    forall i | 0 <= i < |ch|
      ensures ch[i] != d
    {
      if i < k {
        assert ch[..k][i] == ch[i];
      } else {
        assert ch[k..][i - k] == ch[i];
      }
    }
    OutsideKept(fat, ch, k, mark, d);
    var a :| a in chains && d in a;
    assert a in chains - {ch};
  }

  lemma CutChain(fat: seq<nat>, ch: seq<nat>, k: nat, mark: nat)
    requires IsChain(fat, ch) && 0 < k < |ch| && mark >= |fat|
    ensures IsChain(Freed(CutBefore(fat, ch, k, mark), ch[k..]), ch[..k])
  {
  }

  /** A chain keeps its links as long as only clusters of another, disjoint chain change. */
  lemma OtherChainKept(fat: seq<nat>, r: seq<nat>, a: seq<nat>, ch: seq<nat>)
    requires IsChain(fat, a) && |r| == |fat| && Disjoint(ch, a)
    requires forall c :: 0 <= c < |fat| && c !in ch ==> r[c] == fat[c]
    ensures IsChain(r, a)
  {
    forall i | 0 <= i < |a|
      ensures r[a[i]] == fat[a[i]]
    {
      assert a[i] in a;
    }
  }

  /** Cluster the scan starts after. */
  function ScanStart(fat: seq<nat>, last: nat, clst: nat): nat {
    if clst != 0 then clst else if last == 0 || last >= |fat| then 1 else last
  }

  /** Going round from scl, cluster c comes before cluster e, or is scl itself after a full round. */
  predicate Before(scl: nat, c: nat, e: nat) {
    if e > scl then scl < c < e else c > scl || c < e
  }

  /** clst is where a chain can grow: nowhere yet, or a last cluster. */
  predicate Stretches(fat: seq<nat>, clst: nat) {
    clst == 0 || (2 <= clst < |fat| && fat[clst] >= |fat|)
  }

  ghost predicate NoneFree(fat: seq<nat>) {
    forall c :: 2 <= c < |fat| ==> fat[c] != 0
  }

  /** Everything scanned before e was in use and no error mark. */
  ghost predicate AllUsedBefore(fat: seq<nat>, scl: nat, e: nat) {
    forall c :: 2 <= c < |fat| && Before(scl, c, e) ==> fat[c] >= 2
  }

  /** What create_chain answers where a chain can grow, and the table it leaves: 0 only with no cluster
      free, 1 only at an error mark, otherwise the first free cluster going round from the start. */
  ghost predicate Taken(fat: seq<nat>, after: seq<nat>, scl: nat, clst: nat, r: nat, mark: nat)
    requires Stretches(fat, clst) && |fat| > 0
  {
    if r == 0 then
      after == fat && NoneFree(fat)
    else if r == 1 then
      after == fat && exists e :: 2 <= e < |fat| && fat[e] == 1 && AllUsedBefore(fat, scl, e)
    else
      && 2 <= r < |fat| && fat[r] == 0 && AllUsedBefore(fat, scl, r)
      && after == Linked(fat, clst, r, mark)
  }

  /** The count of free clusters after one more is taken, as the code keeps it: a 32-bit counter. */
  function CountAfterTake(count: nat, n: nat): nat {
    if count < n - 2 then (if count == 0 then 0xFFFF_FFFF else count - 1) else count
  }

  /** The cluster taken is the first free one behind the cluster to stretch; for a new chain, behind the cluster
      taken last, or the first of all where that is none. Distances are counted going round the n - 2 clusters. */
  lemma TakenIsFirst(fat: seq<nat>, after: seq<nat>, last: nat, clst: nat, r: nat, mark: nat, c: nat)
    requires Stretches(fat, clst) && 2 < |fat| && 2 <= r
    requires Taken(fat, after, ScanStart(fat, last, clst), clst, r, mark)
    requires 2 <= c < |fat| && fat[c] == 0
    ensures var s, n := if clst != 0 then clst else if 0 < last < |fat| then last else 1, |fat| - 2;
      (r - s - 1) % n <= (c - s - 1) % n
  {
    var s := ScanStart(fat, last, clst);
    RoundFrom(s, |fat|, r);
    RoundFrom(s, |fat|, c);
  }

  lemma RoundFrom(s: nat, n: nat, c: nat)
    requires 1 <= s < n && 2 <= c < n && 2 < n
    ensures (c - s - 1) % (n - 2) == if c > s then c - s - 1 else c - s - 1 + n - 2
  {
  }

  /** The marks in numbers. */
  lemma MarkNumbers()
    ensures EndMark(Fat12) == 0xFFF && EndMark(Fat16) == 0xFFFF && EndMark(Fat32) == 0x0FFF_FFFF
  {
  }

  /** A count that is not known, as 0xFFFFFFFF says, stays unknown. */
  lemma UnknownCountStays(n: nat)
    requires n <= 0x0FFF_FFF7
    ensures CountAfterTake(0xFFFF_FFFF, n) == 0xFFFF_FFFF
  {
  }

  /** The table of a volume. */
  ghost function Table(fs: Volume): (f: seq<nat>)
    requires fs.Valid()
    reads fs`disk, fs`wflag, fs`winsect, fs.win
    ensures |f| == fs.geo.nFatent
    ensures forall c :: 0 <= c < |f| ==> f[c] < EntryRange(fs.geo.ty)
  {
    Fat(fs.geo, fs.Vol())
  }

  /** Cluster numbers fit an entry below the end mark, at every width. */
  lemma EntriesHoldClusters(g: Geometry, c: nat)
    requires g.Sound() && c < g.nFatent
    ensures c % EntryRange(g.ty) == c
    ensures DISK_ERROR % EntryRange(g.ty) == EndMark(g.ty) >= g.nFatent
  {
  }

  /** The cluster the scan looks at after ncl. */
  function Next(n: nat, ncl: nat): nat {
    if ncl + 1 >= n then 2 else ncl + 1
  }

  lemma ScanMoves(fat: seq<nat>, scl: nat, ncl: nat)
    requires 1 <= scl < |fat| && 1 <= ncl < |fat| && AllUsedBefore(fat, scl, ncl + 1)
    requires ncl < scl ==> ncl + 1 <= scl
    ensures var e := Next(|fat|, ncl);
            if e == 2 && e > scl && ncl + 1 >= |fat| then NoneFree(fat) else AllUsedBefore(fat, scl, e)
  {
  }

  lemma ScanPasses(fat: seq<nat>, scl: nat, e: nat)
    requires 1 <= scl < |fat| && 2 <= e < |fat| && AllUsedBefore(fat, scl, e) && fat[e] >= 2
    ensures if e == scl then NoneFree(fat) else AllUsedBefore(fat, scl, e + 1)
  {
  }

  /** How create_chain answers a failure. */
  function ErrorNumber(res: FResult): nat {
    if res == DiskErr then DISK_ERROR else INT_ERROR
  }

  /** create_chain */
  method CreateChain(fs: Volume, clst: nat) returns (r: nat)
    requires fs.Valid()
    modifies fs`disk, fs`wflag, fs`winsect, fs`lastClst, fs`freeClst, fs`fsiDirty, fs.win
    ensures fs.Valid()
    ensures SameOutsideFat(fs.geo, old(fs.Vol()), fs.Vol())
    ensures fs.geo.Moved(old(fs.winsect), fs.winsect)
    ensures fs.reliable && old(fs.MirrorsAgree()) ==> fs.MirrorsAgree()
    ensures fs.reliable ==> r != DISK_ERROR
    ensures !Stretches(old(Table(fs)), clst) ==> Table(fs) == old(Table(fs))
    ensures !Stretches(old(Table(fs)), clst) && r != DISK_ERROR ==>
        r == if clst < 2 || clst >= fs.geo.nFatent || Table(fs)[clst] < 2 then 1 else Table(fs)[clst]
    ensures Stretches(old(Table(fs)), clst) && r != DISK_ERROR ==>
        Taken(old(Table(fs)), Table(fs), ScanStart(old(Table(fs)), old(fs.lastClst), clst), clst, r, EndMark(fs.geo.ty))
    ensures forall c :: 0 <= c < fs.geo.nFatent && c != clst && old(Table(fs))[c] != 0 ==>
        Table(fs)[c] == old(Table(fs))[c]
    ensures 2 <= r < fs.geo.nFatent ==> fs.geo.InFat(fs.winsect)
    ensures if Stretches(old(Table(fs)), clst) && 2 <= r < fs.geo.nFatent then
              && fs.lastClst == r && fs.freeClst == CountAfterTake(old(fs.freeClst), fs.geo.nFatent)
              && fs.fsiDirty
            else
              && fs.lastClst == old(fs.lastClst) && fs.freeClst == old(fs.freeClst)
              && fs.fsiDirty == old(fs.fsiDirty)
  {
    hide FatArea, Fat;
    hide Volume.Valid, Volume.Vol, Volume.MirrorsAgree;
    ghost var fat := Table(fs);
    var scl;
    if clst == 0 {
      scl := fs.lastClst;
      if scl == 0 || scl >= fs.geo.nFatent { scl := 1; }
    } else {
      var cs := fs.GetFat(clst);
      if cs < 2 { return INT_ERROR; }
      if cs == DISK_ERROR { return cs; }
      if cs < fs.geo.nFatent { return cs; }
      scl := clst;
    }
    r := FindFree(fs, scl);
    if 2 <= r < DISK_ERROR {
      r := TakeCluster(fs, clst, r);
    }
  }

  /** The scan of create_chain: the first free cluster after scl, going round. */
  method FindFree(fs: Volume, scl: nat) returns (ncl: nat)
    requires fs.Valid() && 1 <= scl < fs.geo.nFatent
    modifies fs`disk, fs`wflag, fs`winsect, fs.win
    ensures fs.Valid()
    ensures SameOutsideFat(fs.geo, old(fs.Vol()), fs.Vol()) && Table(fs) == old(Table(fs))
    ensures fs.geo.Moved(old(fs.winsect), fs.winsect)
    ensures fs.reliable && old(fs.MirrorsAgree()) ==> fs.MirrorsAgree()
    ensures ncl == 0 ==> NoneFree(Table(fs))
    ensures ncl == 1 ==> exists e :: 2 <= e < fs.geo.nFatent && Table(fs)[e] == 1 && AllUsedBefore(Table(fs), scl, e)
    ensures 2 <= ncl != DISK_ERROR ==> ncl < fs.geo.nFatent && Table(fs)[ncl] == 0 && AllUsedBefore(Table(fs), scl, ncl)
    ensures ncl == DISK_ERROR ==> !fs.reliable
  {
    hide FatArea, Fat;
    hide Volume.Valid, Volume.Vol, Volume.MirrorsAgree;
    ghost var fat := Table(fs);
    var n := fs.geo.nFatent;
    ncl := scl;
    while true
      invariant 1 <= ncl < n
      invariant fs.Valid() && Table(fs) == fat
      invariant SameOutsideFat(fs.geo, old(fs.Vol()), fs.Vol())
      invariant fs.geo.Moved(old(fs.winsect), fs.winsect)
      invariant fs.reliable && old(fs.MirrorsAgree()) ==> fs.MirrorsAgree()
      invariant AllUsedBefore(fat, scl, ncl + 1)
      decreases if ncl >= scl then n + n - ncl else scl - ncl
    {
      ScanMoves(fat, scl, ncl);
      ncl := ncl + 1;
      if ncl >= n {
        ncl := 2;
        if ncl > scl { return 0; }
      }
      var cs := fs.GetFat(ncl);
      if cs == 0 { return; }
      if cs == 1 || cs == DISK_ERROR { return cs; }
      ScanPasses(fat, scl, ncl);
      if ncl == scl { return 0; }
    }
  }

  /** The end of create_chain: the cluster found gets the end mark and is linked from clst if there is one. */
  method TakeCluster(fs: Volume, clst: nat, ncl: nat) returns (r: nat)
    requires fs.Valid() && 2 <= ncl < fs.geo.nFatent && Table(fs)[ncl] == 0
    requires Stretches(Table(fs), clst)
    modifies fs`disk, fs`wflag, fs`winsect, fs`lastClst, fs`freeClst, fs`fsiDirty, fs.win
    ensures fs.Valid()
    ensures SameOutsideFat(fs.geo, old(fs.Vol()), fs.Vol())
    ensures fs.geo.Moved(old(fs.winsect), fs.winsect)
    ensures fs.reliable && old(fs.MirrorsAgree()) ==> fs.MirrorsAgree()
    ensures r == ncl || (r == DISK_ERROR && !fs.reliable)
    ensures r == ncl ==> Table(fs) == Linked(old(Table(fs)), clst, ncl, EndMark(fs.geo.ty))
    ensures forall c :: 0 <= c < fs.geo.nFatent && c != clst && c != ncl ==> Table(fs)[c] == old(Table(fs))[c]
    ensures r == ncl ==> fs.geo.InFat(fs.winsect)
    ensures if r == ncl then
              && fs.lastClst == r && fs.freeClst == CountAfterTake(old(fs.freeClst), fs.geo.nFatent)
              && fs.fsiDirty
            else
              && fs.lastClst == old(fs.lastClst) && fs.freeClst == old(fs.freeClst)
              && fs.fsiDirty == old(fs.fsiDirty)
  {
    hide FatArea, Fat;
    hide Volume.Valid, Volume.Vol, Volume.MirrorsAgree;
    EntriesHoldClusters(fs.geo, ncl);
    r := ncl;
    var res := fs.PutFat(ncl, DISK_ERROR);
    if res == Ok && clst != 0 {
      res := fs.PutFat(clst, ncl);
    }
    if res == Ok {
      fs.lastClst := ncl;
      if fs.freeClst < fs.geo.nFatent - 2 { fs.freeClst := if fs.freeClst == 0 then 0xFFFF_FFFF else fs.freeClst - 1; }
      fs.fsiDirty := true;
    } else {
      r := ErrorNumber(res);
    }
  }

  lemma {:induction false} AllFreeCount(fat: seq<nat>, lo: nat)
    requires lo <= |fat|
    ensures CountFree(fat, lo) == |fat| - lo <==> forall c :: lo <= c < |fat| ==> fat[c] == 0
    decreases |fat| - lo
  {
    if lo < |fat| {
      AllFreeCount(fat, lo + 1);
    }
  }

  /** A correct count of free clusters is still correct after create_chain took cluster c, if and only if
      some cluster was in use before. */
  lemma TakeKeepsCount(fat: seq<nat>, clst: nat, c: nat, mark: nat)
    requires Stretches(fat, clst) && 2 <= c < |fat| && fat[c] == 0 && mark >= |fat|
    ensures CountAfterTake(CountFree(fat, 2), |fat|) == CountFree(Linked(fat, clst, c, mark), 2)
        <==> exists d :: 2 <= d < |fat| && fat[d] != 0
  {
    CountFreeUpdate(fat, 2, c, mark);
    AllFreeCount(fat, 2);
    if clst != 0 {
      CountFreeUpdate(fat[c := mark], 2, clst, c);
      assert fat[clst] != 0;
    }
  }

  /** The case that fails: the first cluster of an empty volume is taken and the count does not move. */
  lemma EmptyVolumeMiscounts()
    ensures var fat := [0xFF8, 0xFFF, 0, 0];
            CountFree(fat, 2) == 2 && CountAfterTake(2, 4) == 2 && CountFree(Linked(fat, 0, 2, 0xFFF), 2) == 1
  {
    var fat := [0xFF8, 0xFFF, 0, 0];
    assert CountFree(fat, 3) == 1;
    CountFreeUpdate(fat, 2, 2, 0xFFF);
  }

  /** What remove_chain does to a table, and its answer. */
  function RemoveChainResult(fat: seq<nat>, clst: nat, pclst: nat, mark: nat): (r: (seq<nat>, FResult))
    ensures |r.0| == |fat|
  {
    if !(2 <= clst < |fat|) || (pclst != 0 && !(2 <= pclst < |fat|)) then
      (fat, IntErr)
    else
      Removed(if pclst == 0 then fat else fat[pclst := mark], clst)
  }

  /** From one table to another, chain ch was cut before its k-th cluster: those from there on are free, the rest
      is a chain that ends in the end mark, and nothing else changed. */
  ghost predicate CutAt(fat: seq<nat>, fat': seq<nat>, ch: seq<nat>, k: nat, mark: nat)
    requires k < |ch|
  {
    && |fat'| == |fat|
    && (forall c :: 0 <= c < |fat| && c in ch[k..] ==> fat'[c] == 0)
    && (k > 0 ==> IsChain(fat', ch[..k]) && fat'[ch[k - 1]] == mark)
    && (forall c :: 0 <= c < |fat| && c !in ch ==> fat'[c] == fat[c])
    && (forall o :: IsChain(fat, o) && Disjoint(ch, o) ==> IsChain(fat', o))
  }

  /** What remove_chain is for: given a cluster of a chain and the one before it, it cuts the chain there. */
  lemma RemovedIsCut(fat: seq<nat>, ch: seq<nat>, k: nat, pclst: nat, mark: nat)
    requires IsChain(fat, ch) && k < |ch| && pclst == (if k == 0 then 0 else ch[k - 1]) && mark >= |fat|
    ensures var r := RemoveChainResult(fat, ch[k], pclst, mark); r.1 == Ok && CutAt(fat, r.0, ch, k, mark)
  {
    RemovedFreesSuffix(fat, ch, k, mark);
    var f := CutBefore(fat, ch, k, mark);
    var r := Freed(f, ch[k..]);
    RemovedOfCut(fat, ch, k, pclst, mark);
    if k > 0 {
      CutChain(fat, ch, k, mark);
      MarkStays(fat, ch, k, mark);
    }
    forall c | 0 <= c < |fat| && c !in ch
      ensures r[c] == fat[c]
    {
      OutsideKept(fat, ch, k, mark, c);
    }
    forall o | IsChain(fat, o) && Disjoint(ch, o)
      ensures IsChain(r, o)
    {
      OtherChainSurvives(fat, ch, k, mark, o);
    }
  }

  /** Every chain in which clst follows pclst, or is first if that is 0, was cut before clst. */
  ghost predicate CutsChains(fat: seq<nat>, fat': seq<nat>, clst: nat, pclst: nat, res: FResult, mark: nat) {
    forall ch, k: nat ::
      IsChain(fat, ch) && k < |ch| && ch[k] == clst && pclst == (if k == 0 then 0 else ch[k - 1]) ==>
      res == Ok && CutAt(fat, fat', ch, k, mark)
  }

  lemma RemovedCutsChains(fat: seq<nat>, clst: nat, pclst: nat, mark: nat)
    requires mark >= |fat|
    ensures var r := RemoveChainResult(fat, clst, pclst, mark); CutsChains(fat, r.0, clst, pclst, r.1, mark)
  {
    hide IsChain, RemoveChainResult, CutAt;
    forall ch, k: nat | IsChain(fat, ch) && k < |ch| && ch[k] == clst && pclst == (if k == 0 then 0 else ch[k - 1])
      ensures var r := RemoveChainResult(fat, clst, pclst, mark); r.1 == Ok && CutAt(fat, r.0, ch, k, mark)
    {
      RemovedIsCut(fat, ch, k, pclst, mark);
    }
  }

  lemma RemovedOfCut(fat: seq<nat>, ch: seq<nat>, k: nat, pclst: nat, mark: nat)
    requires IsChain(fat, ch) && k < |ch| && pclst == if k == 0 then 0 else ch[k - 1]
    ensures RemoveChainResult(fat, ch[k], pclst, mark) == Removed(CutBefore(fat, ch, k, mark), ch[k])
  {
    hide Removed;
  }

  lemma MarkStays(fat: seq<nat>, ch: seq<nat>, k: nat, mark: nat)
    requires IsChain(fat, ch) && 0 < k < |ch|
    ensures Freed(CutBefore(fat, ch, k, mark), ch[k..])[ch[k - 1]] == mark
  {
    assert forall i :: 0 <= i < |ch| - k ==> ch[k..][i] == ch[k + i];
  }

  /** remove_chain */
  method RemoveChain(fs: Volume, clst: nat, pclst: nat) returns (res: FResult)
    requires fs.Valid()
    modifies fs`disk, fs`wflag, fs`winsect, fs`freeClst, fs`fsiDirty, fs.win
    ensures fs.Valid()
    ensures SameOutsideFat(fs.geo, old(fs.Vol()), fs.Vol())
    ensures fs.geo.Moved(old(fs.winsect), fs.winsect)
    ensures fs.reliable && old(fs.MirrorsAgree()) ==> fs.MirrorsAgree()
    ensures fs.reliable ==> res != DiskErr
    ensures fs.freeClst >= old(fs.freeClst)
    ensures fs.fsiDirty == (old(fs.fsiDirty) || fs.freeClst != old(fs.freeClst))
    ensures res != DiskErr ==>
        (Table(fs), res) == RemoveChainResult(old(Table(fs)), clst, pclst, EndMark(fs.geo.ty))
    ensures res != DiskErr ==> CutsChains(old(Table(fs)), Table(fs), clst, pclst, res, EndMark(fs.geo.ty))
    ensures res != DiskErr && (2 <= pclst < fs.geo.nFatent ==> old(Table(fs))[pclst] != 0) ==>
        old(fs.freeClst) == CountFree(old(Table(fs)), 2) ==> fs.freeClst == CountFree(Table(fs), 2)
  {
    hide FatArea, Fat;
    hide Volume.Valid, Volume.Vol, Volume.MirrorsAgree;
    EntriesHoldClusters(fs.geo, 0);
    RemovedCutsChains(Table(fs), clst, pclst, EndMark(fs.geo.ty));
    hide CutsChains;
    if clst < 2 || clst >= fs.geo.nFatent {
      return IntErr;
    }
    if pclst != 0 {
      ghost var fat := Table(fs);
      res := fs.PutFat(pclst, DISK_ERROR);
      if res != Ok { return; }
      CountFreeUpdate(fat, 2, pclst, EndMark(fs.geo.ty));
    }
    res := FreeFrom(fs, clst);
  }

  /** The calls that f_unlink and f_truncate make: a chain is removed, or what follows its cluster pclst is. */
  method CutChainAt(fs: Volume, clst: nat, pclst: nat, ghost ch: seq<nat>, ghost k: nat) returns (res: FResult)
    requires fs.Valid() && IsChain(Table(fs), ch) && k < |ch|
    requires clst == ch[k] && pclst == if k == 0 then 0 else ch[k - 1]
    modifies fs`disk, fs`wflag, fs`winsect, fs`freeClst, fs`fsiDirty, fs.win
    ensures fs.Valid() && (res == Ok || (res == DiskErr && !fs.reliable))
    ensures res == Ok ==> forall c :: 2 <= c < fs.geo.nFatent ==>
      (Table(fs)[c] == 0 <==> old(Table(fs))[c] == 0 || c in ch[k..])
    ensures res == Ok && k > 0 ==> IsChain(Table(fs), ch[..k])
    ensures res == Ok ==> forall o :: IsChain(old(Table(fs)), o) && Disjoint(ch, o) ==> IsChain(Table(fs), o)
    ensures res == Ok && old(fs.freeClst) == CountFree(old(Table(fs)), 2) ==> fs.freeClst == CountFree(Table(fs), 2)
  {
    hide FatArea, Fat, Volume.Valid, Volume.Vol, Volume.MirrorsAgree, CountFree, RemoveChainResult;
    ghost var fat := Table(fs);
    ChainInUse(fat, ch);
    assert k > 0 ==> ch[k - 1] in ch;
    res := RemoveChain(fs, clst, pclst);
    if res != DiskErr {
      assert CutAt(fat, Table(fs), ch, k, EndMark(fs.geo.ty));
      CutFrees(fat, Table(fs), ch, k, EndMark(fs.geo.ty));
    }
  }

  lemma CutFrees(fat: seq<nat>, fat': seq<nat>, ch: seq<nat>, k: nat, mark: nat)
    requires IsChain(fat, ch) && k < |ch| && CutAt(fat, fat', ch, k, mark)
    ensures |fat'| == |fat| && forall c :: 2 <= c < |fat| ==> (fat'[c] == 0 <==> fat[c] == 0 || c in ch[k..])
  {
    ChainInUse(fat, ch);
    if k > 0 {
      ChainInUse(fat', ch[..k]);
    }
    assert ch == ch[..k] + ch[k..];
    forall c | 2 <= c < |fat|
      ensures fat'[c] == 0 <==> fat[c] == 0 || c in ch[k..]
    {
      if c in ch && c !in ch[k..] {
        assert c in ch[..k];
      }
    }
  }

  lemma RemovedStep(fat: seq<nat>, clst: nat)
    requires 2 <= clst < |fat| && fat[clst] >= 2
    ensures Removed(fat, clst) ==
        if fat[clst] < |fat| then Removed(fat[clst := 0], fat[clst]) else (fat[clst := 0], Ok)
    ensures CountFree(fat[clst := 0], 0) == CountFree(fat, 0) + 1
    ensures CountFree(fat[clst := 0], 2) == CountFree(fat, 2) + 1 <= |fat| - 2
  {
    CountFreeUpdate(fat, 0, clst, 0);
    CountFreeUpdate(fat, 2, clst, 0);
    SomeUsedBoundsFree(fat, 2, clst);
  }

  lemma RemovedStops(fat: seq<nat>, clst: nat)
    requires 2 <= clst < |fat| && fat[clst] < 2
    ensures Removed(fat, clst) == (fat, if fat[clst] == 0 then Ok else IntErr)
  {
  }

  /** The loop of remove_chain. */
  method FreeFrom(fs: Volume, first: nat) returns (res: FResult)
    requires fs.Valid() && 2 <= first < fs.geo.nFatent
    modifies fs`disk, fs`wflag, fs`winsect, fs`freeClst, fs`fsiDirty, fs.win
    ensures fs.Valid()
    ensures SameOutsideFat(fs.geo, old(fs.Vol()), fs.Vol())
    ensures fs.geo.Moved(old(fs.winsect), fs.winsect)
    ensures fs.reliable && old(fs.MirrorsAgree()) ==> fs.MirrorsAgree()
    ensures fs.reliable ==> res != DiskErr
    ensures fs.freeClst >= old(fs.freeClst)
    ensures fs.fsiDirty == (old(fs.fsiDirty) || fs.freeClst != old(fs.freeClst))
    ensures res != DiskErr ==> (Table(fs), res) == Removed(old(Table(fs)), first)
    ensures res != DiskErr && old(fs.freeClst) == CountFree(old(Table(fs)), 2) ==>
        fs.freeClst == CountFree(Table(fs), 2)
  {
    hide FatArea, Fat;
    hide Volume.Valid, Volume.Vol, Volume.MirrorsAgree;
    hide Removed, CountFree;
    EntriesHoldClusters(fs.geo, 0);
    var clst := first;
    ghost var fat, before := Table(fs), Table(fs);
    while true
      invariant fs.Valid() && 2 <= clst < fs.geo.nFatent && fat == Table(fs)
      invariant SameOutsideFat(fs.geo, old(fs.Vol()), fs.Vol())
      invariant fs.geo.Moved(old(fs.winsect), fs.winsect)
      invariant fs.reliable && old(fs.MirrorsAgree()) ==> fs.MirrorsAgree()
      invariant Removed(before, first) == Removed(fat, clst)
      invariant fs.freeClst >= old(fs.freeClst)
      invariant fs.fsiDirty == (old(fs.fsiDirty) || fs.freeClst != old(fs.freeClst))
      invariant old(fs.freeClst) == CountFree(before, 2) ==> fs.freeClst == CountFree(fat, 2)
      decreases fs.geo.nFatent - CountFree(fat, 0)
    {
      var nxt := fs.GetFat(clst);
      if nxt == 0 { RemovedStops(fat, clst); return Ok; }
      if nxt == 1 { RemovedStops(fat, clst); return IntErr; }
      if nxt == DISK_ERROR { return DiskErr; }
      RemovedStep(fat, clst);
      res := fs.PutFat(clst, 0);
      if res != Ok { return; }
      fat := Table(fs);
      if fs.freeClst < fs.geo.nFatent - 2 {
        fs.freeClst := fs.freeClst + 1;
        fs.fsiDirty := true;
      }
      if nxt >= fs.geo.nFatent { return Ok; }
      clst := nxt;
    }
  }
}
