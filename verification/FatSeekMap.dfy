/** Fast seek: the cluster link map of a file, built by f_lseek and searched by clmt_clust. */
module FatSeekMap {
  import opened FatTable
  import opened FatVolume
  import opened FatChain
  import opened FatLayout
  import opened FatFile

  /** len consecutive clusters from top on. */
  datatype Fragment = Fragment(len: nat, top: nat)

  /** How many clusters from the i-th on are consecutive. */
  function RunLength(ch: seq<nat>, i: nat): (n: nat)
    requires i < |ch|
    ensures 1 <= n <= |ch| - i
    decreases |ch| - i
  {
    if i + 1 < |ch| && ch[i + 1] == ch[i] + 1 then 1 + RunLength(ch, i + 1) else 1
  }

  /** The fragments of a chain from its i-th cluster on. */
  function Fragments(ch: seq<nat>, i: nat): (f: seq<Fragment>)
    requires i <= |ch|
    ensures |f| <= |ch| - i
    ensures forall k :: 0 <= k < |f| ==> 1 <= f[k].len
    decreases |ch| - i
  {
    if i == |ch| then [] else
      var n := RunLength(ch, i);
      [Fragment(n, ch[i])] + Fragments(ch, i + n)
  }

  /** The clusters the fragments stand for. */
  function Expand(f: seq<Fragment>): (ch: seq<nat>) {
    if f == [] then [] else Run(f[0].top, f[0].len) + Expand(f[1..])
  }

  /** The items of the table after its first one: pairs of length and top. */
  function Items(f: seq<Fragment>): (t: seq<nat>)
    ensures |t| == 2 * |f|
  {
    if f == [] then [] else Items(f[..|f| - 1]) + [f[|f| - 1].len, f[|f| - 1].top]
  }

  lemma {:induction false} ItemAt(f: seq<Fragment>, k: nat)
    requires k < |f|
    ensures Items(f)[2 * k] == f[k].len && Items(f)[2 * k + 1] == f[k].top
    decreases |f|
  {
    if k < |f| - 1 {
      ItemAt(f[..|f| - 1], k);
    }
  }

  lemma ItemsOfLonger(f: seq<Fragment>, e: Fragment)
    ensures Items(f + [e]) == Items(f) + [e.len, e.top]
  {
    assert (f + [e])[..|f|] == f;
  }

  /** The run at the i-th cluster is consecutive, and the next cluster is not. */
  lemma {:induction false} RunIsConsecutive(ch: seq<nat>, i: nat, k: nat)
    requires i < |ch|
    ensures k < RunLength(ch, i) ==> i + k < |ch| && ch[i + k] == ch[i] + k
    ensures k < RunLength(ch, i) ==> RunLength(ch, i + k) == RunLength(ch, i) - k
    decreases k
  {
    if 0 < k < RunLength(ch, i) {
      RunIsConsecutive(ch, i + 1, k - 1);
    }
  }

  lemma RunEndsThere(ch: seq<nat>, i: nat)
    requires i < |ch|
    ensures var n := RunLength(ch, i); i + n < |ch| ==> ch[i + n] != ch[i] + n
  {
    RunIsConsecutive(ch, i, RunLength(ch, i) - 1);
  }

  /** No two fragments next to each other could be one: there are as few as can be. */
  lemma {:induction false} FragmentsAreLong(ch: seq<nat>, i: nat, k: nat)
    requires i <= |ch| && k + 1 < |Fragments(ch, i)|
    ensures var f := Fragments(ch, i); f[k + 1].top != f[k].top + f[k].len
    decreases k
  {
    NextFragment(ch, i);
    var n := RunLength(ch, i);
    if k == 0 {
      RunEndsThere(ch, i);
      NextFragment(ch, i + n);
    } else {
      FragmentsAreLong(ch, i + n, k - 1);
    }
  }

  /** The fragments of a chain stand for exactly that chain. */
  lemma {:induction false} FragmentsExpand(ch: seq<nat>, i: nat)
    requires i <= |ch|
    ensures Expand(Fragments(ch, i)) == ch[i..]
    decreases |ch| - i
  {
    if i < |ch| {
      var n := RunLength(ch, i);
      FragmentsExpand(ch, i + n);
      forall k | 0 <= k < n
        ensures Run(ch[i], n)[k] == ch[i..i + n][k]
      {
        RunIsConsecutive(ch, i, k);
      }
      assert Run(ch[i], n) == ch[i..i + n];
      assert ch[i..] == ch[i..i + n] + ch[i + n..];
      assert Fragments(ch, i)[1..] == Fragments(ch, i + n);
    }
  }

  /** The table holds the fragments of a chain: its size, the items and the end mark. */
  ghost predicate Encodes(tbl: seq<nat>, ch: seq<nat>) {
    var items := Items(Fragments(ch, 0));
    && 2 + |items| <= |tbl| && tbl[0] == 2 + |items|
    && tbl[1..1 + |items|] == items && tbl[1 + |items|] == 0
  }

  lemma NextFragment(ch: seq<nat>, i: nat)
    requires i < |ch|
    ensures 1 <= RunLength(ch, i) && i + RunLength(ch, i) <= |ch|
    ensures Fragments(ch, i) == [Fragment(RunLength(ch, i), ch[i])] + Fragments(ch, i + RunLength(ch, i))
  {
  }

  /** clmt_clust: the cluster of byte ofs through the table, 0 past its end. */
  method ClmtClust(g: Geometry, cltbl: array<nat>, ofs: nat, ghost ch: seq<nat>) returns (r: nat)
    requires g.csize > 0 && Encodes(cltbl[..], ch)
    ensures r == if ClusterOfByte(g, ofs) < |ch| then ch[ClusterOfByte(g, ofs)] else 0
  {
    hide Encodes, Items, Fragments, RunLength, ClusterOfByte, ClusterOf, SectorOf;
    ghost var f := Fragments(ch, 0);
    ByteInCluster(g, ofs);
    var cl: nat := ClusterOf(g, SectorOf(ofs));
    var t := 1;
    ghost var k: nat, i: nat := 0, 0;
    while true
      invariant k <= |f| && t == 1 + 2 * k
      invariant i <= |ch| && f[k..] == Fragments(ch, i)
      invariant cl + i == ClusterOfByte(g, ofs)
      decreases |f| - k
    {
      TableItem(cltbl[..], ch, k);
      if i < |ch| {
        NextFragment(ch, i);
      }
      var ncl := cltbl[t];
      t := t + 1;
      if ncl == 0 { return 0; }
      assert f[k] == f[k..][0];
      if cl < ncl { break; }
      cl := cl - ncl;
      t := t + 1;
      k, i := k + 1, i + RunLength(ch, i);
    }
    RunIsConsecutive(ch, i, cl);
    r := cl + cltbl[t];
  }

  lemma TableItem(tbl: seq<nat>, ch: seq<nat>, k: nat)
    requires Encodes(tbl, ch) && k <= |Fragments(ch, 0)|
    ensures var f := Fragments(ch, 0);
        if k < |f| then 2 + 2 * k < |tbl| && tbl[1 + 2 * k] == f[k].len && tbl[2 + 2 * k] == f[k].top
        else 1 + 2 * k < |tbl| && tbl[1 + 2 * k] == 0
  {
    var f := Fragments(ch, 0);
    var items := Items(f);
    if k < |f| {
      ItemAt(f, k);
      assert tbl[1..1 + |items|][2 * k] == items[2 * k] && tbl[1..1 + |items|][2 * k + 1] == items[2 * k + 1];
    }
  }

  /** A chain whose end mark cannot be taken for one more consecutive cluster. */
  ghost predicate ClearEnd(fat: seq<nat>, ch: seq<nat>) {
    ch == [] || (ch[|ch| - 1] < |fat| && fat[ch[|ch| - 1]] != ch[|ch| - 1] + 1)
  }

  /** End marks as the format names them, those that create_chain writes included, are never taken for a cluster. */
  lemma MarksAreClear(g: Geometry, fat: seq<nat>, ch: seq<nat>)
    requires g.Sound() && |fat| == g.nFatent && IsChain(fat, ch) && fat[ch[|ch| - 1]] >= EntryRange(g.ty) - 8
    ensures ClearEnd(fat, ch) && EndMark(g.ty) >= EntryRange(g.ty) - 8
  {
  }

  /** Another mark may be: the table of four entries ends a chain in cluster 3 with the number 4, which is no
      cluster and so an end mark, but reads as one more consecutive cluster. */
  lemma UnclearEnd()
    ensures var fat, ch := [0xFF8, 0xFFF, 3, 4], [2, 3];
      IsChain(fat, ch) && !ClearEnd(fat, ch)
  {
  }

  /** ncl clusters into the run at the i-th; past the last cluster only where its end mark looks consecutive. */
  ghost predicate InRun(fat: seq<nat>, ch: seq<nat>, i: nat, ncl: nat, cl: nat) {
    && i < |ch| && i + ncl <= |ch|
    && if i + ncl < |ch| then
         cl == ch[i + ncl] && RunLength(ch, i) == ncl + RunLength(ch, i + ncl)
       else
         cl == |fat| && !ClearEnd(fat, ch)
  }

  /** The run at the i-th cluster is ncl clusters long, and cl is what the table says after it. */
  ghost predicate RunEnds(fat: seq<nat>, ch: seq<nat>, i: nat, ncl: nat, cl: nat) {
    && i < |ch| && ncl == RunLength(ch, i) && 2 <= cl
    && if i + ncl < |ch| then cl == ch[i + ncl] else cl >= |fat| && ClearEnd(fat, ch)
  }

  lemma RunStep(fat: seq<nat>, ch: seq<nat>, i: nat, ncl: nat, cl: nat)
    requires IsChain(fat, ch) && InRun(fat, ch, i, ncl, cl)
    ensures i + ncl < |ch| ==> 2 <= cl < |fat| && fat[cl] >= 2
    ensures i + ncl < |ch| ==>
        if fat[cl] == cl + 1 then InRun(fat, ch, i, ncl + 1, fat[cl]) else RunEnds(fat, ch, i, ncl + 1, fat[cl])
  {
    if i + ncl + 1 < |ch| {
      assert fat[ch[i + ncl]] == ch[i + ncl + 1];
    }
  }

  /** One fragment: from the i-th cluster tcl to the end of its run. */
  method TakeFragment(fs: Volume, tcl: nat, ghost ch: seq<nat>, ghost i: nat)
    returns (res: FResult, ncl: nat, cl: nat)
    requires fs.Valid() && FileChain(fs.geo, Table(fs), ch) && i < |ch| && tcl == ch[i]
    modifies fs`disk, fs`wflag, fs`winsect, fs.win
    ensures fs.Valid() && SameOutsideFat(fs.geo, old(fs.Vol()), fs.Vol()) && Table(fs) == old(Table(fs))
    ensures fs.geo.Moved(old(fs.winsect), fs.winsect)
    ensures fs.reliable && old(fs.MirrorsAgree()) ==> fs.MirrorsAgree()
    ensures res == Ok ==> RunEnds(Table(fs), ch, i, ncl, cl)
    ensures res == IntErr ==> !ClearEnd(Table(fs), ch)
    ensures res == Ok || res == IntErr || (res == DiskErr && !fs.reliable)
  {
    hide FatArea, Fat, Volume.Valid, Volume.Vol, Volume.MirrorsAgree, Sectors, Layout, ClustersFit, RunEnds, ClearEnd;
    res, ncl, cl := Ok, 0, tcl;
    ghost var fat := Table(fs);
    while true
      invariant fs.Valid() && SameOutsideFat(fs.geo, old(fs.Vol()), fs.Vol()) && Table(fs) == fat
      invariant fs.geo.Moved(old(fs.winsect), fs.winsect)
      invariant fs.reliable && old(fs.MirrorsAgree()) ==> fs.MirrorsAgree()
      invariant res == Ok && InRun(fat, ch, i, ncl, cl)
      decreases |ch| - ncl
    {
      RunStep(fat, ch, i, ncl, cl);
      var pcl := cl;
      ncl := ncl + 1;
      cl := fs.GetFat(cl);
      if cl <= 1 { return IntErr, ncl, cl; }
      if cl == DISK_ERROR { return DiskErr, ncl, cl; }
      if cl != pcl + 1 { break; }
    }
  }

  /** The items a table needs for a chain. */
  function NeededItems(ch: seq<nat>): nat {
    2 + 2 * |Fragments(ch, 0)|
  }

  /** What building the table leaves after the fragments f of a chain: they are stored as long as they fit,
      and nothing lies past the given size. */
  ghost predicate Stored(tbl: seq<nat>, was: seq<nat>, tlen: nat, f: seq<Fragment>) {
    && |tbl| == |was| && tlen <= |tbl| && 1 <= |tbl|
    && (2 + 2 * |f| <= tlen ==> tbl[1..1 + 2 * |f|] == Items(f))
    && (forall x :: 1 <= x < |tbl| && x >= tlen ==> tbl[x] == was[x])
  }

  lemma StoredOneMore(tbl: seq<nat>, was: seq<nat>, tlen: nat, f: seq<Fragment>, e: Fragment)
    requires Stored(tbl, was, tlen, f)
    ensures var t := 1 + 2 * |f|;
        if 2 + 2 * (|f| + 1) <= tlen then t + 1 < |tbl| && Stored(tbl[t := e.len][t + 1 := e.top], was, tlen, f + [e])
        else Stored(tbl, was, tlen, f + [e])
  {
    ItemsOfLonger(f, e);
    var t := 1 + 2 * |f|;
    if 2 + 2 * (|f| + 1) <= tlen {
      var longer := tbl[t := e.len][t + 1 := e.top];
      assert longer[1..t + 2] == tbl[1..t] + [e.len, e.top];
    }
  }

  lemma StoredNothing(was: seq<nat>, tlen: nat)
    requires tlen <= |was| && 1 <= |was|
    ensures Stored(was, was, tlen, [])
  {
  }

  lemma OnlyGivenSize(tbl: seq<nat>, was: seq<nat>, tlen: nat, f: seq<Fragment>)
    requires Stored(tbl, was, tlen, f)
    ensures |tbl| == |was| && forall x :: 1 <= x < |tbl| && x >= tlen ==> tbl[x] == was[x]
  {
  }

  /** The last two stores complete a table that has room. */
  lemma TableDone(tbl: seq<nat>, was: seq<nat>, tlen: nat, ch: seq<nat>)
    requires Stored(tbl, was, tlen, Fragments(ch, 0))
    ensures var n := NeededItems(ch);
        n <= tlen ==> n - 1 < |tbl| && Encodes(tbl[0 := n][n - 1 := 0], ch)
  {
    var n, items := NeededItems(ch), Items(Fragments(ch, 0));
    if n <= tlen {
      var done := tbl[0 := n][n - 1 := 0];
      assert done[1..1 + |items|] == tbl[1..1 + |items|];
    }
  }

  /** f_lseek(CREATE_LINKMAP): the given size is in item 0 and the size needed goes there; the table is
      complete if it fits, and nothing past the given size is written. The one chain it cannot map has an
      end mark that reads as one more consecutive cluster. */
  method CreateLinkMap(fs: Volume, cltbl: array<nat>, sclust: nat, ghost ch: seq<nat>) returns (res: FResult)
    requires fs.Valid() && FileChain(fs.geo, Table(fs), ch) && sclust == Head(ch)
    requires 1 <= cltbl.Length && cltbl[0] <= cltbl.Length
    modifies cltbl, fs`disk, fs`wflag, fs`winsect, fs.win
    ensures fs.Valid() && SameOutsideFat(fs.geo, old(fs.Vol()), fs.Vol()) && Table(fs) == old(Table(fs))
    ensures fs.geo.Moved(old(fs.winsect), fs.winsect)
    ensures fs.reliable && old(fs.MirrorsAgree()) ==> fs.MirrorsAgree()
    ensures forall x :: 1 <= x < cltbl.Length && x >= old(cltbl[0]) ==> cltbl[x] == old(cltbl[x])
    ensures res == Ok ==> Encodes(cltbl[..], ch)
    ensures res == Ok || res == NotEnoughCore ==> cltbl[0] == NeededItems(ch) && ClearEnd(Table(fs), ch)
    ensures res == Ok ==> NeededItems(ch) <= old(cltbl[0])
    ensures res == NotEnoughCore ==> NeededItems(ch) > old(cltbl[0])
    ensures fs.reliable && ClearEnd(Table(fs), ch) ==> res == Ok || res == NotEnoughCore
    ensures fs.reliable && !ClearEnd(Table(fs), ch) ==> res == IntErr
  {
    hide FatArea, Fat, Volume.Valid, Volume.Vol, Volume.MirrorsAgree, Sectors, Layout, ClustersFit, IsChain;
    hide InRun, Items, Stored, RunLength, Fragments, Encodes;
    HeadOfNone(fs.geo, ch);
    var tlen := cltbl[0];
    var ulen, t, cl := 2, 1, sclust;
    ghost var f: seq<Fragment>, i: nat, fat, was := [], 0, Table(fs), cltbl[..];
    StoredNothing(was, tlen);
    var more := cl != 0;
    res := Ok;
    while more
      invariant fs.Valid() && SameOutsideFat(fs.geo, old(fs.Vol()), fs.Vol()) && Table(fs) == fat
      invariant fs.geo.Moved(old(fs.winsect), fs.winsect)
      invariant fs.reliable && old(fs.MirrorsAgree()) ==> fs.MirrorsAgree()
      invariant res == Ok && i <= |ch| && f + Fragments(ch, i) == Fragments(ch, 0)
      invariant if i < |ch| then more && cl == ch[i] else !more && ClearEnd(fat, ch)
      invariant ulen == 2 + 2 * |f| && (ulen <= tlen ==> t == 1 + 2 * |f|)
      invariant cltbl[0] == tlen && Stored(cltbl[..], was, tlen, f)
      decreases |ch| - i
    {
      var tcl, ncl := cl, 0;
      ulen := ulen + 2;
      res, ncl, cl := TakeFragment(fs, tcl, ch, i);
      OnlyGivenSize(cltbl[..], was, tlen, f);
      if res != Ok { return; }
      ghost var e := Fragment(ncl, tcl);
      StoredOneMore(cltbl[..], was, tlen, f, e);
      NextFragment(ch, i);
      if ulen <= tlen {
        cltbl[t], cltbl[t + 1] := ncl, tcl;
        t := t + 2;
      }
      f, i := f + [e], i + ncl;
      more := cl < fs.geo.nFatent;
    }
    assert f + Fragments(ch, i) == f;
    OnlyGivenSize(cltbl[..], was, tlen, f);
    res := FinishTable(cltbl, tlen, ulen, t, was, ch);
  }

  /** The end of building a table: its size and its end mark. */
  method FinishTable(cltbl: array<nat>, tlen: nat, ulen: nat, t: nat, ghost was: seq<nat>,
                     ghost ch: seq<nat>) returns (res: FResult)
    requires Stored(cltbl[..], was, tlen, Fragments(ch, 0))
    requires ulen == NeededItems(ch) && (ulen <= tlen ==> t == ulen - 1)
    modifies cltbl
    ensures cltbl[0] == NeededItems(ch) && res == if ulen <= tlen then Ok else NotEnoughCore
    ensures res == Ok ==> Encodes(cltbl[..], ch)
    ensures forall x :: 1 <= x < cltbl.Length && x >= tlen ==> cltbl[x] == old(cltbl[x])
  {
    hide Encodes, Fragments, Items;
    TableDone(cltbl[..], was, tlen, ch);
    res := Ok;
    cltbl[0] := ulen;
    if ulen <= tlen {
      cltbl[t] := 0;
    } else {
      res := NotEnoughCore;
    }
  }

  /** f_lseek through the table, to a place target behind the start: the cluster and the sector of it. */
  method FastPlace(file: File, cltbl: array<nat>, target: nat) returns (res: FResult)
    requires file.Base() && 0 < target == file.fptr && Encodes(cltbl[..], file.chain)
    modifies file`clust, file`sect, file`dirty, file.buf, file.fs`disk
    ensures res == Ok ==> file.Valid() && file.Content() == old(file.Content())
    ensures res == Ok ==> file.AtCluster(ClusterOfByte(file.fs.geo, target - 1))
    ensures res == Ok || (res == DiskErr && !file.fs.reliable)
    ensures file.fs.Valid() && Table(file.fs) == old(Table(file.fs))
    ensures OnlyTableAnd(file.fs.geo, old(file.fs.Vol()), file.fs.Vol(), file.secs)
    ensures file.fs.reliable && old(file.fs.MirrorsAgree()) ==> file.fs.MirrorsAgree()
  {
    hide FatArea, Fat, Volume.Valid, Volume.Vol, Volume.MirrorsAgree, FileBytes, Layout, Sectors, SectorOf, OffsetOf;
    hide ClusterOf, WithinIt, ClusterOfByte, Clusters, ClustersFit, Buffered, FileChain, Encodes;
    hide OnlyTableAnd, Overlaid;
    hide Geometry.Sound;
    OnlyTableAndItself(file.fs.geo, file.fs.Vol(), file.secs);
    LastByte(file, target);
    file.clust := ClmtClust(file.fs.geo, cltbl, target - 1, file.chain);
    res := Ok;
    var dsc := ClusterToSector(file.fs.geo, file.clust);
    if dsc == 0 {
      res := IntErr;
    } else {
      dsc := dsc + WithinIt(file.fs.geo, SectorOf(target - 1));
      if OffsetOf(target) != 0 && dsc != file.sect {
        var ok := file.MoveBuffer(dsc);
        res := if ok then Ok else DiskErr;
      }
    }
  }

  /** f_lseek through the table: the same place as the cluster following loop reaches, on a file not grown. */
  method FastSeek(file: File, cltbl: array<nat>, ofs: nat) returns (res: FResult)
    requires file.Valid() && Encodes(cltbl[..], file.chain)
    modifies file`clust, file`sect, file`dirty, file`fptr, file`err, file.buf, file.fs`disk
    ensures old(file.err) != Ok ==> res == old(file.err)
    ensures res == Ok ==> file.Valid() && file.Content() == old(file.Content())
    ensures res == Ok ==> file.fptr == if ofs > file.objsize then file.objsize else ofs
    ensures res == Ok && ofs > 0 && file.objsize > 0 ==>
        file.AtCluster(ClusterOfByte(file.fs.geo, file.fptr - 1))
    ensures old(file.err) == Ok ==> file.err == res && (res == Ok || (res == DiskErr && !file.fs.reliable))
    ensures file.fs.Valid() && Table(file.fs) == old(Table(file.fs))
    ensures OnlyTableAnd(file.fs.geo, old(file.fs.Vol()), file.fs.Vol(), file.secs)
    ensures file.fs.reliable && old(file.fs.MirrorsAgree()) ==> file.fs.MirrorsAgree()
  {
    hide FatArea, Fat, Volume.Valid, Volume.Vol, Volume.MirrorsAgree, FileBytes, Layout, Sectors, SectorOf, OffsetOf;
    hide ClusterOf, WithinIt, ClusterOfByte, Clusters, ClustersFit, Buffered, FileChain, Encodes;
    hide OnlyTableAnd, Overlaid;
    hide Geometry.Sound;
    OnlyTableAndItself(file.fs.geo, file.fs.Vol(), file.secs);
    PlaceUnique(0, 0);
    res := file.err;
    if res == Ok {
      var target := if ofs > file.objsize then file.objsize else ofs;
      file.fptr := target;
      if target > 0 {
        res := FastPlace(file, cltbl, target);
      }
      file.err := res;
    }
  }

  /** Wherever the file pointer stands, a seek of either kind included, the current cluster is that of the byte
      before it. */
  lemma CurrentCluster(file: File)
    requires file.Valid() && file.fptr > 0
    ensures file.AtCluster(ClusterOfByte(file.fs.geo, file.fptr - 1))
  {
    hide FatArea, Fat, Volume.Valid, Volume.Vol, FileBytes, Layout, Sectors, SectorOf, OffsetOf, ClusterOf;
    hide WithinIt, Buffered;
    LastByte(file, file.fptr);
    ByteInCluster(file.fs.geo, file.fptr - 1);
  }

  /** The byte before a place in the file: its sector and cluster, and the sector of the place itself. */
  lemma LastByte(file: File, target: nat)
    requires file.Base() && 0 < target <= file.objsize
    ensures var g, j := file.fs.geo, SectorOf(target - 1);
        && g.csize > 0 && j < |file.secs| && ClusterOf(g, j) < |file.chain|
        && ClusterOfByte(g, target - 1) == ClusterOf(g, j) && 2 <= file.chain[ClusterOf(g, j)] < g.nFatent
        && ClustersFit(g) && file.secs[j] == ClusterSector(g, file.chain[ClusterOf(g, j)]) + WithinIt(g, j)
        && file.secs[j] in file.secs && file.secs[j] != 0
    ensures OffsetOf(target) != 0 ==> SectorOf(target) == SectorOf(target - 1)
  {
    hide FatArea, Fat, Volume.Valid, Volume.Vol, FileBytes, Layout, Sectors, SectorOf, OffsetOf;
    hide ClusterOf, WithinIt, ClusterOfByte, Buffered;
    var j := SectorOf(target - 1);
    Place(target - 1);
    Place(target);
    ByteInCluster(file.fs.geo, target - 1);
    SectorByNumber(file.fs.geo, file.chain, j);
    SectorsInData(file.fs.geo, file.chain, j);
    if OffsetOf(target) != 0 {
      PlaceUnique(SectorOf(target), OffsetOf(target) - 1);
    }
  }
}
