/** An open file: f_read, f_write and f_lseek over a cluster chain and a one-sector buffer.
    Content() is the file as a byte sequence; every operation is stated on it. */
module FatFile {
  import opened Arith
  import opened FatTable
  import opened FatVolume
  import opened FatChain
  import opened FatLayout

  /** No sector changed, the table and the given sectors aside. */
  ghost predicate OnlyTableAnd(g: Geometry, a: seq<Sector>, b: seq<Sector>, secs: seq<nat>) {
    |a| == |b| && forall s :: 0 <= s < |a| && !g.InFat(s) && !g.IsMirror(s) && s !in secs ==> a[s] == b[s]
  }

  /** No entry changed, those of ch aside; what joined the chain was free. */
  ghost predicate OnlyChain(fat: seq<nat>, fat': seq<nat>, was: seq<nat>, ch: seq<nat>) {
    && |fat| == |fat'| && was <= ch
    && (forall c :: 0 <= c < |fat| && c !in ch ==> fat'[c] == fat[c])
    && (forall i :: |was| <= i < |ch| ==> ch[i] < |fat| && fat[ch[i]] == 0)
  }

  lemma OnlyChainTwice(g: Geometry, f: seq<nat>, f': seq<nat>, f'': seq<nat>, a: seq<nat>, b: seq<nat>, c: seq<nat>)
    requires OnlyChain(f, f', a, b) && OnlyChain(f', f'', b, c) && FileChain(g, f'', c)
    ensures OnlyChain(f, f'', a, c)
  {
    forall i | |a| <= i < |c|
      ensures c[i] < |f| && f[c[i]] == 0
    {
      if i >= |b| {
        assert forall k :: 0 <= k < |b| ==> b[k] == c[k] != c[i];
      }
    }
  }

  lemma OnlyTableAndTwice(g: Geometry, x: seq<Sector>, y: seq<Sector>, z: seq<Sector>, s: seq<nat>, t: seq<nat>)
    requires OnlyTableAnd(g, x, y, s) && OnlyTableAnd(g, y, z, t) && s <= t
    ensures OnlyTableAnd(g, x, z, t)
  {
    assert forall e :: e in s ==> e in t;
  }

  /** From one state of a volume to another, only this file changed: its clusters, taken from the free ones
      where they are new, and its sectors. */
  ghost predicate OnlyFile(g: Geometry, fat: seq<nat>, vol: seq<Sector>, ch: seq<nat>,
                           fat': seq<nat>, vol': seq<Sector>, ch': seq<nat>) {
    FileChain(g, fat', ch') && OnlyChain(fat, fat', ch, ch') && OnlyTableAnd(g, vol, vol', Sectors(g, ch'))
  }

  lemma OnlyFileTwice(g: Geometry, fat: seq<nat>, vol: seq<Sector>, ch: seq<nat>,
                      fat': seq<nat>, vol': seq<Sector>, ch': seq<nat>,
                      fat'': seq<nat>, vol'': seq<Sector>, ch'': seq<nat>)
    requires OnlyFile(g, fat, vol, ch, fat', vol', ch') && OnlyFile(g, fat', vol', ch', fat'', vol'', ch'')
    ensures OnlyFile(g, fat, vol, ch, fat'', vol'', ch'')
  {
    hide FileChain, Sectors, Clusters;
    OnlyChainTwice(g, fat, fat', fat'', ch, ch', ch'');
    SectorsPrefix(g, ch', ch'');
    OnlyTableAndTwice(g, vol, vol', vol'', Sectors(g, ch'), Sectors(g, ch''));
  }

  lemma StaysApart(g: Geometry, fat: seq<nat>, vol: seq<Sector>, ch: seq<nat>,
                   fat': seq<nat>, vol': seq<Sector>, ch': seq<nat>, o: seq<nat>)
    requires OnlyFile(g, fat, vol, ch, fat', vol', ch') && IsChain(fat, o) && Disjoint(ch, o)
    ensures Disjoint(ch', o) && IsChain(fat', o)
  {
    ChainInUse(fat, o);
    forall i | 0 <= i < |ch'|
      ensures ch'[i] !in o
    {
      assert i < |ch| ==> ch'[i] == ch[i];
    }
    OtherChainKept(fat, fat', o, ch');
  }

  /** Whatever is done to one file, every file on another chain keeps its clusters and its bytes. */
  lemma OtherFileKept(g: Geometry, fat: seq<nat>, vol: seq<Sector>, ch: seq<nat>,
                      fat': seq<nat>, vol': seq<Sector>, ch': seq<nat>, o: seq<nat>, n: nat)
    requires OnlyFile(g, fat, vol, ch, fat', vol', ch') && |vol| == g.nsect
    requires FileChain(g, fat, o) && o != [] && Disjoint(ch, o) && n <= |Sectors(g, o)| * SS
    ensures FileChain(g, fat', o) && Disjoint(ch', o)
    ensures |vol'| == |vol| && FileBytes(vol', Sectors(g, o), n) == FileBytes(vol, Sectors(g, o), n)
  {
    hide FileBytes, Sectors, Layout;
    StaysApart(g, fat, vol, ch, fat', vol', ch', o);
    var secs := Sectors(g, o);
    forall i | 0 <= i < |secs| && secs[i] < |vol|
      ensures vol[secs[i]] == vol'[secs[i]]
    {
      SectorsInData(g, o, i);
      SectorsDisjoint(g, o, ch', secs[i]);
    }
    SameBytes(vol, vol', secs, n);
  }

  /** ... and the table stays a set of disjoint chains, this file's being the one that may have grown. */
  lemma TableStaysWellFormed(g: Geometry, fat: seq<nat>, vol: seq<Sector>, ch: seq<nat>,
                             fat': seq<nat>, vol': seq<Sector>, ch': seq<nat>, chains: set<seq<nat>>)
    requires OnlyFile(g, fat, vol, ch, fat', vol', ch') && WellFormed(fat, chains)
    requires ch' != [] && (ch == [] || ch in chains)
    ensures WellFormed(fat', chains - {ch} + {ch'})
  {
    hide Sectors, Layout, OnlyTableAnd;
    var others := chains - {ch};
    forall a | a in others
      ensures IsChain(fat', a) && Disjoint(ch', a)
    {
      StaysApart(g, fat, vol, ch, fat', vol', ch', a);
    }
    forall d | 2 <= d < |fat'| && fat'[d] != 0 && d !in ch'
      ensures OnSome(others, d)
    {
      var a :| a in chains && d in a;
      assert a in others;
    }
    Assembled(fat', others, ch');
  }

  lemma OnlyFileItself(g: Geometry, fat: seq<nat>, vol: seq<Sector>, ch: seq<nat>)
    requires FileChain(g, fat, ch)
    ensures OnlyFile(g, fat, vol, ch, fat, vol, ch)
  {
  }

  /** Every file on another chain than ch keeps its clusters and its bytes. */
  ghost predicate OthersKept(g: Geometry, fat: seq<nat>, vol: seq<Sector>, ch: seq<nat>,
                             fat': seq<nat>, vol': seq<Sector>) {
    forall o :: FileChain(g, fat, o) && Disjoint(ch, o) ==> FileChain(g, fat', o) && SameOn(Sectors(g, o), vol, vol')
  }

  lemma OthersKeptByFile(g: Geometry, fat: seq<nat>, vol: seq<Sector>, ch: seq<nat>,
                         fat': seq<nat>, vol': seq<Sector>, ch': seq<nat>)
    requires OnlyFile(g, fat, vol, ch, fat', vol', ch') && |vol| == g.nsect
    ensures OthersKept(g, fat, vol, ch, fat', vol')
  {
    hide OnlyFile, FileChain, Disjoint, SameOn, Sectors;
    forall o | FileChain(g, fat, o) && Disjoint(ch, o)
      ensures FileChain(g, fat', o) && SameOn(Sectors(g, o), vol, vol')
    {
      OtherOnDrive(g, fat, vol, ch, fat', vol', ch', o);
    }
  }

  lemma OtherOnDrive(g: Geometry, fat: seq<nat>, vol: seq<Sector>, ch: seq<nat>, fat': seq<nat>,
                     vol': seq<Sector>, ch': seq<nat>, o: seq<nat>)
    requires OnlyFile(g, fat, vol, ch, fat', vol', ch') && |vol| == g.nsect
    requires FileChain(g, fat, o) && Disjoint(ch, o)
    ensures FileChain(g, fat', o) && Disjoint(ch', o)
    ensures SameOn(Sectors(g, o), vol, vol')
  {
    if o == [] {
      NoSectors(g, o);
    } else {
      OtherFileKept(g, fat, vol, ch, fat', vol', ch', o, 0);
      forall i | 0 <= i < |Sectors(g, o)| && Sectors(g, o)[i] < |vol|
        ensures vol[Sectors(g, o)[i]] == vol'[Sectors(g, o)[i]]
      {
        SectorsInData(g, o, i);
        if Sectors(g, o)[i] in Sectors(g, ch') {
          SectorsDisjoint(g, ch', o, Sectors(g, o)[i]);
        }
      }
    }
  }

  /** A failure after steps that succeeded. */
  lemma OthersKeptTwice(g: Geometry, fat: seq<nat>, vol: seq<Sector>, ch: seq<nat>,
                        fat': seq<nat>, vol': seq<Sector>, ch': seq<nat>, fat'': seq<nat>, vol'': seq<Sector>)
    requires OnlyFile(g, fat, vol, ch, fat', vol', ch') && |vol| == g.nsect
    requires OthersKept(g, fat', vol', ch', fat'', vol'')
    ensures OthersKept(g, fat, vol, ch, fat'', vol'')
  {
    hide OnlyFile, FileChain, Disjoint, SameOn, Sectors;
    forall o | FileChain(g, fat, o) && Disjoint(ch, o)
      ensures FileChain(g, fat'', o) && SameOn(Sectors(g, o), vol, vol'')
    {
      OtherOnDrive(g, fat, vol, ch, fat', vol', ch', o);
      SameOnTwice(Sectors(g, o), vol, vol', vol'');
    }
  }

  lemma SameOnTwice(secs: seq<nat>, a: seq<Sector>, b: seq<Sector>, c: seq<Sector>)
    requires SameOn(secs, a, b) && SameOn(secs, b, c)
    ensures SameOn(secs, a, c)
  {
  }

  /** A step that writes the table alone and leaves all entries in use, those of ch aside. */
  lemma OthersKeptInTable(g: Geometry, fat: seq<nat>, vol: seq<Sector>, ch: seq<nat>,
                          fat': seq<nat>, vol': seq<Sector>)
    requires SameOutsideFat(g, vol, vol') && |vol| == g.nsect && |fat'| == |fat|
    requires forall c :: 2 <= c < |fat| && fat[c] != 0 && c !in ch ==> fat'[c] == fat[c]
    ensures OthersKept(g, fat, vol, ch, fat', vol')
  {
    hide SameOutsideFat, SameOn, Sectors, Layout;
    forall o | FileChain(g, fat, o) && Disjoint(ch, o)
      ensures FileChain(g, fat', o) && SameOn(Sectors(g, o), vol, vol')
    {
      DataKept(g, o, vol, vol');
      if o != [] {
        ChainKeptInUse(fat, fat', o, ch);
      }
    }
  }

  lemma ChainKeptInUse(fat: seq<nat>, fat': seq<nat>, o: seq<nat>, ch: seq<nat>)
    requires IsChain(fat, o) && |fat'| == |fat| && Disjoint(ch, o)
    requires forall c :: 2 <= c < |fat| && fat[c] != 0 && c !in ch ==> fat'[c] == fat[c]
    ensures IsChain(fat', o)
  {
    ChainInUse(fat, o);
    forall i | 0 <= i < |o|
      ensures fat'[o[i]] == fat[o[i]]
    {
      assert o[i] in o;
    }
  }

  /** The sectors secs hold c, the bytes from lo to hi aside. */
  ghost predicate Holds(img: seq<Sector>, secs: seq<nat>, c: seq<Byte>, lo: nat, hi: nat) {
    && Layout(|img|, secs) && |c| <= |secs| * SS
    && forall p :: 0 <= p < |c| && !(lo <= p < hi) ==> FileBytes(img, secs, |c|)[p] == c[p]
  }

  /** Each cluster of a chain leads to the next. */
  ghost predicate Links(fat: seq<nat>, ch: seq<nat>) {
    forall i :: 0 <= i < |ch| - 1 ==> ch[i] < |fat| && fat[ch[i]] == ch[i + 1]
  }

  lemma HoldsIfSame(img: seq<Sector>, img': seq<Sector>, secs: seq<nat>, n: nat, lo: nat, hi: nat)
    requires Layout(|img|, secs) && SameOn(secs, img, img') && n <= |secs| * SS
    ensures Holds(img', secs, FileBytes(img, secs, n), lo, hi)
  {
    SameBytes(img, img', secs, n);
  }

  /** cc sectors from the j-th on hold anything. */
  lemma HoldsTheRest(img: seq<Sector>, img': seq<Sector>, secs: seq<nat>, n: nat, j: nat, cc: nat)
    requires Layout(|img|, secs) && |img'| == |img| && n <= |secs| * SS
    requires j + cc <= |secs| && 0 < cc
    requires forall i :: 0 <= i < |secs| && !(j <= i < j + cc) ==> !(secs[j] <= secs[i] < secs[j] + cc)
    requires forall x :: 0 <= x < |img| && !(secs[j] <= x < secs[j] + cc) ==> img'[x] == img[x]
    ensures Holds(img', secs, FileBytes(img, secs, n), j * SS, (j + cc) * SS)
  {
    hide SectorOf, OffsetOf;
    forall p | 0 <= p < n && !(j * SS <= p < (j + cc) * SS)
      ensures FileBytes(img', secs, n)[p] == FileBytes(img, secs, n)[p]
    {
      Place(p);
    }
  }

  lemma HoldsLess(img: seq<Sector>, secs: seq<nat>, c: seq<Byte>, c': seq<Byte>, lo: nat, hi: nat, lo': nat, hi': nat)
    requires Holds(img, secs, c, lo, hi) && c' <= c && (hi <= lo || (lo' <= lo && hi <= hi'))
    ensures Holds(img, secs, c', lo', hi')
  {
    FileBytesPrefix(img, secs, |c'|, |c|);
  }

  /** The largest size a file can get: its clusters and all free ones. */
  ghost function Room(g: Geometry, fat: seq<nat>, ch: seq<nat>): nat
    requires 2 <= |fat|
  {
    Times(|ch| + CountFree(fat, 2), g.csize) * SS
  }

  /** Clusters are neither lost nor made: those of a file and the free ones together stay as many. */
  lemma ClustersConserved(g: Geometry, fat: seq<nat>, vol: seq<Sector>, ch: seq<nat>,
                          fat': seq<nat>, vol': seq<Sector>, ch': seq<nat>)
    requires OnlyFile(g, fat, vol, ch, fat', vol', ch') && FileChain(g, fat, ch)
    ensures 2 <= |fat| == |fat'| && |ch'| + CountFree(fat', 2) == |ch| + CountFree(fat, 2)
  {
    ChainEntries(g, fat, ch);
    ChainEntries(g, fat', ch');
    hide CountFree, FileChain, Sectors, OnlyTableAnd, IsChain, Layout, Clusters;
    EntriesConserved(fat, fat', ch, ch');
  }

  lemma EntriesConserved(fat: seq<nat>, fat': seq<nat>, ch: seq<nat>, ch': seq<nat>)
    requires OnlyChain(fat, fat', ch, ch') && 2 <= |fat|
    requires forall c :: c in ch ==> c < |fat| && fat[c] != 0
    requires forall c :: c in ch' ==> 2 <= c < |fat'| && fat'[c] != 0
    requires forall i, j :: 0 <= i < j < |ch'| ==> ch'[i] != ch'[j]
    ensures |ch'| + CountFree(fat', 2) == |ch| + CountFree(fat, 2)
  {
    hide CountFree;
    var more := ch'[|ch|..];
    assert ch' == ch + more;
    assert forall i :: 0 <= i < |more| ==> more[i] == ch'[|ch| + i];
    forall c | 2 <= c < |fat| && c !in more
      ensures fat'[c] == 0 <==> fat[c] == 0
    {
      if c in ch {
        assert c in ch';
      } else {
        assert c !in ch';
      }
    }
    FreeTaken(fat, fat', more);
  }

  lemma ChainEntries(g: Geometry, fat: seq<nat>, ch: seq<nat>)
    requires FileChain(g, fat, ch)
    ensures 2 <= |fat|
    ensures forall c :: c in ch ==> 2 <= c < |fat| && fat[c] != 0
    ensures forall i, j :: 0 <= i < j < |ch| ==> ch[i] != ch[j]
  {
    if ch != [] {
      ChainInUse(fat, ch);
    }
  }

  lemma {:induction false} FreeTaken(f: seq<nat>, f': seq<nat>, more: seq<nat>)
    requires 2 <= |f| == |f'| && forall i :: 0 <= i < |more| ==> 2 <= more[i] < |f| && f[more[i]] == 0
    requires forall i :: 0 <= i < |more| ==> f'[more[i]] != 0
    requires forall i, j :: 0 <= i < j < |more| ==> more[i] != more[j]
    requires forall c :: 2 <= c < |f| && c !in more ==> (f'[c] == 0 <==> f[c] == 0)
    ensures CountFree(f', 2) + |more| == CountFree(f, 2)
    decreases |more|
  {
    if more == [] {
      SameFree(f, f', 2);
    } else {
      var c := more[0];
      CountFreeUpdate(f, 2, c, 1);
      assert more == [c] + more[1..];
      FreeTaken(f[c := 1], f', more[1..]);
    }
  }

  lemma {:induction false} SameFree(f: seq<nat>, f': seq<nat>, lo: nat)
    requires lo <= |f| == |f'| && forall c :: lo <= c < |f| ==> (f'[c] == 0 <==> f[c] == 0)
    ensures CountFree(f', lo) == CountFree(f, lo)
    decreases |f| - lo
  {
    if lo < |f| {
      SameFree(f, f', lo + 1);
    }
  }

  lemma {:induction false} NoneCounted(fat: seq<nat>, lo: nat)
    requires 2 <= lo <= |fat| && NoneFree(fat)
    ensures CountFree(fat, lo) == 0
    decreases |fat| - lo
  {
    if lo < |fat| {
      NoneCounted(fat, lo + 1);
    }
  }

  /** The room in bytes. */
  lemma RoomInBytes(g: Geometry, fat: seq<nat>, ch: seq<nat>)
    requires 2 <= |fat|
    ensures Room(g, fat, ch) == (|ch| + CountFree(fat, 2)) * (g.csize * 512)
  {
    hide CountFree;
    ClusterBytes(|ch| + CountFree(fat, 2), g.csize);
  }

  /** The sectors of a file do not go beyond its room, and fill it when no cluster is free. */
  lemma UpToRoom(g: Geometry, fat: seq<nat>, vol: seq<Sector>, ch: seq<nat>,
                 fat': seq<nat>, vol': seq<Sector>, ch': seq<nat>)
    requires OnlyFile(g, fat, vol, ch, fat', vol', ch') && FileChain(g, fat, ch)
    ensures 2 <= |fat| && |Sectors(g, ch')| * SS <= Room(g, fat, ch)
    ensures NoneFree(fat') ==> |Sectors(g, ch')| * SS == Room(g, fat, ch)
  {
    hide CountFree, Sectors, FileChain, NoneFree, IsChain, Layout, OnlyChain, OnlyTableAnd, Clusters;
    ClustersConserved(g, fat, vol, ch, fat', vol', ch');
    SectorsLength(g, ch');
    if NoneFree(fat') {
      NoneCounted(fat', 2);
    }
    TimesGrows(|ch'|, |ch| + CountFree(fat, 2), g.csize);
  }

  function AtMost(n: nat, limit: nat): nat {
    if n <= limit then n else limit
  }

  /** Writing a file puts no error mark into the table. */
  lemma NoNewErrors(g: Geometry, f: seq<nat>, f': seq<nat>, a: seq<nat>, b: seq<nat>)
    requires OnlyChain(f, f', a, b) && FileChain(g, f', b)
    ensures INT_ERROR !in f ==> INT_ERROR !in f'
  {
    if b != [] {
      NoErrorOnChain(f', b);
    }
    forall c | 0 <= c < |f'| && f'[c] == INT_ERROR
      ensures f[c] == INT_ERROR
    {
      assert c !in b;
    }
  }

  lemma NoErrorOnChain(fat: seq<nat>, ch: seq<nat>)
    requires IsChain(fat, ch)
    ensures forall c :: c in ch ==> c < |fat| && fat[c] >= 2
  {
    forall i | 0 <= i < |ch|
      ensures fat[ch[i]] >= 2
    {
      assert i < |ch| - 1 ==> fat[ch[i]] == ch[i + 1];
    }
  }

  lemma SectorsPrefix(g: Geometry, a: seq<nat>, b: seq<nat>)
    requires Clusters(g, b) && a <= b
    ensures Clusters(g, a) && Sectors(g, a) <= Sectors(g, b)
    decreases |b|
  {
    if |a| < |b| {
      assert a <= b[..|b| - 1];
      SectorsPrefix(g, a, b[..|b| - 1]);
    } else {
      assert a == b;
    }
  }

  lemma NoSectors(g: Geometry, ch: seq<nat>)
    requires Clusters(g, ch)
    ensures ch == [] ==> Sectors(g, ch) == []
  {
  }

  lemma ErrorsWereThere(g: Geometry, fat: seq<nat>, vol: seq<Sector>, ch: seq<nat>,
                        fat': seq<nat>, vol': seq<Sector>, ch': seq<nat>)
    requires OnlyFile(g, fat, vol, ch, fat', vol', ch')
    ensures INT_ERROR !in fat ==> INT_ERROR !in fat'
  {
    NoNewErrors(g, fat, fat', ch, ch');
  }

  lemma OverwriteNothing(c: seq<Byte>, f: nat, d: seq<Byte>)
    requires f <= |c|
    ensures Overwrite(c, f, d[..0]) == c
  {
  }

  lemma OverwriteNext(c: seq<Byte>, f: nat, data: seq<Byte>, n: nat, w: nat)
    requires f <= |c| && n + w <= |data|
    ensures Overwrite(Overwrite(c, f, data[..n]), f + n, data[n..][..w]) == Overwrite(c, f, data[..n + w])
  {
    assert data[..n] + data[n..][..w] == data[..n + w];
    OverwriteTwice(c, f, data[..n], data[n..][..w]);
  }

  lemma NotMoved(g: Geometry, w: nat)
    ensures g.Moved(w, w)
  {
  }

  lemma MovedTwice(g: Geometry, a: nat, b: nat, c: nat)
    requires g.Moved(a, b) && g.Moved(b, c)
    ensures g.Moved(a, c)
  {
  }

  lemma ClusterBytes(k: nat, csize: nat)
    ensures k * (csize * SS) == Times(k, csize) * SS
  {
    TimesIsProduct(k, csize);
    assert k * (csize * SS) == (k * csize) * SS;
  }

  /** Why a call that may write fails: a transfer did, or there is an error mark in the table. */
  ghost predicate Blamed(res: FResult, reliable: bool, fat: seq<nat>) {
    res == Ok || (res == DiskErr && !reliable) || (res == IntErr && INT_ERROR in fat)
  }

  /** A file of n bytes is below 4 GiB and has room. */
  predicate Fits(n: nat, room: nat) {
    n <= 0xFFFF_FFFF && n <= room
  }

  lemma LimitIs(f: nat, n: nat)
    requires f <= 0xFFFF_FFFF && n <= 0xFFFF_FFFF
    ensures WriteLimit(f, n) == if f + n > 0xFFFF_FFFF then 0xFFFF_FFFF - f else n
  {
  }

  /** Bytes f_write takes of a request for n at offset f: a file stays below 4 GiB. */
  function WriteLimit(f: nat, n: nat): nat
    requires f <= 0xFFFF_FFFF
  {
    if (f + n) % 0x1_0000_0000 < f then 0xFFFF_FFFF - f else n
  }

  lemma SameOutsideFatItself(g: Geometry, a: seq<Sector>)
    ensures SameOutsideFat(g, a, a)
  {
  }

  lemma OnlyTableAndItself(g: Geometry, a: seq<Sector>, secs: seq<nat>)
    ensures OnlyTableAnd(g, a, a, secs)
  {
  }

  lemma VolIsDisk(fs: Volume, s: nat)
    requires fs.Valid() && s < fs.geo.nsect && s != fs.winsect
    ensures fs.Vol()[s] == fs.disk[s]
  {
  }

  /** disk_write to data sectors the window does not show: the table is out of reach. */
  method WriteData(fs: Volume, data: seq<Byte>, sector: nat, count: nat) returns (ok: bool)
    requires fs.Valid() && fs.geo.database <= sector && sector + count <= fs.geo.nsect
    requires |data| == count * SS && !(sector <= fs.winsect < sector + count)
    modifies fs`disk
    ensures fs.Valid() && Table(fs) == old(Table(fs))
    ensures fs.reliable && old(fs.MirrorsAgree()) ==> fs.MirrorsAgree()
    ensures forall s :: 0 <= s < fs.geo.nsect && !(sector <= s < sector + count) ==>
        fs.disk[s] == old(fs.disk)[s] && fs.Vol()[s] == old(fs.Vol())[s]
    ensures ok ==> forall k :: 0 <= k < count ==> fs.disk[sector + k] == Chunk(data, k)
    ensures ok && count == 1 ==> fs.disk == old(fs.disk)[sector := data]
    ensures fs.reliable ==> ok
  {
    ok := fs.DiskWrite(data, sector, count);
    AreaOutOfReach(fs.geo, old(fs.Vol()), fs.Vol());
  }

  lemma AreaOutOfReach(g: Geometry, a: seq<Sector>, b: seq<Sector>)
    requires g.Sound() && |a| == |b| == g.nsect
    requires forall s :: 0 <= s < g.database ==> a[s] == b[s]
    ensures Fat(g, a) == Fat(g, b)
  {
    assert FatArea(g, a) == FatArea(g, b);
  }

  lemma RunWritten(g: Geometry, a: seq<Sector>, b: seq<Sector>, secs: seq<nat>, j: nat, cc: nat)
    requires |a| == |b| && 0 < cc && j + cc <= |secs|
    requires forall i :: j <= i < j + cc ==> secs[i] == secs[j] + (i - j)
    requires forall x :: 0 <= x < |a| && !(secs[j] <= x < secs[j] + cc) ==> a[x] == b[x]
    ensures OnlyTableAnd(g, a, b, secs)
  {
    forall x | secs[j] <= x < secs[j] + cc
      ensures x in secs
    {
      assert secs[j + (x - secs[j])] == x;
    }
  }

  /** First cluster of a chain, as the directory entry holds it: 0 for none. */
  function Head(ch: seq<nat>): nat {
    if ch == [] then 0 else ch[0]
  }

  lemma HeadOfNone(g: Geometry, ch: seq<nat>)
    requires Clusters(g, ch)
    ensures Head(ch) == 0 <==> ch == []
  {
  }

  /** A file the window does not show is on the drive as it is on the volume. */
  lemma FileOnDisk(fs: Volume, secs: seq<nat>)
    requires fs.Valid() && Layout(fs.geo.nsect, secs) && fs.winsect !in secs
    ensures SameOn(secs, fs.Vol(), fs.disk)
  {
    forall i | 0 <= i < |secs|
      ensures fs.Vol()[secs[i]] == fs.disk[secs[i]]
    {
      VolIsDisk(fs, secs[i]);
    }
  }

  lemma DataKept(g: Geometry, ch: seq<nat>, a: seq<Sector>, b: seq<Sector>)
    requires ClustersFit(g) && Clusters(g, ch) && |a| == g.nsect && SameOutsideFat(g, a, b)
    ensures SameOn(Sectors(g, ch), a, b)
  {
    var secs := Sectors(g, ch);
    forall i | 0 <= i < |secs| && secs[i] < |a|
      ensures a[secs[i]] == b[secs[i]]
    {
      SectorsInData(g, ch, i);
    }
  }

  /** What looking for the k-th cluster of chain ch gives: there is none and none is free; or cluster r,
      of the chain as it is or appended to it. */
  ghost predicate Reached(g: Geometry, fat: seq<nat>, fat': seq<nat>, ch: seq<nat>, ch': seq<nat>, k: nat, r: nat) {
    && FileChain(g, fat', ch') && OnlyChain(fat, fat', ch, ch')
    && Clusters(g, ch) && Sectors(g, ch) <= Sectors(g, ch')
    && if r == 0 then
         ch' == ch && k == |ch| && fat' == fat && NoneFree(fat)
       else
         k < |ch'| && ch'[k] == r && (ch' == ch || (k == |ch| && ch' == ch + [r]))
  }

  /** The k-th cluster of the chain ch, which may have to be appended. */
  method NextCluster(fs: Volume, clst: nat, ghost ch: seq<nat>, ghost k: nat) returns (r: nat, ghost ch': seq<nat>)
    requires fs.Valid() && FileChain(fs.geo, Table(fs), ch) && fs.winsect !in Sectors(fs.geo, ch)
    requires k <= |ch| && (k == 0 ==> ch == []) && clst == if k == 0 then 0 else ch[k - 1]
    modifies fs`disk, fs`wflag, fs`winsect, fs`lastClst, fs`freeClst, fs`fsiDirty, fs.win
    ensures fs.Valid() && SameOutsideFat(fs.geo, old(fs.Vol()), fs.Vol())
    ensures fs.reliable && old(fs.MirrorsAgree()) ==> fs.MirrorsAgree()
    ensures fs.geo.Moved(old(fs.winsect), fs.winsect)
    ensures r == INT_ERROR ==> INT_ERROR in old(Table(fs))
    ensures r == DISK_ERROR ==> !fs.reliable
    ensures r != INT_ERROR && r != DISK_ERROR ==> Reached(fs.geo, old(Table(fs)), Table(fs), ch, ch', k, r)
    ensures OthersKept(fs.geo, old(Table(fs)), old(fs.Vol()), ch, Table(fs), fs.Vol())
    ensures Links(Table(fs), ch)
    ensures Clusters(fs.geo, ch') && fs.winsect !in Sectors(fs.geo, ch')
    ensures SameOn(Sectors(fs.geo, ch), old(fs.disk), fs.disk)
  {
    hide FatArea, Fat, Volume.Valid, Volume.Vol, Volume.MirrorsAgree, Reached, OthersKept;
    ghost var g, fat, secs := fs.geo, Table(fs), Sectors(fs.geo, ch);
    FileOnDisk(fs, secs);
    ch' := ch;
    if k > 0 {
      assert clst == ch[k - 1] && (k < |ch| ==> fat[clst] == ch[k]);
    }
    assert k == |ch| <==> Stretches(fat, clst);
    r := CreateChain(fs, clst);
    LinksKept(fat, Table(fs), ch, k, clst);
    OthersKeptInTable(g, fat, old(fs.Vol()), ch, Table(fs), fs.Vol());
    DataKept(g, ch, old(fs.Vol()), fs.Vol());
    WindowStaysOff(g, ch, old(fs.winsect), fs.winsect);
    FileOnDisk(fs, secs);
    if k < |ch| {
      ReachedHere(g, fat, ch, k);
    } else if r == 0 {
      ReachedNone(g, fat, ch);
    } else if 2 <= r < g.nFatent {
      ReachedLonger(g, fat, ch, r);
      ch' := ch + [r];
      WindowStaysOff(g, ch', DISK_ERROR, fs.winsect);
    }
  }

  lemma LinksKept(fat: seq<nat>, fat': seq<nat>, ch: seq<nat>, k: nat, clst: nat)
    requires ch == [] || IsChain(fat, ch)
    requires k <= |ch| && |fat'| == |fat| && (k < |ch| ==> fat' == fat) && (0 < k == |ch| ==> clst == ch[k - 1])
    requires forall c :: 0 <= c < |fat| && c != clst && fat[c] != 0 ==> fat'[c] == fat[c]
    ensures Links(fat', ch)
  {
    if ch != [] {
      ChainInUse(fat, ch);
    }
  }

  lemma ReachedHere(g: Geometry, fat: seq<nat>, ch: seq<nat>, k: nat)
    requires FileChain(g, fat, ch) && k < |ch|
    ensures Reached(g, fat, fat, ch, ch, k, ch[k])
  {
  }

  lemma ReachedNone(g: Geometry, fat: seq<nat>, ch: seq<nat>)
    requires FileChain(g, fat, ch) && NoneFree(fat)
    ensures Reached(g, fat, fat, ch, ch, |ch|, 0)
  {
  }

  lemma ReachedLonger(g: Geometry, fat: seq<nat>, ch: seq<nat>, r: nat)
    requires FileChain(g, fat, ch) && 2 <= r < |fat| && fat[r] == 0
    ensures Tail(ch) < |fat| && Clusters(g, ch + [r])
    ensures Reached(g, fat, Linked(fat, Tail(ch), r, EndMark(g.ty)), ch, ch + [r], |ch|, r)
  {
    hide IsChain, Sectors, Layout, ClustersFit, Geometry.Sound;
    LongerFile(g, fat, ch, r);
    OnlyChainLonger(fat, ch, r, EndMark(g.ty));
  }

  lemma OnlyChainLonger(fat: seq<nat>, ch: seq<nat>, r: nat, mark: nat)
    requires Tail(ch) < |fat| && 2 <= r < |fat| && fat[r] == 0
    ensures OnlyChain(fat, Linked(fat, Tail(ch), r, mark), ch, ch + [r])
  {
    assert r in ch + [r];
    assert ch != [] ==> Tail(ch) in ch + [r];
  }

  /** get_fat on the cluster before the k-th of a chain. */
  method FollowChain(fs: Volume, clst: nat, ghost ch: seq<nat>, ghost k: nat) returns (r: nat)
    requires fs.Valid() && FileChain(fs.geo, Table(fs), ch) && fs.winsect !in Sectors(fs.geo, ch)
    requires 0 < k < |ch| && clst == ch[k - 1]
    modifies fs`disk, fs`wflag, fs`winsect, fs.win
    ensures fs.Valid() && SameOutsideFat(fs.geo, old(fs.Vol()), fs.Vol()) && Table(fs) == old(Table(fs))
    ensures fs.reliable && old(fs.MirrorsAgree()) ==> fs.MirrorsAgree()
    ensures fs.geo.Moved(old(fs.winsect), fs.winsect)
    ensures r == ch[k] || (r == DISK_ERROR && !fs.reliable)
    ensures fs.winsect !in Sectors(fs.geo, ch)
    ensures SameOn(Sectors(fs.geo, ch), old(fs.disk), fs.disk)
  {
    hide FatArea, Fat, Volume.Valid, Volume.Vol, Volume.MirrorsAgree;
    FileOnDisk(fs, Sectors(fs.geo, ch));
    assert Table(fs)[ch[k - 1]] == ch[k];
    r := fs.GetFat(clst);
    DataKept(fs.geo, ch, old(fs.Vol()), fs.Vol());
    WindowStaysOff(fs.geo, ch, old(fs.winsect), fs.winsect);
    FileOnDisk(fs, Sectors(fs.geo, ch));
  }

  /** clust2sect: 0 for no cluster. */
  method ClusterToSector(g: Geometry, clst: nat) returns (s: nat)
    requires ClustersFit(g)
    ensures 2 <= clst < g.nFatent ==> s == ClusterSector(g, clst) && s != 0
    ensures !(2 <= clst < g.nFatent) ==> s == 0
  {
    if clst < 2 || clst - 2 >= g.nFatent - 2 {
      return 0;
    }
    TimesIsProduct(clst - 2, g.csize);
    s := (clst - 2) * g.csize + g.database;
  }

  class File {
    const fs: Volume
    const canRead: bool
    const canWrite: bool
    var sclust: nat
    var objsize: nat
    var fptr: nat
    /** Cluster of the byte before fptr; meaningless at offset 0. */
    var clust: nat
    /** The sector in buf, 0 for none; not yet written back if dirty. */
    var sect: nat
    const buf: array<Byte>
    var dirty: bool
    var modified: bool
    var err: FResult
    /** The clusters and sectors of the file. */
    ghost var chain: seq<nat>
    ghost var secs: seq<nat>

    /** Everything but the buffer. */
    ghost predicate Shape()
      reads this, fs`disk, fs`wflag, fs`winsect, fs.win
      ensures Shape() ==> fs.Valid() && buf.Length == SS && objsize <= |secs| * SS && Layout(fs.geo.nsect, secs)
    {
      && fs.Valid() && FileChain(fs.geo, Table(fs), chain)
      && secs == Sectors(fs.geo, chain) && sclust == Head(chain)
      && buf.Length == SS && buf != fs.win
      && fptr <= objsize <= |secs| * SS && objsize <= 0xFFFF_FFFF
      && fs.winsect !in secs
    }

    ghost predicate Base()
      reads this, buf, fs`disk, fs`wflag, fs`winsect, fs.win
    {
      Shape() && Buffered(secs, fs.disk, sect, dirty, buf[..])
    }

    /** The drive as the file sees it, with a dirty buffer laid over it. */
    ghost function Img(): (v: seq<Sector>)
      requires Base()
      reads this, buf, fs`disk, fs`wflag, fs`winsect, fs.win
      ensures |v| == fs.geo.nsect
    {
      Overlaid(fs.disk, sect, dirty, buf[..])
    }

    /** The bytes of the file. */
    ghost function Content(): (c: seq<Byte>)
      requires Base()
      reads this, buf, fs`disk, fs`wflag, fs`winsect, fs.win
      ensures |c| == objsize
    {
      FileBytes(Img(), secs, objsize)
    }

    /** What a failure leaves of a file: the links of its chain, and on its sectors, with a dirty buffer laid over
        them, the bytes c, those from lo to hi aside. */
    ghost predicate Spared(c: seq<Byte>, lo: nat, hi: nat)
      reads `dirty, `sect, `objsize, `chain, `secs, buf, fs`disk, fs`wflag, fs`winsect, fs.win
    {
      && fs.Valid() && buf.Length == SS && (dirty ==> sect < |fs.disk|)
      && Clusters(fs.geo, chain) && secs == Sectors(fs.geo, chain) && Links(Table(fs), chain)
      && |c| <= objsize && Holds(Overlaid(fs.disk, sect, dirty, buf[..]), secs, c, lo, hi)
    }

    /** What is spared, byte by byte: in the buffer where that is dirty, else on the drive. */
    lemma SparedByte(c: seq<Byte>, lo: nat, hi: nat, p: nat)
      requires Spared(c, lo, hi) && p < |c| && !(lo <= p < hi)
      ensures p / 512 < |secs| && secs[p / 512] < |fs.disk|
      ensures c[p] == if dirty && secs[p / 512] == sect then buf[p % 512] else fs.disk[secs[p / 512]][p % 512]
    {
      hide FatArea, Fat, Volume.Valid, Volume.Vol, Sectors;
      Place(p);
      assert SectorOf(p) == p / 512 && OffsetOf(p) == p % 512;
    }

    lemma BaseSpares(lo: nat, hi: nat)
      requires Base()
      ensures Spared(Content(), lo, hi) && Links(Table(fs), chain)
    {
      hide FatArea, Fat, Volume.Valid, Volume.Vol, FileBytes, Sectors, Holds;
      SameOnItself(secs, Img());
      HoldsIfSame(Img(), Img(), secs, objsize, lo, hi);
    }

    lemma SparesLess(c: seq<Byte>, c': seq<Byte>, lo: nat, hi: nat, lo': nat, hi': nat)
      requires Spared(c, lo, hi) && c' <= c && (hi <= lo || (lo' <= lo && hi <= hi'))
      ensures Spared(c', lo', hi')
    {
      hide FatArea, Fat, Volume.Valid, Volume.Vol, FileBytes, Sectors, Holds, Overlaid;
      HoldsLess(Overlaid(fs.disk, sect, dirty, buf[..]), secs, c, c', lo, hi, lo', hi');
    }

    /** The buffer is clean: the drive itself holds the bytes. */
    lemma CleanSpares(img: seq<Sector>, lo: nat, hi: nat)
      requires Shape() && !dirty && Layout(|img|, secs)
      requires Holds(fs.disk, secs, FileBytes(img, secs, objsize), lo, hi)
      ensures Spared(FileBytes(img, secs, objsize), lo, hi)
    {
      hide FatArea, Fat, Volume.Valid, Volume.Vol, FileBytes, Sectors, Holds;
    }

    /** clust is the cluster of the j-th sector. */
    ghost predicate OnSector(j: nat)
      reads this
    {
      j < |secs| && ClusterOf(fs.geo, j) < |chain| && clust == chain[ClusterOf(fs.geo, j)]
    }

    ghost predicate Valid()
      reads this, buf, fs`disk, fs`wflag, fs`winsect, fs.win
    {
      && Base()
      && (fptr > 0 ==> OnSector(SectorOf(fptr - 1)))
      && (OffsetOf(fptr) != 0 ==> SectorOf(fptr) < |secs| && sect == secs[SectorOf(fptr)])
    }

    /** The state f_open leaves for a file whose directory entry names sclust and objsize. */
    constructor (fs: Volume, canRead: bool, canWrite: bool, objsize: nat, ghost chain: seq<nat>, sclust: nat)
      requires fs.Valid() && FileChain(fs.geo, Table(fs), chain) && sclust == Head(chain)
      requires objsize <= |Sectors(fs.geo, chain)| * SS && objsize <= 0xFFFF_FFFF
      requires fs.winsect !in Sectors(fs.geo, chain)
      ensures Valid() && fresh(buf)
      ensures this.fs == fs && this.canRead == canRead && this.canWrite == canWrite && this.chain == chain
      ensures fptr == 0 && this.objsize == objsize && err == Ok
      ensures Content() == FileBytes(fs.disk, secs, objsize)
    {
      this.fs, this.canRead, this.canWrite := fs, canRead, canWrite;
      this.sclust, this.objsize, this.chain := sclust, objsize, chain;
      secs := Sectors(fs.geo, chain);
      fptr, clust, sect, dirty, modified, err := 0, 0, 0, false, false, Ok;
      buf := new Byte[SS](_ => 0);
    }

    /** Write back a dirty buffer. */
    method Flush() returns (ok: bool)
      requires Base()
      modifies `dirty, fs`disk
      ensures Base() && Img() == old(Img()) && Content() == old(Content())
      ensures ok ==> !dirty
      ensures !ok ==> !fs.reliable
      ensures Table(fs) == old(Table(fs)) && OnlyTableAnd(fs.geo, old(fs.Vol()), fs.Vol(), secs)
      ensures fs.reliable && old(fs.MirrorsAgree()) ==> fs.MirrorsAgree()
    {
      hide FatArea, Fat, FileBytes, Sectors, Layout, FileChain;
      hide Volume.Valid, Volume.Vol, Volume.MirrorsAgree, Geometry.Sound;
      ok := true;
      if dirty {
        ghost var j :| 0 <= j < |secs| && secs[j] == sect;
        SectorsInData(fs.geo, chain, j);
        ok := WriteData(fs, buf[..], sect, 1);
        if ok {
          dirty := false;
        }
      }
    }

    /** clust is the k-th cluster of the file. */
    ghost predicate AtCluster(k: nat)
      reads `clust, `chain
    {
      k < |chain| && clust == chain[k]
    }

    /** Nothing but the table changed on the drive since it was disk0. */
    lemma StillSpared(disk0: seq<Sector>)
      requires fs.Valid() && buf.Length == SS && Buffered(secs, disk0, sect, dirty, buf[..])
      requires Layout(|disk0|, secs) && objsize <= |secs| * SS && SameOn(secs, disk0, fs.disk)
      requires Clusters(fs.geo, chain) && secs == Sectors(fs.geo, chain) && Links(Table(fs), chain)
      ensures Spared(FileBytes(Overlaid(disk0, sect, dirty, buf[..]), secs, objsize), 0, 0)
    {
      hide FatArea, Fat, Volume.Valid, Volume.Vol, Sectors, SameOn, FileBytes, Overlaid, Holds, Links, Layout;
      BufferKept(secs, secs, disk0, fs.disk, sect, dirty, buf[..]);
      HoldsIfSame(Overlaid(disk0, sect, dirty, buf[..]), Overlaid(fs.disk, sect, dirty, buf[..]), secs, objsize, 0, 0);
    }

    /** From the cluster before the k-th to the k-th, stretching the chain if it ends there. */
    method StretchTo(clst: nat, ghost k: nat) returns (res: FResult, r: nat)
      requires Base() && k <= |chain| && (k == 0 ==> chain == [] && clst == 0)
      requires k > 0 ==> clst == chain[k - 1]
      modifies `sclust, `clust, `chain, `secs
      modifies fs`disk, fs`wflag, fs`winsect, fs`lastClst, fs`freeClst, fs`fsiDirty, fs.win
      ensures fs.Valid()
      ensures old(chain) <= chain
      ensures res != Ok ==> Spared(old(Content()), 0, 0)
      ensures OthersKept(fs.geo, old(Table(fs)), old(fs.Vol()), old(chain), Table(fs), fs.Vol())
      ensures res == Ok ==> Base() && Content() == old(Content())
      ensures res == Ok && r != 0 ==> r == clust && AtCluster(k)
      ensures res == Ok && r == 0 ==> NoneFree(Table(fs)) && k == |chain| && chain == old(chain) && clust == old(clust)
      ensures res == Ok ==>
          OnlyFile(fs.geo, old(Table(fs)), old(fs.Vol()), old(chain), Table(fs), fs.Vol(), chain)
      ensures res == Ok && k < |old(chain)| ==> chain == old(chain)
      ensures Blamed(res, fs.reliable, old(Table(fs)))
      ensures fs.reliable && old(fs.MirrorsAgree()) ==> fs.MirrorsAgree()
      ensures fs.geo.Moved(old(fs.winsect), fs.winsect)
    {
      hide FatArea, Fat, Volume.Valid, Volume.Vol, Volume.MirrorsAgree, FileBytes, Layout, Sectors, SectorOf;
      hide OffsetOf, ClusterOf, WithinIt;
      hide Geometry.Sound, ClustersFit, Buffered, FileChain, SameOn, Overwrite;
      hide Overlaid, OthersKept, Links, Spared;
      ghost var disk0, secs0 := fs.disk, secs;
      ghost var ch;
      r, ch := NextCluster(fs, clst, chain, k);
      if r == INT_ERROR || r == DISK_ERROR {
        StillSpared(disk0);
        return if r == INT_ERROR then IntErr else DiskErr, r;
      }
      BufferKept(secs, Sectors(fs.geo, ch), disk0, fs.disk, sect, dirty, buf[..]);
      HeadOfNone(fs.geo, chain);
      if r != 0 {
        clust := r;
        if clst == 0 { sclust := r; }
        chain, secs := ch, Sectors(fs.geo, ch);
      }
      res := Ok;
      SameBytesLonger(old(Img()), Img(), secs0, secs, objsize);
    }

    /** pos is behind the last cluster of the file, and no cluster is free. */
    ghost predicate Full(pos: nat)
      requires fs.Valid()
      reads `secs, fs`disk, fs`wflag, fs`winsect, fs.win
    {
      pos == |secs| * SS && NoneFree(Table(fs))
    }

    /** Cluster boundary in f_write: follow the chain, or stretch it by a cluster. */
    method ClusterForWrite() returns (res: FResult, full: bool)
      requires Valid() && OffsetOf(fptr) == 0 && WithinIt(fs.geo, SectorOf(fptr)) == 0
      modifies `sclust, `clust, `chain, `secs
      modifies fs`disk, fs`wflag, fs`winsect, fs`lastClst, fs`freeClst, fs`fsiDirty, fs.win
      ensures fs.Valid()
      ensures old(chain) <= chain
      ensures res != Ok ==> Spared(old(Content()), 0, 0)
      ensures res != Ok ==> OthersKept(fs.geo, old(Table(fs)), old(fs.Vol()), old(chain), Table(fs), fs.Vol())
      ensures res == Ok ==> Base() && Content() == old(Content())
      ensures res == Ok && !full ==> OnSector(SectorOf(fptr))
      ensures res == Ok && full ==> Valid() && Full(fptr)
      ensures res == Ok ==>
          OnlyFile(fs.geo, old(Table(fs)), old(fs.Vol()), old(chain), Table(fs), fs.Vol(), chain)
      ensures Blamed(res, fs.reliable, old(Table(fs)))
      ensures fs.reliable && old(fs.MirrorsAgree()) ==> fs.MirrorsAgree()
      ensures fs.geo.Moved(old(fs.winsect), fs.winsect)
    {
      hide FatArea, Fat, Volume.Valid, Volume.Vol, Volume.MirrorsAgree, FileBytes, Layout, Sectors, SectorOf;
      hide OffsetOf, ClusterOf, WithinIt;
      hide Geometry.Sound, ClustersFit, Buffered, FileChain, SameOn, Overwrite, NoneFree;
      hide OnlyFile, OthersKept, Overlaid, Spared;
      ghost var j := SectorOf(fptr);
      ghost var k := ClusterOf(fs.geo, j);
      AtBoundary();
      HeadOfNone(fs.geo, chain);
      OnlyFileItself(fs.geo, Table(fs), fs.Vol(), chain);
      var clst := sclust;
      res := Ok;
      if fptr != 0 {
        res, clst := StretchTo(clust, k);
      } else if clst == 0 {
        res, clst := StretchTo(0, k);
      }
      full := clst == 0;
      if res == Ok && full {
        AtBoundary();
      }
      if res == Ok && !full {
        clust := clst;
        Boundary(fs.geo, chain, j);
      }
    }

    /** fptr at the start of a cluster: the cluster before it is the current one. */
    lemma AtBoundary()
      requires Valid() && OffsetOf(fptr) == 0 && WithinIt(fs.geo, SectorOf(fptr)) == 0
      ensures fs.geo.csize > 0
      ensures var j := SectorOf(fptr); var k := ClusterOf(fs.geo, j);
          && j <= |secs| && k <= |chain| && (k < |chain| <==> j < |secs|) && fptr == j * SS
          && (fptr == 0 ==> k == 0) && (fptr > 0 ==> k > 0 && clust == chain[k - 1])
    {
      hide FatArea, Fat, Volume.Valid, Volume.Vol, SectorOf, OffsetOf, ClusterOf, WithinIt, Sectors, IsChain, Layout;
      var j := SectorOf(fptr);
      Place(fptr);
      Boundary(fs.geo, chain, j);
      if fptr > 0 {
        PlaceUnique(j - 1, SS - 1);
      }
    }

    /** clust2sect and the offset in the cluster: the sector fptr is at. */
    method SectorAtPointer() returns (s: nat)
      requires Base() && OnSector(SectorOf(fptr))
      ensures s == secs[SectorOf(fptr)] && s != 0
    {
      hide FatArea, Fat, Volume.Valid, Volume.Vol, FileBytes, Layout, Buffered, IsChain, Sectors;
      hide ClusterSector, ClusterOf, WithinIt;
      ghost var j := SectorOf(fptr);
      SectorByNumber(fs.geo, chain, j);
      SectorsInData(fs.geo, chain, j);
      s := ClusterToSector(fs.geo, clust);
      s := s + WithinIt(fs.geo, SectorOf(fptr));
    }

    /** The bytes d are in place from fptr on, in a file that was c; fptr and the size still stand before them. */
    ghost predicate Placed(c: seq<Byte>, d: seq<Byte>)
      reads this, buf, fs`disk, fs`wflag, fs`winsect, fs.win
    {
      && Base() && 0 < |d| && fptr <= |c| && fptr + |d| <= |secs| * SS
      && FileBytes(Img(), secs, Max(objsize, fptr + |d|)) == Overwrite(c, fptr, d)
      && OnSector(SectorOf(fptr + |d| - 1))
      && (OffsetOf(fptr + |d|) != 0 ==> SectorOf(fptr + |d|) < |secs| && sect == secs[SectorOf(fptr + |d|)])
    }

    /** The step of the loop in f_write: over the bytes written. */
    method Advance(ghost c: seq<Byte>, ghost d: seq<Byte>, wcnt: nat)
      requires Placed(c, d) && wcnt == |d| && fptr + |d| <= 0xFFFF_FFFF
      modifies `fptr, `objsize
      ensures Valid() && Content() == Overwrite(c, old(fptr), d) && fptr == old(fptr) + wcnt
    {
      hide FatArea, Fat, Volume.Valid, Volume.Vol, FileBytes, Layout, Sectors, SectorOf, OffsetOf, ClusterOf, WithinIt;
      hide Geometry.Sound, FileChain, Overwrite, Buffered;
      fptr := fptr + wcnt;
      objsize := if fptr > objsize then fptr else objsize;
    }

    /** The buffer takes its sector from data that went past it. */
    method Refill(d: seq<Byte>, cc: nat, s: nat)
      requires !dirty && buf.Length == SS && |d| == cc * SS
      modifies `dirty, buf
      ensures !dirty && buf[..] == if s <= sect < s + cc then Chunk(d, sect - s) else old(buf[..])
    {
      if s <= sect < s + cc {
        var piece := Chunk(d, sect - s);
        forall q | 0 <= q < SS {
          buf[q] := piece[q];
        }
        assert buf[..] == piece;
        dirty := false;
      }
    }

    /** f_write of whole sectors straight from the caller's data. */
    method PutSectors(d: seq<Byte>, cc: nat, s: nat) returns (ok: bool)
      requires Base() && !dirty && OffsetOf(fptr) == 0 && OnSector(SectorOf(fptr)) && s == secs[SectorOf(fptr)]
      requires 0 < cc && WithinIt(fs.geo, SectorOf(fptr)) + cc <= fs.geo.csize && |d| == cc * SS
      modifies `dirty, buf, fs`disk
      ensures ok ==> Placed(old(Content()), d)
      ensures !ok ==> !fs.reliable && Spared(old(Content()), fptr, fptr + |d|)
      ensures fs.Valid() && Table(fs) == old(Table(fs)) && OnlyTableAnd(fs.geo, old(fs.Vol()), fs.Vol(), secs)
      ensures fs.reliable && old(fs.MirrorsAgree()) ==> fs.MirrorsAgree()
    {
      hide FatArea, Fat, Volume.Valid, Volume.Vol, Volume.MirrorsAgree, FileBytes, Layout, Sectors, SectorOf;
      hide OffsetOf, ClusterOf, WithinIt;
      hide Geometry.Sound, Clusters, ClustersFit, Buffered, FileChain, SameOn, Chunk, Overwrite, OnlyTableAnd, Holds;
      hide Spared, IsChain, Links, Placed, Table;
      ghost var j, disk0, b0 := SectorOf(fptr), fs.disk, buf[..];
      Place(fptr);
      PlaceUnique(j + cc, 0);
      PlaceUnique(j + cc - 1, SS - 1);
      ClusterRun(fs.geo, chain, j, cc);
      WindowOff(secs, j, cc, fs.winsect);
      ok := WriteData(fs, d, s, cc);
      RunWritten(fs.geo, old(fs.Vol()), fs.Vol(), secs, j, cc);
      if !ok {
        HoldsTheRest(disk0, fs.disk, secs, objsize, j, cc);
        CleanSpares(disk0, fptr, fptr + |d|);
      } else {
        Refill(d, cc, s);
        assert fs.Valid() && Table(fs) == old(Table(fs));
        DirectlyWritten(secs, objsize, j, cc, d, disk0, fs.disk, sect, b0, buf[..]);
        IsPlaced(old(Content()), d);
      }
    }

    lemma IsPlaced(c: seq<Byte>, d: seq<Byte>)
      requires Shape() && Buffered(secs, fs.disk, sect, dirty, buf[..]) && 0 < |d|
      requires fptr <= |c| && fptr + |d| <= |secs| * SS && OnSector(SectorOf(fptr + |d| - 1))
      requires OffsetOf(fptr + |d|) != 0 ==> SectorOf(fptr + |d|) < |secs| && sect == secs[SectorOf(fptr + |d|)]
      requires dirty ==> sect < |fs.disk|
      requires FileBytes(Overlaid(fs.disk, sect, dirty, buf[..]), secs, Max(objsize, fptr + |d|)) ==
               Overwrite(c, fptr, d)
      ensures Placed(c, d)
    {
      hide FatArea, Fat, Volume.Valid, Volume.Vol, FileBytes, Layout, Sectors, SectorOf, OffsetOf, Buffered, FileChain;
      hide Overlaid;
    }

    /** The sector of fptr is in the buffer as far as the file, which is c, has bytes there; clust is its cluster. */
    ghost predicate Ready(c: seq<Byte>)
      reads this, buf, fs`disk, fs`wflag, fs`winsect, fs.win
    {
      && Shape() && OnSector(SectorOf(fptr)) && sect == secs[SectorOf(fptr)] && 0 != sect < |fs.disk|
      && (dirty || forall q :: 0 <= q < SS && SectorOf(fptr) * SS + q < objsize ==> buf[q] == fs.disk[sect][q])
      && FileBytes(Overlaid(fs.disk, sect, dirty, buf[..]), secs, objsize) == c
    }

    /** f_write of less than a sector: the buffer moves to sector s, loaded only if the file has bytes there. */
    method LoadForWrite(s: nat) returns (ok: bool)
      requires Base() && !dirty && OffsetOf(fptr) == 0
      requires OnSector(SectorOf(fptr)) && s == secs[SectorOf(fptr)] && s != 0
      modifies `sect, buf
      ensures ok ==> Ready(old(Content()))
      ensures !ok ==> !fs.reliable && Spared(old(Content()), 0, 0)
    {
      hide FatArea, Fat, Volume.Valid, Volume.Vol, FileBytes, Sectors, FileChain, Holds, Spared;
      Place(fptr);
      ok := true;
      if sect != s && fptr < objsize {
        var data;
        ok, data := fs.DiskRead(s, 1);
        forall q | 0 <= q < SS {
          buf[q] := data[q];
        }
      }
      if ok {
        sect := s;
      } else {
        SameOnItself(secs, fs.disk);
        HoldsIfSame(fs.disk, fs.disk, secs, objsize, 0, 0);
        CleanSpares(fs.disk, 0, 0);
      }
    }

    method PutInBuffer(d: seq<Byte>, o: nat)
      requires o + |d| <= buf.Length
      modifies buf
      ensures buf[..] == old(buf[..o]) + d + old(buf[o + |d|..])
    {
      forall q | 0 <= q < |d| {
        buf[o + q] := d[q];
      }
    }

    /** mem_cpy of at most the rest of a sector into the buffer. */
    method CopyIn(d: seq<Byte>, ghost c: seq<Byte>)
      requires Ready(c) && 0 < |d| && OffsetOf(fptr) + |d| <= SS
      modifies `dirty, buf
      ensures Placed(c, d)
    {
      hide FatArea, Fat, Volume.Valid, Volume.Vol, FileBytes, Sectors, SectorOf, OffsetOf, ClusterOf;
      hide WithinIt, FileChain;
      hide Geometry.Sound, Buffered, Overlaid, Overwrite, Placed, Table, IsChain;
      ghost var j, b := SectorOf(fptr), buf[..];
      var o := OffsetOf(fptr);
      Place(fptr);
      PlaceUnique(j, o + |d| - 1);
      PutInBuffer(d, o);
      CopiedIn(secs, objsize, j, o, d, fs.disk, dirty, b, buf[..]);
      dirty := true;
      if o + |d| < SS {
        PlaceUnique(j, o + |d|);
      } else {
        PlaceUnique(j + 1, 0);
      }
      IsPlaced(c, d);
    }

    /** fptr inside a sector: that is the sector in the buffer, and clust its cluster. */
    lemma InsideSector()
      requires Valid() && OffsetOf(fptr) != 0
      ensures OnSector(SectorOf(fptr)) && sect == secs[SectorOf(fptr)] && sect != 0
      ensures dirty || buf[..] == fs.disk[sect]
    {
      hide FatArea, Fat, Volume.Valid, Volume.Vol, FileBytes, Layout, Sectors, SectorOf, OffsetOf, ClusterOf;
      hide WithinIt, Clusters;
      Place(fptr);
      PlaceUnique(SectorOf(fptr), OffsetOf(fptr) - 1);
      SectorsInData(fs.geo, chain, SectorOf(fptr));
    }

    /** fptr at a sector boundary inside a cluster: clust is that cluster. */
    lemma InsideCluster()
      requires Valid() && OffsetOf(fptr) == 0
      ensures fs.geo.csize > 0
      ensures WithinIt(fs.geo, SectorOf(fptr)) != 0 ==> OnSector(SectorOf(fptr))
    {
      hide FatArea, Fat, Volume.Valid, Volume.Vol, FileBytes, Layout, Sectors, SectorOf, OffsetOf, ClusterOf;
      hide WithinIt, Clusters;
      var j := SectorOf(fptr);
      Place(fptr);
      if WithinIt(fs.geo, j) != 0 {
        WithinCluster(fs.geo, chain, j);
        PlaceUnique(j - 1, SS - 1);
      }
    }

    /** What one pass of the loop in f_write has done: some bytes are in place, or the drive is full. */
    ghost predicate Wrote(c: seq<Byte>, d: seq<Byte>, wcnt: nat)
      reads this, buf, fs`disk, fs`wflag, fs`winsect, fs.win
    {
      wcnt <= |d| &&
      if wcnt > 0 then Placed(c, d[..wcnt]) else Valid() && Content() == c && Full(fptr)
    }

    /** Sector boundary in f_write: the cluster is there, the buffer is written back, s is the sector of fptr. */
    method StartSector() returns (res: FResult, full: bool, s: nat)
      requires Valid() && OffsetOf(fptr) == 0
      modifies `sclust, `clust, `chain, `secs, `dirty
      modifies fs`disk, fs`wflag, fs`winsect, fs`lastClst, fs`freeClst, fs`fsiDirty, fs.win
      ensures fs.Valid()
      ensures old(chain) <= chain
      ensures res != Ok ==> Spared(old(Content()), 0, 0)
      ensures res != Ok ==> OthersKept(fs.geo, old(Table(fs)), old(fs.Vol()), old(chain), Table(fs), fs.Vol())
      ensures fs.geo.csize > 0
      ensures res == Ok ==> Base() && Content() == old(Content())
      ensures res == Ok ==> if full then Valid() && Full(fptr) else
          !dirty && OnSector(SectorOf(fptr)) && s == secs[SectorOf(fptr)] && s != 0
      ensures res == Ok ==>
          OnlyFile(fs.geo, old(Table(fs)), old(fs.Vol()), old(chain), Table(fs), fs.Vol(), chain)
      ensures Blamed(res, fs.reliable, old(Table(fs)))
      ensures fs.reliable && old(fs.MirrorsAgree()) ==> fs.MirrorsAgree()
      ensures fs.geo.Moved(old(fs.winsect), fs.winsect)
    {
      hide FatArea, Fat, Volume.Valid, Volume.Vol, Volume.MirrorsAgree, FileBytes, Layout, Sectors, SectorOf;
      hide OffsetOf, ClusterOf, WithinIt;
      hide Geometry.Sound, Clusters, ClustersFit, Buffered, FileChain, SameOn, Overwrite, NoneFree;
      hide OthersKept, Spared;
      ghost var fat0, vol0, ch0 := Table(fs), fs.Vol(), chain;
      InsideCluster();
      res, full, s := Ok, false, 0;
      if WithinIt(fs.geo, SectorOf(fptr)) == 0 {
        res, full := ClusterForWrite();
      }
      if res == Ok && !full {
        var ok := Flush();
        if ok {
          s := SectorAtPointer();
        } else {
          res := DiskErr;
          BaseSpares(0, 0);
          OthersKeptByFile(fs.geo, fat0, vol0, ch0, Table(fs), fs.Vol(), chain);
        }
      }
    }

    /** Sector boundary in f_write: whole sectors are written, or the drive is full, or the buffer is made ready. */
    method WriteSectors(d: seq<Byte>) returns (res: FResult, done: bool, wcnt: nat)
      requires Valid() && 0 < |d| && OffsetOf(fptr) == 0
      modifies `sclust, `clust, `chain, `secs, `sect, `dirty, buf
      modifies fs`disk, fs`wflag, fs`winsect, fs`lastClst, fs`freeClst, fs`fsiDirty, fs.win
      ensures fs.Valid()
      ensures old(chain) <= chain
      ensures res != Ok ==> Spared(old(Content()), fptr, fptr + |d|)
      ensures res != Ok ==> OthersKept(fs.geo, old(Table(fs)), old(fs.Vol()), old(chain), Table(fs), fs.Vol())
      ensures res == Ok ==> if done then Wrote(old(Content()), d, wcnt) else Ready(old(Content()))
      ensures res == Ok ==>
          OnlyFile(fs.geo, old(Table(fs)), old(fs.Vol()), old(chain), Table(fs), fs.Vol(), chain)
      ensures Blamed(res, fs.reliable, old(Table(fs)))
      ensures fs.reliable && old(fs.MirrorsAgree()) ==> fs.MirrorsAgree()
      ensures fs.geo.Moved(old(fs.winsect), fs.winsect)
    {
      hide FatArea, Fat, Volume.Valid, Volume.Vol, Volume.MirrorsAgree, FileBytes, Layout, Sectors, SectorOf;
      hide OffsetOf, ClusterOf, WithinIt;
      hide Geometry.Sound, Clusters, ClustersFit, Buffered, FileChain, SameOn, Overwrite, NoneFree;
      hide OthersKept, Spared;
      hide Ready;
      ghost var fat0, vol0, ch0 := Table(fs), fs.Vol(), chain;
      var full, s;
      wcnt := 0;
      res, full, s := StartSector();
      done := true;
      if res != Ok {
        SparesLess(old(Content()), old(Content()), 0, 0, fptr, fptr + |d|);
      }
      if res != Ok || full { return; }
      var ok;
      var csect, cc := WithinIt(fs.geo, SectorOf(fptr)), |d| / SS;
      if cc > 0 {
        if csect + cc > fs.geo.csize {
          cc := fs.geo.csize - csect;
        }
        wcnt := SS * cc;
        ok := PutSectors(d[..wcnt], cc, s);
        if !ok {
          SparesLess(old(Content()), old(Content()), fptr, fptr + wcnt, fptr, fptr + |d|);
        }
      } else {
        ok := LoadForWrite(s);
        done := false;
        if !ok {
          SparesLess(old(Content()), old(Content()), 0, 0, fptr, fptr + |d|);
        }
      }
      OthersKeptByFile(fs.geo, fat0, vol0, ch0, Table(fs), fs.Vol(), chain);
      res := if ok then Ok else DiskErr;
    }

    /** One pass of the loop in f_write. */
    method WriteStep(d: seq<Byte>) returns (res: FResult, wcnt: nat)
      requires Valid() && 0 < |d|
      modifies `sclust, `clust, `chain, `secs, `sect, `dirty, buf
      modifies fs`disk, fs`wflag, fs`winsect, fs`lastClst, fs`freeClst, fs`fsiDirty, fs.win
      ensures fs.Valid()
      ensures old(chain) <= chain
      ensures res != Ok ==> Spared(old(Content()), fptr, fptr + |d|)
      ensures res != Ok ==> OthersKept(fs.geo, old(Table(fs)), old(fs.Vol()), old(chain), Table(fs), fs.Vol())
      ensures res == Ok ==> Wrote(old(Content()), d, wcnt)
      ensures res == Ok ==>
          OnlyFile(fs.geo, old(Table(fs)), old(fs.Vol()), old(chain), Table(fs), fs.Vol(), chain)
      ensures Blamed(res, fs.reliable, old(Table(fs)))
      ensures fs.reliable && old(fs.MirrorsAgree()) ==> fs.MirrorsAgree()
      ensures fs.geo.Moved(old(fs.winsect), fs.winsect)
    {
      hide FatArea, Fat, Volume.Valid, Volume.Vol, Volume.MirrorsAgree, FileBytes, Layout, Sectors, SectorOf;
      hide OffsetOf, ClusterOf, WithinIt;
      hide Geometry.Sound, Clusters, ClustersFit, Buffered, FileChain, SameOn, Overwrite, NoneFree;
      hide OthersKept, Spared, Ready;
      ghost var fat0, vol0, ch0 := Table(fs), fs.Vol(), chain;
      res := Ok;
      if OffsetOf(fptr) == 0 {
        var done;
        res, done, wcnt := WriteSectors(d);
        if res != Ok || done { return; }
      } else {
        BufferReady();
        OnlyFileItself(fs.geo, fat0, vol0, ch0);
      }
      wcnt := SS - OffsetOf(fptr);
      if wcnt > |d| { wcnt := |d|; }
      CopyIn(d[..wcnt], old(Content()));
    }

    lemma BufferReady()
      requires Valid() && OffsetOf(fptr) != 0
      ensures Ready(Content())
    {
      hide FatArea, Fat, Volume.Valid, Volume.Vol, FileBytes, Sectors, SectorOf, OffsetOf, ClusterOf;
      InsideSector();
    }

    /** One pass of the loop in f_write with its step. */
    method WritePass(d: seq<Byte>) returns (res: FResult, wcnt: nat)
      requires Valid() && 0 < |d| && fptr + |d| <= 0xFFFF_FFFF
      modifies `sclust, `clust, `chain, `secs, `sect, `dirty, `fptr, `objsize, buf
      modifies fs`disk, fs`wflag, fs`winsect, fs`lastClst, fs`freeClst, fs`fsiDirty, fs.win
      ensures fs.Valid()
      ensures old(chain) <= chain
      ensures res != Ok ==> Spared(old(Content()), fptr, fptr + |d|)
      ensures res != Ok ==> OthersKept(fs.geo, old(Table(fs)), old(fs.Vol()), old(chain), Table(fs), fs.Vol())
      ensures res != Ok ==> fptr == old(fptr)
      ensures res == Ok ==> Valid() && wcnt <= |d| && fptr == old(fptr) + wcnt
      ensures res == Ok ==> Content() == Overwrite(old(Content()), old(fptr), d[..wcnt])
      ensures res == Ok && wcnt == 0 ==> Full(fptr)
      ensures res == Ok ==>
          OnlyFile(fs.geo, old(Table(fs)), old(fs.Vol()), old(chain), Table(fs), fs.Vol(), chain)
      ensures Blamed(res, fs.reliable, old(Table(fs)))
      ensures fs.reliable && old(fs.MirrorsAgree()) ==> fs.MirrorsAgree()
      ensures fs.geo.Moved(old(fs.winsect), fs.winsect)
    {
      hide FatArea, Fat, Volume.Valid, Volume.Vol, Volume.MirrorsAgree, FileBytes, Layout, Sectors, SectorOf;
      hide OffsetOf, ClusterOf, WithinIt;
      hide Geometry.Sound, Clusters, ClustersFit, Buffered, FileChain, SameOn, Overwrite, NoneFree;
      hide OnlyChain, OnlyTableAnd, OthersKept, Spared;
      ghost var c := Content();
      res, wcnt := WriteStep(d);
      if res == Ok {
        if wcnt > 0 {
          Advance(c, d[..wcnt], wcnt);
        } else {
          OverwriteNothing(c, fptr, d);
        }
      }
    }

    /** The loop of f_write. */
    method WriteAll(data: seq<Byte>) returns (res: FResult, bw: nat)
      requires Valid() && fptr + |data| <= 0xFFFF_FFFF
      modifies `sclust, `clust, `chain, `secs, `sect, `dirty, `fptr, `objsize, buf
      modifies fs`disk, fs`wflag, fs`winsect, fs`lastClst, fs`freeClst, fs`fsiDirty, fs.win
      ensures fs.Valid()
      ensures old(chain) <= chain
      ensures bw <= |data| && fptr == old(fptr) + bw && old(fptr) <= |old(Content())|
      ensures res != Ok ==> Spared(Overwrite(old(Content()), old(fptr), data[..bw]), fptr, old(fptr) + |data|)
      ensures OthersKept(fs.geo, old(Table(fs)), old(fs.Vol()), old(chain), Table(fs), fs.Vol())
      ensures Blamed(res, fs.reliable, old(Table(fs)))
      ensures res == Ok ==> Valid()
      ensures res == Ok ==> Content() == Overwrite(old(Content()), old(fptr), data[..bw])
      ensures res == Ok ==> fptr == AtMost(old(fptr) + |data|, Room(fs.geo, old(Table(fs)), old(chain)))
      ensures res == Ok && bw < |data| ==> Full(fptr)
      ensures res == Ok ==>
          OnlyFile(fs.geo, old(Table(fs)), old(fs.Vol()), old(chain), Table(fs), fs.Vol(), chain)
      ensures fs.reliable && old(fs.MirrorsAgree()) ==> fs.MirrorsAgree()
      ensures fs.geo.Moved(old(fs.winsect), fs.winsect)
    {
      hide FatArea, Fat, Volume.Valid, Volume.Vol, Volume.MirrorsAgree, FileBytes, Layout, Sectors, SectorOf;
      hide OffsetOf, ClusterOf, WithinIt;
      hide Geometry.Sound, Clusters, ClustersFit, Buffered, FileChain, SameOn, Overwrite, NoneFree;
      hide OnlyFile, OnlyChain, OnlyTableAnd, OthersKept, Spared, Room;
      ghost var c0, f0, vol0, fat0, ch0 := Content(), fptr, fs.Vol(), Table(fs), chain;
      OnlyFileItself(fs.geo, fat0, vol0, ch0);
      OverwriteNothing(c0, f0, data);
      res, bw := Ok, 0;
      while bw < |data|
        invariant res == Ok && Valid() && bw <= |data| && f0 <= |c0| && ch0 <= chain
        invariant fptr == f0 + bw && Content() == Overwrite(c0, f0, data[..bw])
        invariant OnlyFile(fs.geo, fat0, vol0, ch0, Table(fs), fs.Vol(), chain)
        invariant fs.reliable && old(fs.MirrorsAgree()) ==> fs.MirrorsAgree()
        invariant fs.geo.Moved(old(fs.winsect), fs.winsect)
      {
        ghost var fat1, ch1, vol1 := Table(fs), chain, fs.Vol();
        var wcnt;
        ErrorsWereThere(fs.geo, fat0, vol0, ch0, fat1, vol1, ch1);
        res, wcnt := WritePass(data[bw..]);
        if res != Ok {
          OthersKeptTwice(fs.geo, fat0, vol0, ch0, fat1, vol1, ch1, Table(fs), fs.Vol());
          return;
        }
        OnlyFileTwice(fs.geo, fat0, vol0, ch0, fat1, vol1, ch1, Table(fs), fs.Vol(), chain);
        OverwriteNext(c0, f0, data, bw, wcnt);
        bw := bw + wcnt;
        if wcnt == 0 { break; }
      }
      OthersKeptByFile(fs.geo, fat0, vol0, ch0, Table(fs), fs.Vol(), chain);
      UpToRoom(fs.geo, fat0, vol0, ch0, Table(fs), fs.Vol(), chain);
    }

    /** f_write from the check of the file size on. */
    method WriteClipped(data: seq<Byte>) returns (res: FResult, bw: nat)
      requires Valid() && |data| <= 0xFFFF_FFFF
      modifies `sclust, `clust, `chain, `secs, `sect, `dirty, `fptr, `objsize, buf
      modifies fs`disk, fs`wflag, fs`winsect, fs`lastClst, fs`freeClst, fs`fsiDirty, fs.win
      ensures fs.Valid()
      ensures old(chain) <= chain
      ensures bw <= |data| && fptr == old(fptr) + bw
      ensures res != Ok ==> Spared(Overwrite(old(Content()), old(fptr), data[..bw]), fptr, old(fptr) + |data|)
      ensures OthersKept(fs.geo, old(Table(fs)), old(fs.Vol()), old(chain), Table(fs), fs.Vol())
      ensures Blamed(res, fs.reliable, old(Table(fs)))
      ensures res == Ok ==> Valid()
      ensures res == Ok ==> Content() == Overwrite(old(Content()), old(fptr), data[..bw])
      ensures res == Ok ==> bw == |data| || fptr == 0xFFFF_FFFF || Full(fptr)
      ensures res == Ok && Fits(old(fptr) + |data|, Room(fs.geo, old(Table(fs)), old(chain))) ==> bw == |data|
      ensures res == Ok ==>
          fptr == AtMost(old(fptr) + WriteLimit(old(fptr), |data|), Room(fs.geo, old(Table(fs)), old(chain)))
      ensures res == Ok && bw < WriteLimit(old(fptr), |data|) ==> Full(fptr)
      ensures res == Ok ==>
          OnlyFile(fs.geo, old(Table(fs)), old(fs.Vol()), old(chain), Table(fs), fs.Vol(), chain)
      ensures fs.reliable && old(fs.MirrorsAgree()) ==> fs.MirrorsAgree()
      ensures fs.geo.Moved(old(fs.winsect), fs.winsect)
    {
      hide FatArea, Fat, Volume.Valid, Volume.Vol, Volume.MirrorsAgree, FileBytes, Layout, Sectors, SectorOf;
      hide OffsetOf, ClusterOf, WithinIt;
      hide Geometry.Sound, Clusters, ClustersFit, Buffered, FileChain, SameOn, Overwrite, NoneFree;
      hide OnlyFile, OnlyChain, OnlyTableAnd, OthersKept, Room, Spared, Full, IsChain, Holds, Links;
      LimitIs(fptr, |data|);
      var btw: nat := |data|;
      if (fptr + btw) % 0x1_0000_0000 < fptr {
        btw := 0xFFFF_FFFF - fptr;
      }
      assert btw == WriteLimit(fptr, |data|);
      hide WriteLimit;
      res, bw := WriteAll(data[..btw]);
      assert data[..btw][..bw] == data[..bw];
      if res != Ok {
        ghost var c := Overwrite(old(Content()), old(fptr), data[..bw]);
        SparesLess(c, c, fptr, old(fptr) + btw, fptr, old(fptr) + |data|);
      }
    }

    /** A call that is refused: all that an operation promises holds of the state as it is. */
    lemma NothingDone(lo: nat, hi: nat)
      requires Valid()
      ensures OthersKept(fs.geo, Table(fs), fs.Vol(), chain, Table(fs), fs.Vol())
      ensures fptr <= |Content()| && Overwrite(Content(), fptr, []) == Content() && Spared(Content(), lo, hi)
    {
      hide FatArea, Fat, Volume.Valid, Volume.Vol, Sectors, Overwrite, OnlyFile, OthersKept, Spared;
      OnlyFileItself(fs.geo, Table(fs), fs.Vol(), chain);
      OthersKeptByFile(fs.geo, Table(fs), fs.Vol(), chain, Table(fs), fs.Vol(), chain);
      BaseSpares(lo, hi);
      OverwriteNothing(Content(), fptr, []);
    }

    /** f_write */
    method Write(data: seq<Byte>) returns (res: FResult, bw: nat)
      requires Valid() && |data| <= 0xFFFF_FFFF
      modifies `sclust, `clust, `chain, `secs, `sect, `dirty, `fptr, `objsize, `err, `modified, buf
      modifies fs`disk, fs`wflag, fs`winsect, fs`lastClst, fs`freeClst, fs`fsiDirty, fs.win
      ensures fs.Valid()
      ensures old(chain) <= chain
      ensures bw <= |data| && fptr == old(fptr) + bw
      ensures res != Ok ==> Spared(Overwrite(old(Content()), old(fptr), data[..bw]), fptr, old(fptr) + |data|)
      ensures OthersKept(fs.geo, old(Table(fs)), old(fs.Vol()), old(chain), Table(fs), fs.Vol())
      ensures old(err) != Ok || !canWrite ==>
          res == (if old(err) != Ok then old(err) else Denied) && bw == 0 && Valid() && Content() == old(Content())
      ensures old(err) == Ok && canWrite ==> err == res && Blamed(res, fs.reliable, old(Table(fs)))
      ensures modified == (old(modified) || res == Ok)
      ensures res == Ok ==> Valid()
      ensures res == Ok ==> Content() == Overwrite(old(Content()), old(fptr), data[..bw])
      ensures res == Ok ==> bw == |data| || fptr == 0xFFFF_FFFF || Full(fptr)
      ensures res == Ok && Fits(old(fptr) + |data|, Room(fs.geo, old(Table(fs)), old(chain))) ==> bw == |data|
      ensures res == Ok ==>
          fptr == AtMost(old(fptr) + WriteLimit(old(fptr), |data|), Room(fs.geo, old(Table(fs)), old(chain)))
      ensures res == Ok && bw < WriteLimit(old(fptr), |data|) ==> Full(fptr)
      ensures res == Ok ==>
          OnlyFile(fs.geo, old(Table(fs)), old(fs.Vol()), old(chain), Table(fs), fs.Vol(), chain)
      ensures fs.reliable && old(fs.MirrorsAgree()) ==> fs.MirrorsAgree()
      ensures fs.geo.Moved(old(fs.winsect), fs.winsect)
    {
      hide FatArea, Fat, Volume.Valid, Volume.Vol, Volume.MirrorsAgree, FileBytes, Layout, Sectors, SectorOf;
      hide OffsetOf, ClusterOf, WithinIt;
      hide Geometry.Sound, Clusters, ClustersFit, Buffered, FileChain, SameOn, Overwrite, NoneFree;
      hide OnlyFile, OnlyChain, OnlyTableAnd, OthersKept, Room, Spared, WriteLimit, AtMost, IsChain, Holds, Links;
      NothingDone(fptr, fptr + |data|);
      assert data[..0] == [];
      if err != Ok { return err, 0; }
      if !canWrite { return Denied, 0; }
      res, bw := WriteClipped(data);
      if res == Ok {
        modified := true;
      } else {
        err := res;
      }
    }

    /** Cluster boundary in f_read, before the end of the file: follow the chain. */
    method ClusterForRead() returns (res: FResult)
      requires Valid() && OffsetOf(fptr) == 0 && WithinIt(fs.geo, SectorOf(fptr)) == 0 && SectorOf(fptr) < |secs|
      modifies `clust, fs`disk, fs`wflag, fs`winsect, fs.win
      ensures Base() && Content() == old(Content()) && Table(fs) == old(Table(fs))
      ensures SameOutsideFat(fs.geo, old(fs.Vol()), fs.Vol())
      ensures res == Ok ==> OnSector(SectorOf(fptr))
      ensures res == Ok || (res == DiskErr && !fs.reliable)
      ensures fs.reliable && old(fs.MirrorsAgree()) ==> fs.MirrorsAgree()
      ensures fs.geo.Moved(old(fs.winsect), fs.winsect)
    {
      hide FatArea, Fat, Volume.Valid, Volume.Vol, Volume.MirrorsAgree, FileBytes, Layout, Sectors, SectorOf;
      hide OffsetOf, ClusterOf, WithinIt;
      hide ClustersFit, Buffered, FileChain, SameOn, Overwrite, NoneFree;
      hide Overlaid, SameOutsideFat;
      AtBoundary();
      HeadOfNone(fs.geo, chain);
      SameOnItself(secs, fs.disk);
      SameOutsideFatItself(fs.geo, fs.Vol());
      ghost var disk0 := fs.disk;
      res := Ok;
      var clst := sclust;
      if fptr != 0 {
        clst := FollowChain(fs, clust, chain, ClusterOf(fs.geo, SectorOf(fptr)));
      }
      if clst < 2 {
        res := IntErr;
      } else if clst == DISK_ERROR {
        res := DiskErr;
      } else {
        clust := clst;
      }
      BufferKept(secs, secs, disk0, fs.disk, sect, dirty, buf[..]);
      SameBytes(old(Img()), Img(), secs, objsize);
    }

    /** f_read of whole sectors straight to the caller. */
    method GetSectors(cc: nat, s: nat) returns (ok: bool, data: seq<Byte>)
      requires Base() && OffsetOf(fptr) == 0 && OnSector(SectorOf(fptr)) && s == secs[SectorOf(fptr)]
      requires 0 < cc && WithinIt(fs.geo, SectorOf(fptr)) + cc <= fs.geo.csize && fptr + cc * SS <= objsize
      ensures |data| == cc * SS && (ok ==> data == Content()[fptr..fptr + |data|])
      ensures ok ==> OnSector(SectorOf(fptr + |data| - 1)) && OffsetOf(fptr + |data|) == 0
      ensures !ok ==> !fs.reliable
    {
      hide FatArea, Fat, Volume.Valid, Volume.Vol, Volume.MirrorsAgree, FileBytes, Layout, Sectors, SectorOf;
      hide OffsetOf, ClusterOf, WithinIt;
      hide Geometry.Sound, Clusters, ClustersFit, FileChain, SameOn, Overwrite, NoneFree;
      hide Overlaid, Chunk, Patched;
      ghost var j := SectorOf(fptr);
      Place(fptr);
      PlaceUnique(j + cc, 0);
      PlaceUnique(j + cc - 1, SS - 1);
      ClusterRun(fs.geo, chain, j, cc);
      ok, data := fs.DiskRead(s, cc);
      ghost var d := data;
      if dirty && s <= sect < s + cc {
        data := Patched(data, sect - s, buf[..]);
      }
      if ok {
        DirectlyRead(secs, objsize, j, cc, fs.disk, sect, dirty, buf[..], d, data);
      }
    }

    /** The buffer moves to sector s of the file, written back first if it has to be. */
    method MoveBuffer(s: nat) returns (ok: bool)
      requires Base() && s in secs && s != 0
      modifies `sect, `dirty, buf, fs`disk
      ensures ok ==> Base() && Content() == old(Content()) && sect == s
      ensures fs.Valid() && Table(fs) == old(Table(fs)) && OnlyTableAnd(fs.geo, old(fs.Vol()), fs.Vol(), secs)
      ensures !ok ==> !fs.reliable && Spared(old(Content()), 0, 0)
      ensures fs.reliable && old(fs.MirrorsAgree()) ==> fs.MirrorsAgree()
    {
      hide FatArea, Fat, Volume.Valid, Volume.Vol, Volume.MirrorsAgree, FileBytes, Sectors, SectorOf;
      hide OffsetOf, ClusterOf, WithinIt;
      hide Geometry.Sound, Clusters, ClustersFit, FileChain, SameOn, Overwrite, NoneFree, Holds, Spared;
      ok := Flush();
      if !ok {
        BaseSpares(0, 0);
      } else {
        var data;
        ok, data := fs.DiskRead(s, 1);
        forall q | 0 <= q < SS {
          buf[q] := data[q];
        }
        assert buf[..] == data;
        SameOnItself(secs, fs.disk);
        HoldsIfSame(fs.disk, fs.disk, secs, objsize, 0, 0);
        CleanSpares(fs.disk, 0, 0);
      }
      if ok {
        sect := s;
      }
    }

    /** The bytes of the file from fptr to the end of the buffer's sector. */
    lemma BufferShowsContent(w: nat)
      requires Base() && SectorOf(fptr) < |secs| && sect == secs[SectorOf(fptr)] && sect != 0
      requires OffsetOf(fptr) + w <= SS && fptr + w <= objsize
      ensures buf[OffsetOf(fptr)..OffsetOf(fptr) + w] == Content()[fptr..fptr + w]
    {
      hide FatArea, Fat, Volume.Valid, Volume.Vol, Volume.MirrorsAgree, FileBytes, Layout, Sectors, SectorOf;
      hide OffsetOf, ClusterOf, WithinIt;
      hide Geometry.Sound, Clusters, ClustersFit, FileChain, SameOn, Overwrite, NoneFree;
      Place(fptr);
      PartialRead(Img(), secs, objsize, SectorOf(fptr), OffsetOf(fptr), w);
    }

    /** Sector boundary in f_read, before the end of the file: s is the sector of fptr. */
    method FindSector() returns (res: FResult, s: nat)
      requires Valid() && OffsetOf(fptr) == 0 && SectorOf(fptr) < |secs|
      modifies `clust, fs`disk, fs`wflag, fs`winsect, fs.win
      ensures Base() && Content() == old(Content()) && Table(fs) == old(Table(fs)) && fs.geo.csize > 0
      ensures OnlyTableAnd(fs.geo, old(fs.Vol()), fs.Vol(), secs)
      ensures res == Ok ==> OnSector(SectorOf(fptr)) && s == secs[SectorOf(fptr)] && s != 0
      ensures res == Ok || (res == DiskErr && !fs.reliable)
      ensures fs.reliable && old(fs.MirrorsAgree()) ==> fs.MirrorsAgree()
      ensures fs.geo.Moved(old(fs.winsect), fs.winsect)
    {
      hide FatArea, Fat, Volume.Valid, Volume.Vol, Volume.MirrorsAgree, FileBytes, Layout, Sectors, SectorOf;
      hide OffsetOf, ClusterOf, WithinIt;
      hide Geometry.Sound, Clusters, ClustersFit, Buffered, FileChain, SameOn, Overwrite, NoneFree;
      InsideCluster();
      OnlyTableAndItself(fs.geo, fs.Vol(), secs);
      res, s := Ok, 0;
      if WithinIt(fs.geo, SectorOf(fptr)) == 0 {
        res := ClusterForRead();
      }
      if res == Ok {
        s := SectorAtPointer();
      }
    }

    /** mem_cpy of at most the rest of a sector out of the buffer. */
    method FromBuffer(btr: nat) returns (data: seq<Byte>)
      requires Base() && OnSector(SectorOf(fptr)) && sect == secs[SectorOf(fptr)] && sect != 0
      requires 0 < btr && fptr + btr <= objsize
      ensures 0 < |data| <= btr && data == Content()[fptr..fptr + |data|]
      ensures OnSector(SectorOf(fptr + |data| - 1))
      ensures OffsetOf(fptr + |data|) != 0 ==> SectorOf(fptr + |data|) == SectorOf(fptr)
    {
      hide Shape, Content, Buffered, SectorOf, OffsetOf, ClusterOf;
      Place(fptr);
      var o := OffsetOf(fptr);
      var rcnt := SS - o;
      if rcnt > btr { rcnt := btr; }
      BufferShowsContent(rcnt);
      data := buf[o..o + rcnt];
      PlaceUnique(SectorOf(fptr), o + rcnt - 1);
      if o + rcnt < SS {
        PlaceUnique(SectorOf(fptr), o + rcnt);
      } else {
        PlaceUnique(SectorOf(fptr) + 1, 0);
      }
    }

    /** The bytes d of a file that was c come next; fptr still stands before them. */
    ghost predicate Next(c: seq<Byte>, d: seq<Byte>)
      reads this, buf, fs`disk, fs`wflag, fs`winsect, fs.win
    {
      && Base() && Content() == c && 0 < |d| && fptr + |d| <= |c| && d == c[fptr..fptr + |d|]
      && OnSector(SectorOf(fptr + |d| - 1))
      && (OffsetOf(fptr + |d|) != 0 ==> SectorOf(fptr + |d|) < |secs| && sect == secs[SectorOf(fptr + |d|)])
    }

    /** The sector of fptr is in the buffer, and clust is its cluster. */
    ghost predicate Loaded(c: seq<Byte>)
      reads this, buf, fs`disk, fs`wflag, fs`winsect, fs.win
    {
      Base() && Content() == c && OnSector(SectorOf(fptr)) && sect == secs[SectorOf(fptr)] && sect != 0
    }

    /** Sector boundary in f_read: whole sectors are delivered, or the buffer moves to the sector of fptr. */
    method ReadSectors(btr: nat) returns (res: FResult, data: seq<Byte>)
      requires Valid() && 0 < btr && fptr + btr <= objsize && OffsetOf(fptr) == 0 && SectorOf(fptr) < |secs|
      modifies `clust, `sect, `dirty, buf, fs`disk, fs`wflag, fs`winsect, fs.win
      ensures |data| <= btr
      ensures res == Ok ==> if data != [] then Next(old(Content()), data) else Loaded(old(Content()))
      ensures fs.Valid() && Table(fs) == old(Table(fs)) && OnlyTableAnd(fs.geo, old(fs.Vol()), fs.Vol(), secs)
      ensures res != Ok ==> res == DiskErr && !fs.reliable && Spared(old(Content()), 0, 0)
      ensures fs.reliable && old(fs.MirrorsAgree()) ==> fs.MirrorsAgree()
      ensures fs.geo.Moved(old(fs.winsect), fs.winsect)
    {
      hide FatArea, Fat, Volume.Valid, Volume.Vol, Volume.MirrorsAgree, FileBytes, Layout, Sectors, SectorOf;
      hide OffsetOf, ClusterOf, WithinIt;
      hide Geometry.Sound, Clusters, ClustersFit, Buffered, FileChain, SameOn, Overwrite, NoneFree;
      hide OnlyTableAnd, Table, Geometry.Moved, Spared, IsChain;
      var s;
      res, s := FindSector();
      data := [];
      if res != Ok {
        BaseSpares(0, 0);
        return;
      }
      var ok;
      var csect: nat, cc: nat := WithinIt(fs.geo, SectorOf(fptr)), btr / SS;
      if cc > 0 {
        if csect + cc > fs.geo.csize {
          cc := fs.geo.csize - csect;
        }
        BaseSpares(0, 0);
        ok, data := GetSectors(cc, s);
        return if ok then Ok else DiskErr, data;
      }
      if sect != s {
        ghost var vol1 := fs.Vol();
        ok := MoveBuffer(s);
        OnlyTableAndTwice(fs.geo, old(fs.Vol()), vol1, fs.Vol(), secs, secs);
        res := if ok then Ok else DiskErr;
      }
    }

    /** One pass of the loop in f_read: the next bytes, with fptr still before them. */
    method ReadStep(btr: nat) returns (res: FResult, data: seq<Byte>)
      requires Valid() && 0 < btr && fptr + btr <= objsize
      modifies `clust, `sect, `dirty, buf, fs`disk, fs`wflag, fs`winsect, fs.win
      ensures res == Ok ==> |data| <= btr && Next(old(Content()), data)
      ensures fs.Valid() && Table(fs) == old(Table(fs)) && OnlyTableAnd(fs.geo, old(fs.Vol()), fs.Vol(), secs)
      ensures res != Ok ==> res == DiskErr && !fs.reliable && Spared(old(Content()), 0, 0)
      ensures fs.reliable && old(fs.MirrorsAgree()) ==> fs.MirrorsAgree()
      ensures fs.geo.Moved(old(fs.winsect), fs.winsect)
    {
      hide FatArea, Fat, Volume.Valid, Volume.Vol, Volume.MirrorsAgree, FileBytes, Layout, Sectors, SectorOf;
      hide OffsetOf, ClusterOf, WithinIt;
      hide Geometry.Sound, Clusters, ClustersFit, Buffered, FileChain, SameOn, Overwrite, NoneFree;
      hide OnlyTableAnd, Table, Geometry.Moved, Spared, IsChain;
      OnlyTableAndItself(fs.geo, fs.Vol(), secs);
      NotMoved(fs.geo, fs.winsect);
      res, data := Ok, [];
      Place(fptr);
      if OffsetOf(fptr) == 0 {
        res, data := ReadSectors(btr);
        if res != Ok || data != [] { return; }
      } else {
        InsideSector();
      }
      data := FromBuffer(btr);
    }

    /** The loop of f_read. */
    method ReadAll(n: nat) returns (res: FResult, data: seq<Byte>)
      requires Valid() && fptr + n <= objsize
      modifies `clust, `sect, `dirty, `fptr, buf, fs`disk, fs`wflag, fs`winsect, fs.win
      ensures res != Ok ==> res == DiskErr && !fs.reliable && Spared(old(Content()), 0, 0)
      ensures fptr == old(fptr) + |data| <= objsize && data == old(Content())[old(fptr)..fptr]
      ensures res == Ok ==> Valid() && Content() == old(Content()) && |data| == n
      ensures fs.Valid() && Table(fs) == old(Table(fs)) && OnlyTableAnd(fs.geo, old(fs.Vol()), fs.Vol(), secs)
      ensures fs.reliable && old(fs.MirrorsAgree()) ==> fs.MirrorsAgree()
      ensures fs.geo.Moved(old(fs.winsect), fs.winsect)
    {
      hide FatArea, Fat, Volume.Valid, Volume.Vol, Volume.MirrorsAgree, FileBytes, Layout, Sectors, SectorOf, OffsetOf;
      hide ClusterOf, WithinIt, Geometry.Sound, Clusters, ClustersFit, Buffered, FileChain, SameOn, Overwrite, NoneFree;
      hide OnlyTableAnd, Table, Geometry.Moved, Spared;
      res, data := Ok, [];
      var left: nat := n;
      ghost var f0 := fptr;
      OnlyTableAndItself(fs.geo, fs.Vol(), secs);
      NotMoved(fs.geo, fs.winsect);
      while left > 0
        invariant res == Ok && Valid() && Content() == old(Content())
        invariant |data| + left == n && fptr == f0 + |data| && fptr + left <= objsize
        invariant data == Content()[f0..fptr]
        invariant Table(fs) == old(Table(fs)) && OnlyTableAnd(fs.geo, old(fs.Vol()), fs.Vol(), secs)
        invariant fs.reliable && old(fs.MirrorsAgree()) ==> fs.MirrorsAgree()
        invariant fs.geo.Moved(old(fs.winsect), fs.winsect)
        decreases left
      {
        ghost var vol1, w1 := fs.Vol(), fs.winsect;
        var piece;
        res, piece := ReadStep(left);
        MovedTwice(fs.geo, old(fs.winsect), w1, fs.winsect);
        OnlyTableAndTwice(fs.geo, old(fs.Vol()), vol1, fs.Vol(), secs, secs);
        if res != Ok { return; }
        data := data + piece;
        fptr := fptr + |piece|;
        left := left - |piece|;
      }
    }

    /** f_read */
    method Read(btr: nat) returns (res: FResult, data: seq<Byte>)
      requires Valid()
      modifies `clust, `sect, `dirty, `fptr, `err, buf, fs`disk, fs`wflag, fs`winsect, fs.win
      ensures old(err) != Ok || !canRead ==>
          res == (if old(err) != Ok then old(err) else Denied) && data == [] && Valid() && Content() == old(Content())
      ensures old(err) == Ok && canRead ==> err == res && (res == Ok || (res == DiskErr && !fs.reliable))
      ensures res != Ok ==> Spared(old(Content()), 0, 0)
      ensures fptr == old(fptr) + |data| <= objsize && data == old(Content())[old(fptr)..fptr]
      ensures res == Ok ==> Valid() && Content() == old(Content())
      ensures res == Ok ==> |data| == if btr > objsize - old(fptr) then objsize - old(fptr) else btr
      ensures fs.Valid() && Table(fs) == old(Table(fs)) && OnlyTableAnd(fs.geo, old(fs.Vol()), fs.Vol(), secs)
      ensures fs.reliable && old(fs.MirrorsAgree()) ==> fs.MirrorsAgree()
      ensures fs.geo.Moved(old(fs.winsect), fs.winsect)
    {
      hide FatArea, Fat, Volume.Valid, Volume.Vol, Volume.MirrorsAgree, FileBytes, Layout, Sectors, SectorOf;
      hide OffsetOf, ClusterOf, WithinIt;
      hide Geometry.Sound, Clusters, ClustersFit, Buffered, FileChain, SameOn, Overwrite, NoneFree;
      hide Spared;
      BaseSpares(0, 0);
      data := [];
      if err != Ok { return err, data; }
      if !canRead { return Denied, data; }
      var remain := objsize - fptr;
      res, data := ReadAll(if btr > remain then remain else btr);
      err := res;
    }

    /** From the cluster before the k-th to the k-th on a file not open for writing: get_fat in f_lseek. */
    method FollowTo(clst: nat, ghost k: nat) returns (res: FResult, r: nat)
      requires Valid() && fptr == 0 && 0 < k < |chain| && clst == chain[k - 1]
      modifies `clust, fs`disk, fs`wflag, fs`winsect, fs.win
      ensures res == Ok ==> Valid() && Content() == old(Content()) && r == clust && AtCluster(k)
      ensures fs.Valid() && (res != Ok ==> Spared(old(Content()), 0, 0))
      ensures OnlyFile(fs.geo, old(Table(fs)), old(fs.Vol()), old(chain), Table(fs), fs.Vol(), chain)
      ensures res == Ok || (res == DiskErr && !fs.reliable)
      ensures fs.reliable && old(fs.MirrorsAgree()) ==> fs.MirrorsAgree()
      ensures fs.geo.Moved(old(fs.winsect), fs.winsect)
    {
      hide FatArea, Fat, Volume.Valid, Volume.Vol, Volume.MirrorsAgree, FileBytes, Layout, Sectors, SectorOf;
      hide OffsetOf, ClusterOf, WithinIt;
      hide ClustersFit, Buffered, FileChain, SameOn, Overwrite, NoneFree;
      hide Overlaid, Spared;
      ghost var disk0 := fs.disk;
      r := FollowChain(fs, clst, chain, k);
      res := Ok;
      if r == DISK_ERROR {
        res := DiskErr;
      } else if r <= 1 || r >= fs.geo.nFatent {
        res := IntErr;
      } else {
        clust := r;
      }
      BufferKept(secs, secs, disk0, fs.disk, sect, dirty, buf[..]);
      SameBytes(old(Img()), Img(), secs, objsize);
      BaseSpares(0, 0);
    }

    /** A place f_lseek can leave fptr at: clust is the cluster before it, and nsect its sector unless it is at a
        sector boundary. */
    ghost predicate Landed(pos: nat, nsect: nat)
      reads this
    {
      && pos <= |secs| * SS
      && (pos > 0 ==> OnSector(SectorOf(pos - 1)))
      && (OffsetOf(pos) != 0 ==> SectorOf(pos) < |secs| && nsect == secs[SectorOf(pos)] && nsect != 0)
    }

    /** The end of the current cluster, where f_lseek stops on a full drive. */
    lemma LandedAtClusterEnd(k: nat)
      requires Valid() && AtCluster(k) && k + 1 == |chain|
      ensures Times(k + 1, fs.geo.csize) == |secs| && Landed(|secs| * SS, 0)
    {
      hide FatArea, Fat, Volume.Valid, Volume.Vol, FileBytes, Layout, Sectors, SectorOf, OffsetOf, ClusterOf, Buffered;
      PlaceUnique(Times(k + 1, fs.geo.csize), 0);
      PlaceUnique(fs.geo.csize, 0);
      IntoCluster(fs.geo, chain, k, fs.geo.csize * SS);
      SectorsLength(fs.geo, chain);
    }

    /** The sector of a place ofs bytes into the current cluster. */
    method LandInCluster(pos: nat, ofs: nat, ghost k: nat) returns (nsect: nat)
      requires Valid() && AtCluster(k) && pos == Times(k, fs.geo.csize) * SS && 0 < ofs <= fs.geo.csize * SS
      ensures Landed(pos + ofs, nsect)
    {
      hide FatArea, Fat, Volume.Valid, Volume.Vol, FileBytes, Layout, Sectors, SectorOf, OffsetOf, ClusterOf, Buffered;
      nsect := 0;
      IntoCluster(fs.geo, chain, k, ofs);
      if OffsetOf(ofs) != 0 {
        nsect := ClusterToSector(fs.geo, clust);
        nsect := nsect + SectorOf(ofs);
      }
    }

    /** From the cluster before the k-th to the k-th in f_lseek: only a file open for writing is stretched. */
    method SeekStep(clst: nat, ghost k: nat) returns (res: FResult, r: nat)
      requires Valid() && fptr == 0 && 0 < k <= |chain| && clst == chain[k - 1] && (!canWrite ==> k < |chain|)
      modifies `sclust, `clust, `chain, `secs
      modifies fs`disk, fs`wflag, fs`winsect, fs`lastClst, fs`freeClst, fs`fsiDirty, fs.win
      ensures fs.Valid()
      ensures old(chain) <= chain
      ensures res != Ok ==> Spared(old(Content()), 0, 0)
      ensures res != Ok ==> OthersKept(fs.geo, old(Table(fs)), old(fs.Vol()), old(chain), Table(fs), fs.Vol())
      ensures res == Ok ==> Valid() && Content() == old(Content())
      ensures res == Ok && r != 0 ==> r == clust && AtCluster(k)
      ensures res == Ok && r == 0 ==>
          canWrite && NoneFree(Table(fs)) && k == |chain| && chain == old(chain) && clust == old(clust)
      ensures res == Ok && k < |old(chain)| ==> chain == old(chain)
      ensures res == Ok ==>
          OnlyFile(fs.geo, old(Table(fs)), old(fs.Vol()), old(chain), Table(fs), fs.Vol(), chain)
      ensures Blamed(res, fs.reliable, old(Table(fs)))
      ensures fs.reliable && old(fs.MirrorsAgree()) ==> fs.MirrorsAgree()
      ensures fs.geo.Moved(old(fs.winsect), fs.winsect)
    {
      hide FatArea, Fat, Volume.Valid, Volume.Vol, Volume.MirrorsAgree, FileBytes, Layout, Sectors, SectorOf;
      hide OffsetOf, ClusterOf, WithinIt;
      hide Geometry.Sound, Clusters, ClustersFit, Buffered, FileChain, SameOn, Overwrite, NoneFree;
      hide OnlyFile, OnlyChain, OnlyTableAnd, OthersKept, Spared;
      ghost var fat0, vol0, ch0 := Table(fs), fs.Vol(), chain;
      PlaceUnique(0, 0);
      if canWrite {
        res, r := StretchTo(clst, k);
      } else {
        res, r := FollowTo(clst, k);
        OthersKeptByFile(fs.geo, fat0, vol0, ch0, Table(fs), fs.Vol(), chain);
        if res == Ok {
          InTable(k);
        }
      }
    }

    lemma InTable(k: nat)
      requires Base() && AtCluster(k)
      ensures clust != 0
    {
    }

    /** The cluster following loop of f_lseek, from the start of the current cluster, and where it lands. */
    method SeekLoop(start: nat, target: nat, ghost k0: nat) returns (res: FResult, pos: nat, nsect: nat)
      requires Valid() && fptr == 0 && AtCluster(k0) && start == Times(k0, fs.geo.csize) * SS < target
      requires !canWrite ==> target <= objsize
      modifies `sclust, `clust, `chain, `secs
      modifies fs`disk, fs`wflag, fs`winsect, fs`lastClst, fs`freeClst, fs`fsiDirty, fs.win
      ensures fs.Valid()
      ensures old(chain) <= chain
      ensures res != Ok ==> Spared(old(Content()), 0, 0)
      ensures res != Ok ==> OthersKept(fs.geo, old(Table(fs)), old(fs.Vol()), old(chain), Table(fs), fs.Vol())
      ensures res == Ok ==> Valid() && Content() == old(Content()) && Landed(pos, nsect)
      ensures res == Ok ==> pos == target || (Full(pos) && pos < target && canWrite && objsize < target)
      ensures res == Ok && target <= objsize ==> chain == old(chain)
      ensures res == Ok ==>
          OnlyFile(fs.geo, old(Table(fs)), old(fs.Vol()), old(chain), Table(fs), fs.Vol(), chain)
      ensures Blamed(res, fs.reliable, old(Table(fs)))
      ensures fs.reliable && old(fs.MirrorsAgree()) ==> fs.MirrorsAgree()
      ensures fs.geo.Moved(old(fs.winsect), fs.winsect)
    {
      hide FatArea, Fat, Volume.Valid, Volume.Vol, Volume.MirrorsAgree, FileBytes, Layout, Sectors, SectorOf;
      hide OffsetOf, ClusterOf, WithinIt;
      hide Geometry.Sound, Clusters, ClustersFit, Buffered, FileChain, SameOn, Overwrite, NoneFree;
      hide OnlyFile, OnlyChain, OnlyTableAnd, OthersKept, Spared;
      ghost var fat0, vol0, ch0 := Table(fs), fs.Vol(), chain;
      OnlyFileItself(fs.geo, fat0, vol0, ch0);
      PlaceUnique(0, 0);
      ghost var k := k0;
      var bcs := fs.geo.csize * SS;
      var clst, ofs: nat := clust, target - start;
      res, pos, nsect := Ok, start, 0;
      while ofs > bcs
        invariant res == Ok && Valid() && fptr == 0 && Content() == old(Content())
        invariant AtCluster(k) && clst == clust && pos == Times(k, fs.geo.csize) * SS && pos + ofs == target && 0 < ofs
        invariant ch0 <= chain && (target <= objsize ==> chain == ch0)
        invariant OnlyFile(fs.geo, fat0, vol0, ch0, Table(fs), fs.Vol(), chain)
        invariant fs.reliable && old(fs.MirrorsAgree()) ==> fs.MirrorsAgree()
        invariant fs.geo.Moved(old(fs.winsect), fs.winsect)
        decreases ofs
      {
        ghost var fat1, ch1, vol1 := Table(fs), chain, fs.Vol();
        ErrorsWereThere(fs.geo, fat0, vol0, ch0, fat1, vol1, ch1);
        ofs, pos := ofs - bcs, pos + bcs;
        MoreClusters(k, target);
        res, clst := SeekStep(clst, k + 1);
        if res != Ok {
          OthersKeptTwice(fs.geo, fat0, vol0, ch0, fat1, vol1, ch1, Table(fs), fs.Vol());
          return;
        }
        OnlyFileTwice(fs.geo, fat0, vol0, ch0, fat1, vol1, ch1, Table(fs), fs.Vol(), chain);
        if clst == 0 {
          LandedAtClusterEnd(k);
          return;
        }
        k := k + 1;
      }
      nsect := LandInCluster(pos, ofs, k);
      pos := pos + ofs;
    }

    /** A place in the file past the end of its k-th cluster: there are more. */
    lemma MoreClusters(k: nat, target: nat)
      requires Base()
      ensures (Times(k, fs.geo.csize) + fs.geo.csize) * SS < target <= objsize ==> k + 1 < |chain|
      ensures fs.geo.csize > 0
    {
      hide FatArea, Fat, Volume.Valid, Volume.Vol, FileBytes, Layout, Sectors, Buffered;
      SectorsLength(fs.geo, chain);
      TimesGrows(|chain|, k + 1, fs.geo.csize);
    }

    /** Where f_lseek starts when it does not go back: at the cluster of the byte before the old fptr. */
    lemma FromCurrent(ifptr: nat, target: nat)
      requires Base() && 0 < ifptr && 0 < target && OnSector(SectorOf(ifptr - 1))
      requires ClusterOfByte(fs.geo, target - 1) >= ClusterOfByte(fs.geo, ifptr - 1)
      ensures var k := ClusterOfByte(fs.geo, ifptr - 1);
          && AtCluster(k) && k * (fs.geo.csize * SS) == Times(k, fs.geo.csize) * SS < target
    {
      hide FatArea, Fat, Volume.Valid, Volume.Vol, FileBytes, Layout, Sectors, SectorOf, ClusterOf, Buffered, Clusters;
      hide ClusterOfByte;
      var k := ClusterOfByte(fs.geo, ifptr - 1);
      ByteInCluster(fs.geo, ifptr - 1);
      ByteInCluster(fs.geo, target - 1);
      TimesGrows(k, ClusterOfByte(fs.geo, target - 1), fs.geo.csize);
      ClusterBytes(k, fs.geo.csize);
    }

    /** The search of f_lseek for the cluster of byte target - 1, from the current cluster or from the first. */
    method SeekTo(target: nat, ifptr: nat) returns (res: FResult, pos: nat, nsect: nat)
      requires Valid() && fptr == 0 && 0 < target
      requires ifptr > 0 ==> OnSector(SectorOf(ifptr - 1))
      requires !canWrite ==> target <= objsize
      modifies `sclust, `clust, `chain, `secs
      modifies fs`disk, fs`wflag, fs`winsect, fs`lastClst, fs`freeClst, fs`fsiDirty, fs.win
      ensures fs.Valid()
      ensures old(chain) <= chain
      ensures res != Ok ==> Spared(old(Content()), 0, 0)
      ensures res != Ok ==> OthersKept(fs.geo, old(Table(fs)), old(fs.Vol()), old(chain), Table(fs), fs.Vol())
      ensures res == Ok ==> Valid() && Content() == old(Content()) && Landed(pos, nsect)
      ensures res == Ok ==> pos == target || (Full(pos) && pos < target && canWrite && objsize < target)
      ensures res == Ok && target <= objsize ==> chain == old(chain)
      ensures res == Ok ==>
          OnlyFile(fs.geo, old(Table(fs)), old(fs.Vol()), old(chain), Table(fs), fs.Vol(), chain)
      ensures Blamed(res, fs.reliable, old(Table(fs)))
      ensures fs.reliable && old(fs.MirrorsAgree()) ==> fs.MirrorsAgree()
      ensures fs.geo.Moved(old(fs.winsect), fs.winsect)
    {
      hide FatArea, Fat, Volume.Valid, Volume.Vol, Volume.MirrorsAgree, FileBytes, Layout, Sectors, SectorOf;
      hide OffsetOf, ClusterOf, WithinIt;
      hide Geometry.Sound, ClustersFit, Buffered, FileChain, SameOn, Overwrite, NoneFree;
      hide OnlyFile, OnlyChain, OnlyTableAnd, OthersKept, Spared, ClusterOfByte;
      ghost var fat0, vol0, ch0, k := Table(fs), fs.Vol(), chain, 0;
      OnlyFileItself(fs.geo, fat0, vol0, ch0);
      HeadOfNone(fs.geo, chain);
      MoreClusters(0, 0);
      NoSectors(fs.geo, chain);
      PlaceUnique(0, 0);
      var clst;
      res, pos, nsect := Ok, 0, 0;
      if ifptr > 0 && ClusterOfByte(fs.geo, target - 1) >= ClusterOfByte(fs.geo, ifptr - 1) {
        FromCurrent(ifptr, target);
        k := ClusterOfByte(fs.geo, ifptr - 1);
        pos := ClusterOfByte(fs.geo, ifptr - 1) * (fs.geo.csize * SS);
        clst := clust;
      } else {
        clst := sclust;
        if clst == 0 {
          res, clst := StretchTo(0, 0);
          if res != Ok { return; }
        }
        clust := clst;
      }
      if clst != 0 {
        ghost var fat1, vol1, ch1 := Table(fs), fs.Vol(), chain;
        ErrorsWereThere(fs.geo, fat0, vol0, ch0, fat1, vol1, ch1);
        res, pos, nsect := SeekLoop(pos, target, k);
        if res == Ok {
          OnlyFileTwice(fs.geo, fat0, vol0, ch0, fat1, vol1, ch1, Table(fs), fs.Vol(), chain);
        } else {
          OthersKeptTwice(fs.geo, fat0, vol0, ch0, fat1, vol1, ch1, Table(fs), fs.Vol());
        }
      }
    }

    /** f_lseek */
    method Seek(ofs: nat) returns (res: FResult)
      requires Valid() && ofs <= 0xFFFF_FFFF
      modifies `sclust, `clust, `chain, `secs, `sect, `dirty, `fptr, `objsize, `err, `modified, buf
      modifies fs`disk, fs`wflag, fs`winsect, fs`lastClst, fs`freeClst, fs`fsiDirty, fs.win
      ensures fs.Valid()
      ensures old(chain) <= chain
      ensures res != Ok ==> Spared(old(Content()), 0, 0)
      ensures OthersKept(fs.geo, old(Table(fs)), old(fs.Vol()), old(chain), Table(fs), fs.Vol())
      ensures old(err) != Ok ==> res == old(err) && Valid() && Content() == old(Content()) && fptr == old(fptr)
      ensures old(err) == Ok ==> err == res
      ensures old(err) == Ok ==> Blamed(res, fs.reliable, old(Table(fs)))
      ensures res == Ok ==> modified == (old(modified) || old(objsize) < fptr)
      ensures res == Ok ==> Valid() && objsize == Max(old(objsize), fptr)
      ensures res == Ok ==> Content()[..old(objsize)] == old(Content())
      ensures res == Ok && ofs <= old(objsize) ==> fptr == ofs && chain == old(chain)
      ensures res == Ok && ofs > old(objsize) && !canWrite ==> fptr == old(objsize)
      ensures res == Ok && canWrite ==> fptr == AtMost(ofs, Room(fs.geo, old(Table(fs)), old(chain)))
      ensures res == Ok && canWrite && ofs <= Room(fs.geo, old(Table(fs)), old(chain)) ==> fptr == ofs
      ensures res == Ok && canWrite && fptr < ofs ==> Full(fptr)
      ensures res == Ok ==>
          OnlyFile(fs.geo, old(Table(fs)), old(fs.Vol()), old(chain), Table(fs), fs.Vol(), chain)
      ensures fs.reliable && old(fs.MirrorsAgree()) ==> fs.MirrorsAgree()
      ensures fs.geo.Moved(old(fs.winsect), fs.winsect)
    {
      hide FatArea, Fat, Volume.Valid, Volume.Vol, Volume.MirrorsAgree, FileBytes, Layout, Sectors, SectorOf;
      hide OffsetOf, ClusterOf, WithinIt;
      hide Geometry.Sound, Clusters, ClustersFit, Buffered, FileChain, SameOn, Overwrite, NoneFree;
      hide OnlyFile, OnlyChain, OnlyTableAnd, OthersKept, Spared, Room, IsChain, Holds, Links;
      ghost var fat0, vol0, ch0, c0 := Table(fs), fs.Vol(), chain, Content();
      OnlyFileItself(fs.geo, fat0, vol0, ch0);
      NothingDone(0, 0);
      if err != Ok { return err; }
      var target := if ofs > objsize && !canWrite then objsize else ofs;
      var ifptr := fptr;
      fptr := 0;
      PlaceUnique(0, 0);
      res := Ok;
      var pos, nsect := 0, 0;
      if target > 0 {
        res, pos, nsect := SeekTo(target, ifptr);
        if res != Ok { err := res; return; }
      }
      ghost var fat1, vol1, ch1 := Table(fs), fs.Vol(), chain;
      var ok := Land(pos, nsect);
      OnlyFileTwice(fs.geo, fat0, vol0, ch0, fat1, vol1, ch1, Table(fs), fs.Vol(), chain);
      OthersKeptByFile(fs.geo, fat0, vol0, ch0, Table(fs), fs.Vol(), chain);
      UpToRoom(fs.geo, fat0, vol0, ch0, Table(fs), fs.Vol(), chain);
      if !ok { err := DiskErr; return DiskErr; }
    }

    /** The end of f_lseek: fptr is set, the file grows to it, and the buffer moves to its sector. */
    method Land(pos: nat, nsect: nat) returns (ok: bool)
      requires Valid() && fptr == 0 && Landed(pos, nsect) && pos <= 0xFFFF_FFFF
      modifies `sect, `dirty, `fptr, `objsize, `modified, buf, fs`disk
      ensures ok ==> Valid() && fptr == pos && objsize == Max(old(objsize), pos)
      ensures modified == (old(modified) || old(objsize) < pos)
      ensures ok ==> Content()[..old(objsize)] == old(Content())
      ensures fs.Valid() && Table(fs) == old(Table(fs))
      ensures OnlyFile(fs.geo, old(Table(fs)), old(fs.Vol()), chain, Table(fs), fs.Vol(), chain)
      ensures !ok ==> !fs.reliable && Spared(old(Content()), 0, 0)
      ensures fs.reliable && old(fs.MirrorsAgree()) ==> fs.MirrorsAgree()
    {
      hide FatArea, Fat, Volume.Valid, Volume.Vol, Volume.MirrorsAgree, FileBytes, Sectors, SectorOf;
      hide OffsetOf, ClusterOf, WithinIt;
      hide Geometry.Sound, Clusters, ClustersFit, Buffered, FileChain, SameOn, Overwrite, NoneFree, Spared;
      FileBytesPrefix(Img(), secs, objsize, Max(objsize, pos));
      fptr := pos;
      if fptr > objsize {
        objsize := fptr;
        modified := true;
      }
      ok := true;
      if OffsetOf(fptr) != 0 && nsect != sect {
        ghost var c := Content();
        ok := MoveBuffer(nsect);
        if !ok {
          SparesLess(c, old(Content()), 0, 0, 0, 0);
        }
      }
    }
  }

  // ---------- two open files ----------

  /** What makes a file valid apart from the volume. */
  ghost predicate Own(b: File)
    reads b, b.buf
  {
    && Clusters(b.fs.geo, b.chain) && b.secs == Sectors(b.fs.geo, b.chain) && b.sclust == Head(b.chain)
    && b.buf.Length == SS && b.buf != b.fs.win
    && b.fptr <= b.objsize <= |b.secs| * SS && b.objsize <= 0xFFFF_FFFF
    && (b.fptr > 0 ==> b.OnSector(SectorOf(b.fptr - 1)))
    && (OffsetOf(b.fptr) != 0 ==> SectorOf(b.fptr) < |b.secs| && b.sect == b.secs[SectorOf(b.fptr)])
  }

  lemma OwnPart(b: File)
    requires b.Valid()
    ensures Own(b) && FileChain(b.fs.geo, Table(b.fs), b.chain) && b.fs.winsect !in b.secs
    ensures Buffered(b.secs, b.fs.disk, b.sect, b.dirty, b.buf[..]) && |b.fs.disk| == |b.fs.Vol()| == b.fs.geo.nsect
    ensures Layout(b.fs.geo.nsect, b.secs)
    ensures b.Content() == FileBytes(Overlaid(b.fs.disk, b.sect, b.dirty, b.buf[..]), b.secs, b.objsize)
    ensures SameOn(b.secs, b.fs.Vol(), b.fs.disk) && b.buf != b.fs.win
  {
    hide Volume.Valid, Volume.Vol, Volume.MirrorsAgree, FatArea, Fat, Sectors, Clusters, ClustersFit;
    hide FileBytes, Overlaid, SameOn;
    FileOnDisk(b.fs, b.secs);
  }

  /** Whatever was done to another file, this one is valid with the bytes it had. */
  lemma BystanderKept(b: File, fat: seq<nat>, vol: seq<Sector>, disk: seq<Sector>, was: nat, ch: seq<nat>)
    requires Own(b) && b.fs.Valid() && |disk| == |vol| == b.fs.geo.nsect
    requires FileChain(b.fs.geo, fat, b.chain) && was !in b.secs && SameOn(b.secs, vol, disk)
    requires Buffered(b.secs, disk, b.sect, b.dirty, b.buf[..])
    requires Disjoint(ch, b.chain) && b.fs.geo.Moved(was, b.fs.winsect)
    requires OthersKept(b.fs.geo, fat, vol, ch, Table(b.fs), b.fs.Vol())
    ensures b.Valid()
    ensures Layout(|disk|, b.secs)
    ensures b.Content() == FileBytes(Overlaid(disk, b.sect, b.dirty, b.buf[..]), b.secs, b.objsize)
  {
    hide Volume.Valid, Volume.Vol, Volume.MirrorsAgree, FileChain, Buffered, FatArea, Fat, Sectors;
    hide Clusters, ClustersFit;
    hide FileBytes, Overlaid, Disjoint, Table;
    var g, secs := b.fs.geo, b.secs;
    assert FileChain(g, Table(b.fs), b.chain) && SameOn(secs, vol, b.fs.Vol());
    WindowStaysOff(g, b.chain, was, b.fs.winsect);
    FileOnDisk(b.fs, secs);
    SameOnTwice(secs, disk, vol, b.fs.Vol());
    SameOnTwice(secs, disk, b.fs.Vol(), b.fs.disk);
    BufferKept(secs, secs, disk, b.fs.disk, b.sect, b.dirty, b.buf[..]);
    SameBytes(Overlaid(disk, b.sect, b.dirty, b.buf[..]), b.Img(), secs, b.objsize);
  }

  /** f_write to one of two open files: it gets the bytes, the other keeps its own, buffered ones included. */
  method WriteBeside(a: File, b: File, data: seq<Byte>) returns (res: FResult, bw: nat)
    requires a.Valid() && b.Valid() && a != b && a.fs == b.fs && a.buf != b.buf
    requires Disjoint(a.chain, b.chain) && |data| <= 0xFFFF_FFFF
    modifies a, a.buf, a.fs`disk, a.fs`wflag, a.fs`winsect, a.fs`lastClst, a.fs`freeClst, a.fs`fsiDirty, a.fs.win
    ensures res == Ok ==>
      a.Valid() && bw <= |data| && a.Content() == Overwrite(old(a.Content()), old(a.fptr), data[..bw])
    ensures b.Valid() && b.Content() == old(b.Content())
    ensures res == Ok ==> Disjoint(a.chain, b.chain)
  {
    ghost var fs, ch := a.fs, a.chain;
    hide *;
    OwnPart(b);
    ValidVolume(a);
    ghost var fat, vol, disk, was := Table(fs), fs.Vol(), fs.disk, fs.winsect;
    ghost var bytes := b.buf[..];
    res, bw := a.Write(data);
    assert Own(b) && b.buf[..] == bytes;
    BystanderKept(b, fat, vol, disk, was, ch);
    if res == Ok {
      ValidVolume(a);
      OtherOnDrive(fs.geo, fat, vol, ch, Table(fs), fs.Vol(), a.chain, b.chain);
    }
  }

  lemma ValidVolume(a: File)
    requires a.Valid()
    ensures a.fs.Valid() && a.Base() && a.fptr <= a.objsize <= 0xFFFF_FFFF
  {
  }

  lemma OverwriteShows(c: seq<Byte>, f: nat, d: seq<Byte>)
    requires f <= |c|
    ensures f + |d| <= |Overwrite(c, f, d)| && Overwrite(c, f, d)[f..f + |d|] == d && |c| <= |Overwrite(c, f, d)|
  {
  }

  /** Seeking to a place in the file and reading from there. */
  method ReadBack(file: File, start: nat, n: nat) returns (res: FResult, back: seq<Byte>)
    requires file.Valid() && start + n <= file.objsize <= 0xFFFF_FFFF
    modifies file, file.buf
    modifies file.fs`disk, file.fs`wflag, file.fs`winsect, file.fs.win
    modifies file.fs`lastClst, file.fs`freeClst, file.fs`fsiDirty
    ensures res == Ok ==> file.Valid() && file.Content() == old(file.Content()) && file.fptr == start + n
    ensures res == Ok ==> |old(file.Content())| == old(file.objsize) && back == old(file.Content())[start..start + n]
    ensures file.fs.reliable && INT_ERROR !in old(Table(file.fs)) && old(file.err) == Ok && file.canRead ==> res == Ok
  {
    hide File.Base, File.Valid, File.Content, OnlyFile, Volume.Valid, Volume.Vol, Volume.MirrorsAgree, Table;
    hide NoneFree, AtMost, Room, Geometry.Moved, OnlyTableAnd, OthersKept, File.Spared, File.Full;
    ValidVolume(file);
    back := [];
    ghost var c := file.Content();
    res := file.Seek(start);
    if res == Ok {
      ValidVolume(file);
      assert file.Content() == c;
      res, back := file.Read(n);
    }
  }

  /** f_write to a file that is in order, as far as reading back needs it. */
  method WriteAnew(file: File, data: seq<Byte>) returns (res: FResult, bw: nat)
    requires file.Valid() && |data| <= 0xFFFF_FFFF
    modifies file, file.buf
    modifies file.fs`disk, file.fs`wflag, file.fs`winsect, file.fs.win
    modifies file.fs`lastClst, file.fs`freeClst, file.fs`fsiDirty
    ensures res == Ok ==> file.Valid() && bw <= |data| && old(file.fptr) + bw <= file.objsize <= 0xFFFF_FFFF
    ensures res == Ok ==> file.Content() == Overwrite(old(file.Content()), old(file.fptr), data[..bw])
    ensures res == Ok && Fits(old(file.fptr) + |data|, Room(file.fs.geo, old(Table(file.fs)), old(file.chain))) ==>
      bw == |data|
    ensures res == Ok ==> file.err == old(file.err)
    ensures res == Ok && INT_ERROR !in old(Table(file.fs)) ==> INT_ERROR !in Table(file.fs)
    ensures file.fs.reliable && INT_ERROR !in old(Table(file.fs)) ==>
      old(file.err) == Ok && file.canWrite ==> res == Ok
  {
    ValidVolume(file);
    ghost var fat0, vol0, ch0 := Table(file.fs), file.fs.Vol(), file.chain;
    hide File.Base, File.Valid, File.Content, OnlyFile, Volume.Valid, Volume.Vol, Volume.MirrorsAgree, Table, Fits;
    hide NoneFree, WriteLimit, AtMost, Room, Overwrite, Geometry.Moved, OnlyTableAnd, OthersKept;
    hide File.Spared, File.Full;
    res, bw := file.Write(data);
    if res == Ok {
      ValidVolume(file);
      ErrorsWereThere(file.fs.geo, fat0, vol0, ch0, Table(file.fs), file.fs.Vol(), file.chain);
    }
  }

  /** What was written is read back after seeking to where it went. */
  method WriteThenRead(file: File, data: seq<Byte>) returns (res: FResult, bw: nat, back: seq<Byte>)
    requires file.Valid() && |data| <= 0xFFFF_FFFF
    modifies file, file.buf
    modifies file.fs`disk, file.fs`wflag, file.fs`winsect, file.fs.win
    modifies file.fs`lastClst, file.fs`freeClst, file.fs`fsiDirty
    ensures res == Ok ==> file.Valid() && bw <= |data| && back == data[..bw] && file.fptr == old(file.fptr) + bw
    ensures res == Ok ==> file.Content() == Overwrite(old(file.Content()), old(file.fptr), data[..bw])
    ensures res == Ok && Fits(old(file.fptr) + |data|, Room(file.fs.geo, old(Table(file.fs)), old(file.chain))) ==>
      back == data
    ensures file.fs.reliable && INT_ERROR !in old(Table(file.fs)) ==>
      old(file.err) == Ok && file.canRead && file.canWrite ==> res == Ok
  {
    ValidVolume(file);
    hide File.Base, File.Valid, File.Content, Volume.Valid, Volume.Vol, Table, Fits, Room, Overwrite;
    ghost var was := file.Content();
    var start := file.fptr;
    back := [];
    res, bw := WriteAnew(file, data);
    if res == Ok {
      OverwriteShows(was, start, data[..bw]);
      res, back := ReadBack(file, start, bw);
    }
  }
}
