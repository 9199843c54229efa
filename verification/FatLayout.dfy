/** Where the bytes of a file are: the data sectors of a cluster chain, in file order. */
module FatLayout {
  import opened Arith
  import opened FatTable
  import opened FatVolume
  import opened FatChain

  /** The number of the cluster of a file that its j-th sector belongs to. */
  function ClusterOf(g: Geometry, j: nat): nat {
    if g.csize == 0 then 0 else j / g.csize
  }

  /** The number of that sector within its cluster. */
  function WithinIt(g: Geometry, j: nat): (o: nat)
    ensures g.csize > 0 ==> o < g.csize
  {
    if g.csize == 0 then 0 else j % g.csize
  }

  /** All clusters lie on the drive. */
  ghost predicate ClustersFit(g: Geometry) {
    g.Sound() && g.database + Times(g.nFatent - 2, g.csize) <= g.nsect
  }

  ghost predicate Clusters(g: Geometry, ch: seq<nat>) {
    forall i :: 0 <= i < |ch| ==> 2 <= ch[i] < g.nFatent
  }

  /** First sector of cluster c. */
  function ClusterSector(g: Geometry, c: nat): nat
    requires c >= 2
  {
    g.database + Times(c - 2, g.csize)
  }

  function Run(s: nat, k: nat): (r: seq<nat>)
    ensures |r| == k && forall i :: 0 <= i < k ==> r[i] == s + i
  {
    seq(k, i => s + i)
  }

  /** The sectors of a chain, in file order. */
  ghost function Sectors(g: Geometry, ch: seq<nat>): (s: seq<nat>)
    requires Clusters(g, ch)
  {
    if ch == [] then [] else Sectors(g, ch[..|ch| - 1]) + Run(ClusterSector(g, ch[|ch| - 1]), g.csize)
  }

  lemma SectorsOfLonger(g: Geometry, ch: seq<nat>, c: nat)
    requires Clusters(g, ch) && 2 <= c < g.nFatent
    ensures Clusters(g, ch + [c])
    ensures Sectors(g, ch + [c]) == Sectors(g, ch) + Run(ClusterSector(g, c), g.csize)
  {
    assert (ch + [c])[..|ch|] == ch;
  }

  lemma {:induction false} SectorsLength(g: Geometry, ch: seq<nat>)
    requires Clusters(g, ch)
    ensures |Sectors(g, ch)| == Times(|ch|, g.csize)
  {
    if ch != [] {
      SectorsLength(g, ch[..|ch| - 1]);
    }
  }

  /** Clusters follow one another from the start of the data area on. */
  lemma ClustersInRow(g: Geometry, c: nat)
    requires 2 <= c
    ensures ClusterSector(g, 2) == g.database && ClusterSector(g, c + 1) == ClusterSector(g, c) + g.csize
    ensures ClusterSector(g, c) == g.database + (c - 2) * g.csize
  {
    TimesIsProduct(c - 2, g.csize);
  }

  /** The o-th sector of the k-th cluster. */
  lemma {:induction false} SectorAt(g: Geometry, ch: seq<nat>, k: nat, o: nat)
    requires Clusters(g, ch) && k < |ch| && o < g.csize
    ensures Times(k, g.csize) + o < |Sectors(g, ch)|
    ensures Sectors(g, ch)[Times(k, g.csize) + o] == ClusterSector(g, ch[k]) + o
    decreases |ch|
  {
    var init := ch[..|ch| - 1];
    SectorsLength(g, init);
    if k < |init| {
      SectorAt(g, init, k, o);
    }
  }

  /** The j-th sector of a file, as the code finds it. */
  lemma SectorByNumber(g: Geometry, ch: seq<nat>, j: nat)
    requires Clusters(g, ch) && g.csize > 0 && j < |Sectors(g, ch)|
    ensures ClusterOf(g, j) < |ch|
    ensures Sectors(g, ch)[j] == ClusterSector(g, ch[ClusterOf(g, j)]) + WithinIt(g, j)
  {
    SectorsLength(g, ch);
    Divided(j, g.csize);
    TimesGrows(|ch|, j / g.csize, g.csize);
    SectorAt(g, ch, j / g.csize, j % g.csize);
  }

  /** Sectors of one cluster are contiguous. */
  lemma Contiguous(g: Geometry, ch: seq<nat>, j: nat, i: nat)
    requires Clusters(g, ch) && g.csize > 0 && j < |Sectors(g, ch)|
    requires WithinIt(g, j) + i < g.csize
    ensures j + i < |Sectors(g, ch)| && Sectors(g, ch)[j + i] == Sectors(g, ch)[j] + i
    ensures ClusterOf(g, j + i) == ClusterOf(g, j)
  {
    SectorByNumber(g, ch, j);
    Divided(j, g.csize);
    SectorAt(g, ch, j / g.csize, j % g.csize + i);
    DividedUnique(j + i, g.csize, j / g.csize, j % g.csize + i);
  }

  lemma ClusterOfSector(g: Geometry, ch: seq<nat>, j: nat) returns (k: nat)
    requires Clusters(g, ch) && g.csize > 0 && j < |Sectors(g, ch)|
    ensures k == ClusterOf(g, j) < |ch|
    ensures ClusterSector(g, ch[k]) <= Sectors(g, ch)[j] < ClusterSector(g, ch[k]) + g.csize
  {
    k := j / g.csize;
    SectorByNumber(g, ch, j);
    Divided(j, g.csize);
  }

  /** Sectors of different clusters differ. */
  lemma ClustersApart(g: Geometry, c: nat, d: nat, s: nat)
    requires 2 <= c && 2 <= d && c != d
    requires ClusterSector(g, c) <= s < ClusterSector(g, c) + g.csize
    ensures !(ClusterSector(g, d) <= s < ClusterSector(g, d) + g.csize)
  {
    TimesGrows(c - 2, d - 2, g.csize);
    TimesGrows(d - 2, c - 2, g.csize);
  }

  /** A file has no sector twice. */
  lemma SectorsDistinct(g: Geometry, ch: seq<nat>, i: nat, j: nat)
    requires Clusters(g, ch) && g.csize > 0 && i < j < |Sectors(g, ch)|
    requires forall a, b :: 0 <= a < b < |ch| ==> ch[a] != ch[b]
    ensures Sectors(g, ch)[i] != Sectors(g, ch)[j]
  {
    var a := ClusterOfSector(g, ch, i);
    var b := ClusterOfSector(g, ch, j);
    SectorByNumber(g, ch, i);
    SectorByNumber(g, ch, j);
    if a == b {
      Divided(i, g.csize);
      Divided(j, g.csize);
    } else {
      ClustersApart(g, ch[a], ch[b], Sectors(g, ch)[i]);
    }
  }

  /** Files on disjoint chains share no sector. */
  lemma SectorsDisjoint(g: Geometry, a: seq<nat>, b: seq<nat>, s: nat)
    requires Clusters(g, a) && Clusters(g, b) && g.csize > 0 && Disjoint(a, b)
    requires s in Sectors(g, a)
    ensures s !in Sectors(g, b)
  {
    var i :| 0 <= i < |Sectors(g, a)| && Sectors(g, a)[i] == s;
    var k := ClusterOfSector(g, a, i);
    forall j | 0 <= j < |Sectors(g, b)|
      ensures Sectors(g, b)[j] != s
    {
      var l := ClusterOfSector(g, b, j);
      assert a[k] in a;
      ClustersApart(g, a[k], b[l], s);
    }
  }

  /** The sectors of a file are data sectors on the drive. */
  lemma SectorsInData(g: Geometry, ch: seq<nat>, j: nat)
    requires ClustersFit(g) && Clusters(g, ch) && j < |Sectors(g, ch)|
    ensures g.database <= Sectors(g, ch)[j] < g.nsect
    ensures !g.InFat(Sectors(g, ch)[j]) && !g.IsMirror(Sectors(g, ch)[j])
  {
    var k := ClusterOfSector(g, ch, j);
    TimesGrows(ch[k] - 2, g.nFatent - 2, g.csize);
  }

  /** Every sector of the list is on the drive, and none is listed twice. */
  ghost predicate Layout(nsect: nat, secs: seq<nat>) {
    && (forall i :: 0 <= i < |secs| ==> secs[i] < nsect)
    && (forall i, j :: 0 <= i < j < |secs| ==> secs[i] != secs[j])
  }

  /** The two drives agree on the given sectors. */
  ghost predicate SameOn(secs: seq<nat>, a: seq<Sector>, b: seq<Sector>) {
    |a| == |b| && forall i :: 0 <= i < |secs| && secs[i] < |a| ==> a[secs[i]] == b[secs[i]]
  }

  lemma SameOnItself(secs: seq<nat>, a: seq<Sector>)
    ensures SameOn(secs, a, a)
  {
  }

  lemma ChainLayout(g: Geometry, ch: seq<nat>)
    requires ClustersFit(g) && Clusters(g, ch) && forall a, b :: 0 <= a < b < |ch| ==> ch[a] != ch[b]
    ensures Layout(g.nsect, Sectors(g, ch))
  {
    var secs := Sectors(g, ch);
    forall i | 0 <= i < |secs|
      ensures secs[i] < g.nsect
    {
      SectorsInData(g, ch, i);
    }
    forall i, j | 0 <= i < j < |secs|
      ensures secs[i] != secs[j]
    {
      SectorsDistinct(g, ch, i, j);
    }
  }

  lemma Place(p: nat)
    ensures p == SectorOf(p) * SS + OffsetOf(p)
  {
  }

  lemma PlaceUnique(j: nat, o: nat)
    requires o < SS
    ensures SectorOf(j * SS + o) == j && OffsetOf(j * SS + o) == o
  {
    DivModUnique(j * SS + o, SS, j, o);
  }

  /** The first n bytes of the file whose sectors are secs. */
  ghost function FileBytes(img: seq<Sector>, secs: seq<nat>, n: nat): (b: seq<Byte>)
    requires Layout(|img|, secs) && n <= |secs| * SS
    ensures |b| == n
  {
    seq(n, p requires 0 <= p < n => img[secs[SectorOf(p)]][OffsetOf(p)])
  }

  /** c with the bytes from f on replaced by d, longer if d reaches past the end. */
  function Overwrite(c: seq<Byte>, f: nat, d: seq<Byte>): (r: seq<Byte>)
    requires f <= |c|
    ensures |r| == if f + |d| > |c| then f + |d| else |c|
    ensures forall p :: 0 <= p < |r| ==> r[p] == if f <= p < f + |d| then d[p - f] else c[p]
  {
    c[..f] + d + if f + |d| <= |c| then c[f + |d|..] else []
  }

  lemma OverwriteTwice(c: seq<Byte>, f: nat, a: seq<Byte>, b: seq<Byte>)
    requires f <= |c|
    ensures Overwrite(Overwrite(c, f, a), f + |a|, b) == Overwrite(c, f, a + b)
  {
  }

  function Max(a: nat, b: nat): nat {
    if a < b then b else a
  }

  /** Bytes d written into one sector of a file, at offset o. */
  lemma PartialWrite(img: seq<Sector>, img': seq<Sector>, secs: seq<nat>, n: nat, j: nat, o: nat, d: seq<Byte>)
    requires Layout(|img|, secs) && |img'| == |img| && n <= |secs| * SS
    requires j < |secs| && o + |d| <= SS && j * SS + o <= n
    requires forall i :: 0 <= i < |secs| && i != j ==> img'[secs[i]] == img[secs[i]]
    requires forall q :: 0 <= q < SS && o <= q < o + |d| ==> img'[secs[j]][q] == d[q - o]
    requires forall q :: 0 <= q < SS && !(o <= q < o + |d|) && j * SS + q < n ==> img'[secs[j]][q] == img[secs[j]][q]
    ensures var f := j * SS + o;
            FileBytes(img', secs, Max(n, f + |d|)) == Overwrite(FileBytes(img, secs, n), f, d)
  {
    hide SectorOf, OffsetOf;
    var f := j * SS + o;
    var n' := Max(n, f + |d|);
    forall p | 0 <= p < n'
      ensures FileBytes(img', secs, n')[p] == Overwrite(FileBytes(img, secs, n), f, d)[p]
    {
      Place(p);
    }
  }

  /** Whole sectors written, cc of them from the j-th on. */
  lemma DirectWrite(img: seq<Sector>, img': seq<Sector>, secs: seq<nat>, n: nat, j: nat, cc: nat, d: seq<Byte>)
    requires Layout(|img|, secs) && |img'| == |img| && n <= |secs| * SS
    requires j + cc <= |secs| && |d| == cc * SS && j * SS <= n
    requires forall i :: 0 <= i < |secs| && !(j <= i < j + cc) ==> img'[secs[i]] == img[secs[i]]
    requires forall k :: 0 <= k < cc ==> img'[secs[j + k]] == Chunk(d, k)
    ensures FileBytes(img', secs, Max(n, (j + cc) * SS)) == Overwrite(FileBytes(img, secs, n), j * SS, d)
  {
    hide SectorOf, OffsetOf;
    var n' := Max(n, (j + cc) * SS);
    forall p | 0 <= p < n'
      ensures FileBytes(img', secs, n')[p] == Overwrite(FileBytes(img, secs, n), j * SS, d)[p]
    {
      Place(p);
      var k := SectorOf(p) - j;
      if 0 <= k < cc {
        assert img'[secs[j + k]] == Chunk(d, k);
      }
    }
  }

  /** Whole sectors read, cc of them from the j-th on. */
  lemma DirectRead(img: seq<Sector>, secs: seq<nat>, n: nat, j: nat, cc: nat, d: seq<Byte>)
    requires Layout(|img|, secs) && n <= |secs| * SS
    requires j + cc <= |secs| && |d| == cc * SS && (j + cc) * SS <= n
    requires forall k :: 0 <= k < cc ==> img[secs[j + k]] == Chunk(d, k)
    ensures FileBytes(img, secs, n)[j * SS..(j + cc) * SS] == d
  {
    hide SectorOf, OffsetOf;
    forall q | 0 <= q < |d|
      ensures FileBytes(img, secs, n)[j * SS + q] == d[q]
    {
      Place(q);
      var k := SectorOf(q);
      PlaceUnique(j + k, OffsetOf(q));
      assert img[secs[j + k]] == Chunk(d, k);
    }
  }

  lemma PartialRead(img: seq<Sector>, secs: seq<nat>, n: nat, j: nat, o: nat, w: nat)
    requires Layout(|img|, secs) && n <= |secs| * SS
    requires j < |secs| && o + w <= SS && j * SS + o + w <= n
    ensures FileBytes(img, secs, n)[j * SS + o..j * SS + o + w] == img[secs[j]][o..o + w]
  {
    hide SectorOf, OffsetOf;
    var f := j * SS + o;
    var b := FileBytes(img, secs, n)[f..f + w];
    forall q | 0 <= q < w
      ensures b[q] == img[secs[j]][o..o + w][q]
    {
      PlaceUnique(j, o + q);
    }
  }

  /** A file reads the same on two drives that agree on its sectors. */
  lemma SameBytes(img: seq<Sector>, img': seq<Sector>, secs: seq<nat>, n: nat)
    requires Layout(|img|, secs) && SameOn(secs, img, img') && n <= |secs| * SS
    ensures FileBytes(img', secs, n) == FileBytes(img, secs, n)
  {
    hide SectorOf, OffsetOf;
    forall p | 0 <= p < n
      ensures FileBytes(img', secs, n)[p] == FileBytes(img, secs, n)[p]
    {
      Place(p);
    }
  }

  /** More sectors at the end of the list do not change the bytes before them. */
  lemma MoreSectors(img: seq<Sector>, secs: seq<nat>, more: seq<nat>, n: nat)
    requires Layout(|img|, secs) && Layout(|img|, more) && secs <= more && n <= |secs| * SS
    ensures FileBytes(img, more, n) == FileBytes(img, secs, n)
  {
    hide SectorOf, OffsetOf;
    forall p | 0 <= p < n
      ensures FileBytes(img, more, n)[p] == FileBytes(img, secs, n)[p]
    {
      Place(p);
    }
  }

  lemma SameBytesLonger(img: seq<Sector>, img': seq<Sector>, secs: seq<nat>, more: seq<nat>, n: nat)
    requires Layout(|img|, secs) && SameOn(secs, img, img') && Layout(|img|, more) && secs <= more
    requires n <= |secs| * SS
    ensures FileBytes(img', more, n) == FileBytes(img, secs, n)
  {
    SameBytes(img, img', secs, n);
    MoreSectors(img', secs, more, n);
  }

  /** Sector j starts a cluster: which, and where the sector before it is. */
  lemma Boundary(g: Geometry, ch: seq<nat>, j: nat)
    requires Clusters(g, ch) && g.csize > 0 && WithinIt(g, j) == 0 && j <= |Sectors(g, ch)|
    ensures ClusterOf(g, j) <= |ch|
    ensures ClusterOf(g, j) < |ch| <==> j < |Sectors(g, ch)|
    ensures j > 0 ==> 0 <= ClusterOf(g, j - 1) == ClusterOf(g, j) - 1
    ensures j == 0 ==> ClusterOf(g, j) == 0
  {
    var k := j / g.csize;
    Divided(j, g.csize);
    SectorsLength(g, ch);
    TimesGrows(|ch|, k, g.csize);
    TimesGrows(k, |ch|, g.csize);
    if j == 0 {
      DividedUnique(0, g.csize, 0, 0);
    } else {
      assert k > 0;
      DividedUnique(j - 1, g.csize, k - 1, g.csize - 1);
    }
  }

  /** A chain that takes a free cluster keeps its sectors and gets the sectors of that cluster. */
  lemma LongerFile(g: Geometry, fat: seq<nat>, ch: seq<nat>, c: nat)
    requires ClustersFit(g) && |fat| == g.nFatent && (ch == [] || IsChain(fat, ch)) && Clusters(g, ch)
    requires 2 <= c < |fat| && fat[c] == 0
    ensures Tail(ch) < |fat|
    ensures var fat', ch' := Linked(fat, Tail(ch), c, EndMark(g.ty)), ch + [c];
            && IsChain(fat', ch') && Clusters(g, ch') && Layout(g.nsect, Sectors(g, ch'))
            && Sectors(g, ch) <= Sectors(g, ch')
  {
    EntriesHoldClusters(g, c);
    LinkedExtends(fat, ch, c, EndMark(g.ty));
    SectorsOfLonger(g, ch, c);
    ChainLayout(g, ch + [c]);
  }

  /** Table accesses do not bring the window onto a file. */
  lemma WindowStaysOff(g: Geometry, ch: seq<nat>, was: nat, now: nat)
    requires ClustersFit(g) && Clusters(g, ch) && g.Moved(was, now)
    requires was !in Sectors(g, ch) || now != was
    ensures now !in Sectors(g, ch)
  {
    forall j | 0 <= j < |Sectors(g, ch)|
      ensures Sectors(g, ch)[j] != now
    {
      SectorsInData(g, ch, j);
    }
  }

  /** ch is the chain of a file, possibly empty, with all its sectors on the drive. */
  ghost predicate FileChain(g: Geometry, fat: seq<nat>, ch: seq<nat>)
    ensures FileChain(g, fat, ch) ==> ClustersFit(g) && g.Sound() && Clusters(g, ch) && Layout(g.nsect, Sectors(g, ch))
  {
    ClustersFit(g) && |fat| == g.nFatent && Clusters(g, ch) && (ch == [] || IsChain(fat, ch)) &&
    Layout(g.nsect, Sectors(g, ch))
  }

  /** The state of a file's buffer b: it holds sector sect of the file (0 for none), with changes if dirty. */
  ghost predicate Buffered(secs: seq<nat>, disk: seq<Sector>, sect: nat, dirty: bool, b: seq<Byte>) {
    && (sect == 0 ==> !dirty)
    && (sect != 0 ==> sect in secs && sect < |disk| && (!dirty ==> b == disk[sect]))
  }

  /** The drive with a dirty buffer laid over it. */
  ghost function Overlaid(disk: seq<Sector>, sect: nat, dirty: bool, b: seq<Byte>): (img: seq<Sector>)
    requires dirty ==> sect < |disk| && |b| == SS
    ensures |img| == |disk|
  {
    if dirty then disk[sect := b] else disk
  }

  /** A buffer stays what it is when its file keeps its sectors on the drive and perhaps gets more. */
  lemma BufferKept(secs: seq<nat>, secs': seq<nat>, disk: seq<Sector>, disk': seq<Sector>, sect: nat, dirty: bool,
                   b: seq<Byte>)
    requires SameOn(secs, disk, disk') && secs <= secs' && |b| == SS && Buffered(secs, disk, sect, dirty, b)
    ensures Buffered(secs', disk', sect, dirty, b)
    ensures SameOn(secs, Overlaid(disk, sect, dirty, b), Overlaid(disk', sect, dirty, b))
  {
  }

  lemma NotInRun(secs: seq<nat>, j: nat, cc: nat, x: nat)
    requires 0 < cc && j + cc <= |secs|
    requires forall i :: j <= i < j + cc ==> secs[i] == secs[j] + (i - j) && secs[i] != x
    ensures !(secs[j] <= x < secs[j] + cc)
  {
    var t := if secs[j] <= x < secs[j] + cc then j + (x - secs[j]) else j;
    assert secs[t] == secs[j] + (t - j);
  }

  lemma WindowOff(secs: seq<nat>, j: nat, cc: nat, w: nat)
    requires 0 < cc && j + cc <= |secs| && w !in secs
    requires forall i :: j <= i < j + cc ==> secs[i] == secs[j] + (i - j)
    ensures !(secs[j] <= w < secs[j] + cc)
  {
    NotInRun(secs, j, cc, w);
  }

  /** cc sectors from the j-th on, within one cluster: they are consecutive on the drive. */
  lemma ClusterRun(g: Geometry, ch: seq<nat>, j: nat, cc: nat)
    requires ClustersFit(g) && Clusters(g, ch) && Layout(g.nsect, Sectors(g, ch)) && g.csize > 0
    requires j < |Sectors(g, ch)| && 0 < cc && WithinIt(g, j) + cc <= g.csize
    ensures var secs := Sectors(g, ch);
        && j + cc <= |secs| && ClusterOf(g, j + cc - 1) == ClusterOf(g, j)
        && g.database <= secs[j] && secs[j] + cc <= g.nsect
        && (forall i :: j <= i < j + cc ==> secs[i] == secs[j] + (i - j))
        && (forall i :: 0 <= i < |secs| && !(j <= i < j + cc) ==> !(secs[j] <= secs[i] < secs[j] + cc))
  {
    hide Sectors, Clusters, ClustersFit, Geometry.Sound, Geometry.InFat, Geometry.IsMirror;
    var secs := Sectors(g, ch);
    Contiguous(g, ch, j, cc - 1);
    SectorsInData(g, ch, j);
    SectorsInData(g, ch, j + cc - 1);
    forall i | j <= i < j + cc
      ensures secs[i] == secs[j] + (i - j)
    {
      Contiguous(g, ch, j, i - j);
    }
    forall i | 0 <= i < |secs| && !(j <= i < j + cc)
      ensures !(secs[j] <= secs[i] < secs[j] + cc)
    {
      NotInRun(secs, j, cc, secs[i]);
    }
  }

  /** Writing d over cc consecutive sectors of a file, and into its clean buffer if that holds one of them. */
  lemma DirectlyWritten(secs: seq<nat>, n: nat, j: nat, cc: nat, d: seq<Byte>,
                        disk: seq<Sector>, disk': seq<Sector>, sect: nat, b: seq<Byte>, b': seq<Byte>)
    requires Layout(|disk|, secs) && |disk'| == |disk| && n <= |secs| * SS && j * SS <= n
    requires 0 < cc && j + cc <= |secs| && |d| == cc * SS
    requires Buffered(secs, disk, sect, false, b)
    requires forall i :: j <= i < j + cc ==> secs[i] == secs[j] + (i - j)
    requires forall i :: 0 <= i < |secs| && !(j <= i < j + cc) ==> !(secs[j] <= secs[i] < secs[j] + cc)
    requires forall x :: 0 <= x < |disk| && !(secs[j] <= x < secs[j] + cc) ==> disk'[x] == disk[x]
    requires forall k :: 0 <= k < cc ==> secs[j] + k < |disk| && disk'[secs[j] + k] == Chunk(d, k)
    requires b' == if secs[j] <= sect < secs[j] + cc then Chunk(d, sect - secs[j]) else b
    ensures Buffered(secs, disk', sect, false, b')
    ensures FileBytes(disk', secs, Max(n, (j + cc) * SS)) == Overwrite(FileBytes(disk, secs, n), j * SS, d)
  {
    hide FileBytes;
    forall k | 0 <= k < cc
      ensures disk'[secs[j + k]] == Chunk(d, k)
    {
      assert secs[j + k] == secs[j] + k;
    }
    if secs[j] <= sect < secs[j] + cc {
      assert disk'[secs[j] + (sect - secs[j])] == Chunk(d, sect - secs[j]);
    }
    DirectWrite(disk, disk', secs, n, j, cc, d);
  }

  /** Bytes d copied into the buffer of sector j at offset o. A clean buffer need only be right up to the
      end of the file: past it nothing was loaded. */
  lemma CopiedIn(secs: seq<nat>, n: nat, j: nat, o: nat, d: seq<Byte>,
                 disk: seq<Sector>, dirty: bool, b: seq<Byte>, b': seq<Byte>)
    requires Layout(|disk|, secs) && n <= |secs| * SS && j < |secs| && secs[j] != 0
    requires |b| == SS && o + |d| <= SS && j * SS + o <= n
    requires dirty || forall q :: 0 <= q < SS && j * SS + q < n ==> b[q] == disk[secs[j]][q]
    requires b' == b[..o] + d + b[o + |d|..]
    ensures Buffered(secs, disk, secs[j], true, b')
    ensures FileBytes(Overlaid(disk, secs[j], true, b'), secs, Max(n, j * SS + o + |d|)) ==
            Overwrite(FileBytes(Overlaid(disk, secs[j], dirty, b), secs, n), j * SS + o, d)
  {
    hide FileBytes;
    PartialWrite(Overlaid(disk, secs[j], dirty, b), Overlaid(disk, secs[j], true, b'), secs, n, j, o, d);
  }

  /** Sector j does not start a cluster: it is of the cluster of the sector before it. */
  lemma WithinCluster(g: Geometry, ch: seq<nat>, j: nat)
    requires Clusters(g, ch) && g.csize > 0 && WithinIt(g, j) != 0 && j <= |Sectors(g, ch)|
    ensures 0 < j < |Sectors(g, ch)| && ClusterOf(g, j - 1) == ClusterOf(g, j)
  {
    hide Sectors;
    Divided(j, g.csize);
    DividedUnique(0, g.csize, 0, 0);
    var k, o := j / g.csize, j % g.csize;
    DividedUnique(j - 1, g.csize, k, o - 1);
    SectorsLength(g, ch);
    TimesGrows(|ch|, k, g.csize);
    TimesGrows(k, |ch|, g.csize);
    SectorAtEnd(g, ch, k, o);
  }

  lemma SectorAtEnd(g: Geometry, ch: seq<nat>, k: nat, o: nat)
    requires Clusters(g, ch) && 0 < o < g.csize && Times(k, g.csize) + o <= Times(|ch|, g.csize)
    ensures Times(k, g.csize) + o < Times(|ch|, g.csize)
  {
    TimesGrows(|ch|, k, g.csize);
    TimesGrows(k, |ch|, g.csize);
  }

  /** Transfer data with its k-th sector replaced. */
  function Patched(d: seq<Byte>, k: nat, b: seq<Byte>): (r: seq<Byte>)
    requires (k + 1) * SS <= |d| && |b| == SS
    ensures |r| == |d| && Chunk(r, k) == b
    ensures forall i :: 0 <= i && i != k && (i + 1) * SS <= |d| ==> Chunk(r, i) == Chunk(d, i)
  {
    var r := d[..k * SS] + b + d[(k + 1) * SS..];
    assert Chunk(r, k) == b;
    assert forall i :: 0 <= i && i != k && (i + 1) * SS <= |d| ==> Chunk(r, i) == Chunk(d, i);
    r
  }

  /** Reading cc consecutive sectors past a buffer, and taking a dirty one from it, gives the bytes of the file. */
  lemma DirectlyRead(secs: seq<nat>, n: nat, j: nat, cc: nat, disk: seq<Sector>,
                     sect: nat, dirty: bool, b: seq<Byte>, d: seq<Byte>, d': seq<Byte>)
    requires Layout(|disk|, secs) && n <= |secs| * SS && 0 < cc && j + cc <= |secs| && (j + cc) * SS <= n
    requires Buffered(secs, disk, sect, dirty, b) && |b| == SS && |d| == cc * SS
    requires forall i :: j <= i < j + cc ==> secs[i] == secs[j] + (i - j)
    requires forall k :: 0 <= k < cc ==> secs[j] + k < |disk| && Chunk(d, k) == disk[secs[j] + k]
    requires d' == if dirty && secs[j] <= sect < secs[j] + cc then Patched(d, sect - secs[j], b) else d
    ensures FileBytes(Overlaid(disk, sect, dirty, b), secs, n)[j * SS..j * SS + |d'|] == d'
  {
    hide FileBytes;
    var img := Overlaid(disk, sect, dirty, b);
    forall k | 0 <= k < cc
      ensures img[secs[j + k]] == Chunk(d', k)
    {
      assert secs[j + k] == secs[j] + k;
    }
    DirectRead(img, secs, n, j, cc, d');
  }

  /** The number of the cluster of a file that byte p belongs to. */
  function ClusterOfByte(g: Geometry, p: nat): nat {
    if g.csize == 0 then 0 else p / (g.csize * SS)
  }

  lemma ByteInCluster(g: Geometry, p: nat)
    requires g.csize > 0
    ensures ClusterOfByte(g, p) == ClusterOf(g, SectorOf(p))
    ensures Times(ClusterOfByte(g, p), g.csize) * SS <= p
  {
    var j := SectorOf(p);
    Place(p);
    Divided(j, g.csize);
    var k, o := j / g.csize, j % g.csize;
    TimesIsProduct(k, g.csize);
    assert p == (g.csize * SS) * k + (o * SS + OffsetOf(p));
    DivModUnique(p, g.csize * SS, k, o * SS + OffsetOf(p));
  }

  /** ofs bytes into the k-th cluster, its end included: the sector of the byte before, and of the byte there. */
  lemma IntoCluster(g: Geometry, ch: seq<nat>, k: nat, ofs: nat)
    requires Clusters(g, ch) && k < |ch| && 0 < ofs <= g.csize * SS
    ensures var pos := Times(k, g.csize) * SS + ofs;
        && pos <= |Sectors(g, ch)| * SS
        && SectorOf(pos - 1) < |Sectors(g, ch)| && ClusterOf(g, SectorOf(pos - 1)) == k
        && OffsetOf(pos) == OffsetOf(ofs)
        && (OffsetOf(ofs) != 0 ==> SectorOf(pos) < |Sectors(g, ch)|)
        && (OffsetOf(ofs) != 0 ==> Sectors(g, ch)[SectorOf(pos)] == ClusterSector(g, ch[k]) + SectorOf(ofs))
  {
    hide Sectors, SectorOf, OffsetOf, Clusters, ClusterSector, Times;
    var t := Times(k, g.csize);
    Place(ofs - 1);
    Place(ofs);
    PlaceUnique(t + SectorOf(ofs - 1), OffsetOf(ofs - 1));
    PlaceUnique(t + SectorOf(ofs), OffsetOf(ofs));
    SectorAt(g, ch, k, SectorOf(ofs - 1));
    DividedUnique(t + SectorOf(ofs - 1), g.csize, k, SectorOf(ofs - 1));
    if OffsetOf(ofs) != 0 {
      SectorAt(g, ch, k, SectorOf(ofs));
    }
    SectorsLength(g, ch);
    TimesGrows(k, |ch|, g.csize);
  }

  lemma FileBytesPrefix(img: seq<Sector>, secs: seq<nat>, n: nat, m: nat)
    requires Layout(|img|, secs) && n <= m <= |secs| * SS
    ensures FileBytes(img, secs, m)[..n] == FileBytes(img, secs, n)
  {
  }

  /** Where byte p of a file is on the drive: in its cluster, by 512 times the cluster size; there in its sector; and
      there at its offset. */
  lemma ByteOnDrive(g: Geometry, img: seq<Sector>, ch: seq<nat>, n: nat, p: nat)
    requires Clusters(g, ch) && g.csize > 0 && |img| == g.nsect && Layout(g.nsect, Sectors(g, ch))
    requires p < n <= |Sectors(g, ch)| * SS
    ensures p / 512 / g.csize < |ch| && 2 <= ch[p / 512 / g.csize]
    ensures var s := g.database + (ch[p / 512 / g.csize] - 2) * g.csize + p / 512 % g.csize;
      0 <= s < |img| && FileBytes(img, Sectors(g, ch), n)[p] == img[s][p % 512]
  {
    Place(p);
    var j := p / 512;
    assert j == SectorOf(p) && p % 512 == OffsetOf(p);
    hide Sectors, Layout, ClusterSector;
    SectorByNumber(g, ch, j);
    ClustersInRow(g, ch[ClusterOf(g, j)]);
  }
}
