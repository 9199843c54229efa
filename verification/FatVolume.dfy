/** One mounted FAT12/16/32 volume: the drive, the sector window over it, and access to the
    allocation table through the window. */
module FatVolume {
  import opened Arith
  import opened FatTable

  const SS := 512

  type Sector = s: seq<Byte> | |s| == SS witness seq(SS, _ => 0)

  datatype FResult = Ok | DiskErr | IntErr | Denied | NotEnoughCore

  /** Where byte i of a run of sectors lies. */
  function SectorOf(i: nat): nat {
    i / SS
  }

  function OffsetOf(i: nat): (o: nat)
    ensures o < SS
  {
    i % SS
  }

  /** The k-th sector's worth of a transfer buffer. */
  function Chunk(d: seq<Byte>, k: nat): (r: Sector)
    requires (k + 1) * SS <= |d|
    ensures forall q :: 0 <= q < SS ==> r[q] == d[k * SS + q]
  {
    d[k * SS..(k + 1) * SS]
  }

  /** What get_fat and create_chain answer on a failed transfer; also the number of no sector. */
  const DISK_ERROR: nat := 0xFFFF_FFFF

  /** What they answer on an inconsistent table or argument. */
  const INT_ERROR: nat := 1

  /** The fields of the file system object that mounting fixes. */
  datatype Geometry = Geometry(ty: FsType, nFats: nat, csize: nat, nFatent: nat,
                               fsize: nat, fatbase: nat, database: nat, nsect: nat)
  {
    /** What mounting has checked about the table; FatFile adds what it has checked about the clusters. */
    predicate Sound() {
      && 1 <= nFats <= 2
      && 0 < csize && PowerOfTwo(csize)
      && 3 <= nFatent <= (match ty case Fat12 => 0xFF7 case Fat16 => 0xFFF7 case Fat32 => 0xFFF_FFF7)
      && EntryAt(ty, nFatent - 1) + EntryWidth(ty) <= fsize * SS
      && 0 < fatbase
      && FatEnd() <= database <= nsect < DISK_ERROR
    }

    /** First sector after the table copies. */
    function FatEnd(): nat {
      if nFats == 2 then fatbase + 2 * fsize else fatbase + fsize
    }

    /** Sector s holds the first copy of a part of the table. */
    predicate InFat(s: int) {
      fatbase <= s < fatbase + fsize
    }

    /** Where the window may be after table accesses: where it was, on the table, or nowhere. */
    predicate Moved(was: nat, now: nat) {
      now == was || InFat(now) || now == DISK_ERROR
    }

    /** Sector s holds the second copy of a part of the table. */
    predicate IsMirror(s: int) {
      nFats == 2 && fatbase + fsize <= s < fatbase + 2 * fsize
    }
  }

  /** The same sectors, second table copy aside. */
  ghost predicate SameButMirrors(g: Geometry, a: seq<Sector>, b: seq<Sector>) {
    |a| == |b| && forall s :: 0 <= s < |a| && !g.IsMirror(s) ==> a[s] == b[s]
  }

  /** The same sectors, both table copies aside. */
  ghost predicate SameOutsideFat(g: Geometry, a: seq<Sector>, b: seq<Sector>) {
    |a| == |b| && forall s :: 0 <= s < |a| && !g.IsMirror(s) && !g.InFat(s) ==> a[s] == b[s]
  }

  /** The bytes of the first table copy. */
  ghost function FatArea(g: Geometry, vol: seq<Sector>): (a: seq<Byte>)
    requires g.Sound() && |vol| == g.nsect
    ensures |a| == g.fsize * SS
  {
    seq(g.fsize * SS, i requires 0 <= i < g.fsize * SS => vol[g.fatbase + SectorOf(i)][OffsetOf(i)])
  }

  lemma EntriesInTable(g: Geometry, a: seq<Byte>)
    requires g.Sound() && |a| == g.fsize * SS
    ensures forall c :: 0 <= c < g.nFatent ==> InTable(g.ty, a, c)
  {
  }

  /** The table as numbers: entry c describes cluster c. */
  ghost function Fat(g: Geometry, vol: seq<Sector>): (f: seq<nat>)
    requires g.Sound() && |vol| == g.nsect
    ensures |f| == g.nFatent
    ensures forall c :: 0 <= c < |f| ==> f[c] < EntryRange(g.ty)
  {
    var a := FatArea(g, vol);
    EntriesInTable(g, a);
    seq(g.nFatent, c requires 0 <= c < g.nFatent => Entry(g.ty, a, c))
  }

  lemma FatEntry(g: Geometry, vol: seq<Sector>, c: nat)
    requires g.Sound() && |vol| == g.nsect && c < g.nFatent
    ensures InTable(g.ty, FatArea(g, vol), c) && Fat(g, vol)[c] == Entry(g.ty, FatArea(g, vol), c)
  {
  }

  /** What the table says of a cluster, in the bytes on the drive. */
  lemma FatOfBytes(g: Geometry, vol: seq<Sector>, c: nat)
    requires g.Sound() && |vol| == g.nsect && c < g.nFatent
    ensures InTable(g.ty, FatArea(g, vol), c)
    ensures var a := FatArea(g, vol);
      Fat(g, vol)[c] == match g.ty
        case Fat12 =>
          if c % 2 == 0 then a[c / 2 * 3] as int + 0x100 * (a[c / 2 * 3 + 1] as int % 16)
          else a[c / 2 * 3 + 1] as int / 16 + 16 * (a[c / 2 * 3 + 2] as int)
        case Fat16 => a[2 * c] as int + 0x100 * (a[2 * c + 1] as int)
        case Fat32 =>
          a[4 * c] as int + 0x100 * (a[4 * c + 1] as int) + 0x1_0000 * (a[4 * c + 2] as int)
            + 0x100_0000 * (a[4 * c + 3] as int % 16)
  {
    FatEntry(g, vol, c);
    hide FatArea, Fat;
    EntryOfBytes(g.ty, FatArea(g, vol), c);
  }

  /** The same in bits: the table is one little-endian number. */
  lemma FatIsBits(g: Geometry, vol: seq<Sector>, c: nat)
    requires g.Sound() && |vol| == g.nsect && c < g.nFatent
    ensures var n := LittleEndian(FatArea(g, vol));
      Fat(g, vol)[c] == match g.ty
        case Fat12 => n / Pow2(12 * c) % Pow2(12)
        case Fat16 => n / Pow2(16 * c) % Pow2(16)
        case Fat32 => n / Pow2(32 * c) % Pow2(28)
  {
    FatEntry(g, vol, c);
    hide FatArea, Fat, LittleEndian, Pow2;
    EntryIsBits(g.ty, FatArea(g, vol), c);
  }

  /** The bytes of a cluster's entry when the table says v of it. */
  lemma BytesOfFat(g: Geometry, vol: seq<Sector>, c: nat, v: nat)
    requires g.Sound() && |vol| == g.nsect && c < g.nFatent && Fat(g, vol)[c] == v % EntryRange(g.ty)
    ensures InTable(g.ty, FatArea(g, vol), c)
    ensures var a := FatArea(g, vol);
      match g.ty
      case Fat12 =>
        if c % 2 == 0 then a[c / 2 * 3] == v % 256 && a[c / 2 * 3 + 1] % 16 == v / 256 % 16
        else a[c / 2 * 3 + 1] / 16 == v % 16 && a[c / 2 * 3 + 2] == v / 16 % 256
      case Fat16 => a[2 * c] == v % 256 && a[2 * c + 1] == v / 256 % 256
      case Fat32 =>
        && a[4 * c] == v % 256 && a[4 * c + 1] == v / 0x100 % 256 && a[4 * c + 2] == v / 0x1_0000 % 256
        && a[4 * c + 3] % 16 == v / 0x100_0000 % 16
  {
    FatEntry(g, vol, c);
    hide FatArea, Fat;
    EntryBytes(g.ty, FatArea(g, vol), c, v);
  }

  lemma SameAreaSameFat(g: Geometry, a: seq<Sector>, b: seq<Sector>)
    requires g.Sound() && |a| == g.nsect && SameButMirrors(g, a, b)
    ensures FatArea(g, a) == FatArea(g, b)
    ensures Fat(g, a) == Fat(g, b)
    ensures SameOutsideFat(g, a, b)
  {
    assert FatArea(g, a) == FatArea(g, b);
  }

  /** Changing one byte of one table sector changes that byte of the table. */
  lemma AreaByte(g: Geometry, a: seq<Sector>, i: nat, x: Byte)
    requires g.Sound() && |a| == g.nsect && i < g.fsize * SS
    ensures var s := g.fatbase + SectorOf(i);
            s < |a| && FatArea(g, a[s := a[s][OffsetOf(i) := x]]) == FatArea(g, a)[i := x]
  {
    var s := g.fatbase + SectorOf(i);
    var b := a[s := a[s][OffsetOf(i) := x]];
    forall j | 0 <= j < g.fsize * SS
      ensures FatArea(g, b)[j] == FatArea(g, a)[i := x][j]
    {
      if SectorOf(j) == SectorOf(i) && OffsetOf(j) == OffsetOf(i) {
        assert j == i;
      }
    }
  }

  lemma FatWithEntry(g: Geometry, a: seq<Sector>, b: seq<Sector>, c: nat, v: nat)
    requires g.Sound() && |a| == |b| == g.nsect && c < g.nFatent
    requires InTable(g.ty, FatArea(g, a), c)
    requires FatArea(g, b) == WithEntry(g.ty, FatArea(g, a), c, v)
    ensures Fat(g, b) == Fat(g, a)[c := v % EntryRange(g.ty)]
  {
    StoredEntryReadsBack(g.ty, FatArea(g, a), c, v);
    EntriesInTable(g, FatArea(g, a));
    forall d | 0 <= d < g.nFatent && d != c
      ensures Fat(g, b)[d] == Fat(g, a)[d]
    {
      OtherEntriesKept(g.ty, FatArea(g, a), c, v, d);
    }
  }

  /** A table whose entry c was stored, wholly or, after a failed transfer, in part. */
  ghost predicate Stored(g: Geometry, a: seq<Byte>, b: seq<Byte>, c: nat, v: nat, res: FResult)
    requires g.Sound() && |a| == |b| == g.fsize * SS && c < g.nFatent && InTable(g.ty, a, c)
  {
    if res == Ok then
      b == WithEntry(g.ty, a, c, v)
    else
      b == a || (g.ty == Fat12 && b == a[EntryAt(Fat12, c) := Low12(c, a[EntryAt(Fat12, c)], v)])
  }

  lemma StoredEntries(g: Geometry, x: seq<Sector>, y: seq<Sector>, c: nat, v: nat, res: FResult)
    requires g.Sound() && |x| == |y| == g.nsect && c < g.nFatent && InTable(g.ty, FatArea(g, x), c)
    requires Stored(g, FatArea(g, x), FatArea(g, y), c, v, res)
    ensures res == Ok ==> Fat(g, y) == Fat(g, x)[c := v % EntryRange(g.ty)]
    ensures forall d :: 0 <= d < g.nFatent && d != c ==> Fat(g, y)[d] == Fat(g, x)[d]
  {
    var a, b := FatArea(g, x), FatArea(g, y);
    if res == Ok {
      FatWithEntry(g, x, y, c, v);
    } else if b == a {
      assert Fat(g, y) == Fat(g, x);
    } else {
      HalfStored12(g, x, y, c, v);
    }
  }

  lemma HalfStored12(g: Geometry, x: seq<Sector>, y: seq<Sector>, c: nat, v: nat)
    requires g.Sound() && g.ty == Fat12 && |x| == |y| == g.nsect && c < g.nFatent
    requires InTable(Fat12, FatArea(g, x), c)
    requires var a, i := FatArea(g, x), EntryAt(Fat12, c); FatArea(g, y) == a[i := Low12(c, a[i], v)]
    ensures forall d :: 0 <= d < g.nFatent && d != c ==> Fat(g, y)[d] == Fat(g, x)[d]
  {
    hide FatArea, Geometry.Sound;
    var a, b, i := FatArea(g, x), FatArea(g, y), EntryAt(Fat12, c);
    EntriesInTable(g, a);
    assert b == a[i := b[i]][i + 1 := a[i + 1]];
    forall d | 0 <= d < g.nFatent && d != c
      ensures Fat(g, y)[d] == Fat(g, x)[d]
    {
      Other12Kept(a, c, b[i], a[i + 1], d);
    }
  }

  /** Bytes of one aligned entry lie in one sector. */
  lemma SameSector(i: nat)
    ensures i % 2 == 0 ==> SectorOf(i + 1) == SectorOf(i) && OffsetOf(i + 1) == OffsetOf(i) + 1
    ensures i % 4 == 0 ==> SectorOf(i + 2) == SectorOf(i) && OffsetOf(i + 2) == OffsetOf(i) + 2
    ensures i % 4 == 0 ==> SectorOf(i + 3) == SectorOf(i) && OffsetOf(i + 3) == OffsetOf(i) + 3
  {
    var q, r := i / SS, i % SS;
    DivModUnique(i, 4, 128 * q + r / 4, r % 4);
    if i % 2 == 0 {
      DivModUnique(i + 1, SS, q, r + 1);
    }
    if i % 4 == 0 {
      DivModUnique(i + 2, SS, q, r + 2);
      DivModUnique(i + 3, SS, q, r + 3);
    }
  }

  lemma SameSectorOfFour(i: nat)
    requires i % 4 == 0
    ensures SectorOf(i + 1) == SectorOf(i + 2) == SectorOf(i + 3) == SectorOf(i)
    ensures OffsetOf(i + 1) == OffsetOf(i) + 1 && OffsetOf(i + 2) == OffsetOf(i) + 2
    ensures OffsetOf(i + 3) == OffsetOf(i) + 3
  {
    assert i % 2 == 0;
    SameSector(i);
  }

  lemma SameDword(a: seq<Byte>, i: nat, b: seq<Byte>, j: nat)
    requires i + 4 <= |a| && j + 4 <= |b|
    requires a[i] == b[j] && a[i + 1] == b[j + 1] && a[i + 2] == b[j + 2] && a[i + 3] == b[j + 3]
    ensures Dword(a, i) == Dword(b, j)
  {
  }

  /** The sector of an entry, as the 16- and 32-bit branches compute it. */
  function SectorOf16(c: nat): nat {
    c / (SS / 2)
  }

  function SectorOf32(c: nat): nat {
    c / (SS / 4)
  }

  lemma EntrySector(c: nat)
    ensures SectorOf16(c) == SectorOf(2 * c) && SectorOf32(c) == SectorOf(4 * c)
    ensures 2 * c % 2 == 0 && 4 * c % 4 == 0
  {
    Halved(c);
    Quartered(c);
  }

  lemma Halved(c: nat)
    ensures SectorOf16(c) == SectorOf(2 * c) && 2 * c % 2 == 0
  {
    var q, r := c / 256, c % 256;
    DivModUnique(2 * c, SS, q, 2 * r);
  }

  lemma Quartered(c: nat)
    ensures SectorOf32(c) == SectorOf(4 * c) && 4 * c % 4 == 0
  {
    var q, r := c / 128, c % 128;
    DivModUnique(4 * c, SS, q, 4 * r);
  }

  lemma SectorInFat(g: Geometry, i: nat)
    requires i < g.fsize * SS
    ensures g.InFat(g.fatbase + SectorOf(i))
  {
  }

  class Volume {
    const geo: Geometry
    /** Whether the drive never fails a transfer. */
    const reliable: bool
    /** The drive: what its sectors hold now. */
    var disk: seq<Sector>
    /** The window: a copy of sector winsect, not yet written back if wflag. */
    const win: array<Byte>
    var wflag: bool
    var winsect: nat
    /** Allocation hint and count of free clusters, kept for the FSInfo sector. */
    var lastClst: nat
    var freeClst: nat
    var fsiDirty: bool

    ghost predicate Valid()
      reads `disk, `wflag, `winsect, win
      ensures Valid() ==> geo.Sound() && win.Length == SS && |disk| == geo.nsect
    {
      && geo.Sound()
      && win.Length == SS
      && |disk| == geo.nsect
      && (wflag ==> winsect < |disk| && !geo.IsMirror(winsect))
      && (!wflag && winsect < |disk| ==> win[..] == disk[winsect])
    }

    /** The logical volume: the drive with a dirty window laid over it. */
    ghost function Vol(): (v: seq<Sector>)
      requires Valid()
      reads `disk, `wflag, `winsect, win
      ensures |v| == geo.nsect
    {
      if wflag then disk[winsect := win[..]] else disk
    }

    /** Both table copies hold the same, except where the window is not yet written back. */
    ghost predicate MirrorsAgree()
      requires Valid()
      reads `disk, `wflag, `winsect, win
    {
      geo.nFats == 2 ==>
        forall s :: geo.InFat(s) && !(wflag && winsect == s) ==> disk[s] == disk[s + geo.fsize]
    }

    constructor (geo: Geometry, reliable: bool, disk: seq<Sector>)
      requires geo.Sound() && |disk| == geo.nsect
      ensures Valid() && fresh(win)
      ensures this.geo == geo && this.reliable == reliable && this.disk == disk && Vol() == disk
      ensures lastClst == freeClst == DISK_ERROR
    {
      this.geo, this.reliable, this.disk := geo, reliable, disk;
      win := new Byte[SS](_ => 0);
      wflag, winsect := false, DISK_ERROR;
      lastClst, freeClst, fsiDirty := DISK_ERROR, DISK_ERROR, false;
    }

    /** disk_read. After a failure the data may be anything. */
    method DiskRead(sector: nat, count: nat) returns (ok: bool, data: seq<Byte>)
      requires sector + count <= |disk|
      ensures |data| == count * SS
      ensures ok ==> forall k :: 0 <= k < count ==> Chunk(data, k) == disk[sector + k]
      ensures ok && count == 1 ==> data == disk[sector]
      ensures reliable ==> ok
    {
      ok := *;
      ok := ok || reliable;
      data := [];
      for k := 0 to count
        invariant |data| == k * SS
        invariant forall j :: 0 <= j < k ==> Chunk(data, j) == disk[sector + j]
      {
        var more := data + disk[sector + k];
        assert forall j :: 0 <= j < k ==> Chunk(more, j) == Chunk(data, j);
        data := more;
      }
      if count == 1 {
        assert data == Chunk(data, 0);
      }
    }

    /** disk_write. After a failure the addressed sectors may hold anything. */
    method DiskWrite(data: seq<Byte>, sector: nat, count: nat) returns (ok: bool)
      requires sector + count <= |disk| && |data| == count * SS
      modifies this`disk
      ensures |disk| == |old(disk)|
      ensures forall s :: 0 <= s < |disk| && !(sector <= s < sector + count) ==> disk[s] == old(disk)[s]
      ensures ok ==> forall k :: 0 <= k < count ==> disk[sector + k] == Chunk(data, k)
      ensures ok && count == 1 ==> disk == old(disk)[sector := data]
      ensures reliable ==> ok
    {
      var done: int := *;
      ok := reliable || !(0 <= done < count);
      if ok {
        done := count;
      }
      for k := 0 to done
        invariant |disk| == |old(disk)|
        invariant forall s :: 0 <= s < |disk| && !(sector <= s < sector + k) ==> disk[s] == old(disk)[s]
        invariant forall j :: 0 <= j < k ==> disk[sector + j] == Chunk(data, j)
      {
        disk := disk[sector + k := Chunk(data, k)];
      }
      if ok && count == 1 {
        assert data == Chunk(data, 0);
      }
    }

    /** The part of sync_window that keeps the second table copy in step. */
    method WriteMirrors(first: nat)
      requires Valid() && !wflag && first == winsect && geo.InFat(winsect) && winsect < |disk|
      modifies this`disk
      ensures Valid()
      ensures forall s :: 0 <= s < |disk| && !geo.IsMirror(s) ==> disk[s] == old(disk)[s]
      ensures reliable && geo.nFats == 2 ==> disk == old(disk)[winsect + geo.fsize := win[..]]
    {
      var wsect, nf := first, geo.nFats;
      while nf >= 2
        invariant 1 <= nf <= geo.nFats && wsect == (if nf == geo.nFats then first else first + geo.fsize)
        invariant Valid() && !wflag
        invariant forall s :: 0 <= s < |disk| && !geo.IsMirror(s) ==> disk[s] == old(disk)[s]
        invariant reliable ==> disk == if nf == geo.nFats then old(disk) else old(disk)[first + geo.fsize := win[..]]
      {
        wsect := wsect + geo.fsize;
        var _ := DiskWrite(win[..], wsect, 1);
        nf := nf - 1;
      }
    }

    /** sync_window */
    method SyncWindow() returns (res: FResult)
      requires Valid()
      modifies this`disk, this`wflag
      ensures Valid()
      ensures SameButMirrors(geo, old(Vol()), Vol())
      ensures res == Ok ==> !wflag
      ensures res != Ok ==> res == DiskErr && wflag && !reliable
      ensures reliable && old(MirrorsAgree()) ==> MirrorsAgree()
    {
      res := Ok;
      if wflag {
        var ok := DiskWrite(win[..], winsect, 1);
        if !ok {
          res := DiskErr;
        } else {
          wflag := false;
          if 0 <= winsect - geo.fatbase < geo.fsize {
            WriteMirrors(winsect);
          }
        }
      }
    }

    /** move_window */
    method MoveWindow(sector: nat) returns (res: FResult)
      requires Valid() && sector < |disk|
      modifies this`disk, this`wflag, this`winsect, win
      ensures Valid()
      ensures SameButMirrors(geo, old(Vol()), Vol())
      ensures FatArea(geo, Vol()) == FatArea(geo, old(Vol())) && Fat(geo, Vol()) == Fat(geo, old(Vol()))
      ensures SameOutsideFat(geo, old(Vol()), Vol())
      ensures res == Ok ==> winsect == sector && win[..] == Vol()[sector]
      ensures res != Ok ==> res == DiskErr && !reliable
      ensures winsect == old(winsect) || winsect == sector || winsect == DISK_ERROR
      ensures reliable && old(MirrorsAgree()) ==> MirrorsAgree()
    {
      res := Ok;
      if sector != winsect {
        res := SyncWindow();
        SameAreaSameFat(geo, old(Vol()), Vol());
        if res == Ok {
          var ok, data := DiskRead(sector, 1);
          forall i | 0 <= i < SS {
            win[i] := data[i];
          }
          assert win[..] == data;
          if ok {
            winsect := sector;
          } else {
            winsect, res := DISK_ERROR, DiskErr;
          }
        }
      }
    }

    /** One byte of the table, in the window that now shows its sector. */
    method StoreByte(off: nat, x: Byte, ghost i: nat)
      requires Valid() && i < geo.fsize * SS && off == OffsetOf(i)
      requires winsect == geo.fatbase + SectorOf(i)
      modifies this`wflag, win
      ensures Valid() && wflag
      ensures FatArea(geo, Vol()) == FatArea(geo, old(Vol()))[i := x]
      ensures SameOutsideFat(geo, old(Vol()), Vol())
      ensures reliable && old(MirrorsAgree()) ==> MirrorsAgree()
    {
      AreaByte(geo, Vol(), i, x);
      win[off] := x;
      wflag := true;
      assert Vol() == old(Vol())[winsect := old(Vol())[winsect][off := x]];
    }

    lemma WindowShowsTable(i: nat)
      requires Valid() && i < geo.fsize * SS && winsect == geo.fatbase + SectorOf(i)
      ensures win[OffsetOf(i)] == FatArea(geo, Vol())[i]
    {
    }

    lemma WindowShowsWord(i: nat)
      requires Valid() && i % 2 == 0 && i + 2 <= geo.fsize * SS && winsect == geo.fatbase + SectorOf(i)
      ensures OffsetOf(i) + 2 <= SS
      ensures var a := FatArea(geo, Vol()); win[OffsetOf(i)] == a[i] && win[OffsetOf(i) + 1] == a[i + 1]
    {
      hide FatArea, Volume.Valid, Volume.Vol, SectorOf, OffsetOf;
      SameSector(i);
      WindowShowsTable(i);
      WindowShowsTable(i + 1);
    }

    lemma WindowShowsDword(i: nat)
      requires Valid() && i % 4 == 0 && i + 4 <= geo.fsize * SS && winsect == geo.fatbase + SectorOf(i)
      ensures OffsetOf(i) + 4 <= SS
      ensures Dword(win[..], OffsetOf(i)) == Dword(FatArea(geo, Vol()), i)
    {
      hide FatArea, Volume.Valid, Volume.Vol, SectorOf, OffsetOf, Dword;
      SameSectorOfFour(i);
      WindowShowsTable(i);
      WindowShowsTable(i + 1);
      WindowShowsTable(i + 2);
      WindowShowsTable(i + 3);
      SameDword(win[..], OffsetOf(i), FatArea(geo, Vol()), i);
    }

    /** The window moved to the sector of table byte i, and that byte. */
    method TableByte(i: nat) returns (res: FResult, p: Byte)
      requires Valid() && i < geo.fsize * SS
      modifies this`disk, this`wflag, this`winsect, win
      ensures Valid()
      ensures SameButMirrors(geo, old(Vol()), Vol()) && SameOutsideFat(geo, old(Vol()), Vol())
      ensures FatArea(geo, Vol()) == FatArea(geo, old(Vol())) && Fat(geo, Vol()) == Fat(geo, old(Vol()))
      ensures res == Ok ==> winsect == geo.fatbase + SectorOf(i) && geo.InFat(winsect) && p == FatArea(geo, Vol())[i]
      ensures res != Ok ==> res == DiskErr && !reliable
      ensures geo.Moved(old(winsect), winsect)
      ensures reliable && old(MirrorsAgree()) ==> MirrorsAgree()
    {
      SectorInFat(geo, i);
      p := 0;
      res := MoveWindow(geo.fatbase + SectorOf(i));
      if res == Ok {
        WindowShowsTable(i);
        p := win[OffsetOf(i)];
      }
    }

    /** st_word into the window, at table byte i. */
    method StoreWord(off: nat, v: nat, ghost i: nat)
      requires Valid() && i % 2 == 0 && i + 2 <= geo.fsize * SS && off == OffsetOf(i)
      requires winsect == geo.fatbase + SectorOf(i)
      modifies this`wflag, win
      ensures Valid()
      ensures FatArea(geo, Vol()) == Splice(FatArea(geo, old(Vol())), i, WordBytes(v))
      ensures SameOutsideFat(geo, old(Vol()), Vol())
      ensures reliable && old(MirrorsAgree()) ==> MirrorsAgree()
    {
      hide FatArea, Volume.Valid, Volume.Vol, Volume.MirrorsAgree, SectorOf, OffsetOf, WordBytes, Splice;
      SameSector(i);
      var b := WordBytes(v);
      StoreByte(off, b[0], i);
      StoreByte(off + 1, b[1], i + 1);
      Spliced2(FatArea(geo, old(Vol())), i, b);
    }

    /** st_dword into the window, at table byte i. */
    method StoreDword(off: nat, v: nat, ghost i: nat)
      requires Valid() && i % 4 == 0 && i + 4 <= geo.fsize * SS && off == OffsetOf(i)
      requires winsect == geo.fatbase + SectorOf(i)
      modifies this`wflag, win
      ensures Valid()
      ensures FatArea(geo, Vol()) == Splice(FatArea(geo, old(Vol())), i, DwordBytes(v))
      ensures SameOutsideFat(geo, old(Vol()), Vol())
      ensures reliable && old(MirrorsAgree()) ==> MirrorsAgree()
    {
      hide FatArea, Volume.Valid, Volume.Vol, Volume.MirrorsAgree, SectorOf, OffsetOf, DwordBytes, Splice;
      SameSectorOfFour(i);
      var b := DwordBytes(v);
      StoreByte(off, b[0], i);
      StoreByte(off + 1, b[1], i + 1);
      StoreByte(off + 2, b[2], i + 2);
      StoreByte(off + 3, b[3], i + 3);
      Spliced4(FatArea(geo, old(Vol())), i, b);
    }

    /** get_fat */
    method GetFat(clst: nat) returns (val: nat)
      requires Valid()
      modifies this`disk, this`wflag, this`winsect, win
      ensures Valid()
      ensures SameButMirrors(geo, old(Vol()), Vol()) && SameOutsideFat(geo, old(Vol()), Vol())
      ensures Fat(geo, Vol()) == Fat(geo, old(Vol()))
      ensures !(2 <= clst < geo.nFatent) ==> val == 1
      ensures 2 <= clst < geo.nFatent && val != DISK_ERROR ==> val == Fat(geo, Vol())[clst] && geo.InFat(winsect)
      ensures val == DISK_ERROR ==> !reliable
      ensures geo.Moved(old(winsect), winsect)
      ensures reliable && old(MirrorsAgree()) ==> MirrorsAgree()
    {
      hide FatArea, Fat, Splice, WordBytes, DwordBytes, SectorOf, OffsetOf;
      hide Volume.Valid, Volume.Vol, Volume.MirrorsAgree;
      if clst < 2 || clst >= geo.nFatent {
        return 1;
      }
      EntriesInTable(geo, FatArea(geo, Vol()));
      match geo.ty {
        case Fat12 => val := GetFat12(clst);
        case Fat16 => val := GetFat16(clst);
        case Fat32 => val := GetFat32(clst);
      }
      FatEntry(geo, Vol(), clst);
    }

    lemma TwelveBits(a: seq<Byte>, c: nat, w: nat)
      requires InTable(Fat12, a, c)
      requires var i := c + c / 2; i + 1 < |a| && w == Word(a[i], a[i + 1])
      ensures Entry(Fat12, a, c) == if c % 2 == 1 then w / 16 else w % 0x1000
    {
    }

    lemma AlignedBits(a: seq<Byte>, c: nat)
      ensures InTable(Fat16, a, c) ==> 2 * c + 2 <= |a| && Entry(Fat16, a, c) == Word(a[2 * c], a[2 * c + 1])
      ensures InTable(Fat32, a, c) ==> 4 * c + 4 <= |a| && Entry(Fat32, a, c) == Dword(a, 4 * c) % 0x1000_0000
    {
    }

    method GetFat12(clst: nat) returns (val: nat)
      requires Valid() && geo.ty == Fat12 && 2 <= clst < geo.nFatent
      requires InTable(Fat12, FatArea(geo, Vol()), clst)
      modifies this`disk, this`wflag, this`winsect, win
      ensures Valid()
      ensures SameButMirrors(geo, old(Vol()), Vol()) && SameOutsideFat(geo, old(Vol()), Vol())
      ensures FatArea(geo, Vol()) == FatArea(geo, old(Vol())) && Fat(geo, Vol()) == Fat(geo, old(Vol()))
      ensures val != DISK_ERROR ==> val == Entry(Fat12, FatArea(geo, Vol()), clst) && geo.InFat(winsect)
      ensures val == DISK_ERROR ==> !reliable
      ensures geo.Moved(old(winsect), winsect)
      ensures reliable && old(MirrorsAgree()) ==> MirrorsAgree()
    {
      hide FatArea, Fat, Splice, WordBytes, DwordBytes, SectorOf, OffsetOf;
      hide Volume.Valid, Volume.Vol, Volume.MirrorsAgree;
      hide Entry, Word;
      var bc, lo, hi, res := clst + clst / 2, 0, 0, Ok;
      res, lo := TableByte(bc);
      if res != Ok { return DISK_ERROR; }
      res, hi := TableByte(bc + 1);
      if res != Ok { return DISK_ERROR; }
      var wc := Word(lo, hi);
      TwelveBits(FatArea(geo, Vol()), clst, wc);
      val := if clst % 2 == 1 then wc / 16 else wc % 0x1000;
    }

    /** The window moved to sector s, that of table byte i, and the word there. */
    method TableWord(s: nat, i: nat) returns (val: nat)
      requires Valid() && i % 2 == 0 && i + 2 <= geo.fsize * SS && s == geo.fatbase + SectorOf(i)
      modifies this`disk, this`wflag, this`winsect, win
      ensures Valid()
      ensures SameButMirrors(geo, old(Vol()), Vol()) && SameOutsideFat(geo, old(Vol()), Vol())
      ensures FatArea(geo, Vol()) == FatArea(geo, old(Vol())) && Fat(geo, Vol()) == Fat(geo, old(Vol()))
      ensures val != DISK_ERROR ==> geo.InFat(winsect)
      ensures val != DISK_ERROR ==> var a := FatArea(geo, Vol()); val == Word(a[i], a[i + 1])
      ensures val == DISK_ERROR ==> !reliable
      ensures geo.Moved(old(winsect), winsect)
      ensures reliable && old(MirrorsAgree()) ==> MirrorsAgree()
    {
      hide FatArea, Fat, SectorOf, OffsetOf;
      hide Volume.Valid, Volume.Vol, Volume.MirrorsAgree;
      SectorInFat(geo, i);
      var res := MoveWindow(s);
      if res != Ok { return DISK_ERROR; }
      WindowShowsWord(i);
      val := Word(win[OffsetOf(i)], win[OffsetOf(i) + 1]);
    }

    method GetFat16(clst: nat) returns (val: nat)
      requires Valid() && geo.ty == Fat16 && 2 <= clst < geo.nFatent
      requires InTable(Fat16, FatArea(geo, Vol()), clst)
      modifies this`disk, this`wflag, this`winsect, win
      ensures Valid()
      ensures SameButMirrors(geo, old(Vol()), Vol()) && SameOutsideFat(geo, old(Vol()), Vol())
      ensures FatArea(geo, Vol()) == FatArea(geo, old(Vol())) && Fat(geo, Vol()) == Fat(geo, old(Vol()))
      ensures val != DISK_ERROR ==> val == Entry(Fat16, FatArea(geo, Vol()), clst) && geo.InFat(winsect)
      ensures val == DISK_ERROR ==> !reliable
      ensures geo.Moved(old(winsect), winsect)
      ensures reliable && old(MirrorsAgree()) ==> MirrorsAgree()
    {
      hide FatArea, Fat, Splice, WordBytes, DwordBytes, SectorOf, OffsetOf;
      hide Volume.Valid, Volume.Vol, Volume.MirrorsAgree;
      hide Entry, Word, InTable, SectorOf16, SectorOf32;
      EntrySector(clst);
      AlignedBits(FatArea(geo, Vol()), clst);
      val := TableWord(geo.fatbase + SectorOf16(clst), 2 * clst);
    }

    method GetFat32(clst: nat) returns (val: nat)
      requires Valid() && geo.ty == Fat32 && 2 <= clst < geo.nFatent
      requires InTable(Fat32, FatArea(geo, Vol()), clst)
      modifies this`disk, this`wflag, this`winsect, win
      ensures Valid()
      ensures SameButMirrors(geo, old(Vol()), Vol()) && SameOutsideFat(geo, old(Vol()), Vol())
      ensures FatArea(geo, Vol()) == FatArea(geo, old(Vol())) && Fat(geo, Vol()) == Fat(geo, old(Vol()))
      ensures val != DISK_ERROR ==> val == Entry(Fat32, FatArea(geo, Vol()), clst) && geo.InFat(winsect)
      ensures val == DISK_ERROR ==> !reliable
      ensures geo.Moved(old(winsect), winsect)
      ensures reliable && old(MirrorsAgree()) ==> MirrorsAgree()
    {
      hide FatArea, Fat, Splice, WordBytes, DwordBytes, SectorOf, OffsetOf;
      hide Volume.Valid, Volume.Vol, Volume.MirrorsAgree;
      hide Entry, Dword, InTable, SectorOf16, SectorOf32;
      EntrySector(clst);
      AlignedBits(FatArea(geo, Vol()), clst);
      SectorInFat(geo, 4 * clst);
      var res := MoveWindow(geo.fatbase + SectorOf32(clst));
      if res != Ok { return DISK_ERROR; }
      WindowShowsDword(4 * clst);
      val := Dword(win[..], OffsetOf(4 * clst)) % 0x1000_0000;
    }

    /** put_fat */
    method PutFat(clst: nat, val: nat) returns (res: FResult)
      requires Valid()
      modifies this`disk, this`wflag, this`winsect, win
      ensures Valid()
      ensures SameOutsideFat(geo, old(Vol()), Vol())
      ensures res == IntErr <==> !(2 <= clst < geo.nFatent)
      ensures res == IntErr ==> Vol() == old(Vol())
      ensures res == Ok ==> geo.InFat(winsect)
      ensures res == Ok ==> Fat(geo, Vol()) == Fat(geo, old(Vol()))[clst := val % EntryRange(geo.ty)]
      ensures forall d :: 0 <= d < geo.nFatent && d != clst ==> Fat(geo, Vol())[d] == Fat(geo, old(Vol()))[d]
      ensures res == Ok || res == IntErr || (res == DiskErr && !reliable)
      ensures res == Ok && geo.ty == Fat32 ==>
          var a, b := FatArea(geo, old(Vol())), FatArea(geo, Vol());
          && b[4 * clst] == val % 0x100 && b[4 * clst + 1] == val / 0x100 % 0x100
          && b[4 * clst + 2] == val / 0x1_0000 % 0x100
          && b[4 * clst + 3] % 16 == val / 0x100_0000 % 16 && b[4 * clst + 3] / 16 == a[4 * clst + 3] / 16
      ensures geo.Moved(old(winsect), winsect)
      ensures reliable && old(MirrorsAgree()) ==> MirrorsAgree()
    {
      hide FatArea, Fat, Splice, WordBytes, DwordBytes, SectorOf, OffsetOf;
      hide Volume.Valid, Volume.Vol, Volume.MirrorsAgree;
      if !(2 <= clst < geo.nFatent) {
        return IntErr;
      }
      EntriesInTable(geo, FatArea(geo, Vol()));
      match geo.ty {
        case Fat12 => res := PutFat12(clst, val);
        case Fat16 => res := PutFat16(clst, val);
        case Fat32 => res := PutFat32(clst, val);
      }
      StoredEntries(geo, old(Vol()), Vol(), clst, val, res);
      if geo.ty == Fat32 && res == Ok {
        TopNibbleKept(FatArea(geo, old(Vol())), clst, val);
        BytesOfFat(geo, Vol(), clst, val);
      }
    }

    method PutFat12(clst: nat, val: nat) returns (res: FResult)
      requires Valid() && geo.ty == Fat12 && clst < geo.nFatent
      requires InTable(geo.ty, FatArea(geo, Vol()), clst)
      modifies this`disk, this`wflag, this`winsect, win
      ensures Valid()
      ensures SameOutsideFat(geo, old(Vol()), Vol())
      ensures Stored(geo, FatArea(geo, old(Vol())), FatArea(geo, Vol()), clst, val, res)
      ensures res == Ok ==> geo.InFat(winsect)
      ensures res != Ok ==> res == DiskErr && !reliable
      ensures geo.Moved(old(winsect), winsect)
      ensures reliable && old(MirrorsAgree()) ==> MirrorsAgree()
    {
      hide FatArea, Fat, Splice, WordBytes, DwordBytes, SectorOf, OffsetOf;
      hide Volume.Valid, Volume.Vol, Volume.MirrorsAgree;
      var bc, p := clst + clst / 2, 0;
      ghost var a := FatArea(geo, Vol());
      res, p := TableByte(bc);
      if res == Ok {
        StoreByte(OffsetOf(bc), Low12(clst, p, val), bc);
        assert FatArea(geo, Vol()) == a[bc := Low12(clst, a[bc], val)];
        res, p := TableByte(bc + 1);
        if res == Ok {
          assert p == a[bc + 1];
          StoreByte(OffsetOf(bc + 1), High12(clst, p, val), bc + 1);
        }
      }
    }

    method PutFat16(clst: nat, val: nat) returns (res: FResult)
      requires Valid() && geo.ty == Fat16 && clst < geo.nFatent
      requires InTable(geo.ty, FatArea(geo, Vol()), clst)
      modifies this`disk, this`wflag, this`winsect, win
      ensures Valid()
      ensures SameOutsideFat(geo, old(Vol()), Vol())
      ensures Stored(geo, FatArea(geo, old(Vol())), FatArea(geo, Vol()), clst, val, res)
      ensures res == Ok ==> geo.InFat(winsect)
      ensures res != Ok ==> res == DiskErr && !reliable
      ensures geo.Moved(old(winsect), winsect)
      ensures reliable && old(MirrorsAgree()) ==> MirrorsAgree()
    {
      hide FatArea, Fat, Splice, WordBytes, DwordBytes, SectorOf, OffsetOf;
      hide Volume.Valid, Volume.Vol, Volume.MirrorsAgree, SectorOf16, SectorOf32;
      EntrySector(clst);
      SectorInFat(geo, 2 * clst);
      res := MoveWindow(geo.fatbase + SectorOf16(clst));
      if res == Ok {
        StoreWord(OffsetOf(2 * clst), val, 2 * clst);
      }
    }

    method PutFat32(clst: nat, val: nat) returns (res: FResult)
      requires Valid() && geo.ty == Fat32 && clst < geo.nFatent
      requires InTable(geo.ty, FatArea(geo, Vol()), clst)
      modifies this`disk, this`wflag, this`winsect, win
      ensures Valid()
      ensures SameOutsideFat(geo, old(Vol()), Vol())
      ensures Stored(geo, FatArea(geo, old(Vol())), FatArea(geo, Vol()), clst, val, res)
      ensures res == Ok ==> geo.InFat(winsect)
      ensures res != Ok ==> res == DiskErr && !reliable
      ensures geo.Moved(old(winsect), winsect)
      ensures reliable && old(MirrorsAgree()) ==> MirrorsAgree()
    {
      hide FatArea, Fat, Splice, WordBytes, DwordBytes, SectorOf, OffsetOf;
      hide Volume.Valid, Volume.Vol, Volume.MirrorsAgree, SectorOf16, SectorOf32;
      EntrySector(clst);
      SectorInFat(geo, 4 * clst);
      res := MoveWindow(geo.fatbase + SectorOf32(clst));
      if res == Ok {
        WindowShowsDword(4 * clst);
        var off := OffsetOf(4 * clst);
        StoreDword(off, Keep28(Dword(win[..], off), val), 4 * clst);
      }
    }
  }
}
