/** The packed entries of a file allocation table, as bytes.

    The table is seen as one run of bytes. An entry takes 12, 16 or 32 bits; 12-bit entries
    share bytes with a neighbour. The lemmas say that storing an entry is invisible to every
    other entry, at every width. */
module FatTable {
  import opened Arith

  type Byte = x: int | 0 <= x < 256

  datatype FsType = Fat12 | Fat16 | Fat32

  /** First byte of entry c. */
  function EntryAt(ty: FsType, c: nat): nat {
    match ty
    case Fat12 => c + c / 2
    case Fat16 => 2 * c
    case Fat32 => 4 * c
  }

  /** Number of bytes an entry touches. */
  function EntryWidth(ty: FsType): nat {
    if ty == Fat32 then 4 else 2
  }

  /** Number of different values an entry holds; stored values are cut to this. */
  function EntryRange(ty: FsType): nat {
    match ty
    case Fat12 => 0x1000
    case Fat16 => 0x1_0000
    case Fat32 => 0x1000_0000
  }

  predicate InTable(ty: FsType, a: seq<Byte>, c: nat) {
    EntryAt(ty, c) + EntryWidth(ty) <= |a|
  }

  function Word(lo: Byte, hi: Byte): nat {
    lo + 0x100 * hi
  }

  /** The 32-bit little-endian number at byte i. */
  function Dword(a: seq<Byte>, i: nat): (v: nat)
    requires i + 4 <= |a|
  {
    Word(a[i], a[i+1]) + 0x1_0000 * Word(a[i+2], a[i+3])
  }

  /** The value of entry c. */
  function Entry(ty: FsType, a: seq<Byte>, c: nat): (v: nat)
    requires InTable(ty, a, c)
    ensures v < EntryRange(ty)
  {
    var i := EntryAt(ty, c);
    match ty
    case Fat12 => var w := Word(a[i], a[i+1]); if c % 2 == 1 then w / 16 else w % 0x1000
    case Fat16 => Word(a[i], a[i+1])
    case Fat32 => Dword(a, i) % 0x1000_0000
  }

  /** The bytes read as one little-endian number. */
  function LittleEndian(a: seq<Byte>): nat {
    if a == [] then 0 else a[0] + 0x100 * LittleEndian(a[1..])
  }

  /** Without its first i bytes that number is the whole one without its lowest 8 * i bits. */
  lemma {:induction false} DropBytes(a: seq<Byte>, i: nat)
    requires i <= |a|
    ensures LittleEndian(a) / Pow2(8 * i) == LittleEndian(a[i..])
  {
    if i == 0 {
      assert a[0..] == a;
    } else {
      DropBytes(a[1..], i - 1);
      assert a[1..][i - 1..] == a[i..];
      EightMore(i);
      DivTwice(LittleEndian(a), 0x100, Pow2(8 * (i - 1)));
      assert LittleEndian(a) / 0x100 == LittleEndian(a[1..]);
    }
  }

  lemma EightMore(i: nat)
    requires 0 < i
    ensures Pow2(8 * i) == 0x100 * Pow2(8 * (i - 1))
  {
    SmallPowers();
    hide Pow2;
    Pow2Adds(8, 8 * (i - 1));
  }

  /** The first four bytes. */
  lemma FirstBytes(a: seq<Byte>)
    ensures 2 <= |a| ==> LittleEndian(a) == a[0] + 0x100 * a[1] + 0x1_0000 * LittleEndian(a[2..])
    ensures 4 <= |a| ==>
      LittleEndian(a) ==
        a[0] + 0x100 * a[1] + 0x1_0000 * a[2] + 0x100_0000 * a[3] + 0x1_0000_0000 * LittleEndian(a[4..])
  {
    if 2 <= |a| {
      assert a[1..][1..] == a[2..];
    }
    if 4 <= |a| {
      assert a[2..][1..] == a[3..] && a[3..][1..] == a[4..];
    }
  }

  /** The bits of an entry: those from its width times its number on, 28 of them where the width is 32. */
  lemma EntryIsBits(ty: FsType, a: seq<Byte>, c: nat)
    requires InTable(ty, a, c)
    ensures Entry(ty, a, c) == match ty
      case Fat12 => LittleEndian(a) / Pow2(12 * c) % Pow2(12)
      case Fat16 => LittleEndian(a) / Pow2(16 * c) % Pow2(16)
      case Fat32 => LittleEndian(a) / Pow2(32 * c) % Pow2(28)
  {
    var i := EntryAt(ty, c);
    DropBytes(a, i);
    FirstBytes(a[i..]);
    SmallPowers();
    hide LittleEndian, Pow2;
    match ty
    case Fat12 => Bits12(a, c);
    case Fat16 =>
      DivModUnique(LittleEndian(a[i..]), 0x1_0000, LittleEndian(a[i..][2..]), Word(a[i], a[i + 1]));
    case Fat32 => Bits32(a, i);
  }

  lemma SmallPowers()
    ensures Pow2(4) == 16 && Pow2(8) == 0x100 && Pow2(12) == 0x1000 && Pow2(16) == 0x1_0000 && Pow2(28) == 0x1000_0000
  {
    assert Pow2(4) == 16 && Pow2(8) == 0x100;
    Pow2Adds(4, 8);
    Pow2Adds(4, 12);
    Pow2Adds(12, 16);
  }

  lemma Bits12(a: seq<Byte>, c: nat)
    requires InTable(Fat12, a, c)
    ensures Entry(Fat12, a, c) == LittleEndian(a) / Pow2(12 * c) % 0x1000
  {
    var i := EntryAt(Fat12, c);
    Entry12(c, a[i], a[i + 1]);
    DropBytes(a, i);
    FirstBytes(a[i..]);
    var v, rest, w := LittleEndian(a[i..]), LittleEndian(a[i..][2..]), Word(a[i], a[i + 1]);
    assert v == w + 0x1_0000 * rest;
    hide LittleEndian;
    if c % 2 == 0 {
      assert 8 * i == 12 * c;
      DivModUnique(v, 0x1000, 16 * rest + w / 0x1000, w % 0x1000);
    } else {
      assert 8 * i + 4 == 12 * c;
      Pow2Adds(8 * i, 4);
      assert Pow2(4) == 16;
      DivTwice(LittleEndian(a), Pow2(8 * i), 16);
      DivModUnique(v, 16, 0x1000 * rest + w / 16, w % 16);
      DivModUnique(v / 16, 0x1000, rest, w / 16);
    }
  }

  lemma Bits32(a: seq<Byte>, i: nat)
    requires i + 4 <= |a|
    ensures Dword(a, i) % 0x1000_0000 == LittleEndian(a[i..]) % 0x1000_0000
  {
    FirstBytes(a[i..]);
    var v, rest, w := LittleEndian(a[i..]), LittleEndian(a[i..][4..]), Dword(a, i);
    assert v == w + 0x1_0000_0000 * rest;
    hide LittleEndian, Dword;
    DivModUnique(v, 0x1000_0000, 16 * rest + w / 0x1000_0000, w % 0x1000_0000);
  }

  /** The value of an entry, byte by byte. */
  lemma EntryOfBytes(ty: FsType, a: seq<Byte>, c: nat)
    requires InTable(ty, a, c)
    ensures Entry(ty, a, c) == match ty
      case Fat12 =>
        if c % 2 == 0 then a[c / 2 * 3] as int + 0x100 * (a[c / 2 * 3 + 1] as int % 16)
        else a[c / 2 * 3 + 1] as int / 16 + 16 * (a[c / 2 * 3 + 2] as int)
      case Fat16 => a[2 * c] as int + 0x100 * (a[2 * c + 1] as int)
      case Fat32 =>
        a[4 * c] as int + 0x100 * (a[4 * c + 1] as int) + 0x1_0000 * (a[4 * c + 2] as int)
          + 0x100_0000 * (a[4 * c + 3] as int % 16)
  {
    match ty
    case Fat12 => Entry12(c, a[EntryAt(Fat12, c)], a[EntryAt(Fat12, c) + 1]);
    case Fat16 =>
    case Fat32 => DwordCut(a, 4 * c);
  }

  /** An entry with a given value, byte by byte. */
  lemma EntryBytes(ty: FsType, a: seq<Byte>, c: nat, v: nat)
    requires InTable(ty, a, c) && Entry(ty, a, c) == v % EntryRange(ty)
    ensures match ty
      case Fat12 =>
        if c % 2 == 0 then a[c / 2 * 3] == v % 256 && a[c / 2 * 3 + 1] % 16 == v / 256 % 16
        else a[c / 2 * 3 + 1] / 16 == v % 16 && a[c / 2 * 3 + 2] == v / 16 % 256
      case Fat16 => a[2 * c] == v % 256 && a[2 * c + 1] == v / 256 % 256
      case Fat32 =>
        && a[4 * c] == v % 256 && a[4 * c + 1] == v / 0x100 % 256 && a[4 * c + 2] == v / 0x1_0000 % 256
        && a[4 * c + 3] % 16 == v / 0x100_0000 % 16
  {
    match ty
    case Fat12 => Bytes12(a, c, v);
    case Fat16 => Bytes16(a, c, v);
    case Fat32 => Bytes32(a, 4 * c, v);
  }

  lemma Bytes12(a: seq<Byte>, c: nat, v: nat)
    requires InTable(Fat12, a, c) && Entry(Fat12, a, c) == v % 0x1000
    ensures if c % 2 == 0 then a[c / 2 * 3] == v % 256 && a[c / 2 * 3 + 1] % 16 == v / 256 % 16
            else a[c / 2 * 3 + 1] / 16 == v % 16 && a[c / 2 * 3 + 2] == v / 16 % 256
  {
    var i := EntryAt(Fat12, c);
    var x: int, y: int := a[i], a[i + 1];
    Entry12(c, a[i], a[i + 1]);
    if c % 2 == 0 {
      CutEven(v);
      TwoDigits(0x100, x, y % 16, v % 256, v / 256 % 16);
    } else {
      CutOdd(v);
      TwoDigits(16, x / 16, y, v % 16, v / 16 % 256);
    }
  }

  /** Lower and upper digit are unique. */
  lemma TwoDigits(d: nat, x: nat, y: nat, u: nat, w: nat)
    requires x < d && u < d && x + d * y == u + d * w
    ensures x == u && y == w
  {
    DivModUnique(x + d * y, d, y, x);
    DivModUnique(x + d * y, d, w, u);
  }

  lemma Bytes16(a: seq<Byte>, c: nat, v: nat)
    requires InTable(Fat16, a, c) && Entry(Fat16, a, c) == v % 0x1_0000
    ensures a[2 * c] == v % 256 && a[2 * c + 1] == v / 256 % 256
  {
    Stored16(v);
    TwoDigits(0x100, a[2 * c], a[2 * c + 1], v % 256, v / 256 % 256);
  }

  lemma Bytes32(a: seq<Byte>, i: nat, v: nat)
    requires i + 4 <= |a| && Dword(a, i) % 0x1000_0000 == v % 0x1000_0000
    ensures a[i] == v % 256 && a[i + 1] == v / 0x100 % 256 && a[i + 2] == v / 0x1_0000 % 256
    ensures a[i + 3] % 16 == v / 0x100_0000 % 16
  {
    var b: nat, t: int := v / 0x100, a[i + 3];
    var c := b / 0x100;
    var d := c / 0x100;
    assert c == v / 0x1_0000 && d == v / 0x100_0000;
    Cut28(v, b, c, d);
    DwordCut(a, i);
    var x0: int, x1: int, x2: int := a[i], a[i + 1], a[i + 2];
    var z, w := x2 + 0x100 * (t % 16), c % 256 + 0x100 * (d % 16);
    TwoDigits(0x100, x0, x1 + 0x100 * z, v % 256, b % 256 + 0x100 * w);
    TwoDigits(0x100, x1, z, b % 256, w);
    TwoDigits(0x100, x2, t % 16, c % 256, d % 16);
  }

  lemma Cut28(v: nat, b: nat, c: nat, d: nat)
    requires b == v / 0x100 && c == b / 0x100 && d == c / 0x100
    ensures v % 0x1000_0000 == v % 256 + 0x100 * (b % 256 + 0x100 * (c % 256 + 0x100 * (d % 16)))
  {
    DivModUnique(v, 0x1000_0000, d / 16, v % 256 + 0x100 * (b % 256 + 0x100 * (c % 256 + 0x100 * (d % 16))));
  }

  lemma DwordCut(a: seq<Byte>, i: nat)
    requires i + 4 <= |a|
    ensures Dword(a, i) % 0x1000_0000 ==
            a[i] as int + 0x100 * (a[i + 1] as int + 0x100 * (a[i + 2] as int + 0x100 * (a[i + 3] as int % 16)))
  {
    var x0: int, x1: int, x2: int, x3: int := a[i], a[i + 1], a[i + 2], a[i + 3];
    DivModUnique(Dword(a, i), 0x1000_0000, x3 / 16, x0 + 0x100 * (x1 + 0x100 * (x2 + 0x100 * (x3 % 16))));
  }

  /** First byte of a 12-bit entry after storing v; p is the byte that was there. */
  function Low12(c: nat, p: Byte, v: nat): Byte {
    if c % 2 == 1 then p % 16 + v % 16 * 16 else v % 256
  }

  /** Second byte of a 12-bit entry after storing v. */
  function High12(c: nat, p: Byte, v: nat): Byte {
    if c % 2 == 1 then v / 16 % 256 else p / 16 * 16 + v / 256 % 16
  }

  /** Four little-endian bytes. */
  function DwordBytes(v: nat): (s: seq<Byte>)
    ensures |s| == 4
  {
    [v % 256, v / 0x100 % 256, v / 0x1_0000 % 256, v / 0x100_0000 % 256]
  }

  /** Two little-endian bytes of v cut to 16 bits. */
  function WordBytes(v: nat): (s: seq<Byte>)
    ensures |s| == 2
  {
    [v % 256, v / 256 % 256]
  }

  /** v with the four bits above bit 27 taken from was. */
  function Keep28(was: nat, v: nat): nat {
    v % 0x1000_0000 + was / 0x1000_0000 * 0x1000_0000
  }

  function Splice(a: seq<Byte>, i: nat, s: seq<Byte>): (r: seq<Byte>)
    requires i + |s| <= |a|
    ensures |r| == |a|
  {
    a[..i] + s + a[i + |s|..]
  }

  lemma Spliced2(a: seq<Byte>, i: nat, b: seq<Byte>)
    requires |b| == 2 && i + 2 <= |a|
    ensures a[i := b[0]][i + 1 := b[1]] == Splice(a, i, b)
  {
  }

  lemma Spliced4(a: seq<Byte>, i: nat, b: seq<Byte>)
    requires |b| == 4 && i + 4 <= |a|
    ensures a[i := b[0]][i + 1 := b[1]][i + 2 := b[2]][i + 3 := b[3]] == Splice(a, i, b)
  {
  }

  /** The table after storing v in entry c. */
  function WithEntry(ty: FsType, a: seq<Byte>, c: nat, v: nat): (r: seq<Byte>)
    requires InTable(ty, a, c)
    ensures |r| == |a|
  {
    var i := EntryAt(ty, c);
    match ty
    case Fat12 => a[i := Low12(c, a[i], v)][i + 1 := High12(c, a[i+1], v)]
    case Fat16 => Splice(a, i, WordBytes(v))
    case Fat32 => Splice(a, i, DwordBytes(Keep28(Dword(a, i), v)))
  }

  lemma DwordRoundTrip(v: nat)
    requires v < 0x1_0000_0000
    ensures Dword(DwordBytes(v), 0) == v
  {
    var b := v / 0x100;
    var c := b / 0x100;
    var d := c / 0x100;
    assert c == v / 0x1_0000 && d == v / 0x100_0000;
    assert v == v % 256 + 256 * b && b == b % 256 + 256 * c && c == c % 256 + 256 * d;
  }

  lemma DwordBound(a: seq<Byte>, i: nat)
    requires i + 4 <= |a|
    ensures Dword(a, i) < 0x1_0000_0000
    ensures Dword(a, i) / 0x1000_0000 == a[i+3] / 16
  {
    var low: int, top: int := Word(a[i], a[i+1]) + 0x1_0000 * (a[i+2] as int), a[i+3];
    assert Dword(a, i) == low + 0x100_0000 * top;
    assert top == top / 16 * 16 + top % 16;
  }

  /** Storing and loading an entry of any width gives back the value cut to that width. */
  lemma StoredEntryReadsBack(ty: FsType, a: seq<Byte>, c: nat, v: nat)
    requires InTable(ty, a, c)
    ensures Entry(ty, WithEntry(ty, a, c, v), c) == v % EntryRange(ty)
  {
    hide Keep28, Low12, High12;
    var i := EntryAt(ty, c);
    match ty
    case Fat12 => Stored12(c, a[i], a[i + 1], v);
    case Fat16 => Stored16(v);
    case Fat32 => Stored32(a, i, v);
  }

  lemma Stored16(v: nat)
    ensures Word(v % 256, v / 256 % 256) == v % 0x1_0000
  {
    var q := v / 256;
    DivModUnique(v, 0x1_0000, q / 256, v % 256 + 256 * (q % 256));
  }

  lemma Keep28Cut(was: nat, v: nat)
    requires was < 0x1_0000_0000
    ensures Keep28(was, v) < 0x1_0000_0000
    ensures Keep28(was, v) % 0x1000_0000 == v % 0x1000_0000
    ensures Keep28(was, v) / 0x1000_0000 == was / 0x1000_0000
  {
    DivModUnique(Keep28(was, v), 0x1000_0000, was / 0x1000_0000, v % 0x1000_0000);
  }

  lemma Stored32(a: seq<Byte>, i: nat, v: nat)
    requires i + 4 <= |a|
    ensures var w := Keep28(Dword(a, i), v);
            w < 0x1_0000_0000 && Dword(Splice(a, i, DwordBytes(w)), i) == w
    ensures Keep28(Dword(a, i), v) % 0x1000_0000 == v % 0x1000_0000
  {
    DwordBound(a, i);
    Keep28Cut(Dword(a, i), v);
    var w := Keep28(Dword(a, i), v);
    DwordRoundTrip(w);
    SplicedDword(a, i, DwordBytes(w));
  }

  lemma SplicedDword(a: seq<Byte>, i: nat, s: seq<Byte>)
    requires |s| == 4 && i + 4 <= |a|
    ensures Dword(Splice(a, i, s), i) == Dword(s, 0)
  {
    var r := Splice(a, i, s);
    assert r[i] == s[0] && r[i+1] == s[1] && r[i+2] == s[2] && r[i+3] == s[3];
  }

  lemma Stored12(c: nat, p: Byte, q: Byte, v: nat)
    ensures var w := Word(Low12(c, p, v), High12(c, q, v));
            (if c % 2 == 1 then w / 16 else w % 0x1000) == v % 0x1000
  {
    var w := Word(Low12(c, p, v), High12(c, q, v));
    if c % 2 == 1 {
      CutOdd(v);
      DivModUnique(w, 16, v % 0x1000, p % 16);
    } else {
      CutEven(v);
      DivModUnique(w, 0x1000, q / 16, v % 0x1000);
    }
  }

  lemma CutOdd(v: nat)
    ensures v % 0x1000 == v % 16 + 16 * (v / 16 % 256)
  {
    var q := v / 16;
    var r := v % 16 + 16 * (q % 256);
    assert v == 0x1000 * (q / 256) + r;
    DivModUnique(v, 0x1000, q / 256, r);
  }

  lemma CutEven(v: nat)
    ensures v % 0x1000 == v % 256 + 256 * (v / 256 % 16)
  {
    var q := v / 256;
    var r := v % 256 + 256 * (q % 16);
    assert v == 0x1000 * (q / 16) + r;
    DivModUnique(v, 0x1000, q / 16, r);
  }

  /** Storing entry c leaves every other entry as it was: neighbours that share a byte included. */
  lemma OtherEntriesKept(ty: FsType, a: seq<Byte>, c: nat, v: nat, d: nat)
    requires InTable(ty, a, c) && InTable(ty, a, d) && d != c
    ensures Entry(ty, WithEntry(ty, a, c, v), d) == Entry(ty, a, d)
  {
    Halves12(c, a, v);
    hide Low12, High12, Keep28;
    match ty
    case Fat12 => Other12Kept(a, c, Low12(c, a[EntryAt(Fat12, c)], v), High12(c, a[EntryAt(Fat12, c) + 1], v), d);
    case Fat16 =>
    case Fat32 => SpliceKeepsDword(a, 4 * c, DwordBytes(Keep28(Dword(a, 4 * c), v)), 4 * d);
  }

  /** A 12-bit store leaves the half byte that is not its own. */
  lemma Halves12(c: nat, a: seq<Byte>, v: nat)
    ensures InTable(Fat12, a, c) ==>
      var p, q := a[EntryAt(Fat12, c)], a[EntryAt(Fat12, c) + 1];
      if c % 2 == 1 then Low12(c, p, v) % 16 == p % 16 else High12(c, q, v) / 16 == q / 16
  {
    if InTable(Fat12, a, c) {
      var p: int, q: int := a[EntryAt(Fat12, c)], a[EntryAt(Fat12, c) + 1];
      if c % 2 == 1 {
        DivModUnique(p % 16 + v % 16 * 16, 16, v % 16, p % 16);
      } else {
        DivModUnique(q / 16 * 16 + v / 256 % 16, 16, q / 16, v / 256 % 16);
      }
    }
  }

  lemma SpliceKeepsDword(a: seq<Byte>, i: nat, s: seq<Byte>, j: nat)
    requires i + |s| <= |a| && j + 4 <= |a| && (j + 4 <= i || i + |s| <= j)
    ensures Dword(Splice(a, i, s), j) == Dword(a, j)
  {
    var r := Splice(a, i, s);
    assert r[j] == a[j] && r[j+1] == a[j+1] && r[j+2] == a[j+2] && r[j+3] == a[j+3];
  }

  /** A 12-bit entry, nibble by nibble. */
  lemma Entry12(c: nat, x: Byte, y: Byte)
    ensures EntryAt(Fat12, c) == 3 * (c / 2) + c % 2
    ensures Word(x, y) % 0x1000 == x + 0x100 * (y % 16)
    ensures Word(x, y) / 16 == x / 16 + 16 * y
  {
    var lo: int, hi: int := x, y;
    DivModUnique(Word(x, y), 0x1000, hi / 16, lo + 0x100 * (hi % 16));
    DivModUnique(Word(x, y), 16, lo / 16 + 16 * hi, lo % 16);
  }

  /** A 12-bit store keeps the nibble that belongs to the neighbour; one half of it alone does too. */
  lemma Other12Kept(a: seq<Byte>, c: nat, low: Byte, high: Byte, d: nat)
    requires InTable(Fat12, a, c) && InTable(Fat12, a, d) && d != c
    requires c % 2 == 1 ==> low % 16 == a[EntryAt(Fat12, c)] % 16
    requires c % 2 == 0 ==> high / 16 == a[EntryAt(Fat12, c) + 1] / 16
    ensures var i := EntryAt(Fat12, c);
            Entry(Fat12, a[i := low][i + 1 := high], d) == Entry(Fat12, a, d)
  {
    var i, j := EntryAt(Fat12, c), EntryAt(Fat12, d);
    var r := a[i := low][i + 1 := high];
    Entry12(c, 0, 0);
    Entry12(d, a[j], a[j + 1]);
    Entry12(d, r[j], r[j + 1]);
  }

  /** Only the low 28 bits of a 32-bit entry belong to the file system: the rest survives a store. */
  lemma TopNibbleKept(a: seq<Byte>, c: nat, v: nat)
    requires InTable(Fat32, a, c)
    ensures WithEntry(Fat32, a, c, v)[4 * c + 3] / 16 == a[4 * c + 3] / 16
  {
    var i := EntryAt(Fat32, c);
    DwordBound(a, i);
    Keep28Cut(Dword(a, i), v);
    var w := Keep28(Dword(a, i), v);
    DwordRoundTrip(w);
    DwordBound(DwordBytes(w), 0);
  }
}
