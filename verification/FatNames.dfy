/** Long file names: a name is cut into directory entries of thirteen characters, stored last part first. */
module FatNames {
  import opened FatTable

  type U16 = x: int | 0 <= x < 0x1_0000

  const MAX_LFN: nat := 255
  const LLEF: nat := 0x40
  const SZDIRE: nat := 32
  const LDIR_ORD: nat := 0
  const LDIR_ATTR: nat := 11
  const LDIR_TYPE: nat := 12
  const LDIR_CHKSUM: nat := 13
  const LDIR_FSTCLUSLO: nat := 26
  const AM_LFN: Byte := 0x0F

  const LFN_OFS: seq<nat> := [1, 3, 5, 7, 9, 14, 16, 18, 20, 22, 24, 28, 30]

  /** Where the s-th character of an entry lies. */
  function Ofs(s: nat): (o: nat)
    requires s < 13
    ensures o == if s < 5 then 1 + 2 * s else if s < 11 then 4 + 2 * s else 6 + 2 * s
  {
    LFN_OFS[s]
  }

  /** The two-byte number at byte i. */
  function WordAt(d: seq<Byte>, i: nat): (w: U16)
    requires i + 1 < |d|
  {
    Word(d[i], d[i + 1])
  }

  /** The last-entry flag. */
  predicate IsLast(c: Byte) {
    c / 64 % 2 == 1
  }

  /** A name that the buffer can hold: no character ends it early or looks like padding. */
  predicate NameOk(name: seq<U16>) {
    0 < |name| <= MAX_LFN && forall i :: 0 <= i < |name| ==> name[i] != 0 && name[i] != 0xFFFF
  }

  /** The buffer holds name and its terminator. */
  predicate Holds(buf: seq<U16>, name: seq<U16>) {
    |name| < |buf| && buf[..|name|] == name && buf[|name|] == 0
  }

  /** What is stored for character i: the name, its terminator, then padding. */
  function Stored(name: seq<U16>, i: nat): U16 {
    if i < |name| then name[i] else if i == |name| then 0 else 0xFFFF
  }

  /** The number of entries for a name. */
  function Parts(name: seq<U16>): nat {
    (|name| + 12) / 13
  }

  /** e is the entry with part ord of name; the highest part carries the flag. */
  ghost predicate IsPart(e: seq<Byte>, name: seq<U16>, ord: nat, sum: Byte) {
    && |e| == SZDIRE && 1 <= ord
    && e[LDIR_ORD] == (if ord == Parts(name) then ord + LLEF else ord)
    && e[LDIR_ATTR] == AM_LFN && e[LDIR_TYPE] == 0 && e[LDIR_CHKSUM] == sum && WordAt(e, LDIR_FSTCLUSLO) == 0
    && (forall s: nat :: s < 13 ==> WordAt(e, Ofs(s)) == Stored(name, 13 * (ord - 1) + s))
  }

  /** The s-th character of an entry, in its bytes: five of them from byte 1 on, six from 14 on, two from 28 on. */
  function CharBytes(e: seq<Byte>, s: nat): nat
    requires |e| == 32 && s < 13
  {
    var o: nat := if s < 5 then 1 + 2 * s else if s < 11 then 14 + 2 * (s - 5) else 28 + 2 * (s - 11);
    e[o] as nat + 256 * (e[o + 1] as nat)
  }

  /** A part of a name, byte by byte. */
  lemma PartBytes(e: seq<Byte>, name: seq<U16>, ord: nat, sum: Byte)
    requires NameOk(name) && 1 <= ord <= Parts(name) && IsPart(e, name, ord, sum)
    ensures |e| == 32 && 13 * (ord - 1) < |name|
    ensures e[0] as nat == if |name| <= 13 * ord then ord + 0x40 else ord
    ensures e[11] == 0x0F && e[12] == 0 && e[13] == sum && e[26] == 0 && e[27] == 0
    ensures forall s: nat :: s < 13 ==>
      var i := 13 * (ord - 1) + s;
      CharBytes(e, s) == if i < |name| then name[i] else if i == |name| then 0 else 0xFFFF
  {
    forall s: nat | s < 13
      ensures CharBytes(e, s) == Stored(name, 13 * (ord - 1) + s)
    {
      assert WordAt(e, Ofs(s)) == Stored(name, 13 * (ord - 1) + s);
    }
  }

  /** As many parts as thirteen characters each need. */
  lemma PartsNeeded(name: seq<U16>)
    ensures |name| <= 13 * Parts(name) < |name| + 13
  {
  }

  // ---------- writing ----------

  method StWord(d: array<Byte>, i: nat, w: U16)
    requires i + 1 < d.Length
    modifies d
    ensures d[..] == old(d[..])[i := w % 256][i + 1 := w / 256]
  {
    d[i] := w % 256;
    d[i + 1] := w / 256;
  }

  /** The first s characters of the entry at base are in place, and its fixed fields are. */
  ghost predicate Begun(d: seq<Byte>, base: nat, name: seq<U16>, ord: nat, sum: Byte, s: nat) {
    && base + SZDIRE <= |d| && 1 <= ord && s <= 13
    && d[base + LDIR_ATTR] == AM_LFN && d[base + LDIR_TYPE] == 0 && d[base + LDIR_CHKSUM] == sum
    && WordAt(d, base + LDIR_FSTCLUSLO) == 0
    && (forall r: nat :: r < s ==> WordAt(d, base + Ofs(r)) == Stored(name, 13 * (ord - 1) + r))
  }

  lemma OneMore(d: seq<Byte>, base: nat, name: seq<U16>, ord: nat, sum: Byte, s: nat, w: U16)
    requires Begun(d, base, name, ord, sum, s) && s < 13 && w == Stored(name, 13 * (ord - 1) + s)
    ensures var o := base + Ofs(s); Begun(d[o := w % 256][o + 1 := w / 256], base, name, ord, sum, s + 1)
  {
    var o := base + Ofs(s);
    var d' := d[o := w % 256][o + 1 := w / 256];
    forall r: nat | r < s + 1
      ensures WordAt(d', base + Ofs(r)) == Stored(name, 13 * (ord - 1) + r)
    {
      assert r < s ==> Ofs(r) + 1 < Ofs(s);
    }
  }

  lemma PartDone(d: seq<Byte>, base: nat, name: seq<U16>, ord: nat, sum: Byte, c: Byte)
    requires Begun(d, base, name, ord, sum, 13) && c == if ord == Parts(name) then ord + LLEF else ord
    ensures IsPart(d[base + LDIR_ORD := c][base..base + SZDIRE], name, ord, sum)
  {
    var e := d[base + LDIR_ORD := c][base..base + SZDIRE];
    forall s: nat | s < 13
      ensures WordAt(e, Ofs(s)) == Stored(name, 13 * (ord - 1) + s)
    {
      assert WordAt(e, Ofs(s)) == WordAt(d, base + Ofs(s));
    }
    assert WordAt(e, LDIR_FSTCLUSLO) == WordAt(d, base + LDIR_FSTCLUSLO);
  }

  /** Everything outside the entry at base is as before. */
  ghost predicate OnlyEntry(d: seq<Byte>, d': seq<Byte>, base: nat) {
    && |d'| == |d|
    && (forall k {:trigger d'[k]} :: 0 <= k < |d| && (k < base || base + SZDIRE <= k) ==> d'[k] == d[k])
  }

  /** Stores part ord of the name in lfn as the entry at base. */
  method PutLfn(lfn: array<U16>, d: array<Byte>, base: nat, ord: nat, sum: Byte, ghost name: seq<U16>)
    requires NameOk(name) && Holds(lfn[..], name) && 1 <= ord <= Parts(name) && base + SZDIRE <= d.Length
    modifies d
    ensures IsPart(d[base..base + SZDIRE], name, ord, sum) && OnlyEntry(old(d[..]), d[..], base)
  {
    hide Begun, IsPart;
    PutFixed(d, base, ord, sum, name);
    var i := (ord - 1) * 13;
    var s := 0;
    var wc: U16 := 0;
    while s < 13
      invariant 0 <= s <= 13 && i == (if 13 * (ord - 1) + s <= |name| then 13 * (ord - 1) + s else |name| + 1)
      invariant s == 0 ==> wc == 0
      invariant wc == 0xFFFF <==> i == |name| + 1
      invariant Begun(d[..], base, name, ord, sum, s)
      invariant OnlyEntry(old(d[..]), d[..], base)
    {
      assert lfn[..|name|] == name;
      if wc != 0xFFFF {
        wc := lfn[i];
        i := i + 1;
      }
      OneMore(d[..], base, name, ord, sum, s, wc);
      StWord(d, base + Ofs(s), wc);
      if wc == 0 {
        wc := 0xFFFF;
      }
      s := s + 1;
    }
    var c := ord;
    if wc == 0xFFFF || lfn[i] == 0 {
      c := c + LLEF;
    }
    PartDone(d[..], base, name, ord, sum, c);
    d[base + LDIR_ORD] := c;
  }

  method PutFixed(d: array<Byte>, base: nat, ord: nat, sum: Byte, ghost name: seq<U16>)
    requires 1 <= ord && base + SZDIRE <= d.Length
    modifies d
    ensures Begun(d[..], base, name, ord, sum, 0) && OnlyEntry(old(d[..]), d[..], base)
  {
    hide Begun;
    d[base + LDIR_CHKSUM] := sum;
    d[base + LDIR_ATTR] := AM_LFN;
    d[base + LDIR_TYPE] := 0;
    StWord(d, base + LDIR_FSTCLUSLO, 0);
    BeginsBy(d[..], base, name, ord, sum);
  }

  lemma BeginsBy(d: seq<Byte>, base: nat, name: seq<U16>, ord: nat, sum: Byte)
    requires base + SZDIRE <= |d| && 1 <= ord && WordAt(d, base + LDIR_FSTCLUSLO) == 0
    requires d[base + LDIR_ATTR] == AM_LFN && d[base + LDIR_TYPE] == 0 && d[base + LDIR_CHKSUM] == sum
    ensures Begun(d, base, name, ord, sum, 0)
  {
  }

  // ---------- reading ----------

  /** How many characters are taken from an entry: those up to its first 0, which counts. */
  function Taken(e: seq<Byte>, s: nat): (n: nat)
    requires |e| == SZDIRE && s <= 13
    ensures s <= n <= 13
    ensures forall r: nat :: s <= r < n - 1 ==> WordAt(e, Ofs(r)) != 0
    ensures n == 13 || (s < n && WordAt(e, Ofs(n - 1)) == 0)
    decreases 13 - s
  {
    if s == 13 then 13 else if WordAt(e, Ofs(s)) == 0 then s + 1 else Taken(e, s + 1)
  }

  /** The part that an entry holds. */
  function Ordinal(c: Byte): (n: nat) {
    c as int % 64
  }

  /** Where the characters of an entry go. */
  function Target(e: seq<Byte>): int
    requires |e| == SZDIRE
  {
    (Ordinal(e[LDIR_ORD]) - 1) * 13
  }

  /** An entry is accepted if its cluster field is 0, what follows a 0 is padding, and its characters and, in the
      last part, a terminator fit. */
  ghost predicate Acceptable(e: seq<Byte>)
    requires |e| == SZDIRE
  {
    && WordAt(e, LDIR_FSTCLUSLO) == 0
    && 0 <= Target(e) && Target(e) + Taken(e, 0) + (if IsLast(e[LDIR_ORD]) then 1 else 0) <= MAX_LFN
    && Padded(e, Taken(e, 0), 13)
  }

  /** n characters of an entry count: the last of them, and no other, is 0 unless all thirteen count. */
  predicate Counts(e: seq<Byte>, n: nat)
    requires |e| == 32
  {
    && 1 <= n <= 13 && (n == 13 || CharBytes(e, n - 1) == 0)
    && forall s: nat :: s < n - 1 ==> CharBytes(e, s) != 0
  }

  /** Which entries are accepted, in their bytes: the cluster field is 0, the number is not 0, the characters that
      count have room, a terminator too behind the last part, and the others are 0xFFFF. */
  lemma AcceptableBytes(e: seq<Byte>, n: nat)
    requires |e| == 32 && Counts(e, n)
    ensures Acceptable(e) <==>
      && e[26] == 0 && e[27] == 0 && 1 <= e[0] as nat % 64
      && 13 * (e[0] as nat % 64 - 1) + n + (if e[0] as nat / 64 % 2 == 1 then 1 else 0) <= 255
      && forall s: nat :: n <= s < 13 ==> CharBytes(e, s) == 0xFFFF
  {
    CharsAreWords(e);
    hide CharBytes, Ofs;
    TakenCounts(e, n);
    hide Taken, WordAt;
    assert Word(e[26], e[27]) == 0 <==> e[26] == 0 && e[27] == 0;
    ClusterField(e);
  }

  lemma ClusterField(e: seq<Byte>)
    requires |e| == 32
    ensures WordAt(e, LDIR_FSTCLUSLO) == 0 <==> e[26] == 0 && e[27] == 0
  {
  }

  lemma CharsAreWords(e: seq<Byte>)
    requires |e| == 32
    ensures forall s: nat :: s < 13 ==> CharBytes(e, s) == WordAt(e, Ofs(s))
  {
  }

  lemma TakenCounts(e: seq<Byte>, n: nat)
    requires |e| == 32 && 1 <= n <= 13 && (n == 13 || WordAt(e, Ofs(n - 1)) == 0)
    requires forall s: nat :: s < n - 1 ==> WordAt(e, Ofs(s)) != 0
    ensures Taken(e, 0) == n
  {
    hide WordAt, Ofs;
    var t := Taken(e, 0);
    if t < n {
      assert false;
    }
  }

  /** Characters n to k - 1 are padding. */
  ghost predicate Padded(e: seq<Byte>, n: nat, k: nat)
    requires |e| == SZDIRE && k <= 13
  {
    forall s: nat :: n <= s < k ==> WordAt(e, Ofs(s)) == 0xFFFF
  }

  lemma PaddedMore(e: seq<Byte>, n: nat, k: nat)
    requires |e| == SZDIRE && n <= k < 13 && Padded(e, n, k)
    ensures Padded(e, n, k + 1) <==> WordAt(e, Ofs(k)) == 0xFFFF
    ensures WordAt(e, Ofs(k)) != 0xFFFF ==> !Padded(e, n, 13)
  {
  }

  lemma TakenMore(e: seq<Byte>, s: nat)
    requires |e| == SZDIRE && s < 13
    ensures s < Taken(e, s) == if WordAt(e, Ofs(s)) == 0 then s + 1 else Taken(e, s + 1)
  {
  }

  /** buf' is buf with the first n characters of entry e. */
  ghost predicate Copied(buf: seq<U16>, buf': seq<U16>, e: seq<Byte>, n: nat)
    requires |e| == SZDIRE && n <= 13
  {
    && |buf'| == |buf|
    && (forall k {:trigger buf'[k]} :: 0 <= k < |buf| ==>
          buf'[k] == if 0 <= k - Target(e) < n then WordAt(e, Ofs(k - Target(e))) else buf[k])
  }

  lemma CopiedMore(buf: seq<U16>, buf': seq<U16>, e: seq<Byte>, s: nat)
    requires |e| == SZDIRE && s < 13 && Copied(buf, buf', e, s) && 0 <= Target(e) && Target(e) + s < |buf|
    ensures Copied(buf, buf'[Target(e) + s := WordAt(e, Ofs(s))], e, s + 1)
  {
  }

  /** buf' is buf with the characters of entry e, and a terminator behind those of the last part. */
  ghost predicate Picked(buf: seq<U16>, buf': seq<U16>, e: seq<Byte>)
    requires |e| == SZDIRE && Acceptable(e)
  {
    var n := Taken(e, 0);
    exists b :: Copied(buf, b, e, n) && buf' == if IsLast(e[LDIR_ORD]) then Terminated(b, Target(e) + n) else b
  }

  function Terminated(b: seq<U16>, i: nat): seq<U16> {
    if i < |b| then b[i := 0] else b
  }

  /** Takes the characters of entry e; i is where they end. */
  method PickChars(lfnbuf: array<U16>, e: seq<Byte>) returns (ok: bool, i: nat)
    requires lfnbuf.Length == MAX_LFN + 1 && |e| == SZDIRE
    modifies lfnbuf
    ensures ok <==> 0 <= Target(e) && Target(e) + Taken(e, 0) <= MAX_LFN && Padded(e, Taken(e, 0), 13)
    ensures ok ==> i == Target(e) + Taken(e, 0) && Copied(old(lfnbuf[..]), lfnbuf[..], e, Taken(e, 0))
  {
    hide Copied, WordAt, Taken, Ofs, Padded;
    // the offset wraps around for ordinal 0, beyond the buffer
    i := if Ordinal(e[LDIR_ORD]) == 0 then 0x1_0000_0000 - 13 else (Ordinal(e[LDIR_ORD]) - 1) * 13;
    assert Copied(lfnbuf[..], lfnbuf[..], e, 0) by { NothingCopied(lfnbuf[..], e); }
    NotYetPadded(e, Taken(e, 0), 0);
    var wc: U16 := 1;
    var s := 0;
    while s < 13
      invariant 0 <= s <= 13 && (wc != 0 ==> Taken(e, 0) == Taken(e, s)) && (s > 0 ==> 0 <= Target(e) && i <= MAX_LFN)
      invariant wc != 0 ==> i == s + (if Ordinal(e[LDIR_ORD]) == 0 then 0x1_0000_0000 - 13 else Target(e))
      invariant wc == 0 ==> Taken(e, 0) <= s && i == Target(e) + Taken(e, 0)
      invariant Padded(e, Taken(e, 0), s)
      invariant Copied(old(lfnbuf[..]), lfnbuf[..], e, if wc != 0 then s else Taken(e, 0))
    {
      var uc := WordAt(e, Ofs(s));
      TakenMore(e, s);
      if wc != 0 {
        if i >= MAX_LFN {
          return false, i;
        }
        CopiedMore(old(lfnbuf[..]), lfnbuf[..], e, s);
        wc := uc;
        lfnbuf[i] := uc;
        i := i + 1;
        NotYetPadded(e, Taken(e, 0), s + 1);
      } else {
        PaddedMore(e, Taken(e, 0), s);
        if uc != 0xFFFF {
          return false, i;
        }
      }
      s := s + 1;
    }
    ok := true;
  }

  lemma NotYetPadded(e: seq<Byte>, n: nat, k: nat)
    requires |e| == SZDIRE && k <= 13
    ensures k <= n ==> Padded(e, n, k)
  {
  }

  lemma NothingCopied(buf: seq<U16>, e: seq<Byte>)
    requires |e| == SZDIRE
    ensures Copied(buf, buf, e, 0)
  {
  }

  /** Takes the part of a name that entry e holds into the buffer; any entry may be given. */
  method PickLfn(lfnbuf: array<U16>, e: seq<Byte>) returns (ok: bool)
    requires lfnbuf.Length == MAX_LFN + 1 && |e| == SZDIRE
    modifies lfnbuf
    ensures ok <==> Acceptable(e)
    ensures ok ==> Picked(old(lfnbuf[..]), lfnbuf[..], e)
  {
    hide Copied, WordAt, Taken;
    if WordAt(e, LDIR_FSTCLUSLO) != 0 {
      return false;
    }
    var i;
    ok, i := PickChars(lfnbuf, e);
    if !ok {
      return;
    }
    ghost var b := lfnbuf[..];
    if IsLast(e[LDIR_ORD]) {
      if i >= MAX_LFN {
        return false;
      }
      lfnbuf[i] := 0;
    }
    assert lfnbuf[..] == if IsLast(e[LDIR_ORD]) then Terminated(b, Target(e) + Taken(e, 0)) else b;
  }

  // ---------- what was written is read back ----------

  lemma StoredKinds(name: seq<U16>, i: nat)
    requires NameOk(name)
    ensures Stored(name, i) == 0 <==> i == |name|
    ensures Stored(name, i) == 0xFFFF <==> i > |name|
  {
  }

  lemma PartChar(e: seq<Byte>, name: seq<U16>, ord: nat, sum: Byte, s: nat)
    requires 1 <= ord && IsPart(e, name, ord, sum) && s < 13
    ensures WordAt(e, Ofs(s)) == Stored(name, 13 * (ord - 1) + s)
  {
  }

  lemma PartInName(e: seq<Byte>, name: seq<U16>, ord: nat, sum: Byte)
    requires NameOk(name) && 1 <= ord <= Parts(name) && IsPart(e, name, ord, sum)
    ensures |e| == SZDIRE && 13 * (ord - 1) < |name| <= MAX_LFN
  {
    hide WordAt, Ofs, Stored;
  }

  /** The characters of a part, up to the terminator. */
  lemma PartTaken(e: seq<Byte>, name: seq<U16>, ord: nat, sum: Byte)
    requires NameOk(name) && 1 <= ord <= Parts(name) && IsPart(e, name, ord, sum)
    ensures |e| == SZDIRE && Taken(e, 0) == if 13 * ord <= |name| then 13 else |name| + 1 - 13 * (ord - 1)
    ensures Padded(e, Taken(e, 0), 13)
  {
    hide Taken, WordAt, Ofs, IsPart, Stored, NameOk, Parts;
    PartInName(e, name, ord, sum);
    var base, n := 13 * (ord - 1), Taken(e, 0);
    var m := if base + 13 <= |name| then 13 else |name| + 1 - base;
    PartChar(e, name, ord, sum, n - 1);
    StoredKinds(name, base + n - 1);
    PartChar(e, name, ord, sum, m - 1);
    StoredKinds(name, base + m - 1);
    assert n == m;
    forall s: nat | n <= s < 13
      ensures WordAt(e, Ofs(s)) == 0xFFFF
    {
      PartChar(e, name, ord, sum, s);
      StoredKinds(name, base + s);
    }
  }

  lemma PartFlags(e: seq<Byte>, name: seq<U16>, ord: nat, sum: Byte)
    requires NameOk(name) && 1 <= ord <= Parts(name) && IsPart(e, name, ord, sum)
    ensures |e| == SZDIRE && Ordinal(e[LDIR_ORD]) == ord && (IsLast(e[LDIR_ORD]) <==> ord == Parts(name))
    ensures e[LDIR_ORD] as nat == (if ord == Parts(name) then ord + LLEF else ord) && e[LDIR_CHKSUM] == sum
    ensures WordAt(e, LDIR_FSTCLUSLO) == 0 && ord <= 20
  {
    hide WordAt, Ofs;
  }

  lemma PartAcceptable(e: seq<Byte>, name: seq<U16>, ord: nat, sum: Byte)
    requires NameOk(name) && 1 <= ord <= Parts(name) && IsPart(e, name, ord, sum)
    ensures |e| == SZDIRE && Target(e) == 13 * (ord - 1)
    ensures Acceptable(e) <==> ord < Parts(name) || |name| <= MAX_LFN - 2
  {
    PartTaken(e, name, ord, sum);
    PartFlags(e, name, ord, sum);
    assert 13 * (ord - 1) < |name| <= MAX_LFN;
    assert if ord == Parts(name) then |name| <= 13 * ord else 13 * ord < |name|;
    hide Taken, Ofs, WordAt, Padded, IsPart, Parts, IsLast, Ordinal, NameOk;
  }

  /** The case that fails: the last entry of a name of 254 characters, as it is stored, is refused. */
  lemma LongNameRefused(e: seq<Byte>, name: seq<U16>, sum: Byte)
    requires name == seq(254, _ => 0x41) && IsPart(e, name, 20, sum)
    ensures NameOk(name) && Parts(name) == 20 && |e| == SZDIRE && !Acceptable(e)
  {
    hide IsPart, Acceptable;
    PartAcceptable(e, name, 20, sum);
  }

  /** The name from character k on is in the buffer. */
  ghost predicate HoldsFrom(buf: seq<U16>, name: seq<U16>, k: nat) {
    |name| < |buf| && forall i {:trigger buf[i]} :: k <= i <= |name| ==> buf[i] == Stored(name, i)
  }

  lemma PartPicked(buf: seq<U16>, buf': seq<U16>, e: seq<Byte>, name: seq<U16>, ord: nat, sum: Byte)
    requires NameOk(name) && 1 <= ord <= Parts(name) && IsPart(e, name, ord, sum) && Acceptable(e)
    requires |buf| == MAX_LFN + 1 && Picked(buf, buf', e) && (ord < Parts(name) ==> HoldsFrom(buf, name, 13 * ord))
    ensures HoldsFrom(buf', name, 13 * (ord - 1))
  {
    hide Taken, WordAt, Ofs, Padded, IsPart, Stored, Copied, HoldsFrom;
    PartTaken(e, name, ord, sum);
    PartAcceptable(e, name, ord, sum);
    PartFlags(e, name, ord, sum);
    var n, last := Taken(e, 0), ord == Parts(name);
    var b :| Copied(buf, b, e, n) && buf' == if IsLast(e[LDIR_ORD]) then Terminated(b, Target(e) + n) else b;
    assert |name| <= MAX_LFN && (if last then |name| <= 13 * ord else 13 * ord < |name|);
    hide Acceptable, Picked, NameOk, Parts, IsLast, Target, Ordinal;
    CopiedHolds(buf, b, buf', e, name, ord, sum, n, last);
  }

  lemma CopiedHolds(buf: seq<U16>, b: seq<U16>, buf': seq<U16>, e: seq<Byte>, name: seq<U16>, ord: nat, sum: Byte,
                    n: nat, last: bool)
    requires 1 <= ord && IsPart(e, name, ord, sum) && |e| == SZDIRE && Target(e) == 13 * (ord - 1) < |name| <= MAX_LFN
    requires n == if 13 * ord <= |name| then 13 else |name| + 1 - 13 * (ord - 1)
    requires |buf| == MAX_LFN + 1 && Copied(buf, b, e, n)
    requires buf' == if last then Terminated(b, 13 * (ord - 1) + n) else b
    requires if last then |name| <= 13 * ord else 13 * ord < |name| && HoldsFrom(buf, name, 13 * ord)
    ensures HoldsFrom(buf', name, 13 * (ord - 1))
  {
    hide WordAt, Ofs, IsPart, Stored, Copied, Target;
    var base := 13 * (ord - 1);
    CopiedAt(buf, b, e, n, 0);
    assert |buf'| == |buf|;
    forall i: nat {:trigger buf'[i]} | base <= i <= |name|
      ensures buf'[i] == Stored(name, i)
    {
      CopiedAt(buf, b, e, n, i);
      if i - base < n {
        PartChar(e, name, ord, sum, i - base);
      } else {
        StoredEnd(name);
      }
    }
  }

  lemma CopiedAt(buf: seq<U16>, buf': seq<U16>, e: seq<Byte>, n: nat, i: nat)
    requires |e| == SZDIRE && n <= 13 && Copied(buf, buf', e, n) && i < |buf|
    ensures |buf'| == |buf| && buf'[i] == if 0 <= i - Target(e) < n then WordAt(e, Ofs(i - Target(e))) else buf[i]
  {
  }

  lemma StoredEnd(name: seq<U16>)
    ensures Stored(name, |name|) == 0
  {
  }

  /** The n entries in d hold the parts of name, the last part first. */
  ghost predicate Written(d: seq<Byte>, n: nat, name: seq<U16>, sum: Byte)
    requires SZDIRE * n <= |d|
  {
    && NameOk(name) && n == Parts(name) && forall j: nat :: j < n ==> IsPart(EntryOf(d, j), name, n - j, sum)
  }

  function EntryOf(d: seq<Byte>, j: nat): (e: seq<Byte>)
    requires SZDIRE * (j + 1) <= |d|
    ensures |e| == SZDIRE
  {
    d[SZDIRE * j..SZDIRE * j + SZDIRE]
  }

  /** Stores the entries of a long name, as a new directory entry gets them. */
  method WriteName(lfn: array<U16>, d: array<Byte>, sum: Byte, ghost name: seq<U16>, n: nat)
    requires NameOk(name) && Holds(lfn[..], name) && n == Parts(name) && SZDIRE * n <= d.Length
    modifies d
    ensures Written(d[..], n, name, sum)
    ensures d[SZDIRE * n..] == old(d[SZDIRE * n..])
  {
    hide IsPart;
    var nent := n;
    while nent > 0
      invariant 0 <= nent <= n
      invariant forall j: nat :: j < n - nent ==> IsPart(EntryOf(d[..], j), name, n - j, sum)
      invariant d[SZDIRE * n..] == old(d[SZDIRE * n..])
    {
      ghost var before := d[..];
      PutLfn(lfn, d, SZDIRE * (n - nent), nent, sum, name);
      forall j: nat | j < n - nent
        ensures EntryOf(d[..], j) == EntryOf(before, j)
      {
        EntryKept(before, d[..], n - nent, j);
      }
      assert EntryOf(d[..], n - nent) == d[SZDIRE * (n - nent)..SZDIRE * (n - nent) + SZDIRE];
      nent := nent - 1;
    }
  }

  lemma EntryKept(d: seq<Byte>, d': seq<Byte>, k: nat, j: nat)
    requires SZDIRE * (k + 1) <= |d| && OnlyEntry(d, d', SZDIRE * k) && j < k
    ensures EntryOf(d', j) == EntryOf(d, j)
  {
  }

  /** One entry of a long name: c == ord, the checksum fits, and its characters are taken. */
  method ReadPart(lfnbuf: array<U16>, e: seq<Byte>, ord0: nat, sum0: Byte) returns (ord: nat, sum: Byte)
    requires lfnbuf.Length == MAX_LFN + 1 && |e| == SZDIRE && ord0 < 0x100
    modifies lfnbuf
    ensures var c: nat, last := e[LDIR_ORD], IsLast(e[LDIR_ORD]);
      && sum == (if last then e[LDIR_CHKSUM] else sum0)
      && var fits := (last || c == ord0) && sum == e[LDIR_CHKSUM];
        && ord == (if fits && Acceptable(e) then ((if last then c - LLEF else c) + 0xFF) % 0x100 else 0xFF)
        && (fits && Acceptable(e) ==> Picked(old(lfnbuf[..]), lfnbuf[..], e))
  {
    hide Acceptable, Picked;
    ord, sum := ord0, sum0;
    var c: nat := e[LDIR_ORD];
    if IsLast(e[LDIR_ORD]) {
      sum := e[LDIR_CHKSUM];
      c := c - LLEF;
      ord := c;
    }
    if c == ord && sum == e[LDIR_CHKSUM] {
      var ok := PickLfn(lfnbuf, e);
      ord := if ok then (ord + 0xFF) % 0x100 else 0xFF;
    } else {
      ord := 0xFF;
    }
  }

  /** Collects the long name from n entries, whatever they hold; 0 means that all parts were found. */
  method ReadName(lfnbuf: array<U16>, d: seq<Byte>, n: nat, ghost name: seq<U16>, ghost sum0: Byte) returns (ord: nat,
                  sum: Byte)
    requires lfnbuf.Length == MAX_LFN + 1 && SZDIRE * n <= |d|
    modifies lfnbuf
    ensures Written(d, n, name, sum0) ==> (ord == 0 <==> |name| <= MAX_LFN - 2)
    ensures Written(d, n, name, sum0) && ord == 0 ==> Holds(lfnbuf[..], name) && sum == sum0
  {
    hide IsPart, Acceptable, Picked, HoldsFrom, IsLast, Holds, NameOk, Parts;
    ord, sum := 0xFF, 0xFF;
    var j := 0;
    while j < n
      invariant 0 <= j <= n && ord < 0x100
      invariant Written(d, n, name, sum0) && 0 < j ==> ord == if |name| <= MAX_LFN - 2 then n - j else 0xFF
      invariant Written(d, n, name, sum0) && 0 < j && ord != 0xFF ==>
        sum == sum0 && HoldsFrom(lfnbuf[..], name, 13 * (n - j))
    {
      var e := EntryOf(d, j);
      ghost var before := lfnbuf[..];
      ord, sum := ReadPart(lfnbuf, e, ord, sum);
      if Written(d, n, name, sum0) {
        PartFlags(e, name, n - j, sum0);
        PartAcceptable(e, name, n - j, sum0);
        if Acceptable(e) && ord != 0xFF {
          PartPicked(before, lfnbuf[..], e, name, n - j, sum0);
        }
      }
      j := j + 1;
    }
    if Written(d, n, name, sum0) {
      SomeParts(name);
      if ord == 0 {
        HeldAll(lfnbuf[..], name);
      }
    }
  }

  lemma SomeParts(name: seq<U16>)
    requires NameOk(name)
    ensures 1 <= Parts(name) <= 20
  {
  }

  lemma HeldAll(buf: seq<U16>, name: seq<U16>)
    requires HoldsFrom(buf, name, 0)
    ensures Holds(buf, name)
  {
  }
}
