/** The floppy disk as one array of bytes over single-sector transfers. */
module Floppy {
  import opened FatLayout
  import opened FatDisk

  const SECTORS_PER_TRACK: nat := 18
  const CYLINDERS: nat := 80
  const HEADS: nat := 2
  const SECTORS: nat := 2880
  const DISK_BYTES: nat := 1474560

  // Cylinder numbers are bytes: the places come round again every 256 cylinders.
  const PERIOD: nat := 9216
  const PERIOD_BYTES: nat := 4718592

  // ----- Addresses -----

  datatype Chs = Chs(cylinder: nat, head: nat, sector: nat)

  /** Where a logical sector lies; the results are bytes. */
  function LbaToChs(lba: nat): Chs {
    Chs(lba / (2 * SECTORS_PER_TRACK) % 256,
        lba % (2 * SECTORS_PER_TRACK) / SECTORS_PER_TRACK % 256,
        (lba % (2 * SECTORS_PER_TRACK) % SECTORS_PER_TRACK + 1) % 256)
  }

  /** A sector and a byte address counted in their period. */
  function Turned(lba: nat): (l: nat)
    ensures l <= lba
  {
    lba % PERIOD
  }

  function TurnedByte(address: nat): nat { address % PERIOD_BYTES }

  predicate OnDisk(c: Chs) { c.cylinder < CYLINDERS && c.head < HEADS && 1 <= c.sector <= SECTORS_PER_TRACK }

  function ChsToLba(c: Chs): nat
    requires OnDisk(c)
  {
    (c.cylinder * HEADS + c.head) * SECTORS_PER_TRACK + (c.sector - 1)
  }

  /** A logical sector is a place exactly when it is one of the first 2880 of its period, and those
      correspond one to one to the places. */
  lemma LbaBijection(lba: nat, c: Chs)
    ensures OnDisk(LbaToChs(lba)) <==> Turned(lba) < SECTORS
    ensures OnDisk(LbaToChs(lba)) ==> ChsToLba(LbaToChs(lba)) == Turned(lba)
    ensures OnDisk(c) ==> ChsToLba(c) < SECTORS && LbaToChs(ChsToLba(c)) == c
  {
    Forth(lba);
    if OnDisk(c) {
      Split(c.cylinder, c.head, c.sector - 1, ChsToLba(c));
    }
  }

  /** The order of the places: the 18 sectors of a track, from number 1 on, then the other head,
      then the next cylinder. */
  lemma LbaOrder(c: nat, h: nat, s: nat)
    requires h < 2 && 1 <= s <= 18
    ensures LbaToChs(36 * c + 18 * h + (s - 1)) == Chs(c % 256, h, s)
    ensures c < 80 ==> OnDisk(Chs(c, h, s)) && ChsToLba(Chs(c, h, s)) == 36 * c + 18 * h + (s - 1) < 2880
  {
    Split(c, h, s - 1, 36 * c + 18 * h + (s - 1));
  }

  lemma Forth(lba: nat)
    ensures OnDisk(LbaToChs(lba)) <==> Turned(lba) < SECTORS
    ensures OnDisk(LbaToChs(lba)) ==> ChsToLba(LbaToChs(lba)) == Turned(lba)
  {
    CylinderWraps(lba);
    Split(lba / 36 % 256, lba % 36 / 18, lba % 18, Turned(lba));
    Split(lba / 36, lba % 36 / 18, lba % 18, lba);
  }

  lemma CylinderWraps(lba: nat)
    ensures Turned(lba) == 36 * (lba / 36 % 256) + lba % 36
  {
    var c := lba / 36;
    var r := 36 * (c % 256) + lba % 36;
    assert lba == PERIOD * (c / 256) + r;
    RemainderIs(lba, PERIOD, c / 256, r);
  }

  lemma RemainderIs(n: nat, d: nat, q: nat, r: nat)
    requires n == d * q + r && r < d
    ensures n / d == q && n % d == r
  {
    QuotientIs(n, d, q);
  }

  /** A sector number splits into cylinder, head and sector in one way. */
  lemma Split(cylinder: nat, head: nat, sector: nat, n: nat)
    requires head < 2 && sector < 18
    ensures n == 36 * cylinder + 18 * head + sector <==> n / 36 == cylinder && n % 36 / 18 == head && n % 36 % 18 == sector
    ensures n % 36 % 18 == n % 18
  {
    var q := n / 36;
    assert n == 36 * q + n % 36;
  }

  // ----- Sectors in the array -----

  function SectorOf(m: seq<Octet>, lba: nat): (s: seq<Octet>)
    requires |m| == DISK_BYTES && lba < SECTORS
    ensures |s| == SECTOR
  {
    m[lba * SECTOR..lba * SECTOR + SECTOR]
  }

  /** The sector of an address, and its place there. */
  function Lba(address: nat): nat { address / SECTOR }

  function Offset(address: nat): nat { address % SECTOR }

  /** Where in a sector a transfer starts and ends. */
  function First(lba: nat, address: nat): nat { if lba == Lba(address) then Offset(address) else 0 }

  function Limit(lba: nat, goal: nat): nat { if lba == Lba(goal) then Offset(goal) else SECTOR }

  function SectorStart(lba: nat): nat { lba * SECTOR }

  /** The byte address up to which the sectors below lba reach. */
  function Reached(lba: nat, address: nat, goal: nat): nat
    requires address <= goal
  {
    if lba <= Lba(address) then address
    else if lba <= Lba(goal) then lba * SECTOR
    else goal
  }

  /** The place of a byte address in a period, as far as the disk goes. */
  function Within(at: nat): (r: nat)
    ensures r <= DISK_BYTES && r <= at
  {
    if at < DISK_BYTES then at else DISK_BYTES
  }

  /** How many of the bytes from `at` on the disk has. */
  function Fits(at: nat, size: nat): (n: nat)
    ensures Within(at) + n == Within(at + size) && n <= size
  {
    Within(at + size) - Within(at)
  }

  function Part(m: seq<Octet>, a: nat, b: nat): seq<Octet>
    requires |m| == DISK_BYTES && a <= b
  {
    m[Within(a)..Within(b)]
  }

  lemma PartMore(m: seq<Octet>, a: nat, b: nat, c: nat)
    requires |m| == DISK_BYTES && a <= b <= c <= DISK_BYTES
    ensures Part(m, a, b) + m[b..c] == Part(m, a, c)
  {
    SliceMore(m, a, b, c);
  }

  /** A sector a transfer gets to, counted in the period: on the disk, right behind it, or the
      first one. */
  predicate Reachable(l: nat, at: nat) { l <= SECTORS || l == Lba(at) }

  /** A transfer seen in its period. */
  lemma PeriodOf(address: nat, size: nat)
    ensures var at, lba := TurnedByte(address), Lba(address);
            && lba - Turned(lba) >= 0 && Turned(lba) == Lba(at)
            && Lba(address + size) == lba - Turned(lba) + Lba(at + size)
            && Offset(address) == Offset(at) && Offset(address + size) == Offset(at + size)
  {
    var at, q := TurnedByte(address), address / PERIOD_BYTES;
    assert address == PERIOD_BYTES * q + at;
    RemainderIs(address, SECTOR, PERIOD * q + at / SECTOR, at % SECTOR);
    RemainderIs(address + size, SECTOR, PERIOD * q + (at + size) / SECTOR, (at + size) % SECTOR);
    RemainderIs(Lba(address), PERIOD, q, at / SECTOR);
  }

  lemma SamePart(m: seq<Octet>, a: nat, b: nat, c: nat)
    requires |m| == DISK_BYTES && a <= b && a <= c && Within(b) == Within(c)
    ensures Part(m, a, b) == Part(m, a, c)
  {
  }

  lemma InPeriod(start: nat, l: nat, at: nat)
    requires Reachable(l, at) && Lba(at) == Turned(start)
    ensures Turned(start - Turned(start) + l) == l
  {
    RemainderIs(start - Turned(start) + l, PERIOD, start / PERIOD, l);
  }

  /** The last sector a transfer visits, and where it is done. */
  lemma Bounds(m: seq<Octet>, at: nat, goal: nat)
    requires at <= goal && |m| == DISK_BYTES
    ensures Lba(at) <= Lba(goal) && Reached(Lba(at), at, goal) == at && Reachable(Lba(at), at)
    ensures Within(at) <= Within(goal) <= |m| && Part(m, at, at) == []
  {
  }

  /** A failing sector lies behind the disk, and everything before it is done. */
  lemma AtEnd(l: nat, at: nat, goal: nat)
    requires at <= goal && Lba(at) <= l <= Lba(goal) && Reachable(l, at)
    ensures at <= Reached(l, at, goal)
    ensures l >= SECTORS ==>
              goal >= DISK_BYTES && Within(Reached(l, at, goal)) == Within(goal)
              && Reached(l, at, goal) - at == Fits(at, goal - at)
    ensures l < SECTORS ==>
              at < DISK_BYTES && Within(at) == at && Reached(l + 1, at, goal) <= DISK_BYTES && Reachable(l + 1, at)
    ensures First(l, at) == if l == Lba(at) then Offset(at) else 0
    ensures Limit(l, goal) == if l == Lba(goal) then Offset(goal) else SECTOR
  {
  }

  lemma AtGoal(at: nat, goal: nat)
    requires at <= goal && Reachable(Lba(goal) + 1, at)
    ensures goal < DISK_BYTES && Reached(Lba(goal) + 1, at, goal) == goal && Within(goal) == goal && Within(at) == at
    ensures Fits(at, goal - at) == goal - at
  {
  }

  lemma ReachedStep(lba: nat, address: nat, goal: nat)
    requires address <= goal && Lba(address) <= lba <= Lba(goal)
    ensures First(lba, address) <= Limit(lba, goal) <= SECTOR
    ensures SectorStart(lba) + First(lba, address) == Reached(lba, address, goal)
    ensures SectorStart(lba) + Limit(lba, goal) == Reached(lba + 1, address, goal)
    ensures address <= Reached(lba, address, goal) <= Reached(lba + 1, address, goal) <= goal
  {
    assert address == address / SECTOR * SECTOR + address % SECTOR;
    assert goal == goal / SECTOR * SECTOR + goal % SECTOR;
  }

  lemma SliceMore(m: seq<Octet>, a: nat, b: nat, c: nat)
    requires a <= b <= c <= |m|
    ensures m[a..b] + m[b..c] == m[a..c]
  {
  }

  lemma SectorSlice(m: seq<Octet>, lba: nat, first: nat, limit: nat)
    requires |m| == DISK_BYTES && lba < SECTORS && first <= limit <= SECTOR
    ensures SectorStart(lba) + limit <= |m| && SectorOf(m, lba)[first..limit] == m[SectorStart(lba) + first..SectorStart(lba) + limit]
  {
    SliceOfSlice(m, lba * SECTOR, lba * SECTOR + SECTOR, first, limit);
  }

  lemma SliceOfSlice<T>(m: seq<T>, a: nat, b: nat, c: nat, d: nat)
    requires a <= b <= |m| && c <= d <= b - a
    ensures m[a..b][c..d] == m[a + c..a + d]
  {
    forall i | 0 <= i < d - c
      ensures m[a..b][c..d][i] == m[a + c..a + d][i]
    {
    }
  }

  /** Putting back a sector that was changed inside splices the array there. */
  lemma SectorSpliced(m: seq<Octet>, lba: nat, first: nat, d: seq<Octet>)
    requires |m| == DISK_BYTES && lba < SECTORS && first + |d| <= SECTOR
    ensures SectorStart(lba) + SECTOR <= |m|
    ensures Spliced(m, SectorStart(lba), Spliced(SectorOf(m, lba), first, d)) == Spliced(m, SectorStart(lba) + first, d)
  {
    SpliceInside(m, SectorStart(lba), SECTOR, first, d);
  }

  lemma SpliceInside(m: seq<Octet>, at: nat, n: nat, first: nat, d: seq<Octet>)
    requires at + n <= |m| && first + |d| <= n
    ensures Spliced(m, at, Spliced(m[at..at + n], first, d)) == Spliced(m, at + first, d)
  {
    var s := m[at..at + n];
    assert m[..at] + s[..first] == m[..at + first];
    assert s[first + |d|..] + m[at + n..] == m[at + first + |d|..];
  }

  lemma SpliceOn(m: seq<Octet>, at: nat, d: seq<Octet>, b: nat, c: nat)
    requires b <= c <= |d| && at + c <= |m|
    ensures Spliced(Spliced(m, at, d[..b]), at + b, d[b..c]) == Spliced(m, at, d[..c])
  {
    assert d[..b] + d[b..c] == d[..c];
  }

  class Drive {
    var bytes: seq<Octet>

    ghost predicate Valid()
      reads this
    {
      |bytes| == DISK_BYTES
    }

    lemma ValidFacts()
      requires Valid()
      ensures |bytes| == DISK_BYTES
    {
    }

    /** A sector transfer succeeds exactly for the places on the disk. */
    method ReadLba(lba: nat) returns (ok: bool, buffer: seq<Octet>)
      requires Valid()
      ensures ok == (Turned(lba) < SECTORS) && |buffer| == SECTOR
      ensures ok ==> buffer == SectorOf(bytes, Turned(lba))
    {
      LbaBijection(lba, Chs(0, 0, 1));
      var c := LbaToChs(lba);
      if !OnDisk(c) {
        return false, Zeroed(SECTOR);
      }
      var at := ChsToLba(c) * SECTOR;
      return true, bytes[at..at + SECTOR];
    }

    method WriteLba(lba: nat, buffer: seq<Octet>) returns (ok: bool)
      requires Valid() && |buffer| == SECTOR
      modifies this
      ensures Valid() && ok == (Turned(lba) < SECTORS)
      ensures ok ==> SectorStart(Turned(lba)) + |buffer| <= |old(bytes)|
                     && bytes == Spliced(old(bytes), SectorStart(Turned(lba)), buffer)
      ensures !ok ==> bytes == old(bytes)
    {
      LbaBijection(lba, Chs(0, 0, 1));
      var c := LbaToChs(lba);
      if !OnDisk(c) {
        return false;
      }
      bytes := Spliced(bytes, ChsToLba(c) * SECTOR, buffer);
      return true;
    }

    /** Reads a slice of the disk, for any address: the disk starts again every PERIOD_BYTES bytes.
        It fails exactly when the slice reaches the end of the disk, since the sector behind the
        last byte is read even for no byte of it, having read what there is. */
    method Read(address: nat, size: nat) returns (ok: bool, buffer: seq<Octet>)
      requires Valid()
      ensures ok <==> TurnedByte(address) + size < DISK_BYTES
      ensures |bytes| == DISK_BYTES
      ensures buffer == Part(bytes, TurnedByte(address), TurnedByte(address) + size)
    {
      hide *;
      var startLba, endLba := Lba(address), Lba(address + size);
      ghost var at, first := TurnedByte(address), startLba - Turned(startLba);
      ghost var goal := at + size;
      PeriodOf(address, size);
      ValidFacts();
      Bounds(bytes, at, goal);
      var lba := startLba;
      buffer := [];
      while lba <= endLba
        invariant startLba <= lba <= endLba + 1 && Reachable(lba - first, at)
        invariant at <= Reached(lba - first, at, goal) && buffer == Part(bytes, at, Reached(lba - first, at, goal))
        decreases endLba + 1 - lba
      {
        ghost var l := lba - first;
        AtEnd(l, at, goal);
        ReachedStep(l, at, goal);
        InPeriod(startLba, l, at);
        var tmp;
        ok, tmp := ReadLba(lba);
        if !ok {
          SamePart(bytes, at, Reached(l, at, goal), goal);
          return;
        }
        var start, end := 0, SECTOR;
        if lba == startLba {
          start := Offset(address);
        }
        if lba == endLba {
          end := Offset(address + size);
        }
        SectorSlice(bytes, l, start, end);
        var piece := CopyOut(tmp, start, end);
        buffer := buffer + piece;
        PartMore(bytes, at, Reached(l, at, goal), Reached(l + 1, at, goal));
        lba := lba + 1;
      }
      AtGoal(at, goal);
      ok := true;
    }

    /** The inner loop of a read. */
    method CopyOut(tmp: seq<Octet>, start: nat, end: nat) returns (piece: seq<Octet>)
      requires start <= end <= |tmp|
      ensures piece == tmp[start..end]
    {
      piece := [];
      var i := start;
      while i < end
        invariant start <= i <= end && piece == tmp[start..i]
      {
        piece := piece + [tmp[i]];
        i := i + 1;
      }
    }

    /** The inner loop of a write. */
    method CopyIn(sector: seq<Octet>, start: nat, end: nat, data: seq<Octet>, from: nat) returns (tmp: seq<Octet>)
      requires start <= end <= |sector| && from + (end - start) <= |data|
      ensures start + |data[from..from + (end - start)]| <= |sector|
      ensures tmp == Spliced(sector, start, data[from..from + (end - start)])
      ensures |tmp| == |sector|
    {
      hide *;
      tmp := sector;
      SpliceNothing(sector, start, data, from);
      var i := start;
      while i < end
        invariant start <= i <= end && |tmp| == |sector| && start + |data[from..from + (i - start)]| <= |sector|
        invariant tmp == Spliced(sector, start, data[from..from + (i - start)])
      {
        SpliceOne(sector, start, data, from, from + (i - start));
        tmp := tmp[i := data[from + (i - start)]];
        i := i + 1;
      }
    }

    /** Writes data, as far as the disk goes. With `preserve` the array is spliced; without, the
        rest of every sector touched gets whatever the buffer held, and no other sector changes. It
        reports a failure exactly when the data reach the end of the disk. */
    method Write(data: seq<Octet>, address: nat, preserve: bool, stale: seq<Octet>) returns (ok: bool)
      requires Valid() && |stale| == SECTOR
      modifies this
      ensures Valid() && |bytes| == |old(bytes)| == DISK_BYTES
      ensures ok <==> TurnedByte(address) + |data| < DISK_BYTES
      ensures var at := TurnedByte(address);
              var part := data[..Fits(at, |data|)];
              && Within(at) + |part| <= |bytes| && bytes[Within(at)..Within(at) + |part|] == part
              && (preserve ==> bytes == Spliced(old(bytes), Within(at), part))
              && Around(old(bytes), bytes, stale, at, at + |data|, preserve)
    {
      hide *;
      ghost var m := bytes;
      var startLba, endLba := Lba(address), Lba(address + |data|);
      ghost var at, first := TurnedByte(address), startLba - Turned(startLba);
      ghost var goal, w := at + |data|, Within(at);
      PeriodOf(address, |data|);
      ValidFacts();
      Bounds(m, at, goal);
      WrittenNone(m, w, data, preserve);
      AroundNone(m, stale, at, goal, preserve);
      var tmp := stale;
      var lba, index: nat := startLba, 0;
      while lba <= endLba
        invariant startLba <= lba <= endLba + 1 && Reachable(lba - first, at)
        invariant Valid() && |tmp| == SECTOR && Written(m, bytes, w, data, index, preserve)
        invariant at + index == Reached(lba - first, at, goal) && index <= |data|
        invariant AroundSoFar(m, bytes, tmp, stale, at, goal, lba - first, preserve)
        decreases endLba + 1 - lba
      {
        ghost var l := lba - first;
        AtEnd(l, at, goal);
        ReachedStep(l, at, goal);
        InPeriod(startLba, l, at);
        WrittenFacts(m, bytes, w, data, index, preserve);
        AroundEnd(m, bytes, tmp, stale, at, goal, l, preserve);
        ghost var held := tmp;
        if preserve {
          ok, tmp := ReadLba(lba);
          if !ok {
            return;
          }
        }
        var start, end := 0, SECTOR;
        if lba == startLba {
          start := Offset(address);
        }
        if lba == endLba {
          end := Offset(address + |data|);
        }
        ghost var before, was := bytes, tmp;
        tmp := CopyIn(tmp, start, end, data, index);
        ok := WriteLba(lba, tmp);
        if !ok {
          return;
        }
        AroundMore(m, before, held, was, tmp, stale, at, goal, l, data[index..index + (end - start)], preserve);
        WrittenMore(m, before, l, was, tmp, start, w, data, index, end - start, preserve);
        index := index + (end - start);
        lba := lba + 1;
      }
      AroundEnd(m, bytes, tmp, stale, at, goal, lba - first, preserve);
      AtGoal(at, goal);
      WrittenFacts(m, bytes, w, data, index, preserve);
      ok := true;
    }

    // ----- The disk of the file system -----

    /** The read function of the file system: the slice, also where the drive reports a failure,
        which nobody asks for. */
    method FatRead(offset: nat, size: nat) returns (data: seq<Octet>)
      requires Valid() && offset + size <= DISK_BYTES
      ensures |bytes| == DISK_BYTES && data == bytes[offset..offset + size]
    {
      var ok;
      ok, data := Read(offset, size);
    }

    /** The write function: the splice. */
    method FatWrite(data: seq<Octet>, offset: nat, stale: seq<Octet>)
      requires Valid() && offset + |data| <= DISK_BYTES && |stale| == SECTOR
      modifies this
      ensures Valid() && |old(bytes)| == DISK_BYTES && bytes == Spliced(old(bytes), offset, data)
    {
      assert data[..|data|] == data;
      var ok := Write(data, offset, true, stale);
    }
  }

  lemma SplicedPart(m: seq<Octet>, at: nat, d: seq<Octet>)
    requires at + |d| <= |m|
    ensures Spliced(m, at, d)[at..at + |d|] == d
  {
  }

  /** The first n bytes of the data are at the address. */
  predicate Placed(m: seq<Octet>, address: nat, data: seq<Octet>, n: nat) {
    n <= |data| && address + n <= |m| && m[address..address + n] == data[..n]
  }

  /** The disk m0 after n bytes of a write. */
  predicate Written(m0: seq<Octet>, m: seq<Octet>, w: nat, data: seq<Octet>, n: nat, preserve: bool) {
    && |m| == |m0| == DISK_BYTES && Placed(m, w, data, n)
    && (preserve ==> m == Spliced(m0, w, data[..n]))
  }

  /** The same bytes outside the range. */
  ghost predicate Kept(m0: seq<Octet>, m: seq<Octet>, from: nat, to: nat) {
    |m| == |m0| && forall x: nat | x < |m| && !(from <= x < to) :: m[x] == m0[x]
  }

  /** Writing a sector that the transfer touches. */
  lemma KeptSector(m0: seq<Octet>, m: seq<Octet>, l: nat, tmp: seq<Octet>, at: nat, goal: nat)
    requires Kept(m0, m, 512 * (at / 512), 512 * (goal / 512) + 512)
    requires Lba(at) <= l <= Lba(goal) && SectorStart(l) + |tmp| <= |m| && |tmp| == SECTOR
    ensures Kept(m0, Spliced(m, SectorStart(l), tmp), 512 * (at / 512), 512 * (goal / 512) + 512)
  {
  }

  // ----- What the buffer holds -----

  /** Before sector l the buffer holds what it held first, or else the sector written last. */
  ghost predicate Left(m: seq<Octet>, tmp: seq<Octet>, stale: seq<Octet>, at: nat, l: nat) {
    && |m| == DISK_BYTES && Lba(at) <= l
    && if l == Lba(at) then tmp == stale else l <= SECTORS && tmp == SectorOf(m, l - 1)
  }

  /** What the sectors below l that a transfer touches hold besides its data: in front of it what the
      buffer held first; behind it that, too, or what the sector before has there. */
  ghost predicate Stale(m: seq<Octet>, stale: seq<Octet>, at: nat, goal: nat, l: nat) {
    && |m| == DISK_BYTES && |stale| == 512
    && (l > Lba(at) ==> forall x: nat | 512 * Lba(at) <= x < at && x < |m| :: m[x] == stale[x % 512])
    && (l > Lba(goal) ==> forall x: nat | goal <= x < 512 * Lba(goal) + 512 && x < |m| :: HeldBehind(m, stale, at, goal, x))
  }

  ghost predicate HeldBehind(m: seq<Octet>, stale: seq<Octet>, at: nat, goal: nat, x: nat)
    requires |stale| == 512 && x < |m|
  {
    if Lba(goal) == Lba(at) then m[x] == stale[x % 512] else x >= 512 && m[x] == m[x - 512]
  }

  /** What a transfer does around its data: sectors that it does not touch stay, and without
      `preserve` the rest of those that it does holds what the buffer held. */
  ghost predicate Around(m0: seq<Octet>, m: seq<Octet>, stale: seq<Octet>, at: nat, goal: nat, preserve: bool) {
    && Kept(m0, m, 512 * (at / 512), 512 * (goal / 512) + 512)
    && (!preserve ==> Stale(m, stale, at, goal, Lba(goal) + 1))
  }

  ghost predicate AroundSoFar(m0: seq<Octet>, m: seq<Octet>, tmp: seq<Octet>, stale: seq<Octet>, at: nat, goal: nat, l: nat, preserve: bool) {
    && Kept(m0, m, 512 * (at / 512), 512 * (goal / 512) + 512)
    && (!preserve ==> Left(m, tmp, stale, at, l) && Stale(m, stale, at, goal, l))
  }

  lemma AroundNone(m: seq<Octet>, stale: seq<Octet>, at: nat, goal: nat, preserve: bool)
    requires |m| == DISK_BYTES && |stale| == SECTOR && at <= goal
    ensures AroundSoFar(m, m, stale, stale, at, goal, Lba(at), preserve)
  {
    hide Stale, Left;
    StaleNone(m, stale, at, goal);
  }

  /** Behind the last sector, or at the end of the disk. */
  lemma AroundEnd(m0: seq<Octet>, m: seq<Octet>, tmp: seq<Octet>, stale: seq<Octet>, at: nat, goal: nat, l: nat, preserve: bool)
    requires AroundSoFar(m0, m, tmp, stale, at, goal, l, preserve) && Lba(at) <= l
    ensures l > Lba(goal) || l >= SECTORS ==> Around(m0, m, stale, at, goal, preserve)
  {
    hide Left, Kept, HeldBehind;
    if !preserve && l >= SECTORS && l <= Lba(goal) {
      StaleEnd(m, stale, at, goal, l);
    }
  }

  lemma AroundMore(m0: seq<Octet>, m: seq<Octet>, held: seq<Octet>, was: seq<Octet>, tmp: seq<Octet>, stale: seq<Octet>, at: nat, goal: nat,
                   l: nat, d: seq<Octet>, preserve: bool)
    requires AroundSoFar(m0, m, held, stale, at, goal, l, preserve) && |was| == |tmp| == SECTOR && at <= goal
    requires (!preserve ==> was == held) && |m| == DISK_BYTES && Lba(at) <= l <= Lba(goal) && l < SECTORS
    requires First(l, at) + |d| == Limit(l, goal) <= SECTOR && tmp == Spliced(was, First(l, at), d)
    ensures SectorStart(l) + |tmp| <= |m|
    ensures AroundSoFar(m0, Spliced(m, SectorStart(l), tmp), tmp, stale, at, goal, l + 1, preserve)
  {
    hide Left, Kept, Stale, Spliced;
    SectorWritten(m, l, tmp);
    KeptSector(m0, m, l, tmp, at, goal);
    if !preserve {
      StaleMore(m, was, tmp, stale, at, goal, l, d);
    }
  }

  lemma StaleNone(m: seq<Octet>, stale: seq<Octet>, at: nat, goal: nat)
    requires |m| == DISK_BYTES && |stale| == SECTOR && at <= goal
    ensures Left(m, stale, stale, at, Lba(at)) && Stale(m, stale, at, goal, Lba(at))
  {
  }

  /** A transfer that comes to the end of the disk touches no sector more. */
  lemma StaleEnd(m: seq<Octet>, stale: seq<Octet>, at: nat, goal: nat, l: nat)
    requires Stale(m, stale, at, goal, l) && Lba(at) <= l <= Lba(goal) && l >= SECTORS
    ensures Stale(m, stale, at, goal, Lba(goal) + 1)
  {
    hide HeldBehind;
  }

  /** The bytes of the disk after a sector was written. */
  lemma SectorWritten(m: seq<Octet>, l: nat, tmp: seq<Octet>)
    requires |m| == DISK_BYTES && l < SECTORS && |tmp| == SECTOR
    ensures SectorStart(l) == 512 * l && 512 * l + 512 <= |m|
    ensures var m2 := Spliced(m, SectorStart(l), tmp);
            && |m2| == |m| && SectorOf(m2, l) == tmp
            && (forall x: nat | 512 * l <= x < 512 * l + 512 :: m2[x] == tmp[x - 512 * l])
            && (forall x: nat | x < 512 * l :: m2[x] == m[x])
  {
    SplicedPart(m, SectorStart(l), tmp);
  }

  /** What the transfer leaves of the buffer. */
  lemma BufferKept(was: seq<Octet>, first: nat, d: seq<Octet>, r: nat)
    requires first + |d| <= |was| && r < |was| && (r < first || first + |d| <= r)
    ensures Spliced(was, first, d)[r] == was[r]
  {
  }

  /** One more sector. */
  lemma StaleMore(m: seq<Octet>, was: seq<Octet>, tmp: seq<Octet>, stale: seq<Octet>, at: nat, goal: nat, l: nat, d: seq<Octet>)
    requires Left(m, was, stale, at, l) && Stale(m, stale, at, goal, l) && |was| == |tmp| == SECTOR && at <= goal
    requires Lba(at) <= l <= Lba(goal) && l < SECTORS
    requires First(l, at) + |d| == Limit(l, goal) <= SECTOR && tmp == Spliced(was, First(l, at), d)
    ensures SectorStart(l) + |tmp| <= |m|
    ensures Left(Spliced(m, SectorStart(l), tmp), tmp, stale, at, l + 1)
    ensures Stale(Spliced(m, SectorStart(l), tmp), stale, at, goal, l + 1)
  {
    SectorWritten(m, l, tmp);
    hide Spliced, SectorStart;
    var m2 := Spliced(m, SectorStart(l), tmp);
    forall x: nat | 512 * Lba(at) <= x < at && x < |m2|
      ensures m2[x] == stale[x % 512]
    {
      if l == Lba(at) {
        FrontHeld(m2, was, tmp, stale, at, l, d, x);
      }
    }
    forall x: nat | l == Lba(goal) && goal <= x < 512 * Lba(goal) + 512 && x < |m2|
      ensures HeldBehind(m2, stale, at, goal, x)
    {
      BackHeld(m, m2, was, tmp, stale, at, goal, l, d, x);
    }
  }

  lemma FrontHeld(m2: seq<Octet>, was: seq<Octet>, tmp: seq<Octet>, stale: seq<Octet>, at: nat, l: nat, d: seq<Octet>, x: nat)
    requires l == Lba(at) && was == stale && |was| == SECTOR && 512 * l <= x < at && x < |m2|
    requires First(l, at) + |d| <= SECTOR && tmp == Spliced(was, First(l, at), d)
    requires forall x: nat | 512 * l <= x < 512 * l + 512 && x < |m2| :: m2[x] == tmp[x - 512 * l]
    ensures m2[x] == stale[x % 512]
  {
    hide Spliced;
    var r := x - 512 * l;
    assert r < Offset(at) == at - 512 * l && x % 512 == r;
    BufferKept(was, First(l, at), d, r);
  }

  lemma BackHeld(m: seq<Octet>, m2: seq<Octet>, was: seq<Octet>, tmp: seq<Octet>, stale: seq<Octet>, at: nat, goal: nat, l: nat,
                 d: seq<Octet>, x: nat)
    requires Left(m, was, stale, at, l) && |was| == |stale| == SECTOR && |m2| == |m| && l == Lba(goal) && l < SECTORS
    requires goal <= x < 512 * l + 512 && x < |m2|
    requires First(l, at) + |d| == Limit(l, goal) && tmp == Spliced(was, First(l, at), d)
    requires forall x: nat | 512 * l <= x < 512 * l + 512 && x < |m2| :: m2[x] == tmp[x - 512 * l]
    requires forall x: nat | x < 512 * l && x < |m2| :: m2[x] == m[x]
    ensures HeldBehind(m2, stale, at, goal, x)
  {
    hide Spliced;
    var r := x - 512 * l;
    assert Offset(goal) == goal - 512 * l && x % 512 == r;
    BufferKept(was, First(l, at), d, r);
    if l != Lba(at) {
      assert was[r] == m[512 * (l - 1) + r];
    }
  }

  lemma WrittenNone(m: seq<Octet>, w: nat, data: seq<Octet>, preserve: bool)
    requires |m| == DISK_BYTES && w <= |m|
    ensures Written(m, m, w, data, 0, preserve)
  {
    SpliceNothing(m, w, data, 0);
  }

  lemma WrittenFacts(m0: seq<Octet>, m: seq<Octet>, w: nat, data: seq<Octet>, n: nat, preserve: bool)
    requires Written(m0, m, w, data, n, preserve)
    ensures |m| == |m0| == DISK_BYTES && n <= |data| && w + n <= |m| && |data[..n]| == n
    ensures m[w..w + n] == data[..n] && (preserve ==> m == Spliced(m0, w, data[..n]))
  {
  }

  /** One more sector of a write. */
  lemma WrittenMore(m0: seq<Octet>, m: seq<Octet>, l: nat, was: seq<Octet>, tmp: seq<Octet>, start: nat, w: nat, data: seq<Octet>,
                    n: nat, k: nat, preserve: bool)
    requires Written(m0, m, w, data, n, preserve) && l < SECTORS && |was| == |tmp| == SECTOR
    requires start + k <= SECTOR && n + k <= |data| && SectorStart(l) + start == w + n && (n > 0 ==> start == 0)
    requires tmp == Spliced(was, start, data[n..n + k]) && (preserve ==> was == SectorOf(m, l))
    ensures SectorStart(l) + |tmp| <= |m|
    ensures Written(m0, Spliced(m, SectorStart(l), tmp), w, data, n + k, preserve)
  {
    hide Spliced, SectorOf;
    SplicedPart(was, start, data[n..n + k]);
    PlacedMore(m, SectorStart(l), tmp, start, w, data, n, k);
    if preserve {
      SectorSpliced(m, l, start, data[n..n + k]);
      SpliceOn(m0, w, data, n, n + k);
    }
  }

  lemma PlacedMore(m: seq<Octet>, at: nat, sector: seq<Octet>, start: nat, address: nat, data: seq<Octet>, n: nat, k: nat)
    requires Placed(m, address, data, n) && at + |sector| <= |m| && start + k <= |sector| && n + k <= |data|
    requires at + start == address + n && (n > 0 ==> start == 0) && sector[start..start + k] == data[n..n + k]
    ensures Placed(Spliced(m, at, sector), address, data, n + k)
  {
    var r := Spliced(m, at, sector);
    assert r[address..address + n] == m[address..address + n];
    assert r[address + n..address + n + k] == sector[start..start + k];
    assert r[address..address + n + k] == r[address..address + n] + r[address + n..address + n + k];
    assert data[..n + k] == data[..n] + data[n..n + k];
  }

  lemma SpliceNothing(m: seq<Octet>, at: nat, d: seq<Octet>, from: nat)
    requires at <= |m| && from <= |d|
    ensures |d[from..from]| == 0 && |d[..0]| == 0
    ensures Spliced(m, at, d[from..from]) == m && Spliced(m, at, d[..0]) == m
  {
  }

  /** One byte more of the data in the sector. */
  lemma SpliceOne(m: seq<Octet>, at: nat, data: seq<Octet>, a: nat, b: nat)
    requires a <= b < |data| && at + (b - a) < |m|
    ensures at + |data[a..b]| <= |m| && at + |data[a..b + 1]| <= |m|
    ensures Spliced(m, at, data[a..b])[at + (b - a) := data[b]] == Spliced(m, at, data[a..b + 1])
  {
    assert data[a..b + 1] == data[a..b] + [data[b]];
  }
}
