/**
  `File::readEntry`: walking a directory's cluster chain 32 bytes at a time
  and decoding the next live directory entry. A slot whose first byte is
  0x00 or 0xE5 is skipped: 0x00 is not treated as the end of the directory.
*/
module DirectoryScanner {
  import opened Words
  import opened BlockDevice
  import opened VolumeGeometry
  import opened FatTable
  import opened Files
  import opened NameCodec

  // Offsets inside a 32-byte directory entry.
  const AttrOffset: nat := 0x0B
  const ClusterHighOffset: nat := 0x14
  const ClusterLowOffset: nat := 0x1A
  const SizeOffset: nat := 0x1C

  /** Marker bytes of a slot that holds no entry. */
  predicate FreeMarker(b: byte)
  {
    b == 0x00 || b == 0xE5
  }

  /** `(high << 16) | low` for two 16-bit halves. */
  function JoinCluster(high: u32, low: u32): (r: u32)
    requires high < 0x1_0000 && low < 0x1_0000
    ensures r % 0x1_0000 == low && r / 0x1_0000 == high
  {
    high * 0x1_0000 + low
  }

  /**
    The entry at byte `i` of a directory sector: its 8.3 name, attribute
    byte, first cluster from the two 16-bit halves, size, and a pointer
    reset to the first cluster.
  */
  function DecodeEntry(buf: Sector, i: nat): (f: File)
    requires i + EntrySize <= SectorSize
    ensures f.pos == Cursor(f.baseCluster, 0, 0)
  {
    var high := MemGet(buf, Word, i + ClusterHighOffset);
    var low := MemGet(buf, Word, i + ClusterLowOffset);
    var cluster := JoinCluster(high, low);
    Reset(File(NameFrom83(Chars(buf[i..i + FieldLength])), MemGet(buf, Byte, i + AttrOffset),
               cluster, MemGet(buf, Dword, i + SizeOffset), Cursor(0, 0, 0)))
  }

  /**
    The fields of a decoded entry, against the on-disk layout: the name from
    the 11 name bytes, the attribute byte, the first cluster from its
    little-endian high and low halves, the little-endian size.
  */
  lemma DecodeEntryFields(buf: Sector, i: nat)
    requires i + EntrySize <= SectorSize
    ensures var f := DecodeEntry(buf, i);
      && f.name == NameFrom83(Chars(buf[i..i + FieldLength]))
      && f.attr == buf[i + AttrOffset]
      && f.baseCluster
         == LeValue(buf[i + ClusterLowOffset..i + ClusterLowOffset + 2])
          + 0x1_0000 * LeValue(buf[i + ClusterHighOffset..i + ClusterHighOffset + 2])
      && f.size == LeValue(buf[i + SizeOffset..i + SizeOffset + 4])
  {
    MemGetIsLeValue(buf, Word, i + ClusterHighOffset);
    MemGetIsLeValue(buf, Word, i + ClusterLowOffset);
    MemGetIsLeValue(buf, Dword, i + SizeOffset);
  }

  /** The pointer stands at a slot boundary. */
  predicate SlotAligned(c: Cursor)
  {
    c.i <= SectorSize - EntrySize && c.i % EntrySize == 0
  }

  /** The slot under the pointer, when its sector can be read. */
  predicate Readable(g: Geometry, d: Disk, c: Cursor)
  {
    Tell(g, c) in d.sectors
  }

  /** The slot under the pointer holds a live entry. */
  predicate LiveAt(g: Geometry, d: Disk, c: Cursor)
    requires SlotAligned(c)
  {
    Readable(g, d, c) && !FreeMarker(d.sectors[Tell(g, c)][c.i])
  }

  /** Moving one slot forward keeps the pointer on a slot boundary. */
  lemma SeekSlotAligned(g: Geometry, d: Disk, c: Cursor)
    requires SlotAligned(c)
    ensures SlotAligned(Seek(g, d, c, EntrySize as u32).pos)
  {
  }

  datatype Scan =
    | Scanned(code: Result, dir: File, entry: Option<File>)
    | ScanOutOfFuel

  /** Where the search for a live slot ends, and the pointer it leaves. */
  datatype Slot =
    | SlotFound(at: Cursor)
    | SlotUnreadable(at: Cursor)
    | SlotsEnded(at: Cursor)
    | SlotsOutOfFuel

  /**
    The skipping part of `readEntry`, allowed `fuel` skipped slots: stop at
    a sector that cannot be read or at a live slot; pass a free slot with
    `seek(32)`, ending when that seek reports the end of the chain.
  */
  function NextSlot(g: Geometry, d: Disk, c: Cursor, fuel: nat): (r: Slot)
    requires SlotAligned(c)
    ensures !r.SlotsOutOfFuel? ==> SlotAligned(r.at)
    ensures r.SlotFound? ==> LiveAt(g, d, r.at)
    ensures r.SlotUnreadable? ==> !Readable(g, d, r.at)
    decreases fuel
  {
    SeekSlotAligned(g, d, c);
    if !Readable(g, d, c) then SlotUnreadable(c)
    else if !FreeMarker(d.sectors[Tell(g, c)][c.i]) then SlotFound(c)
    else
      var step := Seek(g, d, c, EntrySize as u32);
      if step.stop then SlotsEnded(step.pos)
      else if fuel == 0 then SlotsOutOfFuel
      else NextSlot(g, d, step.pos, fuel - 1)
  }

  /**
    The loop of `readEntry`. A read failure gives `ERR_READ`; a free slot is
    skipped with `seek(32)`, and `INF_STOP` is returned when that seek
    reports the end of the chain; a live slot is decoded and followed by
    `seek(32)`, giving `INF_LAST` when that seek reports the end and
    `INF_SUCCESS` otherwise.
  */
  function ScanFrom(g: Geometry, d: Disk, dir: File, fuel: nat): (r: Scan)
    requires SlotAligned(dir.pos)
    ensures r.Scanned? ==> r.dir.(pos := dir.pos) == dir && SlotAligned(r.dir.pos)
    ensures r.Scanned? ==> (r.entry.Some? <==> r.code == InfSuccess || r.code == InfLast)
    ensures r.Scanned? ==> r.code != ErrNotDir
    ensures r.Scanned? && r.entry.Some? ==> r.entry.value.pos == Cursor(r.entry.value.baseCluster, 0, 0)
  {
    match NextSlot(g, d, dir.pos, fuel)
    case SlotsOutOfFuel => ScanOutOfFuel
    case SlotUnreadable(c) => Scanned(ErrRead, dir.(pos := c), None)
    case SlotsEnded(c) => Scanned(InfStop, dir.(pos := c), None)
    case SlotFound(c) =>
      SeekSlotAligned(g, d, c);
      var step := Seek(g, d, c, EntrySize as u32);
      var entry := DecodeEntry(d.sectors[Tell(g, c)], c.i);
      Scanned(if step.stop then InfLast else InfSuccess, dir.(pos := step.pos), Some(entry))
  }

  /**
    `readEntry(file)`: a directory whose first cluster is 0 (the `..` entry
    of a directory inside the root) is first pointed at the root cluster and
    reset; then the scan runs.
  */
  function ReadEntry(g: Geometry, d: Disk, dir: File, fuel: nat): (r: Scan)
    requires dir.baseCluster == 0 || SlotAligned(dir.pos)
    ensures dir.baseCluster == 0 && r.Scanned? ==>
      r.dir.baseCluster == g.rootCluster && r.dir.name == dir.name && r.dir.attr == dir.attr
    ensures dir.baseCluster != 0 && r.Scanned? ==> r.dir.(pos := dir.pos) == dir
    ensures r.Scanned? ==> SlotAligned(r.dir.pos)
    ensures r.Scanned? && r.entry.Some? ==> r.entry.value.pos == Cursor(r.entry.value.baseCluster, 0, 0)
  {
    ScanFrom(g, d, FromRoot(g, dir), fuel)
  }

  /** The directory `readEntry` actually walks: a first cluster of 0 stands
      for the root directory, rewound. The branch-by-branch ensures are what
      ReadEntry's contract and the scan lemmas rely on. */
  function FromRoot(g: Geometry, dir: File): (r: File)
    requires dir.baseCluster == 0 || SlotAligned(dir.pos)
    ensures SlotAligned(r.pos)
    ensures dir.baseCluster == 0 ==> r == Reset(dir.(baseCluster := g.rootCluster))
    ensures dir.baseCluster != 0 ==> r == dir
  {
    if dir.baseCluster == 0 then Reset(dir.(baseCluster := g.rootCluster)) else dir
  }

  /** How a directory listing ends. */
  datatype ListEnd = Exhausted | Unreadable | ListOutOfFuel

  /** The entries of a directory in the order `readEntry` yields them, and how the listing ends. */
  datatype Listing = Listing(entries: seq<File>, end: ListEnd)

  /** `readEntry` as a function of the directory and the fuel bound. */
  type Reader = (File, nat) -> Scan

  /**
    `readEntry` on a given volume. Every directory the library hands out has
    its pointer at the start of a slot; one that does not reads as a read
    error.
  */
  function Reads(g: Geometry, d: Disk): Reader
  {
    (dir: File, fuel: nat) =>
      if dir.baseCluster == 0 || SlotAligned(dir.pos) then ReadEntry(g, d, dir, fuel) else Scanned(ErrRead, dir, None)
  }

  /**
    The listing of `dir`: the entries successive `readEntry` calls return,
    up to and including the one that comes with `INF_LAST`, or none more
    after `INF_STOP`. A read error ends the listing as `Unreadable`; `fuel`
    bounds both the calls and the slots each may skip, so a listing never
    holds more than `fuel + 1` entries.
  */
  function List(read: Reader, dir: File, fuel: nat): (r: Listing)
    ensures |r.entries| <= fuel + 1
    decreases fuel, 1
  {
    ListScan(read, read(dir, fuel), fuel)
  }

  /** The listing that continues from one result of `readEntry`. */
  function ListScan(read: Reader, scan: Scan, fuel: nat): (r: Listing)
    ensures |r.entries| <= fuel + 1
    decreases fuel, 0
  {
    match scan
    case ScanOutOfFuel => Listing([], ListOutOfFuel)
    case Scanned(code, dir', entry) =>
      if code == ErrRead then Listing([], Unreadable)
      else if code == InfStop || entry.None? then Listing([], Exhausted)
      else if code == InfLast then Listing([entry.value], Exhausted)
      else if fuel == 0 then Listing([entry.value], ListOutOfFuel)
      else
        var rest := List(read, dir', fuel - 1);
        Listing([entry.value] + rest.entries, rest.end)
  }

  /** The slot under the pointer can be read and is marked free. */
  predicate FreeAt(g: Geometry, d: Disk, c: Cursor)
    requires SlotAligned(c)
  {
    Readable(g, d, c) && FreeMarker(d.sectors[Tell(g, c)][c.i])
  }

  /**
    The pointer after `k` moves of one slot from `c`; a move that reports
    the end of the chain ends the walk there.
  */
  function SlotWalk(g: Geometry, d: Disk, c: Cursor, k: nat): (r: Step)
    requires SlotAligned(c)
    ensures SlotAligned(r.pos)
    decreases k
  {
    SeekSlotAligned(g, d, c);
    if k == 0 then Step(false, c)
    else
      var step := Seek(g, d, c, EntrySize as u32);
      if step.stop then step else SlotWalk(g, d, step.pos, k - 1)
  }

  /**
    Seen from `c`, the slot `k` moves ahead is the next live entry: it is
    reached without the chain ending and is live, and each of the `k` slots
    before it is readable and free.
  */
  predicate NextLiveAt(g: Geometry, d: Disk, c: Cursor, k: nat)
    requires SlotAligned(c)
  {
    && !SlotWalk(g, d, c, k).stop && LiveAt(g, d, SlotWalk(g, d, c, k).pos)
    && forall j :: 0 <= j < k ==> !SlotWalk(g, d, c, j).stop && FreeAt(g, d, SlotWalk(g, d, c, j).pos)
  }

  /**
    Every entry the scan returns is the next entry of the directory: it was
    decoded from the first live slot at or after the pointer, every slot
    passed over on the way being readable and free.
  */
  lemma ScannedEntryIsLive(g: Geometry, d: Disk, dir: File, fuel: nat)
    requires SlotAligned(dir.pos)
    ensures var r := ScanFrom(g, d, dir, fuel);
      r.Scanned? && r.entry.Some? ==>
        exists k: nat :: k <= fuel && NextLiveAt(g, d, dir.pos, k) &&
          var p := SlotWalk(g, d, dir.pos, k).pos;
          r.entry.value == DecodeEntry(d.sectors[Tell(g, p)], p.i)
  {
    var r := ScanFrom(g, d, dir, fuel);
    if r.Scanned? && r.entry.Some? {
      var p, k := ScannedSlot(g, d, dir, fuel);
    }
  }

  /**
    The slot a returned entry was decoded from, `k` moves after the
    pointer; the scan leaves the pointer one slot past it and reports
    `INF_LAST` exactly when that last move ends the chain.
  */
  lemma ScannedSlot(g: Geometry, d: Disk, dir: File, fuel: nat) returns (p: Cursor, k: nat)
    requires SlotAligned(dir.pos)
    requires ScanFrom(g, d, dir, fuel).Scanned? && ScanFrom(g, d, dir, fuel).entry.Some?
    ensures k <= fuel && NextLiveAt(g, d, dir.pos, k) && p == SlotWalk(g, d, dir.pos, k).pos
    ensures var r := ScanFrom(g, d, dir, fuel);
      var step := Seek(g, d, p, EntrySize as u32);
      && r.entry.value == DecodeEntry(d.sectors[Tell(g, p)], p.i)
      && r.dir.pos == step.pos
      && (r.code == InfLast <==> step.stop)
  {
    p := NextSlot(g, d, dir.pos, fuel).at;
    k := FoundAfterFreeSlots(g, d, dir.pos, fuel);
  }

  /** A live slot found after passing `k` slots is the next live entry, `k` moves ahead. */
  lemma {:induction false} FoundAfterFreeSlots(g: Geometry, d: Disk, c: Cursor, fuel: nat) returns (k: nat)
    requires SlotAligned(c) && NextSlot(g, d, c, fuel).SlotFound?
    ensures k <= fuel && NextLiveAt(g, d, c, k)
    ensures NextSlot(g, d, c, fuel).at == SlotWalk(g, d, c, k).pos
    decreases fuel
  {
    if LiveAt(g, d, c) {
      k := 0;
      NextLiveHere(g, d, c);
    } else {
      SeekSlotAligned(g, d, c);
      var step := Seek(g, d, c, EntrySize as u32);
      var k' := FoundAfterFreeSlots(g, d, step.pos, fuel - 1);
      k := k' + 1;
      NextLiveAfterFree(g, d, c, k');
    }
  }

  /**
    Conversely, the search stops at the next live entry: when it lies `k`
    moves ahead and the fuel covers the `k` skipped slots, it is found.
  */
  lemma {:induction false} NextLiveIsFound(g: Geometry, d: Disk, c: Cursor, k: nat, fuel: nat)
    requires SlotAligned(c) && NextLiveAt(g, d, c, k) && k <= fuel
    ensures NextSlot(g, d, c, fuel) == SlotFound(SlotWalk(g, d, c, k).pos)
    decreases k
  {
    if k > 0 {
      assert !SlotWalk(g, d, c, 0).stop && FreeAt(g, d, SlotWalk(g, d, c, 0).pos);
      SeekSlotAligned(g, d, c);
      var next := Seek(g, d, c, EntrySize as u32).pos;
      NextLiveBehindFree(g, d, c, k - 1);
      NextLiveIsFound(g, d, next, k - 1, fuel - 1);
    }
  }

  /** A live slot under the pointer is the next live entry, zero moves ahead. */
  lemma NextLiveHere(g: Geometry, d: Disk, c: Cursor)
    requires SlotAligned(c) && LiveAt(g, d, c)
    ensures NextLiveAt(g, d, c, 0) && SlotWalk(g, d, c, 0).pos == c
  {
  }

  /** The next live entry behind a free slot is the next live entry seen from the following slot. */
  lemma NextLiveBehindFree(g: Geometry, d: Disk, c: Cursor, k: nat)
    requires SlotAligned(c) && NextLiveAt(g, d, c, k + 1)
    requires SlotAligned(Seek(g, d, c, EntrySize as u32).pos)
    ensures !Seek(g, d, c, EntrySize as u32).stop
    ensures NextLiveAt(g, d, Seek(g, d, c, EntrySize as u32).pos, k)
    ensures SlotWalk(g, d, c, k + 1) == SlotWalk(g, d, Seek(g, d, c, EntrySize as u32).pos, k)
  {
    var next := Seek(g, d, c, EntrySize as u32).pos;
    assert !SlotWalk(g, d, c, 1).stop;
    forall j | 0 <= j < k
      ensures !SlotWalk(g, d, next, j).stop && FreeAt(g, d, SlotWalk(g, d, next, j).pos)
    {
      assert SlotWalk(g, d, c, j + 1) == SlotWalk(g, d, next, j);
    }
  }

  /** A free slot in front of the next live entry puts that entry one move further. */
  lemma NextLiveAfterFree(g: Geometry, d: Disk, c: Cursor, k: nat)
    requires SlotAligned(c) && FreeAt(g, d, c)
    requires SlotAligned(Seek(g, d, c, EntrySize as u32).pos)
    requires !Seek(g, d, c, EntrySize as u32).stop
    requires NextLiveAt(g, d, Seek(g, d, c, EntrySize as u32).pos, k)
    ensures NextLiveAt(g, d, c, k + 1)
    ensures SlotWalk(g, d, c, k + 1) == SlotWalk(g, d, Seek(g, d, c, EntrySize as u32).pos, k)
  {
    var next := Seek(g, d, c, EntrySize as u32).pos;
    forall j | 0 <= j < k + 1
      ensures !SlotWalk(g, d, c, j).stop && FreeAt(g, d, SlotWalk(g, d, c, j).pos)
    {
      if j > 0 {
        assert SlotWalk(g, d, c, j) == SlotWalk(g, d, next, j - 1);
      }
    }
  }

  /** An unreadable sector under the pointer: `ERR_READ` and the pointer stays. */
  lemma ReadFailureKeepsPointer(g: Geometry, d: Disk, dir: File, fuel: nat)
    requires SlotAligned(dir.pos) && !Readable(g, d, dir.pos)
    ensures ScanFrom(g, d, dir, fuel) == Scanned(ErrRead, dir, None)
  {
  }

  /** A live slot under the pointer is the entry returned, whatever the fuel. */
  lemma LiveSlotReturned(g: Geometry, d: Disk, dir: File, fuel: nat)
    requires SlotAligned(dir.pos) && LiveAt(g, d, dir.pos)
    ensures var r := ScanFrom(g, d, dir, fuel);
      var step := Seek(g, d, dir.pos, EntrySize as u32);
      && r.Scanned?
      && r.entry == Some(DecodeEntry(d.sectors[Tell(g, dir.pos)], dir.pos.i))
      && r.dir.pos == step.pos
      && (r.code == InfLast <==> step.stop)
  {
  }

  /**
    A free slot (marker 0x00 or 0xE5) is passed over: unless moving past it
    ends the chain, the scan continues from the next slot. In particular a
    0x00 marker does not end the directory.
  */
  lemma FreeSlotSkipped(g: Geometry, d: Disk, dir: File, fuel: nat)
    requires SlotAligned(dir.pos) && Readable(g, d, dir.pos)
    requires FreeMarker(d.sectors[Tell(g, dir.pos)][dir.pos.i])
    ensures var step := Seek(g, d, dir.pos, EntrySize as u32);
      && SlotAligned(step.pos)
      && (step.stop ==> ScanFrom(g, d, dir, fuel + 1) == Scanned(InfStop, dir.(pos := step.pos), None))
      && (!step.stop ==> ScanFrom(g, d, dir, fuel + 1) == ScanFrom(g, d, dir.(pos := step.pos), fuel))
  {
    SeekSlotAligned(g, d, dir.pos);
  }

  /**
    A sector whose first slot is marked 0x00 and whose second slot is live:
    the scan returns the second slot's entry.
  */
  lemma ZeroMarkerDoesNotEndDirectory(g: Geometry, d: Disk, dir: File, fuel: nat)
    requires dir.pos.i == 0 && dir.pos.sector + 1 < g.sizeCluster
    requires Readable(g, d, dir.pos)
    requires d.sectors[Tell(g, dir.pos)][0] == 0x00
    requires !FreeMarker(d.sectors[Tell(g, dir.pos)][EntrySize])
    ensures var r := ScanFrom(g, d, dir, fuel + 1);
      r.Scanned? && r.entry == Some(DecodeEntry(d.sectors[Tell(g, dir.pos)], EntrySize))
  {
    var next := dir.(pos := Cursor(dir.pos.cluster, dir.pos.sector, EntrySize as u32));
    assert Seek(g, d, dir.pos, EntrySize as u32) == Step(false, next.pos);
    assert Tell(g, next.pos) == Tell(g, dir.pos);
    FreeSlotSkipped(g, d, dir, fuel);
    LiveSlotReturned(g, d, next, fuel);
  }
}
