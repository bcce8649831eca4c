/**
  `File::read`: copying bytes from the file's cluster chain, one sector at
  a time. Each chunk is the rest of the current sector or the rest of the
  request, whichever is smaller; the pointer moves only between chunks, so
  it stays at the start of the last chunk.

  The source copies each chunk from the start of the sector buffer rather
  than from the pointer's byte offset. `Read` models that; `ReadFixed`
  copies from the byte offset, and the two agree whenever the pointer
  starts on a sector boundary.
*/
module FileRead {
  import opened Words
  import opened BlockDevice
  import opened VolumeGeometry
  import opened FatTable
  import opened Files

  /** What `read` leaves behind: the result code, the bytes written to `dest`, the pointer. */
  datatype ReadOutcome = ReadOutcome(code: Result, data: seq<byte>, pos: Cursor)

  /**
    The unsigned `512 - i` the source takes as the room left in the sector:
    exact for an offset inside the sector, and wrapped past 512 for an
    offset beyond it.
  */
  function Room(i: u32): (r: u32)
    ensures i <= SectorSize ==> r == SectorSize - i
    ensures i > SectorSize ==> r > SectorSize
  {
    Sub32(SectorSize, i)
  }

  /**
    The loop of `read`. `fromPointer` selects where each chunk is copied
    from: the sector start (`false`, as the source does) or the pointer's
    byte offset (`true`). An offset past the sector's end, which `seek` can
    leave behind, makes the room wrap to a huge value; the source then
    copies all `bytes` at once, which stays inside the sector buffer only
    for a request of at most 512 bytes.
  */
  function ReadLoop(g: Geometry, d: Disk, c: Cursor, bytes: u32, fromPointer: bool): (r: ReadOutcome)
    requires c.i <= SectorSize || (!fromPointer && bytes <= SectorSize)
    ensures r.code == InfSuccess || r.code == ErrRead
    ensures r.code == InfSuccess ==> |r.data| == bytes
    ensures |r.data| <= bytes
    decreases bytes, if c.i == SectorSize then 1 else 0
  {
    var sector := Tell(g, c);
    if sector !in d.sectors then ReadOutcome(ErrRead, [], c)
    else
      var buf := d.sectors[sector];
      var room := Room(c.i);
      var avail := if bytes < room then bytes else room;
      var chunk := if fromPointer then buf[c.i..c.i + avail] else buf[..avail];
      if bytes - avail == 0 then ReadOutcome(InfSuccess, chunk, c)
      else
        var step := Seek(g, d, c, avail as u32);
        if step.stop then ReadOutcome(ErrRead, chunk, step.pos)
        else
          var rest := ReadLoop(g, d, step.pos, (bytes - avail) as u32, fromPointer);
          ReadOutcome(rest.code, chunk + rest.data, rest.pos)
  }

  /** `read(dest, bytes)` as the source writes it. */
  function Read(g: Geometry, d: Disk, c: Cursor, bytes: u32): (r: ReadOutcome)
    requires c.i <= SectorSize || bytes <= SectorSize
    ensures r.code == InfSuccess || r.code == ErrRead
    ensures r.code == InfSuccess ==> |r.data| == bytes
  {
    ReadLoop(g, d, c, bytes, false)
  }

  /** `read(dest, bytes)` copying from the pointer's byte offset. */
  function ReadFixed(g: Geometry, d: Disk, c: Cursor, bytes: u32): (r: ReadOutcome)
    requires c.i <= SectorSize
    ensures r.code == InfSuccess || r.code == ErrRead
    ensures r.code == InfSuccess ==> |r.data| == bytes
  {
    ReadLoop(g, d, c, bytes, true)
  }

  /**
    A request that fits in the current sector: it succeeds exactly when the
    sector can be read, returns the bytes at the pointer, and leaves the
    pointer where it was.
  */
  lemma ReadFixedWithinSector(g: Geometry, d: Disk, c: Cursor, bytes: u32)
    requires c.i + bytes <= SectorSize
    ensures var r := ReadFixed(g, d, c, bytes);
      && (r.code == InfSuccess <==> Tell(g, c) in d.sectors)
      && (r.code == InfSuccess ==> r.data == d.sectors[Tell(g, c)][c.i..c.i + bytes])
      && r.pos == c
  {
  }

  /** The same request as the source serves it: the first `bytes` bytes of the sector. */
  lemma ReadWithinSector(g: Geometry, d: Disk, c: Cursor, bytes: u32)
    requires c.i + bytes <= SectorSize
    ensures var r := Read(g, d, c, bytes);
      && (r.code == InfSuccess <==> Tell(g, c) in d.sectors)
      && (r.code == InfSuccess ==> r.data == d.sectors[Tell(g, c)][..bytes])
      && r.pos == c
  {
  }

  /**
    A pointer whose byte offset is past the sector's end: the wrapped room
    exceeds any request of at most 512 bytes, so the whole request is
    served from the start of the sector and the pointer stays put.
  */
  lemma ReadPastSectorEnd(g: Geometry, d: Disk, c: Cursor, bytes: u32)
    requires c.i > SectorSize && bytes <= SectorSize
    ensures var r := Read(g, d, c, bytes);
      && (r.code == InfSuccess <==> Tell(g, c) in d.sectors)
      && (r.code == InfSuccess ==> r.data == d.sectors[Tell(g, c)][..bytes])
      && r.pos == c
  {
  }

  /**
    Counterexample: a pointer 32 bytes into a sector whose bytes 0 and 32
    differ; reading one byte gives byte 0, not byte 32.
  */
  lemma ReadCopiesFromSectorStart(g: Geometry, d: Disk, c: Cursor)
    requires c.i == 32 && Tell(g, c) in d.sectors
    requires d.sectors[Tell(g, c)][0] != d.sectors[Tell(g, c)][32]
    ensures Read(g, d, c, 1).data == [d.sectors[Tell(g, c)][0]]
    ensures ReadFixed(g, d, c, 1).data == [d.sectors[Tell(g, c)][32]]
    ensures Read(g, d, c, 1) != ReadFixed(g, d, c, 1)
  {
    ReadWithinSector(g, d, c, 1);
    ReadFixedWithinSector(g, d, c, 1);
  }

  /** From a sector boundary the two variants coincide: every chunk starts at byte 0. */
  lemma {:induction false} AgreeFromSectorStart(g: Geometry, d: Disk, c: Cursor, bytes: u32)
    requires c.i == 0
    ensures Read(g, d, c, bytes) == ReadFixed(g, d, c, bytes)
    decreases bytes
  {
    var sector := Tell(g, c);
    if sector in d.sectors && bytes > SectorSize {
      var step := Seek(g, d, c, SectorSize as u32);
      if !step.stop {
        assert step.pos.i == 0;
        AgreeFromSectorStart(g, d, step.pos, (bytes - SectorSize) as u32);
      }
    }
  }

  /** Repeated reads that fit in the current sector return the same bytes: the pointer does not move. */
  lemma ReadDoesNotAdvanceWithinSector(g: Geometry, d: Disk, c: Cursor, bytes: u32)
    requires c.i + bytes <= SectorSize
    ensures var r := ReadFixed(g, d, c, bytes);
      ReadFixed(g, d, r.pos, bytes) == r
  {
    ReadFixedWithinSector(g, d, c, bytes);
  }

  // ---------------------------------------------------------------------------
  // Whole sectors along the chain.

  /** Every one of the first `k` positions of the sector walk from `c` is readable. */
  predicate WalkReadable(g: Geometry, d: Disk, c: Cursor, k: nat)
  {
    forall j :: 0 <= j < k ==> !Walk(g, d, c, j).stop && Tell(g, Walk(g, d, c, j).pos) in d.sectors
  }

  /** Reference: the `k` sectors the walk from `c` passes through, in order. */
  function WalkedSectors(g: Geometry, d: Disk, c: Cursor, k: nat): (r: seq<byte>)
    requires WalkReadable(g, d, c, k)
    ensures |r| == k * SectorSize
  {
    if k == 0 then []
    else WalkedSectors(g, d, c, k - 1) + d.sectors[Tell(g, Walk(g, d, c, k - 1).pos)]
  }

  /**
    Reading `k` whole sectors from a sector boundary along a readable walk
    succeeds and yields exactly the walked sectors, in order.
  */
  lemma {:induction false} ReadFollowsWalk(g: Geometry, d: Disk, c: Cursor, k: nat)
    requires c.i == 0 && 1 <= k && k * SectorSize < Two32
    requires WalkReadable(g, d, c, k)
    ensures ReadFixed(g, d, c, (k * SectorSize) as u32) == ReadOutcome(InfSuccess, WalkedSectors(g, d, c, k), Walk(g, d, c, k - 1).pos)
    decreases k
  {
    assert !Walk(g, d, c, 0).stop && Tell(g, Walk(g, d, c, 0).pos) in d.sectors;
    if k == 1 {
      ReadOneSector(g, d, c);
      assert WalkedSectors(g, d, c, 1) == WalkedSectors(g, d, c, 0) + d.sectors[Tell(g, c)];
    } else {
      var c1 := WalkFirstStep(g, d, c, k);
      ReadFollowsWalk(g, d, c1, k - 1);
      WalkedShift(g, d, c, c1, k - 1);
      var bytes, rest := (k * SectorSize) as u32, ((k - 1) * SectorSize) as u32;
      ReadPeel(g, d, c, bytes, c1, rest);
    }
  }

  /** One whole sector from a sector boundary. */
  lemma ReadOneSector(g: Geometry, d: Disk, c: Cursor)
    requires c.i == 0 && Tell(g, c) in d.sectors
    ensures ReadFixed(g, d, c, SectorSize as u32) == ReadOutcome(InfSuccess, d.sectors[Tell(g, c)], c)
  {
    var buf := d.sectors[Tell(g, c)];
    assert buf[0..SectorSize] == buf;
  }

  /** More than a sector from a sector boundary: the whole sector, then the rest from the next sector. */
  lemma ReadPeel(g: Geometry, d: Disk, c: Cursor, bytes: u32, c1: Cursor, rest: u32)
    requires c.i == 0 && Tell(g, c) in d.sectors && bytes > SectorSize && rest == bytes - SectorSize
    requires Seek(g, d, c, SectorSize as u32) == Step(false, c1) && c1.i == 0
    ensures var r := ReadFixed(g, d, c1, rest);
      ReadFixed(g, d, c, bytes) == ReadOutcome(r.code, d.sectors[Tell(g, c)] + r.data, r.pos)
  {
    var buf := d.sectors[Tell(g, c)];
    assert buf[0..SectorSize] == buf;
  }

  /** The walk after its first step: the shifted positions are readable too. */
  lemma WalkFirstStep(g: Geometry, d: Disk, c: Cursor, k: nat) returns (c1: Cursor)
    requires 2 <= k && WalkReadable(g, d, c, k)
    ensures c1 == Seek(g, d, c, SectorSize as u32).pos && !Seek(g, d, c, SectorSize as u32).stop
    ensures c.i == 0 ==> c1.i == 0
    ensures WalkReadable(g, d, c1, k - 1)
    ensures forall j :: 0 <= j < k - 1 ==> Walk(g, d, c, 1 + j) == Walk(g, d, c1, j)
  {
    WalkNext(g, d, c, 0);
    c1 := Seek(g, d, c, SectorSize as u32).pos;
    assert !Walk(g, d, c, 1).stop;
    forall j | 0 <= j < k - 1
      ensures Walk(g, d, c, 1 + j) == Walk(g, d, c1, j)
    {
      WalkAdd(g, d, c, 1, j);
    }
    forall j | 0 <= j < k - 1
      ensures !Walk(g, d, c1, j).stop && Tell(g, Walk(g, d, c1, j).pos) in d.sectors
    {
      assert Walk(g, d, c, 1 + j) == Walk(g, d, c1, j);
    }
  }

  /** The walked sectors from `c` are its first sector followed by the walked sectors from the next position. */
  lemma {:induction false} WalkedShift(g: Geometry, d: Disk, c: Cursor, c1: Cursor, k: nat)
    requires WalkReadable(g, d, c, k + 1) && WalkReadable(g, d, c1, k) && Tell(g, c) in d.sectors
    requires forall j :: 0 <= j < k ==> Walk(g, d, c, 1 + j) == Walk(g, d, c1, j)
    ensures WalkedSectors(g, d, c, k + 1) == d.sectors[Tell(g, c)] + WalkedSectors(g, d, c1, k)
    ensures k >= 1 ==> Walk(g, d, c, k) == Walk(g, d, c1, k - 1)
    decreases k
  {
    if k == 0 {
      assert WalkedSectors(g, d, c, 1) == WalkedSectors(g, d, c, 0) + d.sectors[Tell(g, Walk(g, d, c, 0).pos)];
    } else {
      WalkedShift(g, d, c, c1, k - 1);
      assert Walk(g, d, c, k) == Walk(g, d, c1, k - 1);
    }
  }
}
