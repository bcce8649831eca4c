/**
  `FAT::File`: a decoded directory entry together with its read/write
  pointer. The pointer is three integers (cluster, sector within the
  cluster, byte within the sector); `tell` turns it into a sector index and
  `seek` moves it forward, following the cluster chain through the FAT.
*/
module Files {
  import opened Words
  import opened BlockDevice
  import opened VolumeGeometry
  import opened FatTable

  /** `sizeEntry`: bytes per directory entry. */
  const EntrySize: nat := 32

  // Attribute bits of a directory entry (`FAT::Attr`): attribute k is the
  // single bit `0x1 << k`, k = 0..7.
  const AttrReadOnly: u32 := 0x01
  const AttrHidden: u32 := 0x02
  const AttrSystem: u32 := 0x04
  const AttrVolumeId: u32 := 0x08
  const AttrDirectory: u32 := 0x10
  const AttrArchive: u32 := 0x20
  const AttrReserved1: u32 := 0x40
  const AttrReserved2: u32 := 0x80

  /** `FAT::Result`. */
  datatype Result = InfSuccess | InfStop | InfLast | ErrRead | ErrNotDir

  /** The read/write pointer. */
  datatype Cursor = Cursor(cluster: u32, sector: u32, i: u32)

  /** A directory entry as the driver keeps it: 8.3 name, attributes, first cluster, size, pointer. */
  datatype File = File(name: string, attr: u32, baseCluster: u32, size: u32, pos: Cursor)

  /** `reset()`: back to byte 0 of the entry's first cluster. */
  function Reset(f: File): (r: File)
    ensures r.pos == Cursor(f.baseCluster, 0, 0)
    ensures r.(pos := f.pos) == f
  {
    f.(pos := Cursor(f.baseCluster, 0, 0))
  }

  /**
    `tell()`: the sector the pointer is in,
    `offsetData + (cluster - 2) * sizeCluster + sector` in `unsigned`
    arithmetic. The byte offset plays no part.
  */
  function Tell(g: Geometry, c: Cursor): u32
  {
    Add32(Add32(g.offsetData, Mul32(Sub32(c.cluster, 2), g.sizeCluster)), c.sector)
  }

  /**
    The wrapped operations of `tell()` agree with the exact sum reduced once
    modulo 2^32: cluster numbers below 2 wrap around, as do large ones.
  */
  lemma TellFormula(g: Geometry, c: Cursor)
    ensures Tell(g, c) == (g.offsetData + (c.cluster - 2) * g.sizeCluster + c.sector) % Two32
  {
    TellArithmetic(g.offsetData, c.cluster, g.sizeCluster, c.sector);
  }

  lemma TellArithmetic(o: u32, cl: u32, sc: u32, s: u32)
    ensures Add32(Add32(o, Mul32(Sub32(cl, 2), sc)), s) == (o + (cl - 2) * sc + s) % Two32
  {
    var x := cl - 2;
    var p := x * sc;
    ModMul(x, sc);
    assert Mul32(Sub32(cl, 2), sc) == p % Two32;
    ModAdd(p, o);
    assert Add32(o, Mul32(Sub32(cl, 2), sc)) == (o + p) % Two32;
    ModAdd(o + p, s);
  }

  lemma ModMul(x: int, c: int)
    ensures ((x % Two32) * c) % Two32 == (x * c) % Two32
  {
    var q := x / Two32;
    assert x * c == (x % Two32) * c + (q * c) * Two32;
    ModShift((x % Two32) * c, q * c);
  }

  lemma ModShift(y: int, k: int)
    ensures (y + k * Two32) % Two32 == y % Two32
  {
  }

  lemma ModAdd(y: int, s: int)
    ensures (y % Two32 + s) % Two32 == (y + s) % Two32
  {
    ModShift(y % Two32 + s, y / Two32);
  }

  // ---------------------------------------------------------------------------
  // seek

  datatype Step = Step(stop: bool, pos: Cursor)

  /**
    `seek(bytes)`: add `bytes` to the byte offset; carry at most one sector
    into the sector number; if the sector number then reaches the cluster
    size, look up the cluster's FAT entry. A failed lookup stops with the
    pointer otherwise advanced; an end-of-chain entry becomes the current
    cluster and stops; any other entry becomes the current cluster and one
    cluster's worth of sectors is subtracted. `stop` is the returned bool.
  */
  function Seek(g: Geometry, d: Disk, c: Cursor, bytes: u32): (r: Step)
    ensures r.pos.cluster == c.cluster || r.pos.cluster == GetFATEntry(g, d, c.cluster)
    ensures r.stop ==>
      GetFATEntry(g, d, c.cluster) == -1 || GetFATEntry(g, d, c.cluster) >= EndOfChain
    ensures !r.stop && r.pos.cluster != c.cluster ==> Links(g, d, c.cluster, r.pos.cluster)
  {
    var i := Add32(c.i, bytes);
    var sector := if i >= SectorSize then Add32(c.sector, 1) else c.sector;
    var i' := if i >= SectorSize then i - SectorSize else i;
    if sector >= g.sizeCluster then
      var next := GetFATEntry(g, d, c.cluster);
      if next == -1 then Step(true, Cursor(c.cluster, sector, i'))
      else if next >= EndOfChain then Step(true, Cursor(next, sector, i'))
      else Step(false, Cursor(next, sector - g.sizeCluster, i'))
    else Step(false, Cursor(c.cluster, sector, i'))
  }

  /** The pointer lies inside its cluster. */
  predicate Normal(g: Geometry, c: Cursor)
  {
    c.i < SectorSize && c.sector < g.sizeCluster
  }

  /** The pointer as a byte offset from the start of its cluster. */
  function InCluster(c: Cursor): nat
  {
    c.sector * SectorSize + c.i
  }

  /**
    For a pointer inside its cluster and an advance of at most one sector,
    `seek` moves the byte offset forward by `bytes`, crossing into the
    successor cluster when it passes the cluster's end. It stops only at
    that crossing, when the FAT read fails or the entry marks the end of
    the chain; a stopped pointer keeps the advanced sector number and byte
    offset, past the cluster's end, without subtracting the cluster size.
  */
  lemma SeekAdvances(g: Geometry, d: Disk, c: Cursor, bytes: u32)
    requires Normal(g, c) && bytes <= SectorSize
    ensures var r := Seek(g, d, c, bytes);
      var off := InCluster(c) + bytes;
      var limit := g.sizeCluster * SectorSize;
      var e := GetFATEntry(g, d, c.cluster);
      var carry := if c.i + bytes >= SectorSize then 1 else 0;
      var sector, i := c.sector + carry, c.i + bytes - carry * SectorSize;
      && (off < limit ==>
            !r.stop && r.pos.cluster == c.cluster && InCluster(r.pos) == off && Normal(g, r.pos))
      && (off >= limit && e == -1 ==> r.stop && r.pos == Cursor(c.cluster, sector, i))
      && (off >= limit && e >= EndOfChain ==> r.stop && r.pos == Cursor(e, sector, i))
      && (off >= limit && 0 <= e < EndOfChain ==>
            && !r.stop && r.pos.cluster == e
            && InCluster(r.pos) == off - limit && Normal(g, r.pos))
  {
    var i := c.i + bytes;
    var carry := if i >= SectorSize then 1 else 0;
    var sector := c.sector + carry;
    assert Add32(c.i, bytes) == i;
    assert sector < Two32 && Add32(c.sector, carry) == sector;
    assert InCluster(c) + bytes == sector * SectorSize + (i - carry * SectorSize);
    SectorOffsetBelow(sector, i - carry * SectorSize, g.sizeCluster);
    if sector >= g.sizeCluster {
      assert sector - g.sizeCluster < g.sizeCluster;
      assert (sector - g.sizeCluster) * SectorSize == sector * SectorSize - g.sizeCluster * SectorSize;
    }
  }

  /** Comparing two positions given as sector number and byte offset. */
  lemma SectorOffsetBelow(a: nat, i: nat, b: nat)
    requires i < SectorSize
    ensures a * SectorSize + i < b * SectorSize <==> a < b
  {
    if a < b {
      MulMono(a + 1, b, SectorSize);
    } else {
      MulMono(b, a, SectorSize);
    }
  }

  /** Only one sector is carried: a long advance leaves the byte offset past the sector. */
  lemma SeekCarriesOnce(g: Geometry, d: Disk, c: Cursor, bytes: u32)
    requires c.i < SectorSize && c.sector + 1 < g.sizeCluster
    requires 2 * SectorSize <= bytes < Two32 - SectorSize
    ensures Seek(g, d, c, bytes) == Step(false, Cursor(c.cluster, c.sector + 1, c.i + bytes - SectorSize))
    ensures Seek(g, d, c, bytes).pos.i >= SectorSize
  {
  }

  /** One `seek(512)` from the start of a sector. */
  lemma SeekOneSector(g: Geometry, d: Disk, c: Cursor, next: u32)
    requires c.i == 0 && c.sector < g.sizeCluster
    ensures c.sector + 1 < g.sizeCluster ==>
      Seek(g, d, c, SectorSize) == Step(false, Cursor(c.cluster, c.sector + 1, 0))
    ensures c.sector + 1 == g.sizeCluster && Links(g, d, c.cluster, next) ==>
      Seek(g, d, c, SectorSize) == Step(false, Cursor(next, 0, 0))
    ensures c.sector + 1 == g.sizeCluster && GetFATEntry(g, d, c.cluster) >= EndOfChain ==>
      Seek(g, d, c, SectorSize).stop
  {
  }

  // ---------------------------------------------------------------------------
  // Walking a whole chain one sector at a time.

  /** `n` successive `seek(512)` calls, stopping at the first that returns true. */
  function Walk(g: Geometry, d: Disk, c: Cursor, n: nat): Step
  {
    if n == 0 then Step(false, c)
    else
      var s := Walk(g, d, c, n - 1);
      if s.stop then s else Seek(g, d, s.pos, SectorSize)
  }

  /** `cs` is a complete cluster chain: each links to the next, the last ends it. */
  predicate IsChain(g: Geometry, d: Disk, cs: seq<u32>)
  {
    && |cs| >= 1
    && (forall k {:trigger Links(g, d, cs[k], cs[k + 1])} :: 0 <= k < |cs| - 1 ==> Links(g, d, cs[k], cs[k + 1]))
    && GetFATEntry(g, d, cs[|cs| - 1]) >= EndOfChain
  }

  lemma ChainLink(g: Geometry, d: Disk, cs: seq<u32>, k: nat)
    requires IsChain(g, d, cs) && k + 1 < |cs|
    ensures Links(g, d, cs[k], cs[k + 1])
  {
  }

  /** `Walk` unfolded once. */
  lemma WalkNext(g: Geometry, d: Disk, c: Cursor, n: nat)
    ensures !Walk(g, d, c, n).stop ==> Walk(g, d, c, n + 1) == Seek(g, d, Walk(g, d, c, n).pos, SectorSize)
    ensures Walk(g, d, c, n).stop ==> Walk(g, d, c, n + 1) == Walk(g, d, c, n)
  {
  }

  /** A walk of `a + b` steps is a walk of `a` steps followed by one of `b` steps. */
  lemma {:induction false} WalkAdd(g: Geometry, d: Disk, c: Cursor, a: nat, b: nat)
    requires !Walk(g, d, c, a).stop
    ensures Walk(g, d, c, a + b) == Walk(g, d, Walk(g, d, c, a).pos, b)
    decreases b
  {
    if b > 0 {
      WalkAdd(g, d, c, a, b - 1);
      WalkNext(g, d, c, a + b - 1);
      WalkNext(g, d, Walk(g, d, c, a).pos, b - 1);
    }
  }

  /** A walk that reaches `mid` after `a` steps and then `end` after `b` more reaches `end` after `a + b`. */
  lemma WalkCompose(g: Geometry, d: Disk, c: Cursor, a: nat, b: nat, n: nat, mid: Cursor, end: Step)
    requires n == a + b
    requires Walk(g, d, c, a) == Step(false, mid) && Walk(g, d, mid, b) == end
    ensures Walk(g, d, c, n) == end
  {
    WalkAdd(g, d, c, a, b);
  }

  /** Inside one cluster, `r` steps from its start reach sector `r`. */
  lemma {:induction false} WalkInCluster(g: Geometry, d: Disk, cl: u32, r: nat)
    requires r < g.sizeCluster
    ensures Walk(g, d, Cursor(cl, 0, 0), r) == Step(false, Cursor(cl, r, 0))
  {
    if r > 0 {
      WalkInCluster(g, d, cl, r - 1);
      WalkNext(g, d, Cursor(cl, 0, 0), r - 1);
      SeekOneSector(g, d, Cursor(cl, r - 1, 0), 0);
    }
  }

  /** `sizeCluster` steps from a cluster's start: the successor's start, or a stop at the chain's end. */
  lemma WalkWholeCluster(g: Geometry, d: Disk, cl: u32, next: u32)
    requires 1 <= g.sizeCluster
    ensures Links(g, d, cl, next) ==>
      Walk(g, d, Cursor(cl, 0, 0), g.sizeCluster) == Step(false, Cursor(next, 0, 0))
    ensures GetFATEntry(g, d, cl) >= EndOfChain ==> Walk(g, d, Cursor(cl, 0, 0), g.sizeCluster).stop
  {
    WalkInCluster(g, d, cl, g.sizeCluster - 1);
    WalkNext(g, d, Cursor(cl, 0, 0), g.sizeCluster - 1);
    SeekOneSector(g, d, Cursor(cl, g.sizeCluster - 1, 0), next);
  }

  /** Steps in `k` whole clusters, counted one cluster at a time. */
  function ClusterSteps(g: Geometry, k: nat): nat
  {
    if k == 0 then 0 else ClusterSteps(g, k - 1) + g.sizeCluster
  }

  lemma {:induction false} ClusterStepsIsProduct(g: Geometry, k: nat)
    ensures ClusterSteps(g, k) == k * g.sizeCluster
  {
    if k > 0 {
      ClusterStepsIsProduct(g, k - 1);
      MulSucc(k - 1, g.sizeCluster);
    }
  }

  /** After `k` whole clusters the walk stands at the start of the chain's `k`-th cluster. */
  lemma {:induction false} WalkClusters(g: Geometry, d: Disk, cs: seq<u32>, k: nat)
    requires IsChain(g, d, cs) && 1 <= g.sizeCluster
    requires k < |cs|
    ensures Walk(g, d, Cursor(cs[0], 0, 0), ClusterSteps(g, k)) == Step(false, Cursor(cs[k], 0, 0))
  {
    if k > 0 {
      WalkClusters(g, d, cs, k - 1);
      ChainLink(g, d, cs, k - 1);
      WalkWholeCluster(g, d, cs[k - 1], cs[k]);
      WalkCompose(g, d, Cursor(cs[0], 0, 0), ClusterSteps(g, k - 1), g.sizeCluster, ClusterSteps(g, k),
                  Cursor(cs[k - 1], 0, 0), Step(false, Cursor(cs[k], 0, 0)));
    } else {
      assert ClusterSteps(g, 0) == 0;
    }
  }

  lemma MulSucc(k: nat, sc: nat)
    ensures k * sc + sc == (k + 1) * sc
  {
  }

  /**
    Sector `r` of the chain's cluster `q` is reached after
    `ClusterSteps(g, q) + r`, that is `q * sizeCluster + r`, sector steps.
  */
  lemma WalkWithinChain(g: Geometry, d: Disk, cs: seq<u32>, q: nat, r: nat)
    requires IsChain(g, d, cs) && 1 <= g.sizeCluster
    requires q < |cs| && r < g.sizeCluster
    ensures Walk(g, d, Cursor(cs[0], 0, 0), ClusterSteps(g, q) + r) == Step(false, Cursor(cs[q], r, 0))
  {
    WalkClusters(g, d, cs, q);
    WalkInCluster(g, d, cs[q], r);
    WalkCompose(g, d, Cursor(cs[0], 0, 0), ClusterSteps(g, q), r, ClusterSteps(g, q) + r,
                Cursor(cs[q], 0, 0), Step(false, Cursor(cs[q], r, 0)));
  }

  /**
    Reading a chain of `n` clusters sector by sector from its first byte,
    `seek` reports the end exactly at step `ClusterSteps(g, n)`, that is
    `n * sizeCluster`, and never before.
  */
  lemma WalkStopsAtChainEnd(g: Geometry, d: Disk, cs: seq<u32>, steps: nat)
    requires IsChain(g, d, cs) && 1 <= g.sizeCluster
    ensures Walk(g, d, Cursor(cs[0], 0, 0), steps).stop <==> steps >= ClusterSteps(g, |cs|)
  {
    if steps < ClusterSteps(g, |cs|) {
      var q, r := ChainIndex(g, steps, |cs|);
      WalkWithinChain(g, d, cs, q, r);
    } else {
      WalkAtEnd(g, d, cs);
      WalkStaysStopped(g, d, Cursor(cs[0], 0, 0), ClusterSteps(g, |cs|), steps);
    }
  }

  lemma WalkAtEnd(g: Geometry, d: Disk, cs: seq<u32>)
    requires IsChain(g, d, cs) && 1 <= g.sizeCluster
    ensures Walk(g, d, Cursor(cs[0], 0, 0), ClusterSteps(g, |cs|)).stop
  {
    var last := |cs| - 1;
    WalkClusters(g, d, cs, last);
    WalkWholeCluster(g, d, cs[last], 0);
    var end := Walk(g, d, Cursor(cs[last], 0, 0), g.sizeCluster);
    WalkCompose(g, d, Cursor(cs[0], 0, 0), ClusterSteps(g, last), g.sizeCluster, ClusterSteps(g, |cs|),
                Cursor(cs[last], 0, 0), end);
  }

  /** A step count below `n` whole clusters names cluster `q < n` and sector `r`. */
  lemma ChainIndex(g: Geometry, steps: nat, n: nat) returns (q: nat, r: nat)
    requires 1 <= g.sizeCluster && steps < ClusterSteps(g, n)
    ensures q < n && r < g.sizeCluster && steps == ClusterSteps(g, q) + r
  {
    ClusterStepsIsProduct(g, n);
    q, r := DivBelow(steps, g.sizeCluster, n);
    ClusterStepsIsProduct(g, q);
  }

  lemma DivBelow(steps: nat, sc: nat, n: nat) returns (q: nat, r: nat)
    requires sc >= 1 && steps < n * sc
    ensures q < n && r < sc && steps == q * sc + r
  {
    q, r := steps / sc, steps % sc;
    if q >= n {
      MulMono(n, q, sc);
    }
  }

  lemma MulMono(a: nat, b: nat, c: nat)
    requires a <= b
    ensures a * c <= b * c
  {
  }

  lemma {:induction false} WalkStaysStopped(g: Geometry, d: Disk, c: Cursor, m: nat, n: nat)
    requires m <= n && Walk(g, d, c, m).stop
    ensures Walk(g, d, c, n).stop
    decreases n - m
  {
    if m < n {
      WalkStaysStopped(g, d, c, m, n - 1);
    }
  }
}
