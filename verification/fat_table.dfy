/**
  The File Allocation Table: one little-endian 32-bit entry per cluster, 128
  entries per 512-byte sector, starting right after the reserved sectors.
  Only the low 28 bits of an entry are significant; the top four are
  reserved, masked off on read and kept on write. Only the first FAT is used.
*/
module FatTable {
  import opened Words
  import opened BlockDevice
  import opened VolumeGeometry

  /** Entries at or above this value end a cluster chain. */
  const EndOfChain: int := 0x0FFF_FFF8

  /** The sector holding entry `n`. */
  function EntrySector(g: Geometry, n: u32): u32
  {
    Add32(g.reservedSectors, n / 128)
  }

  /** The byte offset of entry `n` inside its sector. */
  function EntryOffset(n: u32): (r: nat)
    ensures r + 4 <= SectorSize && r % 4 == 0
  {
    (n % 128) * 4
  }

  /** `getFATEntry(n)`: the masked entry, or -1 when its sector cannot be read. */
  function GetFATEntry(g: Geometry, d: Disk, n: u32): (r: int)
    ensures r == -1 <==> EntrySector(g, n) !in d.sectors
    ensures r != -1 ==> 0 <= r < Two28
  {
    match ReadSector(d, EntrySector(g, n))
    case None => -1
    case Some(buf) => Mask28(MemGet(buf, Dword, EntryOffset(n)))
  }

  /**
    Where entry `n` lives: sector `reservedSectors + n / 128` (wrapping as
    `unsigned`), bytes `4 * (n % 128)` to `4 * (n % 128) + 3`, little-endian,
    low 28 bits kept.
  */
  lemma GetFATEntryReads(g: Geometry, d: Disk, n: u32)
    ensures GetFATEntry(g, d, n) == -1 <==> (g.reservedSectors + n / 128) % Two32 !in d.sectors
    ensures GetFATEntry(g, d, n) != -1 ==>
      var s := d.sectors[(g.reservedSectors + n / 128) % Two32];
      GetFATEntry(g, d, n) == LeValue(s[(n % 128) * 4..(n % 128) * 4 + 4]) % Two28
  {
    if EntrySector(g, n) in d.sectors {
      MemGetIsLeValue(d.sectors[EntrySector(g, n)], Dword, EntryOffset(n));
    }
  }

  /** A chain link: the entry for `n` was read and it names a successor. */
  predicate Links(g: Geometry, d: Disk, n: u32, next: u32)
  {
    GetFATEntry(g, d, n) == next && next < EndOfChain
  }

  datatype WriteOutcome = WriteOutcome(ok: bool, disk: Disk)

  /**
    `setFATEntry(n, val)`: read the entry's sector, store
    `(original & 0xF0000000) | val` in the entry and write the sector back.
    Nothing is written when the read fails.
  */
  function SetFATEntry(g: Geometry, d: Disk, n: u32, val: u32): (r: WriteOutcome)
    ensures !r.ok ==> r.disk == d
    ensures r.ok <==> EntrySector(g, n) in d.sectors && EntrySector(g, n) !in d.readOnly
    ensures r.ok ==> r.disk.sectors.Keys == d.sectors.Keys && r.disk.readOnly == d.readOnly
    ensures r.ok ==> forall m :: m in d.sectors && m != EntrySector(g, n) ==> r.disk.sectors[m] == d.sectors[m]
    ensures r.ok ==>
      r.disk.sectors[EntrySector(g, n)] == StoreEntry(d.sectors[EntrySector(g, n)], n, val)
  {
    var sector := EntrySector(g, n);
    match ReadSector(d, sector)
    case None => WriteOutcome(false, d)
    case Some(buf) =>
      match WriteSector(d, sector, StoreEntry(buf, n, val))
      case None => WriteOutcome(false, d)
      case Some(d') => WriteOutcome(true, d')
  }

  /** The sector `buf` once entry `n` holds `(original & 0xF0000000) | val`. */
  function StoreEntry(buf: Sector, n: u32, val: u32): (r: Sector)
    ensures forall j :: 0 <= j < SectorSize && !(EntryOffset(n) <= j < EntryOffset(n) + 4) ==> r[j] == buf[j]
    ensures MemGet(r, Dword, EntryOffset(n)) % Two28 == val % Two28
    ensures MemGet(r, Dword, EntryOffset(n)) / Two28
      == Or4(MemGet(buf, Dword, EntryOffset(n)) / Two28, val / Two28)
  {
    var offset := EntryOffset(n);
    var stored := KeepTopNibble(MemGet(buf, Dword, offset), val);
    var r := MemSet(buf, stored, Dword, offset);
    assert MemGet(r, Dword, offset) == stored by {
      assert Pow256(4) == Two32;
    }
    r
  }

  /** After a successful write, reading entry `n` gives the low 28 bits of `val`. */
  lemma SetThenGet(g: Geometry, d: Disk, n: u32, val: u32)
    requires SetFATEntry(g, d, n, val).ok
    ensures GetFATEntry(g, SetFATEntry(g, d, n, val).disk, n) == val % Two28
  {
  }

  /** Writing a 28-bit value keeps the reserved top nibble of the entry. */
  lemma SetKeepsReservedBits(g: Geometry, d: Disk, n: u32, val: u32)
    requires val < Two28
    requires SetFATEntry(g, d, n, val).ok
    ensures var s := EntrySector(g, n); var o := EntryOffset(n);
      MemGet(SetFATEntry(g, d, n, val).disk.sectors[s], Dword, o) / Two28
        == MemGet(d.sectors[s], Dword, o) / Two28
    ensures GetFATEntry(g, SetFATEntry(g, d, n, val).disk, n) == val
  {
    var o := MemGet(d.sectors[EntrySector(g, n)], Dword, EntryOffset(n));
    OrZero(o / Two28);
  }

  /** Writing entry `n` leaves every other entry as it was. */
  lemma {:induction false} SetLeavesOtherEntries(g: Geometry, d: Disk, n: u32, val: u32, m: u32)
    requires SetFATEntry(g, d, n, val).ok
    requires m != n
    ensures GetFATEntry(g, SetFATEntry(g, d, n, val).disk, m) == GetFATEntry(g, d, m)
  {
    var d' := SetFATEntry(g, d, n, val).disk;
    var sn, sm := EntrySector(g, n), EntrySector(g, m);
    if sm == sn {
      Add32Injective(g.reservedSectors, n / 128, m / 128);
      assert n % 128 != m % 128;
      var om := EntryOffset(m);
      var on := EntryOffset(n);
      assert om + 4 <= on || on + 4 <= om;
      assert d'.sectors[sm][om..om + 4] == d.sectors[sm][om..om + 4];
    }
  }

  lemma Add32Injective(r: u32, a: u32, b: u32)
    requires Add32(r, a) == Add32(r, b)
    ensures a == b
  {
  }

  // ---------------------------------------------------------------------------
  // Allocation hint.

  /**
    The largest hint taken on trust:
    `((numSectors - reservedSectors - numFATS * sectorsPerFAT) / 8) - 1`, in
    `unsigned` arithmetic. The divisor is the literal 8, not the cluster size.
  */
  function LastTrustedHint(g: Geometry): u32
  {
    Sub32(Sub32(Sub32(g.numSectors, g.reservedSectors), Mul32(g.numFATS, g.sectorsPerFAT)) / 8, 1)
  }

  /** The hint is used as is when it lies in `[2, LastTrustedHint]`. */
  predicate HintTrusted(g: Geometry)
  {
    2 <= g.lastCluster <= LastTrustedHint(g)
  }

  /** Entries the fallback scan visits: `sectorsPerFAT * 128`, wrapped. */
  function ScanBound(g: Geometry): u32
  {
    Mul32(g.sectorsPerFAT, 128)
  }

  /** Entry `j` was read and is in use. */
  predicate Used(g: Geometry, d: Disk, j: u32)
  {
    GetFATEntry(g, d, j) > 0
  }

  /** Every entry before `k` was read and is in use: the scan reaches `k`. */
  predicate UsedBelow(g: Geometry, d: Disk, k: u32)
  {
    forall j: u32 :: j < k ==> Used(g, d, j)
  }

  /**
    `getFreeCluster()`: returns the cluster to allocate (as the C `int`) and
    the hint afterwards. The unset hint 0xFFFFFFFF becomes the root cluster
    and the root cluster + 1 is returned; a trusted hint gives hint + 1
    without looking at the table; any other hint triggers a scan for the
    first entry equal to 0, which gives -1 on a read failure or when none
    is found.
  */
  method GetFreeCluster(g: Geometry, d: Disk) returns (cluster: int, hint: u32)
    ensures g.lastCluster == 0xFFFF_FFFF ==>
      hint == g.rootCluster && cluster == ToInt32(Add32(g.rootCluster, 1))
    ensures g.lastCluster != 0xFFFF_FFFF ==> hint == g.lastCluster
    ensures g.lastCluster != 0xFFFF_FFFF && HintTrusted(g) ==>
      cluster == ToInt32(Add32(g.lastCluster, 1))
    ensures g.lastCluster != 0xFFFF_FFFF && !HintTrusted(g) && cluster != -1 ==>
      exists k: u32 :: k < ScanBound(g) && cluster == ToInt32(k) && GetFATEntry(g, d, k) == 0
        && UsedBelow(g, d, k)
    ensures g.lastCluster != 0xFFFF_FFFF && !HintTrusted(g) && cluster == -1 ==>
      forall k: u32 :: k < ScanBound(g) && UsedBelow(g, d, k) ==> GetFATEntry(g, d, k) != 0
  {
    hint := g.lastCluster;
    if hint == 0xFFFF_FFFF {
      hint := g.rootCluster;
    } else if !HintTrusted(g) {
      var bound := ScanBound(g);
      var i: u32 := 0;
      while i < bound
        invariant i <= bound
        invariant UsedBelow(g, d, i)
      {
        var entry := GetFATEntry(g, d, i);
        if entry == -1 {
          forall k: u32 | k < bound
            ensures UsedBelow(g, d, k) ==> GetFATEntry(g, d, k) != 0
          {
            assert !Used(g, d, i);
            if k < i {
              assert Used(g, d, k);
            }
          }
          cluster := -1;
          return;
        }
        if entry == 0 {
          cluster := ToInt32(i);
          return;
        }
        i := i + 1;
      }
      forall k: u32 | k < bound
        ensures GetFATEntry(g, d, k) != 0
      {
        assert Used(g, d, k);
      }
      cluster := -1;
      return;
    }
    cluster := ToInt32(Add32(hint, 1));
  }
}
