/**
  The sector store the driver reads and writes through `readSector` and
  `writeSector`: fixed 512-byte sectors addressed by a 32-bit sector index.
  A read fails for a sector the store does not hold; a write fails for a
  sector the store does not hold or refuses to write.
*/
module BlockDevice {
  import opened Words

  /** `sizeSector`: bytes per sector. */
  const SectorSize: nat := 512

  type Sector = s: seq<byte> | |s| == 512 witness seq(512, _ => 0)

  datatype Disk = Disk(sectors: map<u32, Sector>, readOnly: set<u32>)

  /** Sectors whose byte offsets fit in 32 bits: 2^23 of them, 4 GiB. */
  const AddressableSectors: nat := 0x80_0000

  /**
    The byte offset `readSector` and `writeSector` hand to `pread` and
    `pwrite`: `start * sizeSector`, computed in `unsigned` arithmetic. It
    depends only on the sector index modulo 2^23.
  */
  function ByteOffset(n: u32): (r: u32)
    ensures r == (n % AddressableSectors) * SectorSize
  {
    var q := n / AddressableSectors;
    assert n * SectorSize == q * Two32 + (n % AddressableSectors) * SectorSize;
    Mul32(n, SectorSize)
  }

  /** Sector `n` and sector `n + 2^23` are read from and written to the same bytes. */
  lemma ByteOffsetAliases(n: u32)
    requires n + AddressableSectors < Two32
    ensures ByteOffset(n + AddressableSectors) == ByteOffset(n)
  {
  }

  /** `readSector(buf, n)`: the sector's bytes, or `None` when the read fails.
      The ensures define the store abstraction that WriteSector's read-back
      and frame clauses are stated against. */
  function ReadSector(d: Disk, n: u32): (r: Option<Sector>)
    ensures r.Some? <==> n in d.sectors
    ensures r.Some? ==> r.value == d.sectors[n]
  {
    if n in d.sectors then Some(d.sectors[n]) else None
  }

  /** `writeSector(buf, n)`: the updated store, or `None` when the write fails. */
  function WriteSector(d: Disk, n: u32, s: Sector): (r: Option<Disk>)
    ensures r.Some? <==> n in d.sectors && n !in d.readOnly
    ensures r.Some? ==> r.value.sectors.Keys == d.sectors.Keys && r.value.readOnly == d.readOnly
    ensures r.Some? ==> ReadSector(r.value, n) == Some(s)
    ensures r.Some? ==> forall m :: m != n ==> ReadSector(r.value, m) == ReadSector(d, m)
  {
    if n in d.sectors && n !in d.readOnly then Some(d.(sectors := d.sectors[n := s])) else None
  }
}
