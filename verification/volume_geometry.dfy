/**
  Loading a volume (the `FAT::FAT` constructor): decoding and validating the
  boot sector (BIOS parameter block) and the FS-information sector, in the
  layouts of Microsoft's FAT32 File System Specification ("Boot Sector and
  BPB", "FAT32 FSInfo Sector Structure"). Every multi-byte field is
  little-endian. A volume stays in its error state unless every check passes.
*/
module VolumeGeometry {
  import opened Words
  import opened BlockDevice

  /** The fields the loader keeps; all `unsigned` unless noted. */
  datatype Geometry = Geometry(
    oemIdentifier: string,
    sizeCluster: u32,        // sectors per cluster
    reservedSectors: u32,
    numFATS: u32,
    numSectors: u32,
    mediaDescriptorType: u32,
    sectorsPerTrack: u32,
    numHeads: u32,
    numHiddenSectors: u32,
    sectorsPerFAT: u32,
    mirroring: bool,
    activeFAT: u32,
    fatVersion: u32,
    rootCluster: u32,
    infoSector: u32,
    backupBootSector: u32,
    driveNumber: u32,
    dirty: bool,
    serialNumber: u32,
    volumeLabel: string,
    systemIdentifier: string,
    freeClusters: u32,       // allocation hints from the FS-information sector
    lastCluster: u32,
    offsetData: u32)         // first sector of the data region

  /** Why loading stopped, one per early return of the constructor. */
  datatype LoadError =
    | BootUnreadable
    | BadBootSignature
    | BadExtendedSignature
    | BadBytesPerSector
    | BadSectorsPerCluster
    | NoFats
    | RootEntriesPresent
    | NoSectors
    | NoRootCluster
    | NoSectorsPerFat
    | BadFatVersion
    | NoInfoSector
    | InfoUnreadable
    | BadInfoLeadSignature
    | BadInfoMidSignature
    | BadInfoTrailSignature

  /**
    A volume is either still in its error state (`error == true`, so
    `operator!` reports it) with the reason loading stopped, or ready.
  */
  datatype Volume = Failed(reason: LoadError) | Ready(geo: Geometry)

  const ClusterSizes: set<int> := {1, 2, 4, 8, 16, 32, 64, 128}

  /** The sector count: the 16-bit field at 0x013, or the 32-bit one at 0x020 when that is 0. */
  function SectorCount(b: Sector): u32
  {
    var small := MemGet(b, Word, 0x013);
    if small != 0 then small else MemGet(b, Dword, 0x020)
  }

  /** `strncpy` of `n` bytes into a zeroed buffer, as a C string. */
  function FixedText(b: Sector, offset: nat, n: nat): (r: string)
    requires offset + n <= 512
    ensures |r| <= n
  {
    CStr(Chars(b[offset..offset + n]))
  }

  /** Field decoding once every check has passed. */
  function Decode(b: Sector, info: Sector): Geometry
  {
    var flags := MemGet(b, Word, 0x028);
    var reserved := MemGet(b, Word, 0x00E);
    var fats := MemGet(b, Byte, 0x010);
    var perFat := MemGet(b, Dword, 0x024);
    Geometry(
      oemIdentifier := FixedText(b, 0x003, 8),
      sizeCluster := MemGet(b, Byte, 0x00D),
      reservedSectors := reserved,
      numFATS := fats,
      numSectors := SectorCount(b),
      mediaDescriptorType := MemGet(b, Byte, 0x015),
      sectorsPerTrack := MemGet(b, Word, 0x018),
      numHeads := MemGet(b, Word, 0x01A),
      numHiddenSectors := MemGet(b, Dword, 0x01C),
      sectorsPerFAT := perFat,
      // !(flags & (1 << 7)) and flags & 0xF
      mirroring := (flags / 128) % 2 == 0,
      activeFAT := flags % 16,
      fatVersion := MemGet(b, Word, 0x02A),
      rootCluster := MemGet(b, Dword, 0x02C),
      infoSector := MemGet(b, Word, 0x030),
      backupBootSector := MemGet(b, Word, 0x032),
      driveNumber := MemGet(b, Byte, 0x040),
      dirty := MemGet(b, Byte, 0x041) % 2 == 1,
      serialNumber := MemGet(b, Dword, 0x043),
      volumeLabel := FixedText(b, 0x047, 11),
      systemIdentifier := FixedText(b, 0x052, 8),
      freeClusters := MemGet(info, Dword, 0x1E8),
      lastCluster := MemGet(info, Dword, 0x1EC),
      offsetData := Add32(reserved, Mul32(fats, perFat)))
  }

  /** The constructor without `open` and the diagnostics. */
  function Load(d: Disk): (v: Volume)
    ensures v.Ready? <==> forall k :: 0 <= k < CheckCount ==> CheckAt(d, k)
    ensures v.Failed? ==> exists k :: FirstFailure(d, k) && ErrorAt(k) == v.reason
    ensures v.Ready? ==> 0 in d.sectors && Valid(v.geo)
    ensures v.Ready? ==>
      v.geo.infoSector in d.sectors && Decoded(v.geo, d.sectors[0], d.sectors[v.geo.infoSector])
  {
    var v := LoadBody(d);
    LoadMatchesChecks(d);
    v
  }

  function LoadBody(d: Disk): Volume
  {
    match ReadSector(d, 0)
    case None => Failed(BootUnreadable)
    case Some(b) =>
      if MemGet(b, Word, 0x1FE) != 0xAA55 then Failed(BadBootSignature)
      else if MemGet(b, Byte, 0x042) != 0x29 then Failed(BadExtendedSignature)
      else if MemGet(b, Word, 0x00B) != 512 then Failed(BadBytesPerSector)
      else if MemGet(b, Byte, 0x00D) !in ClusterSizes then Failed(BadSectorsPerCluster)
      else if MemGet(b, Byte, 0x010) == 0 then Failed(NoFats)
      else if MemGet(b, Word, 0x011) != 0 then Failed(RootEntriesPresent)
      else if SectorCount(b) == 0 then Failed(NoSectors)
      else if MemGet(b, Dword, 0x02C) == 0 then Failed(NoRootCluster)
      else if MemGet(b, Dword, 0x024) == 0 then Failed(NoSectorsPerFat)
      else if MemGet(b, Word, 0x02A) != 0 then Failed(BadFatVersion)
      // the root cluster is read and checked a second time
      else if MemGet(b, Dword, 0x02C) == 0 then Failed(NoRootCluster)
      else if MemGet(b, Word, 0x030) == 0 then Failed(NoInfoSector)
      else InfoPhase(d, b)
  }

  /** Reading and checking the FS-information sector named at 0x030. */
  function InfoPhase(d: Disk, b: Sector): Volume
  {
    match ReadSector(d, MemGet(b, Word, 0x030))
    case None => Failed(InfoUnreadable)
    case Some(f) =>
      if MemGet(f, Dword, 0x000) != 0x4161_5252 then Failed(BadInfoLeadSignature)
      else if MemGet(f, Dword, 0x1E4) != 0x6141_7272 then Failed(BadInfoMidSignature)
      else if MemGet(f, Dword, 0x1FC) != 0xAA55_0000 then Failed(BadInfoTrailSignature)
      else Ready(Decode(b, f))
  }

  // ---------------------------------------------------------------------------
  // The checks as a numbered list, the reference the loader is proved against:
  // 0 reads the boot sector, 1..12 test it, 13 reads the FS-information sector,
  // 14..16 test that.

  const CheckCount: nat := 17

  /** Check `k` as the loader makes it; a check after an unreadable sector holds vacuously. */
  predicate CheckAt(d: Disk, k: nat)
  {
    if k == 0 then 0 in d.sectors
    else if 0 !in d.sectors then true
    else
      var b := d.sectors[0];
      if k <= 12 then BootCheck(b, k - 1)
      else
        var info := MemGet(b, Word, 0x030);
        if k == 13 then info in d.sectors
        else info !in d.sectors || InfoCheck(d.sectors[info], k - 14)
  }

  /** The boot-sector field tests, in the order the constructor makes them. */
  predicate BootCheck(b: Sector, k: nat)
  {
    if k == 0 then MemGet(b, Word, 0x1FE) == 0xAA55
    else if k == 1 then MemGet(b, Byte, 0x042) == 0x29
    else if k == 2 then MemGet(b, Word, 0x00B) == 512
    else if k == 3 then MemGet(b, Byte, 0x00D) in ClusterSizes
    else if k == 4 then MemGet(b, Byte, 0x010) != 0
    else if k == 5 then MemGet(b, Word, 0x011) == 0
    else if k == 6 then SectorCount(b) != 0
    else if k == 7 then MemGet(b, Dword, 0x02C) != 0
    else if k == 8 then MemGet(b, Dword, 0x024) != 0
    else if k == 9 then MemGet(b, Word, 0x02A) == 0
    else if k == 10 then MemGet(b, Dword, 0x02C) != 0
    else if k == 11 then MemGet(b, Word, 0x030) != 0
    else true
  }

  /** The three FS-information signatures. */
  predicate InfoCheck(f: Sector, k: nat)
  {
    if k == 0 then MemGet(f, Dword, 0x000) == 0x4161_5252
    else if k == 1 then MemGet(f, Dword, 0x1E4) == 0x6141_7272
    else if k == 2 then MemGet(f, Dword, 0x1FC) == 0xAA55_0000
    else true
  }

  /** The error reported when check `k` is the first to fail. */
  function ErrorAt(k: nat): LoadError
  {
    [ BootUnreadable, BadBootSignature, BadExtendedSignature, BadBytesPerSector,
      BadSectorsPerCluster, NoFats, RootEntriesPresent, NoSectors, NoRootCluster,
      NoSectorsPerFat, BadFatVersion, NoRootCluster, NoInfoSector, InfoUnreadable,
      BadInfoLeadSignature, BadInfoMidSignature, BadInfoTrailSignature ][k % CheckCount]
  }

  predicate FirstFailure(d: Disk, k: nat)
  {
    k < CheckCount && !CheckAt(d, k) && forall j :: 0 <= j < k ==> CheckAt(d, j)
  }

  /** What a loaded volume guarantees to every later operation. */
  predicate Valid(g: Geometry)
  {
    && g.sizeCluster in ClusterSizes
    && 1 <= g.numFATS < 0x100
    && g.reservedSectors < 0x1_0000
    && g.numSectors != 0
    && g.sectorsPerFAT != 0
    && g.fatVersion == 0
    && g.rootCluster != 0
    && g.infoSector != 0
    && g.offsetData == (g.reservedSectors + g.numFATS * g.sectorsPerFAT) % Two32
  }

  /** The index of the first failing check, `CheckCount` when none fails. */
  function FirstFailing(d: Disk): (k: nat)
    ensures k <= CheckCount
  {
    if !CheckAt(d, 0) then 0
    else if !CheckAt(d, 1) then 1
    else if !CheckAt(d, 2) then 2
    else if !CheckAt(d, 3) then 3
    else if !CheckAt(d, 4) then 4
    else if !CheckAt(d, 5) then 5
    else if !CheckAt(d, 6) then 6
    else if !CheckAt(d, 7) then 7
    else if !CheckAt(d, 8) then 8
    else if !CheckAt(d, 9) then 9
    else if !CheckAt(d, 10) then 10
    else if !CheckAt(d, 11) then 11
    else if !CheckAt(d, 12) then 12
    else if !CheckAt(d, 13) then 13
    else if !CheckAt(d, 14) then 14
    else if !CheckAt(d, 15) then 15
    else if !CheckAt(d, 16) then 16
    else 17
  }

  lemma FirstFailingIsFirst(d: Disk)
    ensures var k := FirstFailing(d);
      && (forall j :: 0 <= j < k ==> CheckAt(d, j))
      && (k < CheckCount ==> !CheckAt(d, k))
  {
    var k := FirstFailing(d);
    forall j | 0 <= j < k
      ensures CheckAt(d, j)
    {
    }
  }

  lemma LoadFollowsChecks(d: Disk)
    ensures var k := FirstFailing(d);
      && (k < CheckCount ==> LoadBody(d) == Failed(ErrorAt(k)))
      && (k == CheckCount ==> LoadBody(d).Ready?)
  {
  }

  lemma LoadMatchesChecks(d: Disk)
    ensures LoadBody(d).Ready? <==> forall k :: 0 <= k < CheckCount ==> CheckAt(d, k)
    ensures LoadBody(d).Failed? ==>
      exists k :: FirstFailure(d, k) && ErrorAt(k) == LoadBody(d).reason
    ensures LoadBody(d).Ready? ==> 0 in d.sectors && Valid(LoadBody(d).geo)
    ensures LoadBody(d).Ready? ==> var g := LoadBody(d).geo;
      g.infoSector in d.sectors && Decoded(g, d.sectors[0], d.sectors[g.infoSector])
  {
    var k := FirstFailing(d);
    FirstFailingIsFirst(d);
    LoadFollowsChecks(d);
    if k < CheckCount {
      assert FirstFailure(d, k);
    } else {
      var b := d.sectors[0];
      var f := d.sectors[MemGet(b, Word, 0x030)];
      assert LoadBody(d) == Ready(Decode(b, f));
      assert forall j :: 1 <= j < 13 ==> CheckAt(d, j);
      DecodeFields(b, f);
      DecodeValid(b, f);
    }
  }

  lemma DecodeValid(b: Sector, f: Sector)
    requires forall j :: 0 <= j < 12 ==> BootCheck(b, j)
    ensures Valid(Decode(b, f))
  {
    assert BootCheck(b, 3) && BootCheck(b, 4) && BootCheck(b, 6) && BootCheck(b, 7);
    assert BootCheck(b, 8) && BootCheck(b, 9) && BootCheck(b, 11);
    AddMul32(MemGet(b, Word, 0x00E), MemGet(b, Byte, 0x010), MemGet(b, Dword, 0x024));
  }

  /**
    Where each field of the geometry comes from: the little-endian value of
    the boot sector's bytes at its offset (the FSInfo sector's for the two
    cluster hints), with the 16-bit sector count at 0x013 giving way to the
    32-bit one at 0x020 when it is zero.
  */
  predicate Decoded(g: Geometry, b: Sector, f: Sector)
  {
    && g.sizeCluster == b[0x00D]
    && g.reservedSectors == LeValue(b[0x00E..0x010])
    && g.numFATS == b[0x010]
    && g.numSectors ==
         (if LeValue(b[0x013..0x015]) != 0 then LeValue(b[0x013..0x015]) else LeValue(b[0x020..0x024]))
    && g.mediaDescriptorType == b[0x015]
    && g.sectorsPerTrack == LeValue(b[0x018..0x01A])
    && g.numHeads == LeValue(b[0x01A..0x01C])
    && g.numHiddenSectors == LeValue(b[0x01C..0x020])
    && g.sectorsPerFAT == LeValue(b[0x024..0x028])
    && g.mirroring == ((b[0x028] / 128) % 2 == 0)
    && g.activeFAT == b[0x028] % 16
    && g.fatVersion == LeValue(b[0x02A..0x02C])
    && g.rootCluster == LeValue(b[0x02C..0x030])
    && g.infoSector == LeValue(b[0x030..0x032])
    && g.backupBootSector == LeValue(b[0x032..0x034])
    && g.driveNumber == b[0x040]
    && g.dirty == (b[0x041] % 2 == 1)
    && g.serialNumber == LeValue(b[0x043..0x047])
    && g.freeClusters == LeValue(f[0x1E8..0x1EC])
    && g.lastCluster == LeValue(f[0x1EC..0x1F0])
    && g.offsetData == (g.reservedSectors + g.numFATS * g.sectorsPerFAT) % Two32
  }

  lemma DecodeFields(b: Sector, f: Sector)
    ensures Decoded(Decode(b, f), b, f)
  {
    FlagBits(b);
    MemGetIsLeValue(b, Word, 0x00E);
    MemGetIsLeValue(b, Word, 0x013);
    MemGetIsLeValue(b, Word, 0x018);
    MemGetIsLeValue(b, Word, 0x01A);
    MemGetIsLeValue(b, Dword, 0x01C);
    MemGetIsLeValue(b, Dword, 0x020);
    MemGetIsLeValue(b, Dword, 0x024);
    MemGetIsLeValue(b, Word, 0x02A);
    MemGetIsLeValue(b, Dword, 0x02C);
    MemGetIsLeValue(b, Word, 0x030);
    MemGetIsLeValue(b, Word, 0x032);
    MemGetIsLeValue(b, Dword, 0x043);
    MemGetIsLeValue(f, Dword, 0x1E8);
    MemGetIsLeValue(f, Dword, 0x1EC);
    AddMul32(MemGet(b, Word, 0x00E), MemGet(b, Byte, 0x010), MemGet(b, Dword, 0x024));
  }

  /** Bit 7 and bits 0..3 of the 16-bit flags word live in its low byte. */
  lemma FlagBits(b: Sector)
    ensures (MemGet(b, Word, 0x028) / 128) % 2 == (b[0x028] / 128) % 2
    ensures MemGet(b, Word, 0x028) % 16 == b[0x028] % 16
  {
    var lo, hi := b[0x028] as int, b[0x029] as int;
    assert (lo + 256 * hi) / 128 == lo / 128 + 2 * hi;
    assert (lo + 256 * hi) % 16 == lo % 16;
  }

  /** An all-zero boot sector fails the first check, the boot signature. */
  lemma ZeroBootSectorRejected(d: Disk)
    requires 0 in d.sectors && forall j :: 0 <= j < 512 ==> d.sectors[0][j] == 0
    ensures Load(d) == Failed(BadBootSignature)
  {
  }

  /** 1024 bytes per sector is refused once both signatures are right. */
  lemma LargeSectorRejected(d: Disk)
    requires 0 in d.sectors
    requires var b := d.sectors[0];
      && b[0x1FE] == 0x55 && b[0x1FF] == 0xAA && b[0x042] == 0x29
      && b[0x00B] == 0x00 && b[0x00C] == 0x04
    ensures Load(d) == Failed(BadBytesPerSector)
  {
  }
}
