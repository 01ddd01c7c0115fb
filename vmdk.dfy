/** The VMDK destination: a descriptor file (VMware Virtual Disk Format 1.1,
    "The Descriptor File") that names a separate flat data file holding the
    raw disk. This module holds the pure parts: the flat file's name, derived
    from the descriptor's name in a fixed MAX_PATH buffer, and the numbers the
    descriptor declares. */
module Vmdk {
  import opened Common
  import opened Paths

  /** Capacity of the name buffer, terminating NUL included. */
  const MAX_PATH: nat := 260

  const FLAT_SUFFIX: string := "-flat.vmdk"

  /** Geometry the descriptor always declares. */
  const HEADS: nat := 16
  const SECTORS_PER_TRACK: nat := 255

  /** The parent content identifier of a disk without a parent. */
  const NO_PARENT_CID: string := "ffffffff"

  datatype NameError = NameTooLong

  /** The flat file's name: the descriptor's name with its extension removed
      and `-flat.vmdk` appended. Copying the name into the buffer, and
      appending the suffix, abort when the result would not fit. */
  function FlatFileName(fileName: string): (r: Result<string, NameError>)
    ensures r.Ok? <==> |fileName| < MAX_PATH && |RemoveExtension(fileName)| + |FLAT_SUFFIX| < MAX_PATH
    ensures r.Ok? ==> |r.value| < MAX_PATH
    ensures r.Ok? ==> Extension(r.value) == ".vmdk"
    ensures r.Ok? ==> RemoveExtension(r.value) == RemoveExtension(fileName) + "-flat"
    ensures r.Ok? ==> r.value != fileName
  {
    if |fileName| + 1 > MAX_PATH then Err(NameTooLong)
    else
      var stem := RemoveExtension(fileName);
      if |stem| + |FLAT_SUFFIX| + 1 > MAX_PATH then Err(NameTooLong)
      else
        FlatNameFacts(fileName);
        Ok(stem + FLAT_SUFFIX)
  }

  /** The appended suffix becomes the new extension, and the flat name never
      coincides with the descriptor's own name. */
  lemma FlatNameFacts(fileName: string)
    ensures Extension(RemoveExtension(fileName) + FLAT_SUFFIX) == ".vmdk"
    ensures RemoveExtension(RemoveExtension(fileName) + FLAT_SUFFIX) == RemoveExtension(fileName) + "-flat"
    ensures RemoveExtension(fileName) + FLAT_SUFFIX != fileName
  {
    var stem := RemoveExtension(fileName);
    assert FLAT_SUFFIX == "-flat" + ".vmdk";
    assert stem + FLAT_SUFFIX == (stem + "-flat") + ".vmdk";
    ExtensionOfAppended(stem + "-flat", ".vmdk");
    var k := ExtensionStart(fileName);
    if k < |fileName| {
      assert (stem + FLAT_SUFFIX)[k] == '-' && fileName[k] == '.';
    }
  }

  /** The values written into the descriptor. */
  datatype Descriptor = Descriptor(
    parentCid: string,
    extentSectors: nat,
    extentFileName: string,
    heads: nat,
    sectorsPerTrack: nat,
    cylinders: nat)

  /** The descriptor for a flat file of `rawDiskSize` bytes in sectors of
      `sectorSize` bytes. */
  function MakeDescriptor(rawDiskSize: nat, sectorSize: nat, flatFileName: string): (d: Descriptor)
    requires sectorSize > 0
    ensures d.extentSectors * sectorSize <= rawDiskSize < d.extentSectors * sectorSize + sectorSize
    ensures d.heads == HEADS && d.sectorsPerTrack == SECTORS_PER_TRACK
    ensures d.cylinders * (HEADS * SECTORS_PER_TRACK) <= d.extentSectors < (d.cylinders + 1) * (HEADS * SECTORS_PER_TRACK)
    ensures d.extentFileName == BaseName(flatFileName)
    ensures forall j :: 0 <= j < |d.extentFileName| ==> !IsNameBreak(d.extentFileName[j])
    ensures d.parentCid == NO_PARENT_CID
  {
    var sectors := rawDiskSize / sectorSize;
    SectorBounds(rawDiskSize, sectorSize);
    CylinderBounds(sectors);
    Descriptor(NO_PARENT_CID, sectors, BaseName(flatFileName), HEADS, SECTORS_PER_TRACK, sectors / 16 / 255)
  }

  /** Dividing by the heads and then by the sectors per track is dividing by
      one cylinder's sector count. */
  lemma CylinderBounds(sectors: nat)
    ensures sectors / 16 / 255 * (HEADS * SECTORS_PER_TRACK) <= sectors < (sectors / 16 / 255 + 1) * (HEADS * SECTORS_PER_TRACK)
  {
    var q1 := sectors / 16;
    DivModUnique(sectors, 16, q1, sectors % 16);
    DivModUnique(q1, 255, q1 / 255, q1 % 255);
  }

  /** The whole sectors of a disk: at most the disk, and one more would exceed it. */
  lemma SectorBounds(size: nat, sectorSize: nat)
    requires sectorSize > 0
    ensures size / sectorSize * sectorSize <= size < size / sectorSize * sectorSize + sectorSize
  {
    DivModUnique(size, sectorSize, size / sectorSize, size % sectorSize);
  }
}
