/** The container image every format variant is: the state the base class
    keeps (file handle, required alignment, file information, integrity
    information, file name), the VMDK variant's own fields, and the block
    table each variant exposes through ProbeBlock and AllocateBlockForWrite.

    The variants are a closed set, so one class with a `format` tag stands
    for the base class and its subclasses. The concrete VHD, VHDX and RAW
    header layouts and allocators are not part of this model; the block table
    here is the abstract map from block index to physical offset that their
    interface promises, with a stand-in allocator that appends each new block
    at the next aligned free offset. */
module ImageModel {
  import opened Common
  import opened Paths
  import Vmdk

  datatype Format = VHDX | VHD | VMDK | RAW

  /** GetImageTypeName of each variant. */
  function TypeName(f: Format): (name: string)
  {
    match f
    case VHDX => "VHDX"
    case VHD => "VHD"
    case VMDK => "VMDK"
    case RAW => "RAW"
  }

  /** The engine recognises the VMDK variant by comparing the type name with
      "VMDK" regardless of case; no other variant's name passes. */
  lemma TypeNameIsVmdkIff(f: Format)
    ensures EqualsIgnoreCase(TypeName(f), "VMDK") <==> f == VMDK
  {
    assert LowerCase("VMDK") == "vmdk";
    match f
    case VHDX => assert LowerCase("VHDX")[3] == 'x';
    case VHD => assert |LowerCase("VHD")| == 3;
    case VMDK =>
    case RAW => assert |LowerCase("RAW")| == 3;
  }

  const DEFAULT_SECTOR_SIZE: nat := 512

  const FILE_ATTRIBUTE_SPARSE_FILE: bv32 := 0x200

  /** An open file handle. */
  type Handle = nat

  /** The volume's integrity-stream information for a file. */
  datatype Integrity = Integrity(checksumAlgorithm: nat, flags: nat, clusterSizeInBytes: nat)

  /** The part of the file information the engine reads. */
  datatype FileInfo = FileInfo(fileAttributes: bv32)

  predicate IsSparse(info: FileInfo)
  {
    info.fileAttributes & FILE_ATTRIBUTE_SPARSE_FILE != 0
  }

  datatype Fault =
    | AlignmentNotPow2      // "Require alignment is not power of 2."
    | BlockSizeNotPow2      // header construction refuses the block size
    | FileInfoUnavailable   // GetFileInformationByHandle failed

  class Image {
    var format: Format
    // base-class state
    var imageFile: Handle
    var requireAlignment: nat
    var fileInfo: FileInfo
    var imageIntegrity: Integrity
    var originalFileName: string
    // VMDK state
    var flatFileName: string
    // header state held by the variant
    var sectorSizeOverride: Optional<nat>   // a variant that reports its own sector size
    var diskSize: nat
    var blockSize: nat
    var sectorSize: nat
    var fixed: bool
    var entries: nat
    var table: map<nat, nat>
    var nextFree: nat
    var headerWritten: bool

    /** The alignment attached to the image is a power of two. */
    ghost predicate Attached()
      reads this
    {
      IsPow2(requireAlignment)
    }

    /** The block table's shape: power-of-two blocks, one entry per block of
        the disk, and only indices below the entry count allocated. */
    ghost predicate Valid()
      reads this
    {
      && IsPow2(blockSize)
      && entries == CeilDiv(diskSize, blockSize)
      && (forall i :: i in table ==> i < entries)
    }

    /** What the allocator keeps: every allocated block is aligned, lies below
        the free offset, and no two blocks overlap. */
    ghost predicate AllocatorValid()
      reads this
    {
      && Attached()
      && Valid()
      && (forall i :: i in table ==> table[i] % requireAlignment == 0 && table[i] + blockSize <= nextFree)
      && (forall i, j :: i in table && j in table && i != j ==>
            table[i] + blockSize <= table[j] || table[j] + blockSize <= table[i])
    }

    /** A VMDK image's flat name is derived from the name it was given. */
    ghost predicate NamesConsistent()
      reads this`format, this`originalFileName, this`flatFileName
    {
      format == VMDK ==> Vmdk.FlatFileName(originalFileName) == Ok(flatFileName)
    }

    /** An image made by content detection, with no name. */
    constructor Unnamed(format: Format)
      ensures this.format == format && originalFileName == [] && table == map[]
      ensures NamesConsistent() == (format != VMDK)
    {
      this.format := format;
      originalFileName := [];
      flatFileName := [];
      table := map[];
    }

    /** An image made for a named destination. */
    constructor Named(format: Format, fileName: string)
      requires format != VMDK
      ensures this.format == format && originalFileName == fileName && table == map[]
      ensures NamesConsistent()
    {
      this.format := format;
      originalFileName := fileName;
      flatFileName := [];
      table := map[];
    }

    /** A VMDK destination: the descriptor's name and the derived flat name. */
    constructor NamedVmdk(fileName: string, flat: string)
      requires Vmdk.FlatFileName(fileName) == Ok(flat)
      ensures format == VMDK && originalFileName == fileName && flatFileName == flat && table == map[]
      ensures NamesConsistent()
    {
      format := VMDK;
      originalFileName := fileName;
      flatFileName := flat;
      table := map[];
    }

    /** The constructor that binds a handle and an alignment at once; it
        aborts when the alignment is not a power of two. */
    static method WithAlignment(format: Format, file: Handle, clusterSize: nat) returns (r: Result<Image, Fault>)
      ensures r.Ok? <==> IsPow2(clusterSize)
      ensures r.Err? ==> r.error == AlignmentNotPow2
      ensures r.Ok? ==> fresh(r.value) && r.value.format == format
      ensures r.Ok? ==> r.value.imageFile == file && r.value.requireAlignment == clusterSize && r.value.Attached()
    {
      var img := new Image.Unnamed(format);
      img.imageFile, img.requireAlignment := file, clusterSize;
      if !IsPow2(clusterSize) {
        return Err(AlignmentNotPow2);
      }
      r := Ok(img);
    }

    /** Bind the image to an open file with the given alignment; aborts when
        the alignment is not a power of two or the file information cannot be
        read (`info` is what GetFileInformationByHandle returned). */
    method Attach(file: Handle, clusterSize: nat, info: Optional<FileInfo>) returns (o: Outcome<Fault>)
      modifies this`imageFile, this`requireAlignment, this`fileInfo
      ensures o.Pass? <==> IsPow2(clusterSize) && info.Present?
      ensures !IsPow2(clusterSize) ==> o == Fail(AlignmentNotPow2) && unchanged(this)
      ensures IsPow2(clusterSize) ==> imageFile == file && requireAlignment == clusterSize && Attached()
      ensures o.Pass? ==> fileInfo == info.value
    {
      if !IsPow2(clusterSize) {
        return Fail(AlignmentNotPow2);
      }
      imageFile := file;
      requireAlignment := clusterSize;
      if info.Absent? {
        return Fail(FileInfoUnavailable);
      }
      fileInfo := info.value;
      o := Pass;
    }

    /** Record the integrity information, then attach with the volume's
        cluster size as the alignment. */
    method AttachIntegrity(file: Handle, integrity: Integrity, info: Optional<FileInfo>) returns (o: Outcome<Fault>)
      modifies this`imageFile, this`requireAlignment, this`fileInfo, this`imageIntegrity
      ensures imageIntegrity == integrity
      ensures o.Pass? <==> IsPow2(integrity.clusterSizeInBytes) && info.Present?
      ensures o.Pass? ==> imageFile == file && requireAlignment == integrity.clusterSizeInBytes && fileInfo == info.value
      ensures o.Pass? ==> Attached()
    {
      imageIntegrity := integrity;
      o := Attach(file, integrity.clusterSizeInBytes, info);
    }

    /** Initialise the header and an empty block table for a new image of the
        given geometry; the block size must be a power of two. */
    method ConstructHeader(diskSize: nat, blockSize: nat, sectorSize: nat, isFixed: bool) returns (o: Outcome<Fault>)
      requires Attached()
      modifies this`sectorSize, this`diskSize, this`blockSize, this`fixed, this`entries, this`table, this`nextFree
      ensures this.sectorSize == sectorSize
      ensures o.Pass? <==> IsPow2(blockSize)
      ensures o.Pass? ==> this.diskSize == diskSize && this.blockSize == blockSize && fixed == isFixed
      ensures o.Pass? ==> table == map[] && AllocatorValid()
    {
      this.sectorSize := sectorSize;
      if !IsPow2(blockSize) {
        return Fail(BlockSizeNotPow2);
      }
      Pow2Positive(blockSize);
      this.diskSize, this.blockSize, fixed := diskSize, blockSize, isFixed;
      entries := CeilDiv(diskSize, blockSize);
      table, nextFree := map[], 0;
      o := Pass;
    }

    /** Persist the header. A VMDK image first writes its descriptor, when the
        descriptor file could be opened; the flat file's header is written in
        every case. */
    method WriteHeader(descriptorOpened: bool) returns (descriptor: Optional<Vmdk.Descriptor>)
      requires format == VMDK ==> sectorSize > 0
      modifies this`headerWritten
      ensures headerWritten
      ensures descriptor.Present? <==> format == VMDK && descriptorOpened
      ensures descriptor.Present? ==> descriptor.value == Vmdk.MakeDescriptor(diskSize, sectorSize, flatFileName)
    {
      headerWritten := true;
      descriptor := Absent;
      if format == VMDK && descriptorOpened {
        var size, sector, flat := diskSize, sectorSize, flatFileName;
        descriptor := Present(Vmdk.MakeDescriptor(size, sector, flat));
      }
    }

    /** The block's physical offset if it is allocated. Reading the table
        changes nothing. */
    function ProbeBlock(index: nat): (r: Optional<nat>)
      reads this
      requires index < entries
      ensures r.Present? <==> index in table
      ensures r.Present? ==> r.value == table[index]
    {
      if index in table then Present(table[index]) else Absent
    }

    /** The whole block table, entry by entry. */
    function Table(): (t: seq<Optional<nat>>)
      reads this
      ensures |t| == entries
      ensures forall i :: 0 <= i < entries ==> t[i] == ProbeBlock(i)
    {
      seq(entries, i reads this requires 0 <= i < entries => ProbeBlock(i))
    }

    /** The physical offset of the block, allocating it if it is not yet
        allocated. Allocating is idempotent: an allocated block keeps its
        offset and nothing else changes. A new block is aligned and overlaps
        no other. */
    method AllocateBlockForWrite(index: nat) returns (offset: nat)
      requires AllocatorValid() && index < entries
      modifies this`table, this`nextFree
      ensures AllocatorValid()
      ensures index in table && offset == table[index]
      ensures table.Keys == old(table.Keys) + {index}
      ensures forall i :: i in old(table) ==> table[i] == old(table[i])
      ensures index in old(table) ==> table == old(table) && nextFree == old(nextFree)
      ensures offset % requireAlignment == 0
    {
      if index in table {
        offset := table[index];
      } else {
        Pow2Positive(requireAlignment);
        offset := RoundUp(nextFree, requireAlignment);
        table := table[index := offset];
        nextFree := offset + blockSize;
      }
    }

    /** The number of block-table entries: just enough blocks to cover the disk. */
    function GetTableEntriesCount(): nat
      reads this
    {
      entries
    }

    function GetBlockSize(): nat
      reads this
    {
      blockSize
    }

    function GetDiskSize(): nat
      reads this
    {
      diskSize
    }

    function IsFixed(): bool
      reads this
    {
      fixed
    }

    function GetImageTypeName(): string
      reads this
    {
      TypeName(format)
    }

    /** The sector size: 512 unless the variant reports its own. */
    function GetSectorSize(): nat
      reads this
    {
      match sectorSizeOverride
      case Present(s) => s
      case Absent => DEFAULT_SECTOR_SIZE
    }

    /** The integrity information recorded when the image was attached. */
    function GetIntegrity(): Integrity
      reads this
    {
      imageIntegrity
    }

    /** The file information read when the image was attached. */
    function GetFileInfo(): FileInfo
      reads this
    {
      fileInfo
    }

    /** The handle the image is attached to. */
    function GetFileH(): Handle
      reads this
    {
      imageFile
    }

    /** The name of the file that holds the image's data: the given name,
        except for VMDK, where it is the flat file, never the descriptor. */
    function GetFileName(): (name: string)
      reads this
      ensures format != VMDK ==> name == originalFileName
      ensures format == VMDK ==> name == flatFileName
      ensures NamesConsistent() && format == VMDK ==> name != originalFileName && Extension(name) == ".vmdk"
    {
      if format == VMDK then flatFileName else originalFileName
    }
  }

  /** The block table has just enough entries to cover the disk: the last
      entry's block reaches the disk's end, and one entry fewer would not. */
  lemma TableCoversDisk(img: Image)
    requires img.Valid()
    ensures img.diskSize <= img.GetTableEntriesCount() * img.blockSize
    ensures img.GetTableEntriesCount() > 0 ==> (img.GetTableEntriesCount() - 1) * img.blockSize < img.diskSize
  {
    Pow2Positive(img.blockSize);
    CeilDivBounds(img.diskSize, img.blockSize);
  }

  /** An entry of the block table read as a whole is the block's entry. */
  lemma TableEntry(img: Image, i: nat)
    requires i < img.entries
    ensures img.Table()[i].Present? <==> i in img.table
    ensures i in img.table ==> img.Table()[i].value == img.table[i]
  {
    assert img.Table()[i] == img.ProbeBlock(i);
  }
}
