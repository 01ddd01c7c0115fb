/** Opening the destination of a conversion: its format chosen by the
    name's extension, the file created and prepared, and an empty image of
    the source's geometry constructed on it. */
module Destination {
  import opened Common
  import opened Paths
  import opened ImageModel
  import Detect
  import Vmdk

  /** Why a conversion stops. Each stands for a `die` in the engine. */
  datatype ConvertError =
    | Detection(reason: Detect.DetectError)
    | FlatNameTooLong
    | CreateFailed
    | DispositionFailed
    | SetIntegrityFailed
    | SetSparseFailed
    | ImageFault(fault: Fault)
    | CloneRefused

  /** What the operating system answers while the destination is opened and
      finished: the handle CreateFileW returned (absent: INVALID_HANDLE_VALUE),
      whether marking the file delete-on-close succeeded, whether setting its
      integrity information and its sparse attribute succeeded, the file
      information GetFileInformationByHandle returned, whether the VMDK
      descriptor file could be opened, and whether clearing delete-on-close at
      the end succeeded. */
  datatype DstIo = DstIo(
    created: Optional<Handle>,
    dispositionSet: bool,
    integritySet: bool,
    sparseSet: bool,
    info: Optional<FileInfo>,
    descriptorOpened: bool,
    kept: bool)

  /** The destination must be made sparse: when asked to, for every VMDK
      destination, and whenever the source file is sparse. */
  predicate NeedsSparse(forceSparse: bool, format: Format, srcInfo: FileInfo)
  {
    forceSparse || format == VMDK || IsSparse(srcInfo)
  }

  /** The destination's name selects an allowed format, and for VMDK the flat
      file's name fits. */
  predicate Nameable(fileName: string, raw: bool)
  {
    match Detect.DetectByExtension(raw, fileName)
    case Err(_) => false
    case Ok(format) => format == VMDK ==> Vmdk.FlatFileName(fileName).Ok?
  }

  /** Every system call made while opening a destination of the given format
      succeeds, and so does each check of the image. */
  predicate OpenIoPasses(format: Format, forceSparse: bool, blockSize: nat, clusterSize: nat, srcInfo: FileInfo, io: DstIo)
  {
    && io.created.Present? && io.dispositionSet && io.integritySet
    && (NeedsSparse(forceSparse, format, srcInfo) ==> io.sparseSet)
    && IsPow2(clusterSize) && io.info.Present? && IsPow2(blockSize)
  }

  /** The image object for a destination name: its format chosen by the
      extension, and for VMDK the flat file's name derived. */
  method NewDstImage(fileName: string, raw: bool) returns (r: Result<Image, ConvertError>)
    ensures r.Ok? <==> Nameable(fileName, raw)
    ensures Detect.DetectByExtension(raw, fileName).Err? ==> r == Err(Detection(Detect.DetectByExtension(raw, fileName).error))
    ensures Detect.DetectByExtension(raw, fileName).Ok? && r.Err? ==> r == Err(FlatNameTooLong)
    ensures r.Ok? ==> fresh(r.value)
    ensures r.Ok? ==> Detect.DetectByExtension(raw, fileName) == Ok(r.value.format)
    ensures r.Ok? ==> r.value.originalFileName == fileName && r.value.NamesConsistent() && !r.value.headerWritten
  {
    var detected := Detect.DetectByExtension(raw, fileName);
    if detected.Err? {
      return Err(Detection(detected.error));
    }
    var img: Image;
    if detected.value == VMDK {
      var flat := Vmdk.FlatFileName(fileName);
      if flat.Err? {
        return Err(FlatNameTooLong);
      }
      img := new Image.NamedVmdk(fileName, flat.value);
    } else {
      img := new Image.Named(detected.value, fileName);
    }
    img.headerWritten := false;
    r := Ok(img);
  }

  /** The system calls on the newly created destination file, in order:
      create it, mark it delete-on-close, copy the source's integrity settings,
      and set the sparse attribute when the destination must be sparse. A VMDK
      destination is recognised by its type name. */
  method PrepareDstFile(img: Image, forceSparse: bool, srcInfo: FileInfo, io: DstIo)
    returns (o: Outcome<ConvertError>, sparse: bool)
    ensures o.Pass? <==> io.created.Present? && io.dispositionSet && io.integritySet
                         && (NeedsSparse(forceSparse, img.format, srcInfo) ==> io.sparseSet)
    ensures !io.created.Present? ==> o == Fail(CreateFailed)
    ensures io.created.Present? && !io.dispositionSet ==> o == Fail(DispositionFailed)
    ensures io.created.Present? && io.dispositionSet && !io.integritySet ==> o == Fail(SetIntegrityFailed)
    ensures (&& io.created.Present? && io.dispositionSet && io.integritySet
             && NeedsSparse(forceSparse, img.format, srcInfo) && !io.sparseSet) ==> o == Fail(SetSparseFailed)
    ensures o.Pass? ==> (sparse <==> NeedsSparse(forceSparse, img.format, srcInfo))
  {
    sparse := false;
    var forced := forceSparse;
    TypeNameIsVmdkIff(img.format);
    if EqualsIgnoreCase(img.GetImageTypeName(), "VMDK") {
      forced := true;
    }
    if io.created.Absent? {
      return Fail(CreateFailed), sparse;
    }
    if !io.dispositionSet {
      return Fail(DispositionFailed), sparse;
    }
    if !io.integritySet {
      return Fail(SetIntegrityFailed), sparse;
    }
    if forced || IsSparse(srcInfo) {
      if !io.sparseSet {
        return Fail(SetSparseFailed), sparse;
      }
      sparse := true;
    }
    o := Pass;
  }

  /** Open the destination: choose its format by the name's extension, create
      the file that holds its data (for VMDK the flat file), mark it
      delete-on-close, give it the source's integrity settings, make it sparse
      when it must be, attach it with the source volume's cluster size and
      construct an empty header of the source's geometry and the requested
      block size. `sparse` reports whether the sparse attribute was set. */
  method OpenDst(fileName: string, forceSparse: bool, blockSize: nat, isFixed: bool, raw: bool, src: Image, io: DstIo)
    returns (r: Result<Image, ConvertError>, sparse: bool)
    ensures !Nameable(fileName, raw) ==> r.Err?
    ensures Nameable(fileName, raw) ==>
      (r.Ok? <==> OpenIoPasses(Detect.DetectByExtension(raw, fileName).value, forceSparse, blockSize,
                               src.imageIntegrity.clusterSizeInBytes, src.fileInfo, io))
    ensures Detect.DetectByExtension(raw, fileName).Err? ==> r == Err(Detection(Detect.DetectByExtension(raw, fileName).error))
    ensures r.Ok? ==> fresh(r.value)
    ensures r.Ok? ==> Detect.DetectByExtension(raw, fileName) == Ok(r.value.format)
    ensures r.Ok? ==> r.value.originalFileName == fileName && r.value.NamesConsistent()
    ensures r.Ok? ==> r.value.imageFile == io.created.value && r.value.fileInfo == io.info.value
    ensures r.Ok? ==> r.value.requireAlignment == src.imageIntegrity.clusterSizeInBytes
    ensures r.Ok? ==> r.value.diskSize == src.diskSize && r.value.blockSize == blockSize && r.value.fixed == isFixed
    ensures r.Ok? ==> r.value.sectorSize == src.GetSectorSize()
    ensures r.Ok? ==> r.value.table == map[] && r.value.AllocatorValid() && !r.value.headerWritten
    ensures r.Ok? ==> (sparse <==> NeedsSparse(forceSparse, r.value.format, src.fileInfo))
  {
    sparse := false;
    r := NewDstImage(fileName, raw);
    if r.Err? {
      return;
    }
    var img := r.value;
    var prepared;
    prepared, sparse := PrepareDstFile(img, forceSparse, src.GetFileInfo(), io);
    if prepared.Fail? {
      return Err(prepared.error), sparse;
    }
    var attached := img.Attach(io.created.value, src.GetIntegrity().clusterSizeInBytes, io.info);
    if attached.Fail? {
      return Err(ImageFault(attached.error)), sparse;
    }
    var constructed := img.ConstructHeader(src.GetDiskSize(), blockSize, src.GetSectorSize(), isFixed);
    if constructed.Fail? {
      return Err(ImageFault(constructed.error)), sparse;
    }
  }
}
