# makevhdx conversion engine in Dafny

makevhdx converts a virtual disk image between the VHDX, VHD, VMDK and RAW
formats on a ReFS volume without copying data. It allocates blocks in the
destination image and asks the file system to clone the source's physical
ranges into them (block cloning, `FSCTL_DUPLICATE_EXTENTS_TO_FILE`). This
project models the engine that decides what happens and proves what that
decision guarantees:

- `common.dfy` (`Common`): optional values, results, powers of two and the
  integer facts the block arithmetic rests on.
- `paths.dfy` (`Paths`): the final path component, the extension found the way
  `PathFindExtensionW` finds it, extension removal, and ASCII case-insensitive
  comparison (`_wcsicmp`, `_stricmp`).
- `options.dfy` (`Options`): the caller's `Option` record and how it is
  resolved against the source image.
- `vmdk.dfy` (`Vmdk`): the VMDK flat file's name, derived in a `MAX_PATH`
  buffer, and the numbers the VMDK descriptor declares.
- `image.dfy` (`ImageModel`): the `Image` class. It holds the base-class state
  (handle, required alignment, file and integrity information, file name),
  the VMDK variant's fields, and the block table. The table is a map from
  block index to physical offset, with an allocator that keeps allocated
  blocks aligned and disjoint.
- `detect.dfy` (`Detect`): format detection by content (VHDX signature, VHD
  cookie, sector-multiple size) and by the destination name's extension.
- `plan.dfy` (`BlockPlan`): the copy loop as a pure function from the source
  block table to the sequence of clone requests. The proofs show:
  - every request copies source data to the same virtual address;
  - the requests are ordered;
  - they cover exactly the allocated virtual range;
  - they are cluster-aligned.
- `destination.dfy` (`Destination`): opening the destination. This covers
  choosing the format, the system calls on the new file, attaching it and
  constructing its empty header.
- `convert.dfy` (`Convert`): the copy loops as methods that allocate
  destination blocks and issue clones. These methods are proved against the
  plan. The module also holds the whole conversion, with end-to-end lemmas:
  every allocated byte of the source disk reaches the same virtual byte of
  the destination, and every clone starts at a virtual address inside the
  disk and copies to that same address. The last clone of a disk may run
  on to the end of its block, past the end of the disk.

Calls into the operating system are inputs to the model. While the
destination is opened and finished, the outcomes of `CreateFileW`,
`SetFileInformationByHandle`, the `FSCTL_SET_INTEGRITY_INFORMATION` and
`FSCTL_SET_SPARSE` requests, `GetFileInformationByHandle` and `_wfopen_s`
arrive in a `Destination.DstIo` value, and the engine's `die` becomes an
error result. The source's integrity query belongs to opening the source,
which is not modelled. The clone requests are modelled by the clones they
issue, not by an outcome of the call (see "## Left out").

## Model

| member | source | states |
|---|---|---|
| Paths.FileNameStart | ConvertImage.cpp:35 | The component searched for an extension starts right after the last separator and contains none. |
| Paths.BaseNameStart | VMDK.hpp:78 | The component PathFindFileNameW returns starts right after the last separator or drive colon and contains neither. |
| Paths.BaseName | VMDK.hpp:78 | The final component is the longest suffix without a separator or drive colon. |
| Paths.DriveRelativeBaseName | VMDK.hpp:78 | The drive-relative name `C:disk-flat.vmdk` has the final component `disk-flat.vmdk`. |
| Paths.ExtensionStart | ConvertImage.cpp:35 | The extension starts at the last dot of the final component (never inside a directory name), or at the end when that component has no dot. |
| Paths.Extension | ConvertImage.cpp:35 | The extension is a suffix of the name that starts with its only dot and holds no separator. It is empty only when the final component has no dot. |
| Paths.RemoveExtension | VMDK.hpp:19 | The name without its extension, followed by the extension, gives the name back. |
| Paths.ExtensionOfAppended | VMDK.hpp:18-20 | Appending an extension to a name makes it that name's extension, and removing it gives the name back. |
| Paths.LowerCase | ConvertImage.cpp:36-48 | Case folding keeps the length and folds each character on its own. |
| Paths.EqualsIgnoreCase | ConvertImage.cpp:36-48 | `_wcsicmp(a, b) == 0`. Its meaning letter by letter is `Paths.EqualsIgnoreCaseIff`. |
| Paths.EqualsIgnoreCaseIff | ConvertImage.cpp:36-48 | Two strings compare equal ignoring case exactly when they have the same length and agree letter by letter after folding. |
| Options.DefaultsInheritSource | ConvertImage.hpp:11-17 | A default-constructed `Option` does not force raw mode, and it copies block size, allocation policy and sparseness from the source. |
| Options.Resolve | ConvertImage.cpp:151-154 | The settings the destination is opened with. Their effect on the result is stated by `Convert.ConvertImage`: a nonzero block size and a present `is_fixed` override the source's, and the destination is made sparse exactly when forced, when the source is sparse, or when it is VMDK. |
| Options.ResolvedBlockSizePow2 | ConvertImage.cpp:154 | If the requested and source block sizes are powers of two, so is the resolved one. |
| Vmdk.FlatFileName | VMDK.hpp:15-22 | The flat name exists exactly when the name and the stem plus `-flat.vmdk` fit the buffer. It then fits the buffer, has extension `.vmdk`, has the stem `<stem>-flat`, and differs from the descriptor's name. |
| Vmdk.FlatNameFacts | VMDK.hpp:18-20 | For any name, the derived flat name has extension `.vmdk`, has the stem `<stem>-flat`, and differs from the name. |
| Vmdk.MakeDescriptor | VMDK.hpp:60-79 | The extent's sector count is the disk size divided by the sector size, rounded down. Cylinders are that count over 16 heads × 255 sectors, rounded down. The extent names the flat file's final component, with no separator or drive colon. The parent CID is `ffffffff`. |
| ImageModel.TypeNameIsVmdkIff | ConvertImage.cpp:88 | Comparing the type name with "VMDK" ignoring case picks out the VMDK variant and no other. |
| ImageModel.Image.Unnamed | Image.hpp:23 | A content-detected image has the given format, no name and an empty table. |
| ImageModel.Image.Named | Image.hpp:24-26 | A named non-VMDK image records its name and starts with an empty table. |
| ImageModel.Image.NamedVmdk | VMDK.hpp:15-22 | A VMDK image records the descriptor's name and the flat file's name derived from it. |
| ImageModel.Image.WithAlignment | Image.hpp:27-33 | Binding a handle and alignment at construction succeeds exactly when the alignment is a power of two; the new image records both. Otherwise it fails with the alignment error. |
| ImageModel.Image.Attach | Image.hpp:39-48 | Attaching fails with the alignment error exactly when the cluster size is not a power of two, and then nothing changes. Otherwise it records handle and alignment, and it succeeds exactly when the file information is available, which it then records. |
| ImageModel.Image.AttachIntegrity | Image.hpp:49-52 | Records the integrity information, then attaches with its cluster size. It succeeds under the same conditions as `Attach`. |
| ImageModel.Image.ConstructHeader | Image.hpp:54 | Records the sector size. It succeeds exactly for a power-of-two block size (a check assumed of the variants, see "## Left out"), and then leaves an empty table of the disk's geometry with a consistent allocator. |
| ImageModel.Image.WriteHeader | VMDK.hpp:32-86 | Marks the header written. A descriptor is written exactly for VMDK when its file opens, and it is the one `MakeDescriptor` gives for the disk size, sector size and flat name. |
| ImageModel.Image.ProbeBlock | Image.hpp:66 | A block is present exactly when it is allocated, at its recorded offset. |
| ImageModel.Image.AllocateBlockForWrite | Image.hpp:67 | After the call the block is allocated and its offset is returned. Earlier blocks keep their offsets, and no other block is added. A second call for the same block changes nothing. The offset is aligned, and the allocator stays consistent (blocks disjoint and aligned). |
| ImageModel.Image.GetTableEntriesCount | Image.hpp:65 | The number of table entries; `ImageModel.TableCoversDisk` states it is just enough blocks to cover the disk. |
| ImageModel.Image.GetBlockSize | Image.hpp:64 | The block size recorded by `ConstructHeader`. |
| ImageModel.Image.GetDiskSize | Image.hpp:59 | The disk size recorded by `ConstructHeader`. |
| ImageModel.Image.IsFixed | Image.hpp:57 | The allocation policy recorded by `ConstructHeader`. |
| ImageModel.Image.GetImageTypeName | Image.hpp:58 | The variant's type name; `ImageModel.TypeNameIsVmdkIff` states which name the engine recognises as VMDK. |
| ImageModel.Image.GetSectorSize | Image.hpp:60-63 | 512 (`DEFAULT_SECTOR_SIZE`) unless the variant reports its own. |
| ImageModel.Image.GetIntegrity | Image.hpp:68-70 | The integrity information recorded by `AttachIntegrity`. |
| ImageModel.Image.GetFileInfo | Image.hpp:71-73 | The file information recorded by `Attach`. |
| ImageModel.Image.GetFileH | Image.hpp:74-76 | The handle recorded by `Attach`. |
| ImageModel.Image.GetFileName | VMDK.hpp:91-93 | The data file's name is the given name, except for VMDK: there it is the flat file, which differs from the descriptor's name and ends in `.vmdk`. |
| ImageModel.TableCoversDisk | Image.hpp:65 | The table has just enough entries to cover the disk. |
| Detect.LowPart | ConvertImage.cpp:25 | The low 32 bits of the size fit in 32 bits and agree with the full size modulo 512. |
| Detect.DetectByData | ConvertImage.cpp:8-31 | Content detection; its outcomes are stated by `Detect.DetectByDataOutcome`. |
| Detect.DataRawIgnoresContent | ConvertImage.cpp:8-31 | In raw mode, content detection always gives RAW. |
| Detect.VhdxWinsOverVhd | ConvertImage.cpp:11-16 | The VHDX signature is checked first, so it wins over a VHD cookie. |
| Detect.DetectByDataOutcome | ConvertImage.cpp:8-31 | Content detection gives VHDX, VHD, RAW or the detection error, each under exactly its condition, and never VMDK. |
| Detect.DetectByExtension | ConvertImage.cpp:32-54 | Extension detection; its outcomes are stated by `Detect.DetectByExtensionOutcome`. |
| Detect.ExtensionRawIgnoresName | ConvertImage.cpp:32-54 | In raw mode, extension detection always gives RAW. |
| Detect.ExtensionCaseInsensitive | ConvertImage.cpp:35-51 | Names whose extensions differ only in case are detected alike. |
| Detect.DetectByExtensionOutcome | ConvertImage.cpp:32-54 | `.vhdx`, `.vhd` and `.vmdk` (any case) select their formats. `.avhdx` and `.avhd` are refused as differencing disks. Anything else is RAW. Each holds in both directions. |
| Detect.NoExtensionIsRaw | ConvertImage.cpp:35-53 | A name whose final component has no dot is RAW. |
| Detect.AppendedExtensionSelects | ConvertImage.cpp:35-51 | Any stem followed by a recognised extension selects that extension's format, or is refused for the differencing extensions. |
| Detect.FlatFileDetectsAsVmdk | VMDK.hpp:18-20 | The flat file's name is itself detected as VMDK. |
| BlockPlan.Plan | ConvertImage.cpp:176-222 | The clone requests the copy loops should issue, stopping at the destination table's end. Its meaning is stated by `BlockPlan.PlanSound`, `BlockPlan.PlanOrdered`, `BlockPlan.PlanCoverage` and `BlockPlan.PlanAligned`. |
| BlockPlan.BlockRequestsAsWritten | ConvertImage.cpp:204-219 | The requests the inner loop issues as written, all `S / D` pieces. It is compared with the plan by `BlockPlan.BlockMatchesAsWritten`. |
| BlockPlan.PlanAsWritten | ConvertImage.cpp:176-222 | The requests the loops issue as written. `BlockPlan.AsWrittenOverrunsTable` and `BlockPlan.PlanMatchesAsWritten` relate it to the plan. |
| BlockPlan.Pow2Nested | ConvertImage.cpp:176 | Of two power-of-two block sizes, the smaller divides the larger. |
| BlockPlan.TableFits | ConvertImage.cpp:182-186 | When destination blocks are larger, the destination table spans every source block. |
| BlockPlan.SubRequestsAt | ConvertImage.cpp:204-211 | The k-th piece of a large source block is the k-th destination-sized slice. |
| BlockPlan.BlockSound | ConvertImage.cpp:180-219 | Every request for an allocated source block is sound. Sound means: it reads that block's physical data at the right offset and writes destination block `virt / D` at offset `virt % D`, inside both blocks and inside the table. |
| BlockPlan.PlanSound | ConvertImage.cpp:176-222 | Every request of the whole plan is sound. |
| BlockPlan.SubRequestsOrdered | ConvertImage.cpp:204-219 | The pieces of one block are in increasing, non-overlapping virtual order. |
| BlockPlan.BlockOrdered | ConvertImage.cpp:180-219 | One block's requests are ordered and start at the block's virtual address. |
| BlockPlan.PlanEnds | ConvertImage.cpp:176-222 | Every request ends within the source table's span. |
| BlockPlan.PlanOrdered | ConvertImage.cpp:176-222 | The whole plan is in increasing, non-overlapping virtual order. |
| BlockPlan.BlockCovers | ConvertImage.cpp:180-219 | Every byte of an allocated block that lies inside the destination table is covered by that block's requests. |
| BlockPlan.BackedIsCovered | ConvertImage.cpp:176-222 | A byte of an allocated source block inside the table is covered by the plan. |
| BlockPlan.CoveredIsBacked | ConvertImage.cpp:176-222 | A byte covered by a sound plan lies in an allocated source block. |
| BlockPlan.PlanCoverage | ConvertImage.cpp:176-222 | The plan covers exactly the bytes of the disk that lie in allocated source blocks, in both directions. |
| BlockPlan.RequestMapsBytes | ConvertImage.cpp:182-211 | Each byte in a sound request is copied from its source physical address to the destination block and offset of the same virtual address. |
| BlockPlan.RequestAligned | ConvertImage.cpp:188-190 | Sound requests over a cluster-aligned source table have cluster-aligned source offsets, in-block offsets and lengths. |
| BlockPlan.PlanAligned | ConvertImage.cpp:188-214 | Every request of the plan is cluster-aligned when the smaller block size is a multiple of the cluster size. |
| BlockPlan.AsWrittenOverrunsTable | ConvertImage.cpp:204-210 | The loop as written allocates destination block 7 of a 5-entry table. The corrected plan issues only the in-table piece (see Findings). |
| BlockPlan.BlockMatchesAsWritten | ConvertImage.cpp:204-219 | For a block whose pieces all fit the table, the corrected requests equal those as written. |
| BlockPlan.PlanMatchesAsWritten | ConvertImage.cpp:198-222 | When the source table fits the destination table, the corrected plan equals the loop as written. |
| BlockPlan.ExampleSmallerSourceBlocks | ConvertImage.cpp:182-187 | A 1 MiB source block 3 goes whole into 2 MiB destination block 1, at offset 1 MiB. |
| BlockPlan.ExampleLargerSourceBlocks | ConvertImage.cpp:206-211 | A 4 MiB source block 2 goes as four 1 MiB pieces to destination blocks 8 to 11. |
| Convert.Issue | ConvertImage.cpp:185-187 | Allocates the request's destination block and returns the clone from the source offset to that block's offset plus the in-block offset. The clone realises the request, and earlier allocations are kept. |
| Convert.CloneAligned | ConvertImage.cpp:188-190 | A clone built from an aligned request into an aligned block is cluster-aligned. |
| Convert.BlockRequestAligned | ConvertImage.cpp:188-214 | Every request for an allocated block of a cluster-aligned table is cluster-aligned. |
| Convert.WholeBlockFits | ConvertImage.cpp:183-186 | With larger destination blocks, every source block fits inside the destination table. |
| Convert.CloneWhole | ConvertImage.cpp:180-195 | The clone issued for a source block that fits into one destination block realises that block's plan. It is refused only if misaligned, which cannot happen for an aligned source. |
| Convert.ClonePieces | ConvertImage.cpp:204-219 | The pieces issued for a larger source block realise that block's plan, stopping at the table end. Misaligned pieces are refused, which cannot happen for an aligned source. |
| Convert.PieceAligned | ConvertImage.cpp:209-214 | Each piece written into an aligned block is cluster-aligned. |
| Convert.CloneBlock | ConvertImage.cpp:176-221 | The clones issued for one probed source block realise that block's part of the plan. |
| Convert.CopyBlocks | ConvertImage.cpp:172-222 | The clones realise the plan for the source table, and the destination gains exactly the plan's target blocks. All clones are cluster-aligned. An aligned source never has a clone refused. |
| Convert.ConversionPreservesData | ConvertImage.cpp:172-222 | After a conversion, every allocated byte of the source disk is carried by some clone to the same virtual byte of the destination. |
| Convert.ClonesCopyOnlyDiskData | ConvertImage.cpp:172-222 | Every clone starts at some virtual address inside the disk and copies the source data stored there to that same address in the destination, staying inside both blocks. |
| Convert.StartsInsideDisk | ConvertImage.cpp:176-222 | A request the loops issue for a disk starts before the disk's end: its block lies in one of the two tables, each just long enough to cover the disk. |
| Convert.CopyAndFinish | ConvertImage.cpp:172-228 | On success the blocks are copied as planned, the header and VMDK descriptor are written, and the file is kept. An aligned source whose file can be kept always succeeds. |
| Destination.NewDstImage | ConvertImage.cpp:87 | The destination object exists exactly when the extension selects an allowed format and, for VMDK, the flat name fits. Otherwise the error is the detection error or the name error. |
| Destination.PrepareDstFile | ConvertImage.cpp:88-112 | Create, delete-on-close, integrity and (when needed) sparse run in that order, and the first failure is the error. The destination is made sparse exactly when forced, when it is VMDK, or when the source is sparse. |
| Destination.OpenDst | ConvertImage.cpp:85-117 | Opening succeeds exactly when the name is usable, every system call passes, the cluster size is a power of two and the block size passes the assumed power-of-two check. The result then has the detected format and the source's geometry, alignment, cluster size and sector size. It also has the requested block size and policy, and an empty, consistent table. |
| Convert.ConvertImage | ConvertImage.cpp:119-229 | On success the destination has the format chosen by its name. Its block size is the requested one when nonzero and the source's otherwise, and its policy is the requested one when given and the source's otherwise. It was made sparse exactly when sparse was forced, the source file is sparse, or it is VMDK. It holds the source's data block by block, in allocated blocks that are cluster-aligned and pairwise disjoint in the file, has its header and descriptor written, and is kept. It also carries the source's sector size and cluster alignment and the name it was opened under, with the flat name derived from it for VMDK. Success implies the name was usable, every system call of opening passed, and the cluster size and resolved block size are powers of two, so a failed create always fails the conversion. Every clone is cluster-aligned. The conversion succeeds whenever all of these hold: the name is usable, every system call succeeds, the cluster size and the resolved block size are powers of two, and both the source's blocks and the smaller block size are cluster-aligned. A requested block size of 3 MiB therefore fails even with 4 KiB clusters. |

## Left out

- Opening the source (`OpenSrc`, `ReadHeader`, `CheckConvertible`), and the check of the destination at ConvertImage.cpp:224. The source image is a parameter that satisfies the table's shape invariant.
- The concrete VHD, VHDX and RAW header layouts and allocators (VHD.hpp, VHDX.hpp and RAW.hpp are not part of this model). The block table is an abstract map. Its allocator appends each new block at the next aligned free offset; idempotence, alignment and disjointness are proved of it, not assumed.
- Preallocation of fixed images: `is_fixed` is recorded, but nothing is written ahead.
- ImageModel.Image.ConstructHeader: the refusal of a block size that is not a power of two is an assumed contract of the VHD, VHDX and RAW variants, whose block sizes are powers of two. Image.hpp:54 only declares the operation, and VMDK.hpp:27-31 passes the block size on unchecked. Destination.OpenDst and every plan proof rely on it, because the smaller block size must divide the larger.
- Failure of a clone for reasons other than misalignment: the volume's `DeviceIoControl` outcome for each clone is not an input. A clone is refused exactly when it is not cluster-aligned.
- The `_ASSERT`s at ConvertImage.cpp:188-190 and 212-214 name `ClusterSizeInBytes`, whose declaration at line 130 is commented out. They are modelled as the file system's refusal of a misaligned clone, which ends the conversion.
- Convert.CopyBlocks: the promise that an aligned source never has a clone refused rests on the stand-in allocator, which always returns cluster-aligned offsets. The source does not show the variants' allocators; it only asserts destination alignment (ConvertImage.cpp:189 and 213).
- Convert.CloneWhole, Convert.ClonePieces: the same reliance on the stand-in allocator's alignment applies to their success clauses.
- Convert.CopyAndFinish, Convert.ConvertImage: their "succeeds whenever" clauses inherit the same reliance on the stand-in allocator's alignment.
- Progress output (`wprintf`) and the descriptor's text layout. The descriptor is modelled by the values it declares.
- The descriptor's CID comes from `rand` seeded with the clock, so it is not modelled.
- Destination.PrepareDstFile, Destination.OpenDst: the handle in `DstIo.created` carries no name. The source creates the file named by `GetFileName()` (ConvertImage.cpp:90), which for VMDK is the flat extent, while the descriptor goes to the given name. The model records both names on the image (`ImageModel.Image.GetFileName`), but not which file a handle refers to.
- Paths.BaseName: a name that ends in a separator or drive colon is not split the way PathFindFileNameW splits it, which skips a trailing break. Flat file names always end in `-flat.vmdk`, so the descriptor never meets this case.
- `PathFindExtensionW` details beyond the last-dot rule: it takes only `\` as a separator, where the model also stops at `/`, and it finds no extension when a space follows the last dot. Neither changes which format a name selects, because no recognised extension holds a space or a slash. `\\?\` prefixes in `PathFindExtensionW` and `PathCchRemoveExtension` are not modelled.
- `IsPow2` comes from miscutil.hpp, which is not part of this model. It is modelled as "a positive power of two".
- Integer widths: sizes and offsets are unbounded naturals, except the 32-bit `LowPart` of the file size in content detection. `UINT32` wrap-around of block numbers and offsets is not modelled.
- `_wcsicmp` and `_stricmp` are modelled as ASCII case folding, the behaviour of the default "C" locale.
- Convert.ConvertImage: requires a positive source sector size, because the VMDK descriptor divides the disk size by it.
- ImageModel.Image.GetSectorSize: 512 unless a variant reports its own sector size. The variants' own values are not part of this model.

## Findings

| source | as written | input that shows it | evidently intended | confidence | as-written member | corrected member |
|---|---|---|---|---|---|---|
| ConvertImage.cpp:204-210 | When source blocks are larger than destination blocks, the inner loop issues all `S / D` pieces of every allocated source block, even past the end of the destination table. | Disk 5 MiB, source blocks of 4 MiB (2 entries), destination blocks of 1 MiB (5 entries), source block 1 allocated. The loop allocates destination blocks 4, 5, 6 and 7. | Stop at the destination table's end: only block 4 covers disk data. | not executed | BlockPlan.AsWrittenOverrunsTable | BlockPlan.PlanSound |
