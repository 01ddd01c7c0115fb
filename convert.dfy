/** The conversion engine: opening the destination, cloning every allocated
    block of the source into it, and writing its header.

    Nothing is copied: each allocated source extent is cloned into the
    destination file by block cloning (FSCTL_DUPLICATE_EXTENTS_TO_FILE), so
    the engine's whole effect on the data is the list of clone requests it
    issues and the destination blocks it allocates for them. The calls into
    the operating system are inputs: whether a file could be created, whether
    an I/O control succeeded, what file information it returned. */
module Convert {
  import opened Common
  import opened Paths
  import opened Options
  import opened ImageModel
  import opened BlockPlan
  import opened Destination
  import Detect
  import Vmdk

  /** One block-cloning request (DUPLICATE_EXTENTS_DATA): clone `byteCount`
      bytes from the source file at `sourceFileOffset` into the destination
      file at `targetFileOffset`. */
  datatype DupExtent = DupExtent(sourceFileOffset: nat, targetFileOffset: nat, byteCount: nat)

  /** The block-cloning call only accepts extents aligned to the volume's
      cluster size. */
  predicate ClusterAligned(c: DupExtent, clusterSize: nat)
  {
    clusterSize > 0 && c.sourceFileOffset % clusterSize == 0 && c.targetFileOffset % clusterSize == 0 && c.byteCount % clusterSize == 0
  }

  /** The destination blocks a plan writes to. */
  function Targets(plan: seq<Request>): set<nat>
  {
    if plan == [] then {} else Targets(plan[..|plan| - 1]) + {plan[|plan| - 1].dstBlock}
  }

  /** The clones carry out the plan against the destination's block table:
      request by request, the same source offset and length, written at the
      physical offset of the request's destination block plus its offset
      inside that block. */
  ghost predicate Realizes(clones: seq<DupExtent>, plan: seq<Request>, table: map<nat, nat>)
  {
    && |clones| == |plan|
    && forall j :: 0 <= j < |plan| ==>
         plan[j].dstBlock in table
         && clones[j] == DupExtent(plan[j].src, table[plan[j].dstBlock] + plan[j].intra, plan[j].len)
  }

  /** Each block of a plan, taken in order, is a target of the plan. */
  lemma {:induction false} TargetsContain(plan: seq<Request>, j: nat)
    requires j < |plan|
    ensures plan[j].dstBlock in Targets(plan)
  {
    if j < |plan| - 1 {
      TargetsContain(plan[..|plan| - 1], j);
    }
  }

  /** The table `t2` keeps every entry of `t1`. */
  ghost predicate Extends(t1: map<nat, nat>, t2: map<nat, nat>)
  {
    forall k :: k in t1 ==> k in t2 && t2[k] == t1[k]
  }

  /** Against the table it started from, `table` gained exactly the plan's
      targets, and the clones realize the plan on it. */
  ghost predicate Tracks(table0: map<nat, nat>, table: map<nat, nat>, clones: seq<DupExtent>, plan: seq<Request>)
  {
    Realizes(clones, plan, table) && table.Keys == table0.Keys + Targets(plan)
  }

  /** Every clone is aligned to the cluster size. */
  ghost predicate AllAligned(clones: seq<DupExtent>, clusterSize: nat)
  {
    forall c :: c in clones ==> ClusterAligned(c, clusterSize)
  }

  lemma ExtendsTrans(t1: map<nat, nat>, t2: map<nat, nat>, t3: map<nat, nat>)
    requires Extends(t1, t2) && Extends(t2, t3)
    ensures Extends(t1, t3)
  {
  }

  lemma {:induction false} TargetsConcat(a: seq<Request>, b: seq<Request>)
    ensures Targets(a + b) == Targets(a) + Targets(b)
    decreases |b|
  {
    if b == [] {
      assert a + b == a;
    } else {
      var b0 := b[..|b| - 1];
      assert (a + b)[..|a + b| - 1] == a + b0;
      TargetsConcat(a, b0);
    }
  }

  /** A realized plan stays realized while the table only grows, and two
      realized plans concatenate. */
  lemma RealizesConcat(c1: seq<DupExtent>, p1: seq<Request>, c2: seq<DupExtent>, p2: seq<Request>, t1: map<nat, nat>, t2: map<nat, nat>)
    requires Realizes(c1, p1, t1) && Realizes(c2, p2, t2) && Extends(t1, t2)
    ensures Realizes(c1 + c2, p1 + p2, t2)
  {
    forall j | 0 <= j < |p1 + p2|
      ensures (p1 + p2)[j].dstBlock in t2
      ensures (c1 + c2)[j] == DupExtent((p1 + p2)[j].src, t2[(p1 + p2)[j].dstBlock] + (p1 + p2)[j].intra, (p1 + p2)[j].len)
    {
      if j < |p1| {
        assert (p1 + p2)[j] == p1[j] && (c1 + c2)[j] == c1[j];
      } else {
        assert (p1 + p2)[j] == p2[j - |p1|] && (c1 + c2)[j] == c2[j - |c1|];
      }
    }
  }

  /** Issue the clone for one request: allocate its destination block (or
      find it allocated) and aim the clone at the block's offset plus the
      request's offset inside it. */
  method Issue(dst: Image, r: Request) returns (c: DupExtent)
    requires dst.AllocatorValid() && r.dstBlock < dst.entries
    modifies dst`table, dst`nextFree
    ensures dst.AllocatorValid()
    ensures r.dstBlock in dst.table && c == DupExtent(r.src, dst.table[r.dstBlock] + r.intra, r.len)
    ensures Tracks(old(dst.table), dst.table, [c], [r])
    ensures Extends(old(dst.table), dst.table)
    ensures dst.table[r.dstBlock] % dst.requireAlignment == 0
  {
    var offset := dst.AllocateBlockForWrite(r.dstBlock);
    c := DupExtent(r.src, offset + r.intra, r.len);
    assert [r][..0] == [];
  }

  /** The alignment a request needs so that its clone is aligned too. */
  lemma CloneAligned(r: Request, offset: nat, clusterSize: nat)
    requires clusterSize > 0
    requires offset % clusterSize == 0
    requires r.src % clusterSize == 0 && r.intra % clusterSize == 0 && r.len % clusterSize == 0
    ensures ClusterAligned(DupExtent(r.src, offset + r.intra, r.len), clusterSize)
  {
    MultipleAdd(offset, r.intra, clusterSize);
  }

  /** The request's own alignment, when the source blocks and the smaller
      block size are cluster-aligned. */
  lemma BlockRequestAligned(t: seq<Optional<nat>>, i: nat, S: nat, D: nat, limit: nat, C: nat, r: Request)
    requires Nested(S, D) && C > 0
    requires i < |t| && t[i].Present?
    requires S <= D ==> (i + 1) * S <= limit * D
    requires SourceAligned(t, C) && Min(S, D) % C == 0
    requires r in BlockRequests(i, t[i].value, S, D, limit)
    ensures r.src % C == 0 && r.intra % C == 0 && r.len % C == 0
  {
    BlockSound(t, i, t[i].value, S, D, limit);
    MinDividesBoth(S, D);
    RequestAligned(r, t, S, D, limit, C);
  }

  /** When both images describe the same disk and S <= D, every source block
      ends by the end of the destination's table. */
  lemma WholeBlockFits(disk: nat, S: nat, D: nat, i: nat)
    requires Nested(S, D) && S <= D
    requires i < CeilDiv(disk, S)
    ensures (i + 1) * S <= CeilDiv(disk, D) * D
  {
    TableFits(disk, S, D);
    MulLe(i + 1, CeilDiv(disk, S), S);
  }

  /** Clone allocated source block `i`, at physical offset `t[i]`, when source
      blocks are no larger than destination blocks: one clone of the whole
      block into destination block i*S/D, at offset i*S mod D. */
  method CloneWhole(dst: Image, ghost t: seq<Optional<nat>>, i: nat, p: nat, S: nat, D: nat)
    returns (cs: seq<DupExtent>, ok: bool)
    requires Nested(S, D) && S <= D && i < |t| && t[i] == Present(p)
    requires dst.AllocatorValid() && dst.blockSize == D
    requires (i + 1) * S <= dst.entries * D
    modifies dst`table, dst`nextFree
    ensures dst.AllocatorValid() && Extends(old(dst.table), dst.table)
    ensures ok ==> Tracks(old(dst.table), dst.table, cs, BlockRequests(i, p, S, D, dst.entries))
    ensures AllAligned(cs, dst.requireAlignment)
    ensures SourceAligned(t, dst.requireAlignment) && S % dst.requireAlignment == 0 ==> ok
  {
    WholeFits(i, p, S, D, dst.entries);
    var r := Whole(i, p, S, D);
    var c := Issue(dst, r);
    var C := dst.requireAlignment;
    Pow2Positive(C);
    if SourceAligned(t, C) && S % C == 0 {
      BlockRequestAligned(t, i, S, D, dst.entries, C, r);
      CloneAligned(r, dst.table[r.dstBlock], C);
    }
    if !ClusterAligned(c, C) {
      return [], false;
    }
    cs, ok := [c], true;
  }

  /** Clone allocated source block `i`, at physical offset `t[i]`, when source
      blocks are larger than destination blocks: one clone per D-byte piece,
      each into its own destination block from its start, stopping at the
      destination's table end. */
  method ClonePieces(dst: Image, ghost t: seq<Optional<nat>>, i: nat, p: nat, S: nat, D: nat)
    returns (cs: seq<DupExtent>, ok: bool)
    requires Nested(S, D) && D < S && i < |t| && t[i] == Present(p)
    requires dst.AllocatorValid() && dst.blockSize == D
    modifies dst`table, dst`nextFree
    ensures dst.AllocatorValid() && Extends(old(dst.table), dst.table)
    ensures ok ==> Tracks(old(dst.table), dst.table, cs, BlockRequests(i, p, S, D, dst.entries))
    ensures AllAligned(cs, dst.requireAlignment)
    ensures SourceAligned(t, dst.requireAlignment) && D % dst.requireAlignment == 0 ==> ok
  {
    var C := dst.requireAlignment;
    Pow2Positive(C);
    ghost var hyp := SourceAligned(t, C) && D % C == 0;
    ghost var limit := dst.entries;
    ghost var table0 := dst.table;
    var ratio := S / D;
    cs := [];
    ghost var done: seq<Request> := [];
    var k := 0;
    while k < ratio
      invariant k <= SubCount(i, ratio, limit)
      invariant done == SubRequests(i, p, S, D, k)
      invariant dst.AllocatorValid() && dst.entries == limit && dst.requireAlignment == C
      invariant Extends(table0, dst.table)
      invariant Tracks(table0, dst.table, cs, done)
      invariant AllAligned(cs, C)
    {
      var r := Piece(i, p, S, D, k);
      if r.dstBlock >= dst.entries {
        break;
      }
      ghost var table1 := dst.table;
      var c := Issue(dst, r);
      if hyp {
        PieceAligned(t, i, p, k, S, D, limit, C, dst.table[r.dstBlock]);
      }
      if !ClusterAligned(c, C) {
        return cs, false;
      }
      PieceStep(i, p, k, S, D, limit, done);
      ChainStep(cs, done, [c], [r], table0, table1, dst.table);
      cs, done := cs + [c], done + [r];
      k := k + 1;
    }
    PiecesDone(i, p, k, S, D, limit);
    ok := true;
  }

  /** A piece the loop issues is cluster-aligned when the source is. */
  lemma PieceAligned(t: seq<Optional<nat>>, i: nat, p: nat, k: nat, S: nat, D: nat, limit: nat, C: nat, offset: nat)
    requires Nested(S, D) && D < S && C > 0 && k < S / D
    requires i < |t| && t[i] == Present(p)
    requires Piece(i, p, S, D, k).dstBlock < limit
    requires SourceAligned(t, C) && D % C == 0 && offset % C == 0
    ensures ClusterAligned(DupExtent(Piece(i, p, S, D, k).src, offset, D), C)
  {
    var r := Piece(i, p, S, D, k);
    PieceCounted(i, p, k, S, D, limit);
    SubRequestsAt(i, p, S, D, SubCount(i, S / D, limit), k);
    BlockRequestAligned(t, i, S, D, limit, C, r);
    CloneAligned(r, offset, C);
  }

  /** The bookkeeping of one iteration of the piece loop: the pieces issued so far are
      still the plan's first pieces. */
  lemma PieceStep(i: nat, p: nat, k: nat, S: nat, D: nat, limit: nat, done: seq<Request>)
    requires Nested(S, D) && D < S && k < S / D
    requires Piece(i, p, S, D, k).dstBlock < limit
    requires done == SubRequests(i, p, S, D, k)
    ensures k + 1 <= SubCount(i, S / D, limit)
    ensures done + [Piece(i, p, S, D, k)] == SubRequests(i, p, S, D, k + 1)
  {
    PieceCounted(i, p, k, S, D, limit);
  }

  /** Clones issued in two rounds realize the two request lists in order, and the table
      gains the targets of both. */
  lemma ChainStep(clones: seq<DupExtent>, done: seq<Request>, cs: seq<DupExtent>, block: seq<Request>,
                  table0: map<nat, nat>, table1: map<nat, nat>, table2: map<nat, nat>)
    requires Extends(table0, table1) && Extends(table1, table2)
    requires Tracks(table0, table1, clones, done) && Tracks(table1, table2, cs, block)
    ensures Extends(table0, table2)
    ensures Tracks(table0, table2, clones + cs, done + block)
  {
    RealizesConcat(clones, done, cs, block, table1, table2);
    TargetsConcat(done, block);
    ExtendsTrans(table0, table1, table2);
  }

  /** The whole-block request of the S <= D loop lands inside the table. */
  lemma WholeFits(i: nat, p: nat, S: nat, D: nat, limit: nat)
    requires Nested(S, D) && S <= D
    requires (i + 1) * S <= limit * D
    ensures BlockRequests(i, p, S, D, limit) == [Whole(i, p, S, D)]
    ensures Whole(i, p, S, D).dstBlock < limit
  {
    SmallerSourceArith(i, S, D, limit);
  }

  /** A piece below the table end is one the plan keeps. */
  lemma PieceCounted(i: nat, p: nat, k: nat, S: nat, D: nat, limit: nat)
    requires Nested(S, D) && D < S && k < S / D
    requires Piece(i, p, S, D, k).dstBlock < limit
    ensures k < SubCount(i, S / D, limit)
  {
    PieceArith(i, k, S, D, S / D);
  }

  /** The piece loop stops exactly at the number of pieces the plan keeps. */
  lemma PiecesDone(i: nat, p: nat, k: nat, S: nat, D: nat, limit: nat)
    requires Nested(S, D) && D < S
    requires k <= SubCount(i, S / D, limit)
    requires k == S / D || Piece(i, p, S, D, k).dstBlock >= limit
    ensures k == SubCount(i, S / D, limit)
  {
    if k < S / D {
      PieceArith(i, k, S, D, S / D);
    }
  }

  /** The plan of a prefix of the table, one block longer. */
  lemma PlanPrefix(t: seq<Optional<nat>>, i: nat, S: nat, D: nat, limit: nat)
    requires S > 0 && D > 0 && i <= |t|
    ensures i == 0 ==> Plan(t[..i], S, D, limit) == []
    ensures i > 0 ==> Plan(t[..i], S, D, limit) == Plan(t[..i - 1], S, D, limit) + BlockTail(t[i - 1], i - 1, S, D, limit)
    ensures i == |t| ==> t[..i] == t
  {
    if i > 0 {
      assert t[..i][..i - 1] == t[..i - 1];
    }
  }

  /** Clone one source block, whichever of the two loops applies; an
      unallocated block clones nothing. */
  method CloneBlock(dst: Image, ghost t: seq<Optional<nat>>, ghost disk: nat, i: nat, probe: Optional<nat>, S: nat, D: nat)
    returns (cs: seq<DupExtent>, ok: bool)
    requires Nested(S, D) && i < |t| && t[i] == probe
    requires |t| == CeilDiv(disk, S)
    requires dst.AllocatorValid() && dst.blockSize == D && dst.entries == CeilDiv(disk, D)
    modifies dst`table, dst`nextFree
    ensures dst.AllocatorValid() && Extends(old(dst.table), dst.table)
    ensures ok ==> Tracks(old(dst.table), dst.table, cs, BlockTail(probe, i, S, D, dst.entries))
    ensures AllAligned(cs, dst.requireAlignment)
    ensures SourceAligned(t, dst.requireAlignment) && Min(S, D) % dst.requireAlignment == 0 ==> ok
  {
    if probe.Absent? {
      return [], true;
    }
    if S <= D {
      WholeBlockFits(disk, S, D, i);
      cs, ok := CloneWhole(dst, t, i, probe.value, S, D);
    } else {
      cs, ok := ClonePieces(dst, t, i, probe.value, S, D);
    }
  }

  /** The engine's copy loop, block by block over the source table.

      What it achieves: the clones carry out `Plan` on the source table,
      exactly the plan's destination blocks are newly allocated, earlier
      allocations keep their offsets, and when the source is cluster-aligned
      no clone is refused. */
  method CopyBlocks(src: Image, dst: Image) returns (clones: seq<DupExtent>, ok: bool)
    requires src != dst
    requires src.Valid() && dst.AllocatorValid()
    requires dst.diskSize == src.diskSize
    requires dst.requireAlignment == src.imageIntegrity.clusterSizeInBytes
    modifies dst`table, dst`nextFree
    ensures dst.AllocatorValid()
    ensures Extends(old(dst.table), dst.table)
    ensures ok ==> Realizes(clones, Plan(src.Table(), src.blockSize, dst.blockSize, dst.entries), dst.table)
    ensures ok ==> dst.table.Keys == old(dst.table.Keys) + Targets(Plan(src.Table(), src.blockSize, dst.blockSize, dst.entries))
    ensures forall c :: c in clones ==> ClusterAligned(c, dst.requireAlignment)
    ensures SourceAligned(src.Table(), dst.requireAlignment) && Min(src.blockSize, dst.blockSize) % dst.requireAlignment == 0 ==> ok
  {
    var S, D := src.GetBlockSize(), dst.GetBlockSize();
    Pow2Nested(S, D);
    ghost var t := src.Table();
    ghost var limit := dst.entries;
    ghost var table0 := dst.table;
    var n := src.GetTableEntriesCount();
    clones := [];
    ghost var done: seq<Request> := [];
    var i := 0;
    PlanPrefix(t, 0, S, D, limit);
    while i < n
      invariant 0 <= i <= n && n == |t|
      invariant done == Plan(t[..i], S, D, limit)
      invariant dst.AllocatorValid() && dst.entries == limit && dst.blockSize == D
      invariant Extends(table0, dst.table)
      invariant Tracks(table0, dst.table, clones, done)
      invariant AllAligned(clones, dst.requireAlignment)
    {
      ghost var table1 := dst.table;
      var probe := src.ProbeBlock(i);
      var cs, blockOk := CloneBlock(dst, t, src.diskSize, i, probe, S, D);
      if !blockOk {
        return clones, false;
      }
      ghost var block := BlockTail(probe, i, S, D, limit);
      CopyStep(t, i, S, D, limit, done, block);
      ChainStep(clones, done, cs, block, table0, table1, dst.table);
      clones, done := clones + cs, done + block;
      i := i + 1;
    }
    PlanPrefix(t, n, S, D, limit);
    ok := true;
  }

  /** The bookkeeping of one iteration of the copy loop: the requests issued so far are
      the plan of the blocks visited so far. */
  lemma CopyStep(t: seq<Optional<nat>>, i: nat, S: nat, D: nat, limit: nat,
                 done: seq<Request>, block: seq<Request>)
    requires S > 0 && D > 0 && i < |t|
    requires done == Plan(t[..i], S, D, limit) && block == BlockTail(t[i], i, S, D, limit)
    ensures done + block == Plan(t[..i + 1], S, D, limit)
  {
    PlanPrefix(t, i + 1, S, D, limit);
  }

  /** What a finished conversion leaves in the destination: the same disk,
      the header written, the source's block plan carried out by the clones,
      and exactly the plan's destination blocks allocated, each cluster-aligned
      and no two overlapping in the file. */
  ghost predicate Converted(src: Image, d: Image, clones: seq<DupExtent>)
    reads src, d
  {
    && d.headerWritten && d.diskSize == src.diskSize && src.blockSize > 0 && d.blockSize > 0 && d.AllocatorValid()
    && Realizes(clones, Plan(src.Table(), src.blockSize, d.blockSize, d.entries), d.table)
    && d.table.Keys == Targets(Plan(src.Table(), src.blockSize, d.blockSize, d.entries))
  }

  /** Some clone copies source-file byte `s` to destination-file byte `d`. */
  ghost predicate Carries(clones: seq<DupExtent>, s: nat, d: nat)
    decreases |clones|
  {
    && clones != []
    && (|| Carries(clones[..|clones| - 1], s, d)
        || (var c := clones[|clones| - 1];
            c.sourceFileOffset <= s < c.sourceFileOffset + c.byteCount && d == c.targetFileOffset + (s - c.sourceFileOffset)))
  }

  lemma {:induction false} CarriesAt(clones: seq<DupExtent>, j: nat, s: nat, d: nat)
    requires j < |clones|
    requires clones[j].sourceFileOffset <= s < clones[j].sourceFileOffset + clones[j].byteCount
    requires d == clones[j].targetFileOffset + (s - clones[j].sourceFileOffset)
    ensures Carries(clones, s, d)
    decreases |clones|
  {
    if j < |clones| - 1 {
      CarriesAt(clones[..|clones| - 1], j, s, d);
    }
  }

  /** The conversion preserves the disk's contents: every byte of the
      virtual disk that lies in an allocated source block is cloned from
      where the source stores it (its block's offset plus its offset in the
      block) to where the destination stores it, in a destination block that
      is allocated. */
  lemma ConversionPreservesData(src: Image, d: Image, clones: seq<DupExtent>, v: nat)
    requires src.Valid() && Converted(src, d, clones)
    requires v < src.diskSize && v / src.blockSize in src.table
    ensures v / d.blockSize in d.table
    ensures Carries(clones, src.table[v / src.blockSize] + v % src.blockSize, d.table[v / d.blockSize] + v % d.blockSize)
  {
    var S, D, t, limit := src.blockSize, d.blockSize, src.Table(), d.entries;
    Pow2Nested(S, D);
    CeilDivBounds(src.diskSize, D);
    if S <= D {
      TableFits(src.diskSize, S, D);
    }
    assert Backed(t, S, v);
    PlanCoverage(t, S, D, limit, src.diskSize);
    var plan := Plan(t, S, D, limit);
    var j := CoveredByWitness(plan, v);
    PlanSound(t, S, D, limit);
    assert plan[j] in plan;
    RequestMapsBytes(plan[j], t, S, D, limit, v);
    CarriesAt(clones, j, src.table[v / S] + v % S, d.table[v / D] + v % D);
  }

  /** A sound request reads from an allocated block of the source. */
  lemma SoundIsBacked(src: Image, r: Request, D: nat, limit: nat)
    requires src.blockSize > 0 && D > 0
    requires Sound(r, src.Table(), src.blockSize, D, limit)
    ensures r.virt / src.blockSize in src.table
    ensures r.src == src.table[r.virt / src.blockSize] + r.virt % src.blockSize
  {
    TableEntry(src, r.virt / src.blockSize);
  }

  /** Conversely, every clone copies a run of virtual-disk bytes starting at
      some `v` inside the disk from where the source stores it to where the
      destination stores it, and the run stays inside one source block and
      one destination block (the last run may reach past the end of the disk
      to the end of its block). */
  lemma ClonesCopyOnlyDiskData(src: Image, d: Image, clones: seq<DupExtent>, j: nat) returns (v: nat)
    requires src.Valid() && Converted(src, d, clones)
    requires j < |clones|
    ensures v < src.diskSize
    ensures v / src.blockSize in src.table && v / d.blockSize in d.table
    ensures clones[j].sourceFileOffset == src.table[v / src.blockSize] + v % src.blockSize
    ensures clones[j].targetFileOffset == d.table[v / d.blockSize] + v % d.blockSize
    ensures v % src.blockSize + clones[j].byteCount <= src.blockSize
    ensures v % d.blockSize + clones[j].byteCount <= d.blockSize
  {
    var S, D, t, limit := src.blockSize, d.blockSize, src.Table(), d.entries;
    Pow2Nested(S, D);
    if S <= D {
      TableFits(src.diskSize, S, D);
    }
    var plan := Plan(t, S, D, limit);
    PlanSound(t, S, D, limit);
    var r := plan[j];
    assert r in plan;
    assert Sound(r, t, S, D, limit);
    v := r.virt;
    SoundIsBacked(src, r, D, limit);
    assert r.len > 0 by {
      assert r.len == Min(S, D);
    }
    DivModUnique(v, D, r.dstBlock, r.intra);
    assert clones[j] == DupExtent(r.src, d.table[r.dstBlock] + r.intra, r.len);
    StartsInsideDisk(src.diskSize, S, D, |t|, limit, r);
  }

  /** A sound request starts inside the disk: its virtual address is a
      multiple of the smaller block size, and the block it starts in is one
      of the first CeilDiv(disk, S) source blocks or CeilDiv(disk, D)
      destination blocks. */
  lemma StartsInsideDisk(disk: nat, S: nat, D: nat, n: nat, limit: nat, r: Request)
    requires S > 0 && D > 0 && n == CeilDiv(disk, S) && limit == CeilDiv(disk, D)
    requires r.virt / S < n && r.len == Min(S, D) && r.virt % r.len == 0
    requires r.dstBlock * D + r.intra == r.virt && r.intra + r.len <= D && r.dstBlock < limit
    ensures r.virt < disk
  {
    if S <= D {
      assert r.len == S;
      assert r.virt == r.virt / S * S + r.virt % S;
      BlockStartInsideDisk(disk, S, n, r.virt / S, r.virt);
    } else {
      assert r.len == D;
      assert r.intra == 0;
      BlockStartInsideDisk(disk, D, limit, r.dstBlock, r.virt);
    }
  }

  /** The start of a block of a table just long enough to cover the disk
      lies inside the disk. */
  lemma BlockStartInsideDisk(disk: nat, B: nat, n: nat, q: nat, v: nat)
    requires B > 0 && n == CeilDiv(disk, B) && q < n && v == q * B
    ensures v < disk
  {
    CeilDivBounds(disk, B);
    MulLe(q, n - 1, B);
  }

  /** A descriptor is produced exactly for a VMDK destination whose
      descriptor file could be opened, and it describes the destination. */
  predicate DescriptorWritten(d: Image, descriptorOpened: bool, descriptor: Optional<Vmdk.Descriptor>)
    reads d
  {
    && (descriptor.Present? <==> d.format == VMDK && descriptorOpened)
    && (descriptor.Present? ==> d.sectorSize > 0 && descriptor.value == Vmdk.MakeDescriptor(d.diskSize, d.sectorSize, d.flatFileName))
  }

  /** The second half of the conversion, on an opened empty destination:
      clone every allocated block, write the header, keep the file. */
  method CopyAndFinish(src: Image, d: Image, kept: bool, descriptorOpened: bool)
    returns (r: Outcome<ConvertError>, clones: seq<DupExtent>, descriptor: Optional<Vmdk.Descriptor>)
    requires src != d && src.Valid() && d.AllocatorValid() && d.table == map[]
    requires d.diskSize == src.diskSize && d.requireAlignment == src.imageIntegrity.clusterSizeInBytes
    requires d.format == VMDK ==> d.sectorSize > 0
    modifies d`table, d`nextFree, d`headerWritten
    ensures r.Pass? ==> kept && Converted(src, d, clones) && DescriptorWritten(d, descriptorOpened, descriptor)
    ensures forall c :: c in clones ==> ClusterAligned(c, src.imageIntegrity.clusterSizeInBytes)
    ensures SourceAligned(src.Table(), d.requireAlignment) && Min(src.blockSize, d.blockSize) % d.requireAlignment == 0 && kept ==> r.Pass?
  {
    descriptor := Absent;
    var ok;
    clones, ok := CopyBlocks(src, d);
    if !ok {
      return Fail(CloneRefused), clones, descriptor;
    }
    descriptor := d.WriteHeader(descriptorOpened);
    if !kept {
      return Fail(DispositionFailed), clones, descriptor;
    }
    r := Pass;
  }

  /** The destination name is usable and every file-system step of opening
      the destination succeeds with the options resolved against the source. */
  ghost predicate DestinationOpens(src: Image, dstFileName: string, options: Option, io: DstIo)
    reads src
  {
    var settings := Resolve(options, src.blockSize, src.fixed, IsSparse(src.fileInfo));
    && Nameable(dstFileName, options.raw)
    && OpenIoPasses(Detect.DetectByExtension(options.raw, dstFileName).value, settings.sparse, settings.blockSize,
                    src.imageIntegrity.clusterSizeInBytes, src.fileInfo, io)
  }

  /** The destination carries over the source's sector size and cluster
      alignment, and keeps the name it was opened under (with, for VMDK, the
      flat-extent name derived from it). */
  ghost predicate OpenedFrom(src: Image, d: Image, dstFileName: string)
    reads src, d`sectorSize, d`requireAlignment, d`originalFileName, d`format, d`flatFileName
  {
    && d.sectorSize == src.GetSectorSize()
    && d.requireAlignment == src.imageIntegrity.clusterSizeInBytes
    && d.originalFileName == dstFileName
    && d.NamesConsistent()
  }

  /** Every step of a conversion succeeds: the destination opens with the
      resolved settings, the source's blocks and the smaller block size are
      cluster-aligned, and the file is kept at the end. */
  ghost predicate ConversionPasses(src: Image, dstFileName: string, options: Option, io: DstIo)
    reads src
  {
    var C := src.imageIntegrity.clusterSizeInBytes;
    && DestinationOpens(src, dstFileName, options, io)
    && SourceAligned(src.Table(), C)
    && Min(src.blockSize, Resolve(options, src.blockSize, src.fixed, IsSparse(src.fileInfo)).blockSize) % C == 0
    && io.kept
  }

  /** The whole conversion, from an opened source image: resolve the options
      against the source, open the destination, clone every allocated block,
      write the destination's header and keep the file (clear
      delete-on-close). A VMDK destination also yields its descriptor. */
  method ConvertImage(src: Image, dstFileName: string, options: Option, io: DstIo)
    returns (r: Outcome<ConvertError>, dst: Optional<Image>, clones: seq<DupExtent>, descriptor: Optional<Vmdk.Descriptor>,
             sparse: bool)
    requires src.Valid() && src.GetSectorSize() > 0
    ensures dst.Present? ==> fresh(dst.value)
    ensures r.Pass? ==> dst.Present? && io.kept
    ensures r.Pass? ==> Detect.DetectByExtension(options.raw, dstFileName) == Ok(dst.value.format)
    ensures r.Pass? ==> Converted(src, dst.value, clones) && DescriptorWritten(dst.value, io.descriptorOpened, descriptor)
    ensures r.Pass? ==> OpenedFrom(src, dst.value, dstFileName) && DestinationOpens(src, dstFileName, options, io)
    ensures r.Pass? && options.blockSize != 0 ==> dst.value.blockSize == options.blockSize
    ensures r.Pass? && options.blockSize == 0 ==> dst.value.blockSize == src.blockSize
    ensures r.Pass? && options.isFixed.Present? ==> dst.value.fixed == options.isFixed.value
    ensures r.Pass? && options.isFixed.Absent? ==> dst.value.fixed == src.fixed
    ensures r.Pass? ==> (sparse <==> options.forceSparse || IsSparse(src.fileInfo) || dst.value.format == VMDK)
    ensures forall c :: c in clones ==> ClusterAligned(c, src.imageIntegrity.clusterSizeInBytes)
    ensures ConversionPasses(src, dstFileName, options, io) ==> r.Pass?
  {
    dst, clones, descriptor, sparse := Absent, [], Absent, false;
    var settings := Resolve(options, src.GetBlockSize(), src.IsFixed(), IsSparse(src.GetFileInfo()));
    var made;
    made, sparse := OpenDst(dstFileName, settings.sparse, settings.blockSize, settings.isFixed, options.raw, src, io);
    if made.Err? {
      return Fail(made.error), dst, clones, descriptor, sparse;
    }
    var d := made.value;
    assert OpenedFrom(src, d, dstFileName);
    dst := Present(d);
    r, clones, descriptor := CopyAndFinish(src, d, io.kept, io.descriptorOpened);
  }
}
