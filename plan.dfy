/** What the block-copy loop of the conversion engine does, stated as pure
    functions: the list of clone requests it issues for a source block table,
    in order. S is the source block size, D the destination block size; both
    are powers of two, so the smaller divides the larger.

    When S <= D, each allocated source block becomes one request of S bytes,
    landing inside destination block i*S/D at offset i*S mod D. When S > D,
    each allocated source block is cut into S/D requests of D bytes, each
    filling one destination block from its start. Unallocated source blocks
    produce nothing.

    `limit` is the destination's block-table entry count. The engine as
    written does not look at it; `Plan` is the corrected engine, which stops
    cutting a source block at the destination's table end (see
    `AsWrittenOverrunsTable`). */
module BlockPlan {
  import opened Common

  /** One extent to clone: the virtual disk address it covers, where it is
      read in the source file, the destination block it is written to and the
      offset inside that block, and its length. */
  datatype Request = Request(virt: nat, src: nat, dstBlock: nat, intra: nat, len: nat)

  /** The request for the whole of source block `i`, found at physical
      offset `p`, when S <= D. */
  function Whole(i: nat, p: nat, S: nat, D: nat): (r: Request)
    requires D > 0
  {
    Request(i * S, p, i * S / D, i * S % D, S)
  }

  /** The request for the `k`-th D-byte piece of source block `i`, found at
      physical offset `p`, when S > D. */
  function Piece(i: nat, p: nat, S: nat, D: nat, k: nat): (r: Request)
    requires D > 0
  {
    Request(i * S + k * D, p + k * D, (i * S + k * D) / D, 0, D)
  }

  /** The first `n` pieces of source block `i`. */
  function SubRequests(i: nat, p: nat, S: nat, D: nat, n: nat): (rs: seq<Request>)
    requires D > 0
    ensures |rs| == n
  {
    if n == 0 then [] else SubRequests(i, p, S, D, n - 1) + [Piece(i, p, S, D, n - 1)]
  }

  /** How many pieces of source block `i` lie below the destination's table
      end, out of `ratio` = S/D. */
  function SubCount(i: nat, ratio: nat, limit: nat): nat
  {
    if limit <= i * ratio then 0 else Min(ratio, limit - i * ratio)
  }

  /** The requests for allocated source block `i` at physical offset `p`. */
  function BlockRequests(i: nat, p: nat, S: nat, D: nat, limit: nat): (rs: seq<Request>)
    requires S > 0 && D > 0
  {
    if S <= D then [Whole(i, p, S, D)]
    else SubRequests(i, p, S, D, SubCount(i, S / D, limit))
  }

  /** The requests for the whole source table, block by block. */
  function Plan(t: seq<Optional<nat>>, S: nat, D: nat, limit: nat): (plan: seq<Request>)
    requires S > 0 && D > 0
  {
    if t == [] then []
    else
      var n := |t| - 1;
      Plan(t[..n], S, D, limit) + BlockTail(t[n], n, S, D, limit)
  }

  function BlockTail(e: Optional<nat>, n: nat, S: nat, D: nat, limit: nat): (rs: seq<Request>)
    requires S > 0 && D > 0
  {
    match e
    case Absent => []
    case Present(p) => BlockRequests(n, p, S, D, limit)
  }

  /** The loop exactly as the engine writes it: S/D pieces per block, with no
      regard for the destination's table size. */
  function BlockRequestsAsWritten(i: nat, p: nat, S: nat, D: nat): (rs: seq<Request>)
    requires S > 0 && D > 0
  {
    if S <= D then [Whole(i, p, S, D)]
    else SubRequests(i, p, S, D, S / D)
  }

  function PlanAsWritten(t: seq<Optional<nat>>, S: nat, D: nat): (plan: seq<Request>)
    requires S > 0 && D > 0
  {
    if t == [] then []
    else
      var n := |t| - 1;
      PlanAsWritten(t[..n], S, D)
        + match t[n] { case Absent => [] case Present(p) => BlockRequestsAsWritten(n, p, S, D) }
  }

  /** The relation between two power-of-two block sizes that the plan
      relies on: both are positive and the smaller divides the larger. */
  predicate Nested(S: nat, D: nat)
  {
    S > 0 && D > 0 && (S <= D ==> D % S == 0) && (D < S ==> S % D == 0)
  }

  lemma Pow2Nested(S: nat, D: nat)
    requires IsPow2(S) && IsPow2(D)
    ensures Nested(S, D)
  {
    Pow2Positive(S);
    Pow2Positive(D);
    if S <= D {
      Pow2Divides(S, D);
    } else {
      Pow2Divides(D, S);
    }
  }

  lemma MinDividesBoth(S: nat, D: nat)
    requires Nested(S, D)
    ensures S % Min(S, D) == 0 && D % Min(S, D) == 0
  {
  }

  /** A request reads from an allocated source block and writes exactly where
      its bytes belong: it stays inside one source block and one destination
      block, its source offset is the block's physical offset plus the offset
      of its virtual address within the block, its destination block and
      offset are the quotient and remainder of its virtual address by D, the
      destination block is inside the table, and its length is the smaller
      block size, of which its virtual address is a multiple. */
  ghost predicate Sound(r: Request, t: seq<Optional<nat>>, S: nat, D: nat, limit: nat)
    requires S > 0 && D > 0
  {
    && r.virt / S < |t|
    && t[r.virt / S].Present?
    && r.src == t[r.virt / S].value + r.virt % S
    && r.virt % S + r.len <= S
    && r.len == Min(S, D)
    && r.virt % r.len == 0
    && r.dstBlock * D + r.intra == r.virt
    && r.intra + r.len <= D
    && r.dstBlock < limit
  }

  /** Requests are issued in increasing virtual order and never overlap. */
  ghost predicate Ordered(plan: seq<Request>)
  {
    forall j1, j2 :: 0 <= j1 < j2 < |plan| ==> plan[j1].virt + plan[j1].len <= plan[j2].virt
  }

  /** The request covers virtual byte `v`. */
  predicate InSpan(r: Request, v: nat)
  {
    r.virt <= v < r.virt + r.len
  }

  /** Some request of the plan covers virtual byte `v`. */
  ghost predicate CoveredBy(plan: seq<Request>, v: nat)
    decreases |plan|
  {
    plan != [] && (CoveredBy(plan[..|plan| - 1], v) || InSpan(plan[|plan| - 1], v))
  }

  /** Virtual byte `v` lies in an allocated source block. */
  ghost predicate Backed(t: seq<Optional<nat>>, S: nat, v: nat)
    requires S > 0
  {
    v / S < |t| && t[v / S].Present?
  }

  // ---------------------------------------------------------------- arithmetic

  lemma MultipleSub(x: nat, y: nat, c: nat)
    requires c > 0 && x % c == 0 && y % c == 0 && y <= x
    ensures (x - y) % c == 0
  {
    DivModUnique(x - y, c, x / c - y / c, 0);
  }

  /** Reducing a multiple of `m` by another multiple of `m` leaves a multiple of `m`. */
  lemma ModOfMultiples(x: nat, s: nat, m: nat)
    requires m > 0 && s > 0 && x % m == 0 && s % m == 0
    ensures (x % s) % m == 0
  {
    var y := (x / s) * s;
    DivModSplit(x, s);
    MultipleScale(x / s, s, m);
    MultipleSub(x, y, m);
  }

  lemma DivModSplit(x: nat, s: nat)
    requires s > 0
    ensures (x / s) * s <= x && x - (x / s) * s == x % s
  {
  }

  /** Two distinct multiples of `s` are at least `s` apart. */
  lemma MultiplesApart(x: nat, y: nat, s: nat)
    requires s > 0 && x % s == 0 && y % s == 0 && x < y
    ensures x + s <= y
  {
    assert x == (x / s) * s && y == (y / s) * s;
    if x / s >= y / s {
      MulLe(y / s, x / s, s);
    }
    MulLe(x / s + 1, y / s, s);
  }

  lemma MulPred(n: nat, d: nat)
    requires n > 0
    ensures (n - 1) * d + d == n * d
  {
  }

  lemma DivBelow(x: nat, l: nat, d: nat)
    requires d > 0 && x < l * d
    ensures x / d < l
  {
    if x / d >= l {
      MulLe(l, x / d, d);
    }
  }

  lemma MulCancelLe(a: nat, b: nat, d: nat)
    requires d > 0 && a * d <= b * d
    ensures a <= b
  {
    if a > b {
      MulLe(b + 1, a, d);
    }
  }

  /** With S dividing D, the source table never extends past the
      destination's: ceil(n/S)*S <= ceil(n/D)*D. */
  lemma TableFits(disk: nat, S: nat, D: nat)
    requires S > 0 && D > 0 && D % S == 0
    ensures CeilDiv(disk, S) * S <= CeilDiv(disk, D) * D
  {
    var cd := CeilDiv(disk, D);
    var cs := CeilDiv(disk, S);
    var l := cd * (D / S);
    assert cd * D == l * S by {
      assert D == (D / S) * S;
    }
    CeilDivBounds(disk, D);
    CeilDivBounds(disk, S);
    if cs > l {
      MulLe(l, cs - 1, S);
    }
    MulLe(cs, l, S);
  }

  /** The arithmetic of one S <= D request: block i starts at a multiple of S,
      inside destination block i*S/D, at an offset that leaves room for S bytes. */
  lemma SmallerSourceArith(i: nat, S: nat, D: nat, limit: nat)
    requires S > 0 && D >= S && D % S == 0
    requires (i + 1) * S <= limit * D
    ensures (i * S) / S == i && (i * S) % S == 0
    ensures (i * S) / D * D + (i * S) % D == i * S
    ensures (i * S) % D + S <= D
    ensures (i * S) / D < limit
  {
    DivModUnique(i * S, S, i, 0);
    ModOfMultiples(i * S, D, S);
    MultiplesApart((i * S) % D, D, S);
    DivBelow(i * S, limit, D);
  }

  /** The arithmetic of piece k of source block i when S = ratio*D. */
  lemma PieceArith(i: nat, k: nat, S: nat, D: nat, ratio: nat)
    requires D > 0 && S == ratio * D && k < ratio
    ensures i * S + k * D == (i * ratio + k) * D
    ensures (i * S + k * D) / S == i && (i * S + k * D) % S == k * D
    ensures (i * S + k * D) / D == i * ratio + k && (i * S + k * D) % D == 0
    ensures k * D + D <= S
  {
    MulLe(k + 1, ratio, D);
    DivModUnique(i * S + k * D, S, i, k * D);
    DivModUnique(i * S + k * D, D, i * ratio + k, 0);
  }

  /** A range that starts in block q of size S and does not cross its end
      ends by the end of block n-1 when q < n. */
  lemma EndWithinBlock(virt: nat, len: nat, S: nat, n: nat)
    requires S > 0 && virt % S + len <= S && virt / S < n
    ensures virt + len <= n * S
  {
    MulLe(virt / S + 1, n, S);
  }

  /** Every byte of such a range lies in the same block, at the matching offset. */
  lemma SameBlock(v: nat, virt: nat, len: nat, S: nat)
    requires S > 0 && virt % S + len <= S && virt <= v < virt + len
    ensures v / S == virt / S && v % S == virt % S + (v - virt)
  {
    DivModUnique(v, S, virt / S, virt % S + (v - virt));
  }

  // ---------------------------------------------------------------- structure

  lemma {:induction false} SubRequestsAt(i: nat, p: nat, S: nat, D: nat, n: nat, k: nat)
    requires D > 0 && k < n
    ensures SubRequests(i, p, S, D, n)[k] == Piece(i, p, S, D, k)
  {
    if k < n - 1 {
      SubRequestsAt(i, p, S, D, n - 1, k);
    }
  }

  lemma {:induction false} CoveredByAppend(a: seq<Request>, b: seq<Request>, v: nat)
    ensures CoveredBy(a + b, v) <==> CoveredBy(a, v) || CoveredBy(b, v)
    decreases |b|
  {
    if b != [] {
      var b0 := b[..|b| - 1];
      assert (a + b)[..|a + b| - 1] == a + b0;
      CoveredByAppend(a, b0, v);
    } else {
      assert a + b == a;
    }
  }

  lemma {:induction false} CoveredByWitness(plan: seq<Request>, v: nat) returns (j: nat)
    requires CoveredBy(plan, v)
    ensures j < |plan| && InSpan(plan[j], v)
    decreases |plan|
  {
    if InSpan(plan[|plan| - 1], v) {
      j := |plan| - 1;
    } else {
      j := CoveredByWitness(plan[..|plan| - 1], v);
    }
  }

  lemma {:induction false} CoveredSubRequests(i: nat, p: nat, S: nat, D: nat, n: nat, v: nat)
    requires D > 0
    ensures CoveredBy(SubRequests(i, p, S, D, n), v) <==> i * S <= v < i * S + n * D
  {
    if n > 0 {
      var rs := SubRequests(i, p, S, D, n);
      assert rs[..n - 1] == SubRequests(i, p, S, D, n - 1);
      CoveredSubRequests(i, p, S, D, n - 1, v);
      MulPred(n, D);
    }
  }

  // ---------------------------------------------------------------- soundness

  /** The requests of one allocated block are sound. */
  lemma BlockSound(t: seq<Optional<nat>>, i: nat, p: nat, S: nat, D: nat, limit: nat)
    requires Nested(S, D)
    requires i < |t| && t[i] == Present(p)
    requires S <= D ==> (i + 1) * S <= limit * D
    ensures forall r :: r in BlockRequests(i, p, S, D, limit) ==> Sound(r, t, S, D, limit)
  {
    if S <= D {
      SmallerSourceArith(i, S, D, limit);
    } else {
      var ratio := S / D;
      assert S == ratio * D;
      var c := SubCount(i, ratio, limit);
      forall k | 0 <= k < c
        ensures Sound(BlockRequests(i, p, S, D, limit)[k], t, S, D, limit)
      {
        SubRequestsAt(i, p, S, D, c, k);
        PieceArith(i, k, S, D, ratio);
      }
    }
  }

  /** Every request of the plan is sound. */
  lemma {:induction false} PlanSound(t: seq<Optional<nat>>, S: nat, D: nat, limit: nat)
    requires Nested(S, D)
    requires S <= D ==> |t| * S <= limit * D
    ensures forall r :: r in Plan(t, S, D, limit) ==> Sound(r, t, S, D, limit)
  {
    if t != [] {
      var n := |t| - 1;
      var t0 := t[..n];
      MulLe(n, |t|, S);
      PlanSound(t0, S, D, limit);
      forall r | r in Plan(t0, S, D, limit)
        ensures Sound(r, t, S, D, limit)
      {
        assert Sound(r, t0, S, D, limit);
      }
      if t[n].Present? {
        BlockSound(t, n, t[n].value, S, D, limit);
      }
    }
  }

  lemma PiecesApart(i: nat, p: nat, S: nat, D: nat, j1: nat, j2: nat)
    requires D > 0 && j1 < j2
    ensures Piece(i, p, S, D, j1).virt + Piece(i, p, S, D, j1).len <= Piece(i, p, S, D, j2).virt
  {
    MulLe(j1 + 1, j2, D);
  }

  /** The pieces of one block follow each other without overlap. */
  lemma SubRequestsOrdered(i: nat, p: nat, S: nat, D: nat, n: nat)
    requires D > 0
    ensures Ordered(SubRequests(i, p, S, D, n))
    ensures forall r :: r in SubRequests(i, p, S, D, n) ==> i * S <= r.virt
  {
    var b := SubRequests(i, p, S, D, n);
    forall j1, j2 | 0 <= j1 < j2 < n
      ensures b[j1].virt + b[j1].len <= b[j2].virt
    {
      SubRequestsAt(i, p, S, D, n, j1);
      SubRequestsAt(i, p, S, D, n, j2);
      PiecesApart(i, p, S, D, j1, j2);
    }
    forall r | r in b
      ensures i * S <= r.virt
    {
      var k :| 0 <= k < n && b[k] == r;
      SubRequestsAt(i, p, S, D, n, k);
    }
  }

  /** The requests of one block are ordered and start at the block's start or later. */
  lemma BlockOrdered(i: nat, p: nat, S: nat, D: nat, limit: nat)
    requires S > 0 && D > 0
    ensures Ordered(BlockRequests(i, p, S, D, limit))
    ensures forall r :: r in BlockRequests(i, p, S, D, limit) ==> i * S <= r.virt
  {
    if S > D {
      SubRequestsOrdered(i, p, S, D, SubCount(i, S / D, limit));
    }
  }

  lemma BlockTailOrdered(e: Optional<nat>, n: nat, S: nat, D: nat, limit: nat)
    requires S > 0 && D > 0
    ensures Ordered(BlockTail(e, n, S, D, limit))
    ensures forall r :: r in BlockTail(e, n, S, D, limit) ==> n * S <= r.virt
  {
    if e.Present? {
      BlockOrdered(n, e.value, S, D, limit);
    }
  }

  lemma OrderedAppend(a: seq<Request>, b: seq<Request>, bound: nat)
    requires Ordered(a) && Ordered(b)
    requires forall r :: r in a ==> r.virt + r.len <= bound
    requires forall r :: r in b ==> bound <= r.virt
    ensures Ordered(a + b)
  {
    forall j1, j2 | 0 <= j1 < j2 < |a + b|
      ensures (a + b)[j1].virt + (a + b)[j1].len <= (a + b)[j2].virt
    {
      if j2 < |a| {
        assert (a + b)[j1] == a[j1] && (a + b)[j2] == a[j2];
      } else if j1 >= |a| {
        assert (a + b)[j1] == b[j1 - |a|] && (a + b)[j2] == b[j2 - |a|];
      } else {
        assert (a + b)[j1] == a[j1] && (a + b)[j2] == b[j2 - |a|];
      }
    }
  }

  /** Every request of the plan ends by the end of the source table. */
  lemma PlanEnds(t: seq<Optional<nat>>, S: nat, D: nat, limit: nat)
    requires Nested(S, D)
    requires S <= D ==> |t| * S <= limit * D
    ensures forall r :: r in Plan(t, S, D, limit) ==> r.virt + r.len <= |t| * S
  {
    PlanSound(t, S, D, limit);
    forall r | r in Plan(t, S, D, limit)
      ensures r.virt + r.len <= |t| * S
    {
      assert Sound(r, t, S, D, limit);
      EndWithinBlock(r.virt, r.len, S, |t|);
    }
  }

  /** The plan is issued in increasing virtual order, without overlap. */
  lemma {:induction false} PlanOrdered(t: seq<Optional<nat>>, S: nat, D: nat, limit: nat)
    requires Nested(S, D)
    requires S <= D ==> |t| * S <= limit * D
    ensures Ordered(Plan(t, S, D, limit))
  {
    if t != [] {
      var n := |t| - 1;
      MulLe(n, |t|, S);
      var head, tail := Plan(t[..n], S, D, limit), BlockTail(t[n], n, S, D, limit);
      assert Plan(t, S, D, limit) == head + tail;
      PlanOrdered(t[..n], S, D, limit);
      PlanEnds(t[..n], S, D, limit);
      BlockTailOrdered(t[n], n, S, D, limit);
      OrderedAppend(head, tail, n * S);
    }
  }

  /** Every byte of an allocated block that the destination table can hold is
      cloned by that block's own requests. */
  lemma BlockCovers(i: nat, p: nat, S: nat, D: nat, limit: nat, v: nat)
    requires Nested(S, D)
    requires i * S <= v < i * S + S && v < limit * D
    ensures CoveredBy(BlockRequests(i, p, S, D, limit), v)
  {
    if S <= D {
      SingletonCovers(i, p, S, D, limit, v);
    } else {
      var ratio := S / D;
      assert S == ratio * D;
      PiecesReach(i, ratio, S, D, limit, v);
      CoveredSubRequests(i, p, S, D, SubCount(i, ratio, limit), v);
    }
  }

  lemma SingletonCovers(i: nat, p: nat, S: nat, D: nat, limit: nat, v: nat)
    requires 0 < S <= D
    requires i * S <= v < i * S + S
    ensures CoveredBy(BlockRequests(i, p, S, D, limit), v)
  {
    var r := BlockRequests(i, p, S, D, limit)[0];
    assert InSpan(r, v);
    assert BlockRequests(i, p, S, D, limit)[..0] == [];
  }

  /** The pieces kept below the table end reach every byte below it. */
  lemma PiecesReach(i: nat, ratio: nat, S: nat, D: nat, limit: nat, v: nat)
    requires D > 0 && S == ratio * D
    requires i * S <= v < i * S + S && v < limit * D
    ensures v < i * S + SubCount(i, ratio, limit) * D
  {
    assert i * S == (i * ratio) * D;
    if limit <= i * ratio {
      MulLe(limit, i * ratio, D);
    } else if limit - i * ratio < ratio {
      assert i * S + (limit - i * ratio) * D == limit * D;
    }
  }

  lemma {:induction false} BlockInPlan(t: seq<Optional<nat>>, S: nat, D: nat, limit: nat, i: nat, v: nat)
    requires S > 0 && D > 0
    requires i < |t| && t[i].Present?
    requires CoveredBy(BlockRequests(i, t[i].value, S, D, limit), v)
    ensures CoveredBy(Plan(t, S, D, limit), v)
  {
    var n := |t| - 1;
    CoveredByAppend(Plan(t[..n], S, D, limit), BlockTail(t[n], n, S, D, limit), v);
    if i < n {
      BlockInPlan(t[..n], S, D, limit, i, v);
    }
  }

  /** Conservation: no byte outside the allocated source blocks is cloned,
      and every allocated byte inside the disk is. */
  lemma PlanCoverage(t: seq<Optional<nat>>, S: nat, D: nat, limit: nat, disk: nat)
    requires Nested(S, D)
    requires S <= D ==> |t| * S <= limit * D
    requires disk <= limit * D
    ensures forall v: nat :: CoveredBy(Plan(t, S, D, limit), v) ==> Backed(t, S, v)
    ensures forall v: nat :: v < disk && Backed(t, S, v) ==> CoveredBy(Plan(t, S, D, limit), v)
  {
    PlanSound(t, S, D, limit);
    forall v: nat | CoveredBy(Plan(t, S, D, limit), v)
      ensures Backed(t, S, v)
    {
      CoveredIsBacked(t, S, D, limit, v);
    }
    forall v: nat | v < disk && Backed(t, S, v)
      ensures CoveredBy(Plan(t, S, D, limit), v)
    {
      BackedIsCovered(t, S, D, limit, v);
    }
  }

  /** An allocated byte below the destination's table end is covered by its
      own block's requests. */
  lemma BackedIsCovered(t: seq<Optional<nat>>, S: nat, D: nat, limit: nat, v: nat)
    requires Nested(S, D)
    requires v < limit * D
    requires S > 0 && Backed(t, S, v)
    ensures CoveredBy(Plan(t, S, D, limit), v)
  {
    var i := v / S;
    assert i < |t| && t[i].Present?;
    var p := t[i].value;
    FloorBlock(v, S);
    BlockCovers(i, p, S, D, limit, v);
    BlockInPlan(t, S, D, limit, i, v);
  }

  lemma FloorBlock(v: nat, S: nat)
    requires S > 0
    ensures (v / S) * S <= v < (v / S) * S + S
  {
  }

  /** A covered byte lies in the source block of the request covering it. */
  lemma CoveredIsBacked(t: seq<Optional<nat>>, S: nat, D: nat, limit: nat, v: nat)
    requires S > 0 && D > 0
    requires forall r :: r in Plan(t, S, D, limit) ==> Sound(r, t, S, D, limit)
    requires CoveredBy(Plan(t, S, D, limit), v)
    ensures Backed(t, S, v)
  {
    var plan := Plan(t, S, D, limit);
    var j := CoveredByWitness(plan, v);
    assert Sound(plan[j], t, S, D, limit);
    SameBlock(v, plan[j].virt, plan[j].len, S);
  }

  /** Byte by byte, a sound request reads virtual byte v from its source
      block's physical offset plus v mod S, and writes it into destination
      block v / D at offset v mod D. */
  lemma RequestMapsBytes(r: Request, t: seq<Optional<nat>>, S: nat, D: nat, limit: nat, v: nat)
    requires S > 0 && D > 0
    requires Sound(r, t, S, D, limit)
    requires InSpan(r, v)
    ensures v / S == r.virt / S && r.src + (v - r.virt) == t[v / S].value + v % S
    ensures v / D == r.dstBlock && v % D == r.intra + (v - r.virt)
  {
    SameBlock(v, r.virt, r.len, S);
    DivModUnique(v, D, r.dstBlock, r.intra + (v - r.virt));
  }

  /** Every allocated source block lies at a cluster-aligned offset. */
  ghost predicate SourceAligned(t: seq<Optional<nat>>, clusterSize: nat)
  {
    clusterSize > 0 && forall i :: 0 <= i < |t| && t[i].Present? ==> t[i].value % clusterSize == 0
  }

  /** One sound request is cluster-aligned when its block's offset and the
      smaller block size are. */
  lemma RequestAligned(r: Request, t: seq<Optional<nat>>, S: nat, D: nat, limit: nat, C: nat)
    requires S > 0 && D > 0 && C > 0
    requires S % Min(S, D) == 0 && D % Min(S, D) == 0 && Min(S, D) % C == 0
    requires Sound(r, t, S, D, limit)
    requires SourceAligned(t, C)
    ensures r.src % C == 0 && r.intra % C == 0 && r.len % C == 0
  {
    var q := r.virt / S;
    assert t[q].value % C == 0;
    var m := Min(S, D);
    ModOfMultiples(r.virt, S, m);
    MultipleTrans(r.virt % S, m, C);
    MultipleAdd(t[r.virt / S].value, r.virt % S, C);
    MultipleScale(r.dstBlock, D, m);
    MultipleSub(r.virt, r.dstBlock * D, m);
    MultipleTrans(r.intra, m, C);
  }

  /** Alignment: when the source's physical block offsets and the smaller
      block size are multiples of the cluster size, so are every request's
      source offset, intra-block offset and length. */
  lemma PlanAligned(t: seq<Optional<nat>>, S: nat, D: nat, limit: nat, C: nat)
    requires Nested(S, D) && C > 0
    requires S <= D ==> |t| * S <= limit * D
    requires Min(S, D) % C == 0
    requires SourceAligned(t, C)
    ensures forall r :: r in Plan(t, S, D, limit) ==> r.src % C == 0 && r.intra % C == 0 && r.len % C == 0
  {
    PlanSound(t, S, D, limit);
    MinDividesBoth(S, D);
    forall r | r in Plan(t, S, D, limit)
      ensures r.src % C == 0 && r.intra % C == 0 && r.len % C == 0
    {
      RequestAligned(r, t, S, D, limit, C);
    }
  }

  // ---------------------------------------------------------------- the finding

  /** As written, the S > D loop cuts a partial last source block into all
      S/D pieces. With a 5 MiB disk, 4 MiB source blocks and 1 MiB
      destination blocks, the source table has 2 entries and the destination
      table 5; source block 1 then yields allocations of destination blocks 4
      to 7, three of them past the table's end. */
  lemma AsWrittenOverrunsTable()
    ensures var t := [Absent, Present(0)];
      var S, D, disk := 0x40_0000, 0x10_0000, 0x50_0000;
      && |t| == CeilDiv(disk, S)
      && CeilDiv(disk, D) == 5
      && |PlanAsWritten(t, S, D)| == 4
      && PlanAsWritten(t, S, D)[3].dstBlock == 7
      && Plan(t, S, D, CeilDiv(disk, D)) == [Request(0x40_0000, 0, 4, 0, D)]
  {
    var t: seq<Optional<nat>> := [Absent, Present(0)];
    var S, D := 0x40_0000, 0x10_0000;
    DivModUnique(0x50_0000 + S - 1, S, 2, 0xF_FFFF);
    DivModUnique(0x50_0000 + D - 1, D, 5, 0xF_FFFF);
    DivModUnique(S, D, 4, 0);
    assert t[..1] == [Absent] && t[..1][..0] == [];
    assert PlanAsWritten(t[..1], S, D) == [];
    assert PlanAsWritten(t, S, D) == SubRequests(1, 0, S, D, 4);
    SubRequestsAt(1, 0, S, D, 4, 3);
    DivModUnique(S + 3 * D, D, 7, 0);
    assert Plan(t[..1], S, D, 5) == [];
    assert SubCount(1, 4, 5) == 1;
    assert Plan(t, S, D, 5) == SubRequests(1, 0, S, D, 1);
    assert SubRequests(1, 0, S, D, 1) == [Request(S, 0, S / D, 0, D)];
  }

  /** The correction changes nothing unless the source table reaches past the
      destination's, which only happens for a partial last source block when
      S > D: otherwise the corrected plan is the plan as written. */
  lemma {:induction false} PlanMatchesAsWritten(t: seq<Optional<nat>>, S: nat, D: nat, limit: nat)
    requires Nested(S, D)
    requires |t| * S <= limit * D
    ensures Plan(t, S, D, limit) == PlanAsWritten(t, S, D)
  {
    if t != [] {
      var n := |t| - 1;
      MulLe(n, |t|, S);
      PlanMatchesAsWritten(t[..n], S, D, limit);
      if t[n].Present? {
        BlockMatchesAsWritten(n, t[n].value, S, D, limit);
      }
    }
  }

  /** A source block that ends by the destination's table end is cut into
      all S/D pieces by both loops. */
  lemma BlockMatchesAsWritten(n: nat, p: nat, S: nat, D: nat, limit: nat)
    requires Nested(S, D)
    requires (n + 1) * S <= limit * D
    ensures BlockRequests(n, p, S, D, limit) == BlockRequestsAsWritten(n, p, S, D)
  {
    if S > D {
      var ratio := S / D;
      assert S == ratio * D;
      assert (n + 1) * S == ((n + 1) * ratio) * D;
      MulCancelLe((n + 1) * ratio, limit, D);
      assert SubCount(n, ratio, limit) == ratio;
    }
  }

  // ---------------------------------------------------------------- examples

  /** 1 MiB source blocks into 2 MiB destination blocks: source block 3 lands
      in destination block 1 at offset 1 MiB. */
  lemma ExampleSmallerSourceBlocks(x: nat, limit: nat)
    ensures BlockRequests(3, x, 0x10_0000, 0x20_0000, limit) == [Request(0x30_0000, x, 1, 0x10_0000, 0x10_0000)]
  {
  }

  /** 4 MiB source blocks into 1 MiB destination blocks: source block 2 is
      cloned in four 1 MiB pieces into destination blocks 8 to 11, each from
      the block's start. */
  lemma ExampleLargerSourceBlocks(y: nat, limit: nat)
    requires limit >= 12
    ensures var rs := BlockRequests(2, y, 0x40_0000, 0x10_0000, limit);
      && |rs| == 4
      && forall k :: 0 <= k < 4 ==> rs[k] == Request(0x80_0000 + k * 0x10_0000, y + k * 0x10_0000, 8 + k, 0, 0x10_0000)
  {
    forall k | 0 <= k < 4
      ensures BlockRequests(2, y, 0x40_0000, 0x10_0000, limit)[k] == Request(0x80_0000 + k * 0x10_0000, y + k * 0x10_0000, 8 + k, 0, 0x10_0000)
    {
      SubRequestsAt(2, y, 0x40_0000, 0x10_0000, 4, k);
      DivModUnique(0x80_0000 + k * 0x10_0000, 0x10_0000, 8 + k, 0);
    }
  }
}
