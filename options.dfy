/** The caller's conversion options (the `Option` record) and the rules by
    which the engine turns them, together with the source image, into the
    settings the destination is built with. */
module Options {
  import opened Common

  /** `block_size` 0 means "the source's block size"; an absent `is_fixed`
      means "the source's allocation policy". */
  datatype Option = Option(blockSize: nat, isFixed: Optional<bool>, forceSparse: bool, raw: bool)

  /** The record as default-constructed. */
  const DefaultOption: Option := Option(0, Absent, false, false)

  /** What the destination is built with. */
  datatype Settings = Settings(blockSize: nat, isFixed: bool, sparse: bool)

  /** Resolution of the options against the source image's block size,
      allocation policy and sparse attribute. */
  function Resolve(o: Option, srcBlockSize: nat, srcFixed: bool, srcSparse: bool): (s: Settings)
  {
    Settings(
      if o.blockSize != 0 then o.blockSize else srcBlockSize,
      match o.isFixed
      case Present(f) => f
      case Absent => srcFixed,
      o.forceSparse || srcSparse)
  }

  /** Left at its defaults, the record copies every setting from the source
      and does not force raw mode. */
  lemma DefaultsInheritSource(srcBlockSize: nat, srcFixed: bool, srcSparse: bool)
    ensures !DefaultOption.raw
    ensures Resolve(DefaultOption, srcBlockSize, srcFixed, srcSparse) == Settings(srcBlockSize, srcFixed, srcSparse)
  {
  }

  /** The resolved block size is never the "unset" value 0 when the source's
      block size is a power of two, and it is a power of two whenever the
      override is 0 or itself a power of two. */
  lemma ResolvedBlockSizePow2(o: Option, srcBlockSize: nat, srcFixed: bool, srcSparse: bool)
    requires IsPow2(srcBlockSize)
    requires o.blockSize == 0 || IsPow2(o.blockSize)
    ensures IsPow2(Resolve(o, srcBlockSize, srcFixed, srcSparse).blockSize)
    ensures Resolve(o, srcBlockSize, srcFixed, srcSparse).blockSize > 0
  {
    Pow2Positive(Resolve(o, srcBlockSize, srcFixed, srcSparse).blockSize);
  }
}
