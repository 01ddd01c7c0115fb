/** Choosing the format variant: by content for the source, by file-name
    extension for the destination. Raw mode bypasses both.

    The content checks compare two 8-byte fields read from the file: the
    file-type signature at the start of a VHDX file ("vhdxfile", Microsoft
    VHDX Format Specification, "File Type Identifier") and the cookie of a VHD
    footer ("conectix", Microsoft Virtual Hard Disk Image Format
    Specification, "Hard Disk Footer Format"). The reads themselves are inputs
    here, together with the file size. */
module Detect {
  import opened Common
  import opened Paths
  import opened ImageModel
  import Vmdk

  const VHDX_SIGNATURE: seq<byte> := [0x76, 0x68, 0x64, 0x78, 0x66, 0x69, 0x6C, 0x65]  // "vhdxfile"
  const VHD_COOKIE: seq<byte> := [0x63, 0x6F, 0x6E, 0x65, 0x63, 0x74, 0x69, 0x78]      // "conectix"

  /** A raw image is a whole number of these. */
  const RAW_SECTOR_SIZE: nat := 512

  datatype DetectError =
    | DetectionFailed          // "Image type detection failed."
    | DifferencingNotAllowed   // ".avhdx/.avhd is not allowed."

  /** The low 32 bits of the file size, which is all the size check looks at. */
  function LowPart(size: nat): (r: nat)
    ensures r < 0x1_0000_0000
    ensures r % RAW_SECTOR_SIZE == size % RAW_SECTOR_SIZE
  {
    var q := size / 0x1_0000_0000;
    var r := size % 0x1_0000_0000;
    assert size == (q * 0x80_0000) * RAW_SECTOR_SIZE + r;
    DivModUnique(r, RAW_SECTOR_SIZE, r / RAW_SECTOR_SIZE, r % RAW_SECTOR_SIZE);
    DivModUnique(size, RAW_SECTOR_SIZE, q * 0x80_0000 + r / RAW_SECTOR_SIZE, r % RAW_SECTOR_SIZE);
    r
  }

  /** Detection by content, given the VHDX signature field, the VHD footer
      cookie field and the file size. */
  function DetectByData(raw: bool, vhdxSignature: seq<byte>, vhdCookie: seq<byte>, fileSize: nat): (r: Result<Format, DetectError>)
  {
    if raw then Ok(RAW)
    else if vhdxSignature == VHDX_SIGNATURE then Ok(VHDX)
    else if vhdCookie == VHD_COOKIE then Ok(VHD)
    else if LowPart(fileSize) % RAW_SECTOR_SIZE != 0 then Err(DetectionFailed)
    else Ok(RAW)
  }

  /** Raw mode yields RAW whatever the file holds. */
  lemma DataRawIgnoresContent(vhdxSignature: seq<byte>, vhdCookie: seq<byte>, fileSize: nat)
    ensures DetectByData(true, vhdxSignature, vhdCookie, fileSize) == Ok(RAW)
  {
  }

  /** The VHDX signature is checked strictly first: it wins even when the
      VHD cookie matches too, and whatever the size. */
  lemma VhdxWinsOverVhd(vhdCookie: seq<byte>, fileSize: nat)
    ensures DetectByData(false, VHDX_SIGNATURE, vhdCookie, fileSize) == Ok(VHDX)
  {
  }

  /** The complete outcome of detection by content. The size test on the low
      32 bits is the same as a test on the whole size, because 512 divides
      2^32. Content detection never yields VMDK. */
  lemma DetectByDataOutcome(raw: bool, vhdxSignature: seq<byte>, vhdCookie: seq<byte>, fileSize: nat)
    ensures var r := DetectByData(raw, vhdxSignature, vhdCookie, fileSize);
      && (r == Ok(VHDX) <==> !raw && vhdxSignature == VHDX_SIGNATURE)
      && (r == Ok(VHD) <==> !raw && vhdxSignature != VHDX_SIGNATURE && vhdCookie == VHD_COOKIE)
      && (r.Err? <==> !raw && vhdxSignature != VHDX_SIGNATURE && vhdCookie != VHD_COOKIE && fileSize % RAW_SECTOR_SIZE != 0)
      && (r == Ok(RAW) <==> raw || (vhdxSignature != VHDX_SIGNATURE && vhdCookie != VHD_COOKIE && fileSize % RAW_SECTOR_SIZE == 0))
      && r != Ok(VMDK)
      && (r.Err? ==> r.error == DetectionFailed)
  {
  }

  /** Detection by extension: a case-insensitive dispatch on the name's
      extension; the differencing-disk extensions abort. Every literal the
      extension is compared with is in lower case, so comparing ignoring case
      is comparing the lower-cased extension with the literal
      (`LowercaseExtensions`). */
  function DetectByExtension(raw: bool, fileName: string): (r: Result<Format, DetectError>)
  {
    if raw then Ok(RAW)
    else
      var e := LowerCase(Extension(fileName));
      if e == ".vhdx" then Ok(VHDX)
      else if e == ".vhd" then Ok(VHD)
      else if e == ".vmdk" then Ok(VMDK)
      else if e == ".avhdx" || e == ".avhd" then Err(DifferencingNotAllowed)
      else Ok(RAW)
  }

  /** Raw mode yields RAW for every name, even a differencing-disk one. */
  lemma ExtensionRawIgnoresName(fileName: string)
    ensures DetectByExtension(true, fileName) == Ok(RAW)
  {
  }

  /** The choice depends on the extension only, and only up to case. */
  lemma ExtensionCaseInsensitive(raw: bool, a: string, b: string)
    requires LowerCase(Extension(a)) == LowerCase(Extension(b))
    ensures DetectByExtension(raw, a) == DetectByExtension(raw, b)
  {
  }

  /** The complete outcome of detection by extension, in terms of the
      case-insensitive comparisons (`_wcsicmp`) the engine makes. */
  lemma DetectByExtensionOutcome(fileName: string)
    ensures var r := DetectByExtension(false, fileName);
      var x := Extension(fileName);
      && (r == Ok(VHDX) <==> EqualsIgnoreCase(x, ".vhdx"))
      && (r == Ok(VHD) <==> EqualsIgnoreCase(x, ".vhd"))
      && (r == Ok(VMDK) <==> EqualsIgnoreCase(x, ".vmdk"))
      && (r.Err? <==> EqualsIgnoreCase(x, ".avhdx") || EqualsIgnoreCase(x, ".avhd"))
      && (r.Err? ==> r.error == DifferencingNotAllowed)
      && (r == Ok(RAW) <==> !EqualsIgnoreCase(x, ".vhdx") && !EqualsIgnoreCase(x, ".vhd") && !EqualsIgnoreCase(x, ".vmdk")
                            && !EqualsIgnoreCase(x, ".avhdx") && !EqualsIgnoreCase(x, ".avhd"))
  {
    LowercaseExtensions();
  }

  /** The extension literals are already in lower case and pairwise distinct. */
  lemma LowercaseExtensions()
    ensures LowerCase(".vhdx") == ".vhdx" && LowerCase(".vhd") == ".vhd" && LowerCase(".vmdk") == ".vmdk"
    ensures LowerCase(".avhdx") == ".avhdx" && LowerCase(".avhd") == ".avhd"
    ensures ".vhdx" != ".vhd" && ".vhdx" != ".vmdk" && ".vhdx" != ".avhdx" && ".vhdx" != ".avhd"
    ensures ".vhd" != ".vmdk" && ".vhd" != ".avhdx" && ".vhd" != ".avhd"
    ensures ".vmdk" != ".avhdx" && ".vmdk" != ".avhd" && ".avhdx" != ".avhd"
  {
    LowercaseLiteral(".vhdx");
    LowercaseLiteral(".vhd");
    LowercaseLiteral(".vmdk");
    LowercaseLiteral(".avhdx");
    LowercaseLiteral(".avhd");
    DistinctExtensions();
  }

  /** The five extensions differ pairwise. */
  lemma DistinctExtensions()
    ensures ".vhdx" != ".vhd" && ".vhdx" != ".vmdk" && ".vhdx" != ".avhdx" && ".vhdx" != ".avhd"
    ensures ".vhd" != ".vmdk" && ".vhd" != ".avhdx" && ".vhd" != ".avhd"
    ensures ".vmdk" != ".avhdx" && ".vmdk" != ".avhd" && ".avhdx" != ".avhd"
  {
    assert ".vhdx"[2] != ".vmdk"[2] && ".vhdx"[1] != ".avhdx"[1] && ".vhd"[1] != ".avhd"[1];
  }

  /** A string with no upper-case ASCII letter is its own lower case. */
  lemma LowercaseLiteral(s: string)
    requires forall i :: 0 <= i < |s| ==> !('A' <= s[i] <= 'Z')
    ensures LowerCase(s) == s
  {
  }

  /** A name whose final component has no dot is a raw image. */
  lemma NoExtensionIsRaw(fileName: string)
    requires forall j :: FileNameStart(fileName) <= j < |fileName| ==> fileName[j] != '.'
    ensures DetectByExtension(false, fileName) == Ok(RAW)
  {
    DetectByExtensionOutcome(fileName);
  }

  /** Any name ending in ".VHDX" in any mix of case selects VHDX, and likewise
      for the other extensions; the differencing-disk ones are refused. */
  lemma AppendedExtensionSelects(stem: string, e: string)
    requires IsExtension(e)
    ensures EqualsIgnoreCase(e, ".vhdx") ==> DetectByExtension(false, stem + e) == Ok(VHDX)
    ensures EqualsIgnoreCase(e, ".vhd") ==> DetectByExtension(false, stem + e) == Ok(VHD)
    ensures EqualsIgnoreCase(e, ".vmdk") ==> DetectByExtension(false, stem + e) == Ok(VMDK)
    ensures EqualsIgnoreCase(e, ".avhdx") || EqualsIgnoreCase(e, ".avhd") ==> DetectByExtension(false, stem + e).Err?
  {
    ExtensionOfAppended(stem, e);
    DetectByExtensionOutcome(stem + e);
  }

  /** The flat file of a VMDK destination is itself named as a VMDK file. */
  lemma FlatFileDetectsAsVmdk(fileName: string)
    requires Vmdk.FlatFileName(fileName).Ok?
    ensures DetectByExtension(false, Vmdk.FlatFileName(fileName).value) == Ok(VMDK)
  {
    LowercaseExtensions();
  }
}
