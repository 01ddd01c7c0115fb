/** The Windows path and string helpers the engine relies on, reduced to the
    rules it needs: the final path component starts after the last separator
    (for PathFindFileNameW also after a drive colon), and the extension is the
    suffix of that component starting at its last dot.
    Comparison ignores the case of the ASCII letters, as `_wcsicmp` does in
    the default locale. */
module Paths {

  predicate IsSeparator(c: char)
  {
    c == '\\' || c == '/'
  }

  /** Index where the final path component begins, as far as the extension
      search is concerned: just after the last separator. */
  function FileNameStart(s: string): (k: nat)
    ensures k <= |s|
    ensures k > 0 ==> IsSeparator(s[k - 1])
    ensures forall j :: k <= j < |s| ==> !IsSeparator(s[j])
  {
    if s == [] then 0
    else if IsSeparator(s[|s| - 1]) then |s|
    else FileNameStart(s[..|s| - 1])
  }

  /** The characters after which PathFindFileNameW starts a new component:
      the separators and the colon of a drive prefix. */
  predicate IsNameBreak(c: char)
  {
    IsSeparator(c) || c == ':'
  }

  /** Index where the component PathFindFileNameW returns begins: just after
      the last separator or drive colon. */
  function BaseNameStart(s: string): (k: nat)
    ensures k <= |s|
    ensures k > 0 ==> IsNameBreak(s[k - 1])
    ensures forall j :: k <= j < |s| ==> !IsNameBreak(s[j])
  {
    if s == [] then 0
    else if IsNameBreak(s[|s| - 1]) then |s|
    else BaseNameStart(s[..|s| - 1])
  }

  /** The final path component (PathFindFileNameW): the longest suffix free
      of separators and drive colons. */
  function BaseName(s: string): (b: string)
    ensures |b| <= |s| && b == s[|s| - |b|..]
    ensures forall j :: 0 <= j < |b| ==> !IsNameBreak(b[j])
    ensures |b| < |s| ==> IsNameBreak(s[|s| - |b| - 1])
  {
    s[BaseNameStart(s)..]
  }

  /** A drive-relative name loses its drive prefix. */
  lemma DriveRelativeBaseName()
    ensures BaseName("C:disk-flat.vmdk") == "disk-flat.vmdk"
  {
    var s := "C:disk-flat.vmdk";
    var k := BaseNameStart(s);
    assert IsNameBreak(s[1]);
    assert forall j :: 2 <= j < |s| ==> !IsNameBreak(s[j]);
    assert k == 2;
  }

  /** Index where the extension begins (what PathFindExtensionW points at):
      the last dot of the final component, or the end of the string if that
      component has no dot. */
  function ExtensionStart(s: string): (k: nat)
    ensures FileNameStart(s) <= k <= |s|
    ensures k < |s| ==> s[k] == '.'
    ensures forall j :: k < j < |s| ==> s[j] != '.'
    ensures k == |s| ==> forall j :: FileNameStart(s) <= j < |s| ==> s[j] != '.'
  {
    if s == [] then 0
    else if IsSeparator(s[|s| - 1]) then |s|
    else if s[|s| - 1] == '.' then |s| - 1
    else
      var k := ExtensionStart(s[..|s| - 1]);
      if k == |s| - 1 then |s| else k
  }

  /** The extension, dot included; empty when the final component has no dot.
      It is a suffix that starts with its only dot and holds no separator. */
  function Extension(s: string): (e: string)
    ensures |e| <= |s| && e == s[|s| - |e|..]
    ensures e != [] ==> e[0] == '.'
    ensures forall j :: 0 < j < |e| ==> e[j] != '.' && !IsSeparator(e[j])
    ensures e == [] ==> forall j :: FileNameStart(s) <= j < |s| ==> s[j] != '.'
  {
    s[ExtensionStart(s)..]
  }

  /** PathCchRemoveExtension: everything before the extension, so that the
      stem followed by the extension gives the name back. */
  function RemoveExtension(s: string): (r: string)
    ensures r + Extension(s) == s
  {
    s[..ExtensionStart(s)]
  }

  /** A string that would be recognised as a complete extension. */
  predicate IsExtension(e: string)
  {
    |e| > 0 && e[0] == '.' && forall j :: 0 < j < |e| ==> e[j] != '.' && !IsSeparator(e[j])
  }

  /** Appending an extension to any name makes it the name's extension. */
  lemma ExtensionOfAppended(b: string, e: string)
    requires IsExtension(e)
    ensures Extension(b + e) == e
    ensures RemoveExtension(b + e) == b
  {
    var s := b + e;
    assert s[|b|] == '.';
    assert forall j :: |b| < j < |s| ==> s[j] == e[j - |b|];
  }

  function Lower(c: char): char
  {
    if 'A' <= c <= 'Z' then (c as int + 32) as char else c
  }

  function LowerCase(s: string): (r: string)
    ensures |r| == |s|
    ensures forall i :: 0 <= i < |s| ==> r[i] == Lower(s[i])
  {
    if s == [] then [] else LowerCase(s[..|s| - 1]) + [Lower(s[|s| - 1])]
  }

  /** `_wcsicmp(a, b) == 0`; its meaning letter by letter is
      `EqualsIgnoreCaseIff`. */
  predicate EqualsIgnoreCase(a: string, b: string)
  {
    LowerCase(a) == LowerCase(b)
  }

  /** Case-insensitive equality ignores exactly the case of ASCII letters:
      two strings compare equal iff they agree position by position up to case. */
  lemma EqualsIgnoreCaseIff(a: string, b: string)
    ensures EqualsIgnoreCase(a, b) <==> |a| == |b| && forall i :: 0 <= i < |a| ==> Lower(a[i]) == Lower(b[i])
  {
    if |a| == |b| && forall i :: 0 <= i < |a| ==> Lower(a[i]) == Lower(b[i]) {
      assert forall i :: 0 <= i < |a| ==> LowerCase(a)[i] == LowerCase(b)[i];
    }
  }
}
