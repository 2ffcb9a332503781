/** `find_extension` and `basename` of src/fs.cpp (src/fs.h holds an identical inline copy). */
module Fs {
  import opened Wrappers
  import opened Ascii

  /** `size_t` is 64 bits wide; `std::string::npos` is its largest value. */
  const SizeMax: nat := 0x1_0000_0000_0000_0000
  const Npos: nat := SizeMax - 1

  /** `find_last_of` as the C++ library returns it: a position, or `npos`. */
  function FindLastOf(s: string, c: char): (r: nat)
    requires |s| < Npos
    ensures r == Npos <==> c !in s
    ensures r != Npos ==> r < |s| && s[r] == c && forall j | r < j < |s| :: s[j] != c
  {
    match LastIndexOf(s, c)
    case Some(i) => i
    case None => Npos
  }

  /** `find_extension` as written: a last '.' at index 0 gives "", but with no '.' at all
      `npos + 1` wraps around to 0 and the whole name comes back. */
  function FindExtensionAsWritten(filename: string): (r: string)
    requires |filename| < Npos
    ensures '.' !in filename ==> r == filename
  {
    var found := FindLastOf(filename, '.');
    if found <= 0 then "" else filename[(found + 1) % SizeMax..]
  }

  /** A name without a dot is returned whole, extension and all. */
  lemma {:induction false} ExtensionOfDotlessName()
    ensures FindExtensionAsWritten("README") == "README"
  {
  }

  /** `find_extension` as evidently intended: the text after the last '.', and "" when there is
      no '.', or when the only dot-separated part starts the name (".bashrc"). */
  function FindExtension(filename: string): (r: string)
    ensures '.' !in r
    ensures '.' !in filename ==> r == ""
    ensures LastIndexOf(filename, '.') == Some(0) ==> r == ""
    ensures r != "" ==> |r| < |filename| - 1 && r == filename[|filename| - |r|..]
                        && filename[|filename| - |r| - 1] == '.'
    ensures LastIndexOf(filename, '.').Some? && LastIndexOf(filename, '.').value > 0
            ==> r == filename[LastIndexOf(filename, '.').value + 1..]
  {
    match LastIndexOf(filename, '.')
    case None => ""
    case Some(i) => if i == 0 then "" else filename[i + 1..]
  }

  /** Wherever a name has a dot, the two versions agree; they differ only for dotless names. */
  lemma {:induction false} FindExtensionAgreesWithDot(filename: string)
    requires |filename| < Npos && '.' in filename
    ensures FindExtensionAsWritten(filename) == FindExtension(filename)
  {
  }

  /** `basename`: everything after the last '/', or the whole path when there is none. */
  function Basename(path: string): (r: string)
    ensures '/' !in r
    ensures |r| <= |path| && r == path[|path| - |r|..]
    ensures '/' !in path ==> r == path
    ensures '/' in path ==> |r| < |path| && path[|path| - |r| - 1] == '/'
  {
    match LastIndexOf(path, '/')
    case None => path
    case Some(i) => path[i + 1..]
  }
}
