/** The lexical part of Rust's `std::path` that the recipe code uses, with
    Unix conventions: `/` separates components and a path starting with `/`
    is absolute. A directory entry is known by its file name, a single
    normal component (never empty, `.`, `..`, and free of `/`). */
module Paths {
  import opened Wrappers

  /** `Path::join` (`PathBuf::push`): an absolute `rel` replaces `dir`;
      otherwise `rel` is appended, with a `/` in between unless `dir` is
      empty or already ends with one. */
  function JoinPath(dir: string, rel: string): string
  {
    if |rel| > 0 && rel[0] == '/' then rel
    else if dir == "" || dir[|dir| - 1] == '/' then dir + rel
    else dir + "/" + rel
  }

  /** Position of the last occurrence of `c` in `s`. */
  function LastIndexOf(s: string, c: char): (r: Option<nat>)
    ensures r.None? ==> c !in s
    ensures r.Some? ==> r.value < |s| && s[r.value] == c && c !in s[r.value + 1..]
    decreases |s|
  {
    if |s| == 0 then None
    else if s[|s| - 1] == c then Some(|s| - 1)
    else
      var r := LastIndexOf(s[..|s| - 1], c);
      assert s[..|s| - 1] + [s[|s| - 1]] == s;
      r
  }

  /** Whether the name has a file name at all (`..` names the parent). */
  predicate HasFileName(name: string)
  {
    name != "" && name != ".."
  }

  /** `Path::extension` of a file name: the text after the last `.`,
      unless there is no `.` or the only `.` starts the name. */
  function Extension(name: string): Option<string>
  {
    if !HasFileName(name) then None
    else
      match LastIndexOf(name, '.')
      case None => None
      case Some(i) => if i == 0 then None else Some(name[i + 1..])
  }

  /** `Path::file_stem` of a file name: the text before the last `.`, or the
      whole name when it has no extension. */
  function FileStem(name: string): Option<string>
  {
    if !HasFileName(name) then None
    else
      match LastIndexOf(name, '.')
      case None => Some(name)
      case Some(i) => if i == 0 then Some(name) else Some(name[..i])
  }

  /** A name with an extension is its stem, a dot and the extension, and
      the extension holds no further dot. */
  lemma StemAndExtension(name: string)
    requires Extension(name).Some?
    ensures FileStem(name).Some?
    ensures FileStem(name).value + "." + Extension(name).value == name
    ensures '.' !in Extension(name).value
  {
    var i := LastIndexOf(name, '.').value;
    assert name[..i] + "." + name[i + 1..] == name[..i] + name[i..] by {
      assert name[i..] == [name[i]] + name[i + 1..];
    }
    assert name[..i] + name[i..] == name;
  }

  /** `name.ext` has extension `ext` and stem `name`, whenever `ext` is a
      non-empty word without a dot and `name` is not empty. */
  lemma ExtensionOfCandidate(name: string, ext: string)
    requires name != "" && ext != "" && '.' !in ext
    ensures Extension(name + "." + ext) == Some(ext)
    ensures FileStem(name + "." + ext) == Some(name)
  {
    var n := name + "." + ext;
    assert |n| >= 3;
    assert n[|name|] == '.';
    assert '.' in n;
    var i := LastIndexOf(n, '.').value;
    assert forall k :: i < k < |n| ==> n[k] != '.' by {
      forall k | i < k < |n| ensures n[k] != '.' {
        assert n[k] == n[i + 1..][k - i - 1];
      }
    }
    assert forall k :: |name| < k < |n| ==> n[k] != '.' by {
      forall k | |name| < k < |n| ensures n[k] != '.' {
        assert n[k] == ext[k - |name| - 1];
      }
    }
    assert i == |name|;
    assert n[|name| + 1..] == ext;
    assert n[..|name|] == name;
  }
}
