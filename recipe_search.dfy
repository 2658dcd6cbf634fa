/** Resolving a recipe identifier to its text and base directory
    (`retrieve_recipe_file` and its helpers in `search_recipe.rs`).

    Precedence: an identifier ending in `.<ext>` for a recognised extension
    is read as a path and nothing else is tried. Any other identifier is a
    bare name, looked up as `<dir>/<name>.<ext>` in every search directory
    in order, trying the extensions in order within a directory; the first
    readable candidate wins. Only when every directory fails is the GitHub
    repository asked, if one is configured. */
module RecipeSearch {
  import opened Wrappers
  import opened Text
  import opened Paths
  import opened Host

  /** `configured_github_recipe_repo`: the repository name when the setting
      could be read and is set; a failed lookup counts as unset. */
  function ConfiguredRepo(setting: Result<Option<string>>): (repo: Option<string>)
    ensures repo.Some? <==> setting.Ok? && setting.value.Some?
    ensures repo.Some? ==> repo.value == setting.value.value
  {
    match setting
    case Ok(Some(name)) => Some(name)
    case _ => None
  }

  /** The search directories: `.` first, then the pieces of
      `GOOSE_RECIPE_PATH` split on the separator. */
  function SearchDirs(recipePathVar: Option<string>, separator: char): seq<string>
  {
    ["."] + match recipePathVar
            case None => []
            case Some(value) => Split(value, separator)
  }

  /** The current directory always comes first. Without the variable it is
      the only directory; with it, the remaining directories are its pieces
      in their original order, each free of the separator, neither merged
      nor filtered: joining them again gives back the variable's value. */
  lemma SearchDirsShape(recipePathVar: Option<string>, separator: char)
    ensures var dirs := SearchDirs(recipePathVar, separator);
      && |dirs| >= 1 && dirs[0] == "."
      && (recipePathVar.None? ==> dirs == ["."])
      && (recipePathVar.Some? ==>
            && |dirs| >= 2
            && JoinWith(dirs[1..], [separator]) == recipePathVar.value
            && forall i :: 1 <= i < |dirs| ==> separator !in dirs[i])
  {
    if recipePathVar.Some? {
      var dirs := SearchDirs(recipePathVar, separator);
      JoinSplit(recipePathVar.value, separator);
      assert dirs[1..] == Split(recipePathVar.value, separator);
    }
  }

  /** Every non-empty list of directories free of the separator can be
      given through the variable: joined with the separator, it comes back
      as the search directories after `.`. */
  lemma SearchDirsOfList(dirs: seq<string>, separator: char)
    requires |dirs| >= 1
    requires forall i :: 0 <= i < |dirs| ==> separator !in dirs[i]
    ensures SearchDirs(Some(JoinWith(dirs, [separator])), separator) == ["."] + dirs
  {
    SplitJoin(dirs, separator);
  }

  /** Whether the identifier ends in `.<ext>` for a recognised extension. */
  predicate IsDirectPath(extensions: seq<string>, name: string)
  {
    exists i :: 0 <= i < |extensions| && EndsWith(name, "." + extensions[i])
  }

  /** The candidate file `<dir>/<name>.<ext>`. */
  function CandidatePath(dir: string, name: string, ext: string): string
  {
    JoinPath(dir, name + "." + ext)
  }

  /** `read_recipe_file`: the file's text and the parent of its canonical
      path. Reading comes first; canonicalisation is tried only once the
      text is in hand. */
  function ReadRecipeFile(fs: FileSystem, path: string): Result<Resolved>
  {
    match fs.readToString(path)
    case Err(e) => Err("Failed to read recipe file " + path + ": " + e)
    case Ok(content) =>
      match fs.canonicalize(path)
      case Err(e) => Err("Failed to resolve absolute path for " + path + ": " + e)
      case Ok(canonical) =>
        match fs.parent(canonical)
        case None => Err("Resolved path has no parent: " + canonical)
        case Some(dir) => Ok(Resolved(content, dir))
  }

  /** Success needs all three steps to succeed and yields the text with the
      parent of the canonical path, never of the path as given. A failed
      read decides the result whatever canonicalisation would say. */
  lemma ReadRecipeFileOutcome(fs: FileSystem, path: string)
    ensures ReadRecipeFile(fs, path).Ok? <==>
      && fs.readToString(path).Ok?
      && fs.canonicalize(path).Ok?
      && fs.parent(fs.canonicalize(path).value).Some?
    ensures ReadRecipeFile(fs, path).Ok? ==>
      ReadRecipeFile(fs, path).value ==
        Resolved(fs.readToString(path).value, fs.parent(fs.canonicalize(path).value).value)
    ensures fs.readToString(path).Err? ==>
      forall other: FileSystem :: other.readToString == fs.readToString ==>
        ReadRecipeFile(other, path) == ReadRecipeFile(fs, path)
  {
  }

  function NoRecipeInDirMessage(name: string, dir: string): string
  {
    "No " + name + ".yaml or " + name + ".json recipe file found in directory: " + dir
  }

  /** What `read_recipe_in_dir` returns: the first extension, in order,
      whose candidate file reads successfully decides; a candidate that
      fails for any reason is passed over. */
  function FindInDir(fs: FileSystem, extensions: seq<string>, dir: string, name: string): Result<Resolved>
    decreases |extensions|
  {
    if extensions == [] then Err(NoRecipeInDirMessage(name, dir))
    else
      match ReadRecipeFile(fs, CandidatePath(dir, name, extensions[0]))
      case Ok(found) => Ok(found)
      case Err(_) => FindInDir(fs, extensions[1..], dir, name)
  }

  /** Extension `k` is the first whose candidate file reads. */
  predicate IsFirstReadable(fs: FileSystem, extensions: seq<string>, dir: string, name: string, k: int)
  {
    && 0 <= k < |extensions|
    && ReadRecipeFile(fs, CandidatePath(dir, name, extensions[k])).Ok?
    && forall j :: 0 <= j < k ==> ReadRecipeFile(fs, CandidatePath(dir, name, extensions[j])).Err?
  }

  /** A directory yields a recipe exactly when some extension's candidate
      reads, and then it yields that of the first such extension; otherwise
      the error names the directory. */
  lemma {:induction false} FindInDirFirstReadable(fs: FileSystem, extensions: seq<string>, dir: string, name: string)
    ensures FindInDir(fs, extensions, dir, name).Ok? <==>
      exists k :: 0 <= k < |extensions| && ReadRecipeFile(fs, CandidatePath(dir, name, extensions[k])).Ok?
    ensures forall k :: IsFirstReadable(fs, extensions, dir, name, k) ==>
      FindInDir(fs, extensions, dir, name) == ReadRecipeFile(fs, CandidatePath(dir, name, extensions[k]))
    ensures FindInDir(fs, extensions, dir, name).Err? ==>
      FindInDir(fs, extensions, dir, name).error == NoRecipeInDirMessage(name, dir)
    decreases |extensions|
  {
    if extensions != [] {
      var rest := extensions[1..];
      FindInDirFirstReadable(fs, rest, dir, name);
      forall k | 0 <= k < |rest|
        ensures rest[k] == extensions[k + 1]
      {
      }
      forall k | IsFirstReadable(fs, extensions, dir, name, k)
        ensures FindInDir(fs, extensions, dir, name) == ReadRecipeFile(fs, CandidatePath(dir, name, extensions[k]))
      {
        if k > 0 {
          assert IsFirstReadable(fs, rest, dir, name, k - 1);
        }
      }
    }
  }

  /** `read_recipe_in_dir`: tries the extensions in order and returns on the
      first candidate that reads. */
  method ReadRecipeInDir(fs: FileSystem, extensions: seq<string>, dir: string, name: string)
    returns (r: Result<Resolved>)
    ensures r == FindInDir(fs, extensions, dir, name)
  {
    for i := 0 to |extensions|
      invariant FindInDir(fs, extensions, dir, name) == FindInDir(fs, extensions[i..], dir, name)
    {
      assert extensions[i..][1..] == extensions[i + 1..];
      var attempt := ReadRecipeFile(fs, CandidatePath(dir, name, extensions[i]));
      if attempt.Ok? {
        return Ok(attempt.value);
      }
    }
    return Err(NoRecipeInDirMessage(name, dir));
  }

  /** The recipe of the first directory, in order, that yields one. */
  function FirstFound(fs: FileSystem, extensions: seq<string>, dirs: seq<string>, name: string): Option<Resolved>
    decreases |dirs|
  {
    if dirs == [] then None
    else
      match FindInDir(fs, extensions, dirs[0], name)
      case Ok(found) => Some(found)
      case Err(_) => FirstFound(fs, extensions, dirs[1..], name)
  }

  /** Directory `i` is the first that yields a recipe. */
  predicate IsFirstHitDir(fs: FileSystem, extensions: seq<string>, dirs: seq<string>, name: string, i: int)
  {
    && 0 <= i < |dirs|
    && FindInDir(fs, extensions, dirs[i], name).Ok?
    && forall j :: 0 <= j < i ==> FindInDir(fs, extensions, dirs[j], name).Err?
  }

  /** Some directory yields a recipe exactly when the search finds one, and
      then the search returns the recipe of the first such directory. */
  lemma {:induction false} FirstFoundFirstHit(fs: FileSystem, extensions: seq<string>, dirs: seq<string>, name: string)
    ensures FirstFound(fs, extensions, dirs, name).Some? <==>
      exists i :: 0 <= i < |dirs| && FindInDir(fs, extensions, dirs[i], name).Ok?
    ensures forall i :: IsFirstHitDir(fs, extensions, dirs, name, i) ==>
      FirstFound(fs, extensions, dirs, name) == Some(FindInDir(fs, extensions, dirs[i], name).value)
    decreases |dirs|
  {
    if dirs != [] {
      var rest := dirs[1..];
      FirstFoundFirstHit(fs, extensions, rest, name);
      forall i | 0 <= i < |rest|
        ensures rest[i] == dirs[i + 1]
      {
      }
      forall i | IsFirstHitDir(fs, extensions, dirs, name, i)
        ensures FirstFound(fs, extensions, dirs, name) == Some(FindInDir(fs, extensions, dirs[i], name).value)
      {
        if i > 0 {
          assert IsFirstHitDir(fs, extensions, rest, name, i - 1);
        }
      }
    }
  }

  /** Directories after the first one that yields a recipe are never
      looked at: replacing them changes nothing. */
  lemma LaterDirsIgnored(fs: FileSystem, extensions: seq<string>, dirs: seq<string>, name: string, i: int, later: seq<string>)
    requires IsFirstHitDir(fs, extensions, dirs, name, i)
    ensures FirstFound(fs, extensions, dirs[..i + 1] + later, name) == FirstFound(fs, extensions, dirs, name)
  {
    var other := dirs[..i + 1] + later;
    assert forall j :: 0 <= j <= i ==> other[j] == dirs[j];
    assert IsFirstHitDir(fs, extensions, other, name, i);
    FirstFoundFirstHit(fs, extensions, dirs, name);
    FirstFoundFirstHit(fs, extensions, other, name);
  }

  /** The error of a failed local search; the directories are joined with
      `:` whatever the platform's separator. */
  function FailedToRetrieveMessage(name: string, dirs: seq<string>): string
  {
    "\U{2139}\U{FE0F}  Failed to retrieve " + name + ".yaml or " + name + ".json in " + JoinWith(dirs, ":")
  }

  /** What `retrieve_recipe_from_local_path` returns. */
  function LocalResolution(host: Host, name: string): Result<Resolved>
  {
    var dirs := SearchDirs(host.recipePathVar, host.separator);
    match FirstFound(host.fs, host.extensions, dirs, name)
    case Some(found) => Ok(found)
    case None => Err(FailedToRetrieveMessage(name, dirs))
  }

  /** `retrieve_recipe_from_local_path`: builds the search directories and
      returns on the first that yields a recipe. */
  method RetrieveRecipeFromLocalPath(host: Host, name: string) returns (r: Result<Resolved>)
    ensures r == LocalResolution(host, name)
  {
    var searchDirs := ["."];
    if host.recipePathVar.Some? {
      searchDirs := searchDirs + Split(host.recipePathVar.value, host.separator);
    }
    assert searchDirs == SearchDirs(host.recipePathVar, host.separator);
    for i := 0 to |searchDirs|
      invariant FirstFound(host.fs, host.extensions, searchDirs, name)
             == FirstFound(host.fs, host.extensions, searchDirs[i..], name)
    {
      assert searchDirs[i..][1..] == searchDirs[i + 1..];
      var found := ReadRecipeInDir(host.fs, host.extensions, searchDirs[i], name);
      if found.Ok? {
        return Ok(found.value);
      }
    }
    return Err(FailedToRetrieveMessage(name, searchDirs));
  }

  /** A failed local search reports every search directory, joined with
      `:`. */
  lemma LocalFailureMessage(host: Host, name: string)
    requires LocalResolution(host, name).Err?
    ensures LocalResolution(host, name).error ==
      FailedToRetrieveMessage(name, SearchDirs(host.recipePathVar, host.separator))
    ensures EndsWith(LocalResolution(host, name).error,
                     " in " + JoinWith(SearchDirs(host.recipePathVar, host.separator), ":"))
  {
    var head := "\U{2139}\U{FE0F}  Failed to retrieve " + name + ".yaml or " + name + ".json";
    var dirs := JoinWith(SearchDirs(host.recipePathVar, host.separator), ":");
    assert FailedToRetrieveMessage(name, SearchDirs(host.recipePathVar, host.separator)) == head + (" in " + dirs);
    EndsWithAppend(head, " in " + dirs);
  }

  /** With the variable unset, the message ends with ` in .`. */
  lemma LocalFailureWithoutVariable(host: Host, name: string)
    requires LocalResolution(host, name).Err?
    requires host.recipePathVar.None?
    ensures EndsWith(LocalResolution(host, name).error, " in .")
  {
    LocalFailureMessage(host, name);
    assert JoinWith(SearchDirs(host.recipePathVar, host.separator), ":") == ".";
  }

  /** With `:` as the separator, the message ends with ` in .:` followed by
      the variable's value unchanged. */
  lemma LocalFailureWithVariable(host: Host, name: string)
    requires LocalResolution(host, name).Err?
    requires host.recipePathVar.Some? && host.separator == ':'
    ensures EndsWith(LocalResolution(host, name).error, " in .:" + host.recipePathVar.value)
  {
    LocalFailureMessage(host, name);
    var dirs := SearchDirs(host.recipePathVar, host.separator);
    SearchDirsShape(host.recipePathVar, host.separator);
    assert JoinWith(dirs, ":") == "." + ":" + JoinWith(dirs[1..], ":");
    assert " in " + JoinWith(dirs, ":") == " in .:" + host.recipePathVar.value;
  }

  /** `retrieve_recipe_file` */
  function RetrieveRecipeFile(host: Host, name: string): Result<Resolved>
  {
    if IsDirectPath(host.extensions, name) then ReadRecipeFile(host.fs, name)
    else
      match LocalResolution(host, name)
      case Ok(found) => Ok(found)
      case Err(e) =>
        match ConfiguredRepo(host.repoSetting)
        case Some(repo) => host.github.fetch(name, repo)
        case None => Err(e)
  }

  /** A direct path is only read: its result, success or failure, is that
      of reading it, whatever the search directories, the configured
      repository or the GitHub client would say. */
  lemma DirectPathBypass(host: Host, name: string)
    requires IsDirectPath(host.extensions, name)
    ensures RetrieveRecipeFile(host, name) == ReadRecipeFile(host.fs, name)
    ensures forall other: Host :: other.fs == host.fs && other.extensions == host.extensions ==>
      RetrieveRecipeFile(other, name) == RetrieveRecipeFile(host, name)
  {
  }

  /** For a bare name, a local hit is final: GitHub is not consulted, so
      neither the setting nor the client can change the result. */
  lemma LocalBeforeRemote(host: Host, name: string, setting: Result<Option<string>>, client: GitHubClient)
    requires !IsDirectPath(host.extensions, name)
    requires LocalResolution(host, name).Ok?
    ensures RetrieveRecipeFile(host, name) == LocalResolution(host, name)
    ensures RetrieveRecipeFile(host.(repoSetting := setting, github := client), name) == RetrieveRecipeFile(host, name)
  {
    assert LocalResolution(host.(repoSetting := setting, github := client), name) == LocalResolution(host, name);
  }

  /** When every local directory fails, a configured repository is asked
      and its answer, success or failure, is the result; without one the
      local error comes back unchanged. */
  lemma RemoteFallback(host: Host, name: string)
    requires !IsDirectPath(host.extensions, name)
    requires LocalResolution(host, name).Err?
    ensures ConfiguredRepo(host.repoSetting).Some? ==>
      RetrieveRecipeFile(host, name) == host.github.fetch(name, ConfiguredRepo(host.repoSetting).value)
    ensures ConfiguredRepo(host.repoSetting).None? ==>
      RetrieveRecipeFile(host, name) == LocalResolution(host, name)
  {
  }

  /** A bare name resolves to the recipe of the first search directory that
      yields one, and within it of the first extension that reads: its text
      and its canonical parent, not those of any other directory. */
  lemma BareNamePrecedence(host: Host, name: string, i: int, k: int)
    requires !IsDirectPath(host.extensions, name)
    requires IsFirstHitDir(host.fs, host.extensions, SearchDirs(host.recipePathVar, host.separator), name, i)
    requires IsFirstReadable(host.fs, host.extensions, SearchDirs(host.recipePathVar, host.separator)[i], name, k)
    ensures RetrieveRecipeFile(host, name) ==
      ReadRecipeFile(host.fs, CandidatePath(SearchDirs(host.recipePathVar, host.separator)[i], name, host.extensions[k]))
  {
    var dirs := SearchDirs(host.recipePathVar, host.separator);
    FirstFoundFirstHit(host.fs, host.extensions, dirs, name);
    FindInDirFirstReadable(host.fs, host.extensions, dirs[i], name);
  }

  /** With the shipped extensions, a `.yaml` file wins over a `.json` file
      of the same name in the same directory. */
  lemma YamlBeforeJson(fs: FileSystem, dir: string, name: string)
    requires ReadRecipeFile(fs, CandidatePath(dir, name, "yaml")).Ok?
    ensures FindInDir(fs, RecipeFileExtensions, dir, name) == ReadRecipeFile(fs, CandidatePath(dir, name, "yaml"))
  {
  }
}
