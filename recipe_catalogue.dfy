/** Listing every discoverable recipe (`list_available_recipes` and its
    helpers in `search_recipe.rs`).

    Listing never fails: each search directory is scanned in order and its
    entries are appended, with no de-duplication across directories; a
    directory that cannot be scanned contributes nothing, and so does a
    file that cannot be read or parsed. The configured GitHub repository's
    recipes follow the local ones; a failed remote listing adds nothing. */
module RecipeCatalogue {
  import opened Wrappers
  import opened Paths
  import opened Host
  import Text
  import RecipeSearch

  /** `create_local_recipe_info` for the entry `name` of `dir`: the file is
      read and parsed with its lexical parent (or `.`) as base directory. */
  function CreateLocalRecipeInfo(host: Host, dir: string, name: string): Result<RecipeInfo>
  {
    var path := JoinPath(dir, name);
    match host.fs.readToString(path)
    case Err(e) => Err(e)
    case Ok(content) =>
      match host.parse(content, GetOr(host.fs.parent(path), "."))
      case Err(e) => Err(e)
      case Ok(recipe) =>
        Ok(RecipeInfo(GetOr(FileStem(name), "unknown"), Local, path,
                      Some(recipe.title), Some(recipe.description)))
  }

  /** An entry is made exactly when the file reads and its text parses; it
      is a local entry named after the file stem, carrying the path as
      given and the parsed title and description. */
  lemma LocalRecipeInfoShape(host: Host, dir: string, name: string)
    ensures var path := JoinPath(dir, name);
      CreateLocalRecipeInfo(host, dir, name).Ok? <==>
        && host.fs.readToString(path).Ok?
        && host.parse(host.fs.readToString(path).value, GetOr(host.fs.parent(path), ".")).Ok?
    ensures var path := JoinPath(dir, name);
      CreateLocalRecipeInfo(host, dir, name).Ok? ==>
        var info := CreateLocalRecipeInfo(host, dir, name).value;
        var recipe := host.parse(host.fs.readToString(path).value, GetOr(host.fs.parent(path), ".")).value;
        && info.source == Local
        && info.path == path
        && info.title == Some(recipe.title)
        && info.description == Some(recipe.description)
        && (FileStem(name).Some? ==> info.name == FileStem(name).value)
        && (FileStem(name).None? ==> info.name == "unknown")
  {
  }

  /** The listing entry a directory entry contributes: only a regular file
      whose extension is recognised, and only if an entry can be made for
      it. */
  function EntryRecipe(host: Host, dir: string, name: string): Option<RecipeInfo>
  {
    if !host.fs.isFile(JoinPath(dir, name)) then None
    else
      match Extension(name)
      case None => None
      case Some(ext) =>
        if ext !in host.extensions then None
        else
          match CreateLocalRecipeInfo(host, dir, name)
          case Ok(info) => Some(info)
          case Err(_) => None
  }

  /** A listed local entry's path is the candidate `<dir>/<name>.<ext>` of
      its listed name for one of the recognised extensions. When a lookup
      of that name reaches it is stated by `ListedEntryFoundInDir` and
      `ListedEntryRetrieved`. */
  lemma ListedEntryIsCandidate(host: Host, dir: string, entry: string)
    requires EntryRecipe(host, dir, entry).Some?
    ensures var info := EntryRecipe(host, dir, entry).value;
      exists k :: 0 <= k < |host.extensions|
        && info.path == RecipeSearch.CandidatePath(dir, info.name, host.extensions[k])
  {
    var ext := Extension(entry).value;
    StemAndExtension(entry);
    LocalRecipeInfoShape(host, dir, entry);
    var k :| 0 <= k < |host.extensions| && host.extensions[k] == ext;
    assert EntryRecipe(host, dir, entry).value.path
      == RecipeSearch.CandidatePath(dir, EntryRecipe(host, dir, entry).value.name, host.extensions[k]);
  }

  /** Conversely, a candidate file `<name>.<ext>` of a recognised extension
      that reads and parses is listed under `name`, with the candidate's
      path. */
  lemma CandidateEntryListed(host: Host, dir: string, name: string, ext: string)
    requires name != "" && ext != "" && '.' !in ext && ext in host.extensions
    requires host.fs.isFile(RecipeSearch.CandidatePath(dir, name, ext))
    requires CreateLocalRecipeInfo(host, dir, name + "." + ext).Ok?
    ensures EntryRecipe(host, dir, name + "." + ext).Some?
    ensures EntryRecipe(host, dir, name + "." + ext).value.name == name
    ensures EntryRecipe(host, dir, name + "." + ext).value.path == RecipeSearch.CandidatePath(dir, name, ext)
  {
    ExtensionOfCandidate(name, ext);
    LocalRecipeInfoShape(host, dir, name + "." + ext);
  }

  /** Within its directory, the listed name finds the listed file when that
      file can be read as a recipe and no extension tried before its own
      has a readable candidate of the same stem. A readable `<name>.yaml`
      shadows a listed `<name>.json`. */
  lemma ListedEntryFoundInDir(host: Host, dir: string, entry: string, k: int)
    requires EntryRecipe(host, dir, entry).Some?
    requires 0 <= k < |host.extensions| && Extension(entry) == Some(host.extensions[k])
    requires RecipeSearch.ReadRecipeFile(host.fs, EntryRecipe(host, dir, entry).value.path).Ok?
    requires forall j :: 0 <= j < k ==>
      RecipeSearch.ReadRecipeFile(host.fs,
        RecipeSearch.CandidatePath(dir, EntryRecipe(host, dir, entry).value.name, host.extensions[j])).Err?
    ensures var info := EntryRecipe(host, dir, entry).value;
      RecipeSearch.FindInDir(host.fs, host.extensions, dir, info.name)
        == RecipeSearch.ReadRecipeFile(host.fs, info.path)
  {
    var info := EntryRecipe(host, dir, entry).value;
    StemAndExtension(entry);
    LocalRecipeInfoShape(host, dir, entry);
    assert info.path == RecipeSearch.CandidatePath(dir, info.name, host.extensions[k]);
    assert RecipeSearch.IsFirstReadable(host.fs, host.extensions, dir, info.name, k);
    RecipeSearch.FindInDirFirstReadable(host.fs, host.extensions, dir, info.name);
  }

  /** A recipe listed from search directory `i` is what retrieving its
      listed name returns, text and all, when that name is not itself a
      direct path, no earlier directory yields a recipe of that name, and
      nothing shadows it in its own directory. */
  lemma ListedEntryRetrieved(host: Host, i: int, entry: string, k: int)
    requires 0 <= i < |RecipeSearch.SearchDirs(host.recipePathVar, host.separator)|
    requires EntryRecipe(host, RecipeSearch.SearchDirs(host.recipePathVar, host.separator)[i], entry).Some?
    requires 0 <= k < |host.extensions| && Extension(entry) == Some(host.extensions[k])
    requires var dirs := RecipeSearch.SearchDirs(host.recipePathVar, host.separator);
      var info := EntryRecipe(host, dirs[i], entry).value;
      && !RecipeSearch.IsDirectPath(host.extensions, info.name)
      && RecipeSearch.ReadRecipeFile(host.fs, info.path).Ok?
      && (forall j :: 0 <= j < k ==>
            RecipeSearch.ReadRecipeFile(host.fs, RecipeSearch.CandidatePath(dirs[i], info.name, host.extensions[j])).Err?)
      && (forall j :: 0 <= j < i ==> RecipeSearch.FindInDir(host.fs, host.extensions, dirs[j], info.name).Err?)
    ensures var dirs := RecipeSearch.SearchDirs(host.recipePathVar, host.separator);
      var info := EntryRecipe(host, dirs[i], entry).value;
      && RecipeSearch.RetrieveRecipeFile(host, info.name) == RecipeSearch.ReadRecipeFile(host.fs, info.path)
      && RecipeSearch.RetrieveRecipeFile(host, info.name).Ok?
      && RecipeSearch.RetrieveRecipeFile(host, info.name).value.content == host.fs.readToString(info.path).value
  {
    var dirs := RecipeSearch.SearchDirs(host.recipePathVar, host.separator);
    var info := EntryRecipe(host, dirs[i], entry).value;
    ListedEntryFoundInDir(host, dirs[i], entry, k);
    assert RecipeSearch.IsFirstHitDir(host.fs, host.extensions, dirs, info.name, i);
    RecipeSearch.FirstFoundFirstHit(host.fs, host.extensions, dirs, info.name);
    RecipeSearch.ReadRecipeFileOutcome(host.fs, info.path);
  }

  function OptionToSeq<T>(o: Option<T>): seq<T>
  {
    match o
    case None => []
    case Some(v) => [v]
  }

  /** The scan of a directory's entries, in the order they are listed: the
      first entry that cannot be read aborts it. */
  function ScanEntries(host: Host, dir: string, entries: seq<Result<string>>): Result<seq<RecipeInfo>>
    decreases |entries|
  {
    if entries == [] then Ok([])
    else
      match entries[0]
      case Err(e) => Err(e)
      case Ok(name) =>
        match ScanEntries(host, dir, entries[1..])
        case Err(e) => Err(e)
        case Ok(rest) => Ok(OptionToSeq(EntryRecipe(host, dir, name)) + rest)
  }

  /** What `scan_directory_for_recipes` returns. */
  function ScanDirectory(host: Host, dir: string): Result<seq<RecipeInfo>>
  {
    if !host.fs.pathExists(dir) || !host.fs.isDir(dir) then Ok([])
    else
      match host.fs.readDir(dir)
      case Err(e) => Err(e)
      case Ok(entries) => ScanEntries(host, dir, entries)
  }

  /** The recipes found so far followed by the outcome of the rest of a
      scan: an error of the rest discards them. */
  function Prepend(found: seq<RecipeInfo>, rest: Result<seq<RecipeInfo>>): Result<seq<RecipeInfo>>
  {
    match rest
    case Err(e) => Err(e)
    case Ok(more) => Ok(found + more)
  }

  /** One step of a scan: a readable entry moves its contribution to the
      recipes found so far. */
  lemma PrependStep(host: Host, dir: string, found: seq<RecipeInfo>, entries: seq<Result<string>>)
    requires |entries| > 0 && entries[0].Ok?
    ensures Prepend(found, ScanEntries(host, dir, entries)) ==
      Prepend(found + OptionToSeq(EntryRecipe(host, dir, entries[0].value)), ScanEntries(host, dir, entries[1..]))
  {
    match ScanEntries(host, dir, entries[1..]) {
      case Err(_) =>
      case Ok(more) =>
        var contribution := OptionToSeq(EntryRecipe(host, dir, entries[0].value));
        assert found + (contribution + more) == (found + contribution) + more;
    }
  }

  /** `scan_directory_for_recipes`: a missing path or a non-directory gives
      nothing; otherwise the entries are visited in order and each admitted
      file's entry is pushed; a failing entry abandons the scan. */
  method ScanDirectoryForRecipes(host: Host, dir: string) returns (r: Result<seq<RecipeInfo>>)
    ensures r == ScanDirectory(host, dir)
  {
    var recipes: seq<RecipeInfo> := [];
    if !host.fs.pathExists(dir) || !host.fs.isDir(dir) {
      return Ok(recipes);
    }
    var listing := host.fs.readDir(dir);
    if listing.Err? {
      return Err(listing.error);
    }
    var entries := listing.value;
    assert entries[0..] == entries;
    match ScanEntries(host, dir, entries) {
      case Err(_) =>
      case Ok(all) => assert [] + all == all;
    }
    for i := 0 to |entries|
      invariant ScanEntries(host, dir, entries) == Prepend(recipes, ScanEntries(host, dir, entries[i..]))
    {
      var entry := entries[i];
      if entry.Err? {
        return Err(entry.error);
      }
      assert entries[i..][1..] == entries[i + 1..];
      PrependStep(host, dir, recipes, entries[i..]);
      ghost var before := recipes;
      var path := JoinPath(dir, entry.value);
      if host.fs.isFile(path) {
        var extension := Extension(entry.value);
        if extension.Some? && extension.value in host.extensions {
          var info := CreateLocalRecipeInfo(host, dir, entry.value);
          if info.Ok? {
            recipes := recipes + [info.value];
          }
        }
      }
      ghost var contribution := OptionToSeq(EntryRecipe(host, dir, entry.value));
      assert recipes == before + contribution;
    }
    assert entries[|entries|..] == [];
    assert recipes + [] == recipes;
    return Ok(recipes);
  }

  /** A scan succeeds exactly when every entry can be read. It then lists,
      in order, the contribution of each entry: every listed recipe is a
      local entry contributed by some directory entry, and every entry that
      contributes is listed. */
  lemma {:induction false} ScanEntriesContents(host: Host, dir: string, entries: seq<Result<string>>)
    ensures ScanEntries(host, dir, entries).Ok? <==> forall i :: 0 <= i < |entries| ==> entries[i].Ok?
    ensures ScanEntries(host, dir, entries).Ok? ==>
      var listed := ScanEntries(host, dir, entries).value;
      && |listed| <= |entries|
      && (forall info :: info in listed ==> info.source == Local)
      && (forall info :: info in listed ==>
            exists i :: 0 <= i < |entries| && EntryRecipe(host, dir, entries[i].value) == Some(info))
      && (forall i :: 0 <= i < |entries| && EntryRecipe(host, dir, entries[i].value).Some? ==>
            EntryRecipe(host, dir, entries[i].value).value in listed)
    decreases |entries|
  {
    if entries != [] {
      var tail := entries[1..];
      ScanEntriesContents(host, dir, tail);
      assert forall i :: 1 <= i < |entries| ==> entries[i] == tail[i - 1];
      if entries[0].Ok? && ScanEntries(host, dir, tail).Ok? {
        var name := entries[0].value;
        var listed := ScanEntries(host, dir, entries).value;
        var rest := ScanEntries(host, dir, tail).value;
        assert listed == OptionToSeq(EntryRecipe(host, dir, name)) + rest;
        if EntryRecipe(host, dir, name).Some? {
          LocalRecipeInfoShape(host, dir, name);
        }
        forall info | info in listed
          ensures exists i :: 0 <= i < |entries| && EntryRecipe(host, dir, entries[i].value) == Some(info)
        {
          if info !in rest {
            assert EntryRecipe(host, dir, entries[0].value) == Some(info);
          } else {
            var j :| 0 <= j < |tail| && EntryRecipe(host, dir, tail[j].value) == Some(info);
            assert entries[j + 1] == tail[j];
          }
        }
      }
    }
  }

  /** An entry that contributes nothing (not a file, another extension, a
      file that cannot be read or parsed) can be taken away without changing
      the listing. */
  lemma {:induction false} SkippedEntryChangesNothing(host: Host, dir: string, entries: seq<Result<string>>, k: int)
    requires 0 <= k < |entries| && entries[k].Ok?
    requires EntryRecipe(host, dir, entries[k].value).None?
    ensures ScanEntries(host, dir, entries) == ScanEntries(host, dir, entries[..k] + entries[k + 1..])
    decreases |entries|
  {
    if k == 0 {
      assert entries[..k] + entries[k + 1..] == entries[1..];
      assert OptionToSeq(EntryRecipe(host, dir, entries[0].value)) == [];
      match ScanEntries(host, dir, entries[1..]) {
        case Err(_) =>
        case Ok(rest) => assert [] + rest == rest;
      }
    } else {
      var tail := entries[1..];
      SkippedEntryChangesNothing(host, dir, tail, k - 1);
      var without := entries[..k] + entries[k + 1..];
      assert without[0] == entries[0];
      assert without[1..] == tail[..k - 1] + tail[k..];
    }
  }

  /** What one directory adds to the listing: its scan, or nothing when the
      scan fails. */
  function DirectoryContribution(host: Host, dir: string): seq<RecipeInfo>
  {
    match ScanDirectory(host, dir)
    case Ok(found) => found
    case Err(_) => []
  }

  /** The listings of the directories, in order, one after another. */
  function Concat(contribution: string -> seq<RecipeInfo>, dirs: seq<string>): seq<RecipeInfo>
    decreases |dirs|
  {
    if dirs == [] then [] else contribution(dirs[0]) + Concat(contribution, dirs[1..])
  }

  lemma {:induction false} ConcatAppend(contribution: string -> seq<RecipeInfo>, first: seq<string>, second: seq<string>)
    ensures Concat(contribution, first + second) == Concat(contribution, first) + Concat(contribution, second)
    decreases |first|
  {
    if first == [] {
      assert first + second == second;
    } else {
      assert (first + second)[1..] == first[1..] + second;
      ConcatAppend(contribution, first[1..], second);
    }
  }

  /** The local part of the listing: each directory's scan appended whole,
      in order; a directory whose scan fails contributes nothing. */
  function LocalCatalogue(host: Host, dirs: seq<string>): seq<RecipeInfo>
  {
    Concat(dir => DirectoryContribution(host, dir), dirs)
  }

  /** `discover_local_recipes`: scans every search directory in order and
      extends the list with each scan that succeeds. It never fails. */
  method DiscoverLocalRecipes(host: Host) returns (r: Result<seq<RecipeInfo>>)
    ensures r == Ok(LocalCatalogue(host, RecipeSearch.SearchDirs(host.recipePathVar, host.separator)))
  {
    var recipes: seq<RecipeInfo> := [];
    var searchDirs := RecipeSearch.SearchDirs(host.recipePathVar, host.separator);
    assert searchDirs[0..] == searchDirs;
    for i := 0 to |searchDirs|
      invariant LocalCatalogue(host, searchDirs) == recipes + LocalCatalogue(host, searchDirs[i..])
    {
      LocalCatalogueStep(host, searchDirs, i);
      ghost var contribution := DirectoryContribution(host, searchDirs[i]);
      ghost var rest := LocalCatalogue(host, searchDirs[i + 1..]);
      assert recipes + (contribution + rest) == (recipes + contribution) + rest;
      var scanned := ScanDirectoryForRecipes(host, searchDirs[i]);
      if scanned.Ok? {
        recipes := recipes + scanned.value;
      } else {
        assert recipes == recipes + contribution;
      }
    }
    assert LocalCatalogue(host, searchDirs[|searchDirs|..]) == [];
    assert recipes + [] == recipes;
    return Ok(recipes);
  }

  /** The listing from directory `i` on is that directory's contribution
      followed by the listing of the directories after it. */
  lemma LocalCatalogueStep(host: Host, dirs: seq<string>, i: int)
    requires 0 <= i < |dirs|
    ensures LocalCatalogue(host, dirs[i..]) == DirectoryContribution(host, dirs[i]) + LocalCatalogue(host, dirs[i + 1..])
  {
    assert dirs[i..][1..] == dirs[i + 1..];
  }

  /** Listing two runs of directories is listing each and concatenating:
      nothing is merged or de-duplicated, so a directory given twice is
      listed twice. */
  lemma LocalCatalogueAppend(host: Host, first: seq<string>, second: seq<string>)
    ensures LocalCatalogue(host, first + second) == LocalCatalogue(host, first) + LocalCatalogue(host, second)
  {
    ConcatAppend(dir => DirectoryContribution(host, dir), first, second);
  }

  /** Every local entry is a recipe that the scan of one of the directories
      found, and is marked local. */
  lemma {:induction false} LocalCatalogueOrigin(host: Host, dirs: seq<string>)
    ensures forall info :: info in LocalCatalogue(host, dirs) ==> info.source == Local
    ensures forall info :: info in LocalCatalogue(host, dirs) ==>
      exists i :: 0 <= i < |dirs| && ScanDirectory(host, dirs[i]).Ok? && info in ScanDirectory(host, dirs[i]).value
    decreases |dirs|
  {
    if dirs != [] {
      LocalCatalogueOrigin(host, dirs[1..]);
      var scan := ScanDirectory(host, dirs[0]);
      if scan.Ok? && !(host.fs.pathExists(dirs[0]) && host.fs.isDir(dirs[0])) {
        assert scan.value == [];
      } else if scan.Ok? {
        ScanEntriesContents(host, dirs[0], host.fs.readDir(dirs[0]).value);
      }
      forall info | info in LocalCatalogue(host, dirs)
        ensures exists i :: 0 <= i < |dirs| && ScanDirectory(host, dirs[i]).Ok? && info in ScanDirectory(host, dirs[i]).value
      {
        if info !in LocalCatalogue(host, dirs[1..]) {
          assert ScanDirectory(host, dirs[0]).Ok? && info in ScanDirectory(host, dirs[0]).value;
        } else {
          var j :| 0 <= j < |dirs[1..]| && ScanDirectory(host, dirs[1..][j]).Ok? && info in ScanDirectory(host, dirs[1..][j]).value;
          assert dirs[1..][j] == dirs[j + 1];
        }
      }
    }
  }

  /** The GitHub entries: those of the configured repository, or none when
      no repository is configured or its listing fails. */
  function RemoteCatalogue(host: Host): seq<RecipeInfo>
  {
    match RecipeSearch.ConfiguredRepo(host.repoSetting)
    case None => []
    case Some(repo) =>
      match host.github.list(repo)
      case Ok(found) => found
      case Err(_) => []
  }

  /** `list_available_recipes`: the local entries, then the remote ones. */
  method ListAvailableRecipes(host: Host) returns (r: Result<seq<RecipeInfo>>)
    ensures r == Ok(LocalCatalogue(host, RecipeSearch.SearchDirs(host.recipePathVar, host.separator))
                    + RemoteCatalogue(host))
  {
    var recipes: seq<RecipeInfo> := [];
    var local := DiscoverLocalRecipes(host);
    if local.Ok? {
      recipes := recipes + local.value;
    }
    assert recipes == LocalCatalogue(host, RecipeSearch.SearchDirs(host.recipePathVar, host.separator));
    var repo := RecipeSearch.ConfiguredRepo(host.repoSetting);
    if repo.Some? {
      var remote := host.github.list(repo.value);
      if remote.Ok? {
        recipes := recipes + remote.value;
      } else {
        assert recipes == recipes + RemoteCatalogue(host);
      }
    } else {
      assert recipes == recipes + RemoteCatalogue(host);
    }
    return Ok(recipes);
  }

  /** Remote entries come from the configured repository's listing
      unchanged; without a repository, or when its listing fails, there are
      none, and the listing is the local one alone. */
  lemma RemoteCatalogueSources(host: Host)
    ensures RecipeSearch.ConfiguredRepo(host.repoSetting).None? ==> RemoteCatalogue(host) == []
    ensures RecipeSearch.ConfiguredRepo(host.repoSetting).Some? ==>
      var listing := host.github.list(RecipeSearch.ConfiguredRepo(host.repoSetting).value);
      RemoteCatalogue(host) == (if listing.Ok? then listing.value else [])
  {
  }
}
