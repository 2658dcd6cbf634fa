# goose recipe resolution and discovery, in Dafny

A model of how the goose command line finds recipes (`search_recipe.rs`) and of the
string-level logic of the `recipe` subcommands (`commands/recipe.rs`), with proofs of
the policies they follow.

- **Resolution** (`RecipeSearch`). An identifier ending in `.yaml` or `.json` (more
  generally, `.<ext>` for a recognised extension) is read as a path and nothing else
  is tried. Any other identifier is a bare name. It is looked up as `<dir>/<name>.<ext>`:
  - in the search directories, in order: `.` and then the pieces of `GOOSE_RECIPE_PATH`;
  - trying the extensions in order within each directory.

  The first candidate that reads wins. Its result is the file text and the parent of
  its canonical path. Only when every directory fails is the configured GitHub
  repository asked.
- **Listing** (`RecipeCatalogue`). It never fails. Every search directory is scanned in
  order and its admitted files are appended, with no de-duplication. An admitted file
  is a regular file with a recognised extension that reads and parses. The configured
  repository's recipes follow. A scan that fails and a remote listing that fails each
  contribute nothing.
- **Commands** (`RecipeCommand`):
  - `validate` passes the loader's verdict through.
  - `deeplink` builds `goose://recipe?config=` followed by the percent-encoded,
    padded base64 of the recipe's JSON text. The model proves this link decodes back
    to that JSON text.
  - `list` prints a header and one block per recipe, or `No recipes found`.

The world outside the process is one value, `Host.Host`. It holds:
- a read-only filesystem, as functions from path text to results;
- the `GOOSE_RECIPE_PATH` value and the platform's path-list separator;
- the recognised extensions;
- the configured repository setting;
- the GitHub client;
- the recipe parser.

The encodings the deep link uses are concrete, each with a reference decoder and a
proved round trip:
- UTF-8 (RFC 3629);
- standard padded base64 (section 4 of RFC 4648);
- the `urlencoding` crate's percent-encoding: unreserved characters of section 2.3 of
  RFC 3986 kept, every other byte written `%XY` in upper case.

Files: `wrappers.dfy`, `text.dfy` (split and join), `paths.dfy` (join, extension, file
stem), `utf8.dfy`, `percent.dfy`, `base64.dfy`, `host.dfy`, `recipe_search.dfy`,
`recipe_catalogue.dfy` and `recipe_command.dfy`.

## Model

| member | source | states |
|---|---|---|
| RecipeSearch.RetrieveRecipeFile | crates/goose-cli/src/recipes/search_recipe.rs:15-31 | Definition of `retrieve_recipe_file`: a direct path is read; otherwise the local search, then the configured repository on local failure; its properties are the `DirectPathBypass`, `LocalBeforeRemote`, `RemoteFallback` and `BareNamePrecedence` rows |
| RecipeSearch.IsDirectPath | crates/goose-cli/src/recipes/search_recipe.rs:17-19 | Definition: the identifier ends in `.` followed by some recognised extension |
| RecipeSearch.ReadRecipeFile | crates/goose-cli/src/recipes/search_recipe.rs:84-104 | Definition of `read_recipe_file`: read, then canonicalise, then take the parent, each failure with the source's message; `ReadRecipeFileOutcome` states its outcome |
| RecipeSearch.SearchDirs | crates/goose-cli/src/recipes/search_recipe.rs:49-57 | Definition: `.` followed by the pieces of `GOOSE_RECIPE_PATH` split on the separator; `SearchDirsShape` and `SearchDirsOfList` state its shape |
| RecipeSearch.FindInDir | crates/goose-cli/src/recipes/search_recipe.rs:33-46 | Definition of what `read_recipe_in_dir` returns: the first extension whose candidate reads, else the per-directory error; `FindInDirFirstReadable` states it |
| RecipeSearch.FirstFound | crates/goose-cli/src/recipes/search_recipe.rs:58-62 | Definition: the recipe of the first search directory that yields one; `FirstFoundFirstHit` states it |
| RecipeSearch.LocalResolution | crates/goose-cli/src/recipes/search_recipe.rs:48-74 | Definition of what `retrieve_recipe_from_local_path` returns: the first directory's hit, else the failure message over all search directories |
| RecipeCatalogue.CreateLocalRecipeInfo | crates/goose-cli/src/recipes/search_recipe.rs:173-197 | Definition of `create_local_recipe_info`: read, parse with the lexical parent or `.`, and build a local entry; `LocalRecipeInfoShape` states it |
| RecipeCatalogue.EntryRecipe | crates/goose-cli/src/recipes/search_recipe.rs:159-167 | Definition: what one directory entry contributes, an entry only for a regular file with a recognised extension whose entry can be made |
| RecipeCatalogue.ScanEntries | crates/goose-cli/src/recipes/search_recipe.rs:155-170 | Definition: the entries' contributions in order, the first unreadable entry failing the scan; `ScanEntriesContents` states it |
| RecipeCatalogue.ScanDirectory | crates/goose-cli/src/recipes/search_recipe.rs:148-171 | Definition of what `scan_directory_for_recipes` returns: nothing for a missing path or a non-directory, the `read_dir` error, or the scan of the entries |
| RecipeCatalogue.LocalCatalogue | crates/goose-cli/src/recipes/search_recipe.rs:125-146 | Definition of what `discover_local_recipes` yields: every directory's successful scan, in order; `LocalCatalogueAppend` and `LocalCatalogueOrigin` state it |
| RecipeCatalogue.RemoteCatalogue | crates/goose-cli/src/recipes/search_recipe.rs:115-120 | Definition: the configured repository's listing, or nothing; `RemoteCatalogueSources` states it |
| RecipeCommand.Deeplink | crates/goose-cli/src/commands/recipe.rs:46-58 | Definition: `goose://recipe?config=` followed by the percent-encoding of the standard base64 of the JSON text's UTF-8 bytes; `DeeplinkRoundTrip`, `DeeplinkQuerySafe` and the padding rows state it |
| RecipeCommand.HandleDeeplink | crates/goose-cli/src/commands/recipe.rs:42-65 | Definition of `handle_deeplink`: the load error, `Ok("")` when serialisation fails, or the link; `HandleDeeplinkOutcome` states it |
| RecipeCommand.RecipeLines | crates/goose-cli/src/commands/recipe.rs:96-120 | Definition: the lines printed for one recipe; `RecipeBlockShape` and `ColumnsShown` state them |
| RecipeCommand.TextListing | crates/goose-cli/src/commands/recipe.rs:89-122 | Definition: `No recipes found`, or the header followed by every recipe's lines in order; `TextListingLines` and `RecipeBlocksAppend` state it |
| Text.EndsWith | crates/goose-cli/src/recipes/search_recipe.rs:19 | Definition of `str::ends_with`: the last `|suffix|` characters are the suffix; `EndsWithAppend` states that `s + suffix` ends with `suffix` |
| Text.JoinWith | crates/goose-cli/src/recipes/search_recipe.rs:63-67 | Definition of `join`: the pieces with the separator between neighbours; `JoinSplit` and `SplitJoin` state it against `Split` |
| Paths.JoinPath | crates/goose-cli/src/recipes/search_recipe.rs:35 | Definition of `Path::join` on Unix (also the `entry.path()` of line 157): an absolute right side replaces the left, otherwise the two are joined with one `/` |
| Paths.Extension | crates/goose-cli/src/recipes/search_recipe.rs:160 | Definition of `Path::extension`: the text after the last dot, none when there is no dot or the only dot leads the name; `StemAndExtension` and `ExtensionOfCandidate` state it |
| Paths.FileStem | crates/goose-cli/src/recipes/search_recipe.rs:182-186 | Definition of `Path::file_stem`: the text before the last dot, or the whole name without an extension; `StemAndExtension` and `ExtensionOfCandidate` state it |
| RecipeSearch.CandidatePath | crates/goose-cli/src/recipes/search_recipe.rs:35 | Definition: `<dir>` joined with `<name>.<ext>` |
| RecipeCatalogue.DirectoryContribution | crates/goose-cli/src/recipes/search_recipe.rs:139-143 | Definition: a directory's scan when it succeeds, nothing when it fails (the error is dropped); `LocalCatalogueOrigin` states it |
| Utf8.Encode | crates/goose-cli/src/commands/recipe.rs:48-54 | Definition: the bytes of a Rust `String`, each character's encoding in order, which both encoders read; `Utf8.DecodeEncode` states it |
| Base64.Encode | crates/goose-cli/src/commands/recipe.rs:48 | Definition of `STANDARD.encode`: each group of three bytes as four alphabet characters, a final one or two bytes padded with `=`; `Base64.DecodeEncode`, `EncodeLength` and `EncodePadding` state it |
| PercentEncoding.Encode | crates/goose-cli/src/commands/recipe.rs:54 | Definition of `urlencoding::encode`: each UTF-8 byte kept when unreserved, else `%XY`; `DecodeEncodeBytes` and `EncodedIsQuerySafe` state it |
| RecipeSearch.DirectPathBypass | crates/goose-cli/src/recipes/search_recipe.rs:17-23 | An identifier ending in `.<ext>` resolves to exactly the result of reading it, failure included; the search path, repository setting and GitHub client cannot change it |
| RecipeSearch.LocalBeforeRemote | crates/goose-cli/src/recipes/search_recipe.rs:24-30 | For a bare name found locally, the local result is final and GitHub is never consulted (changing the setting or the client changes nothing) |
| RecipeSearch.RemoteFallback | crates/goose-cli/src/recipes/search_recipe.rs:24-30 | When every local directory fails, a configured repository's fetch is the result, success or failure; with none configured, the local error comes back unchanged |
| RecipeSearch.BareNamePrecedence | crates/goose-cli/src/recipes/search_recipe.rs:15-62 | A bare name resolves to the read of `<dir>/<name>.<ext>` for the first directory that yields a recipe and, within it, the first extension that reads |
| RecipeSearch.ConfiguredRepo | crates/goose-cli/src/recipes/search_recipe.rs:76-82 | A repository is configured exactly when the setting lookup succeeds and is set, and then it is that value; a failed lookup counts as unset |
| RecipeSearch.SearchDirsShape | crates/goose-cli/src/recipes/search_recipe.rs:49-57 | The search list starts with `.`; unset variable gives exactly `["."]`; otherwise the rest are the variable's pieces in order, free of the separator, and joining them gives the value back (nothing dropped, merged or checked for existence) |
| RecipeSearch.SearchDirsOfList | crates/goose-cli/src/recipes/search_recipe.rs:50-56 | Any non-empty list of directories without the separator, joined with it, comes back as the search directories after `.` |
| Text.Split | crates/goose-cli/src/recipes/search_recipe.rs:52-55 | `str::split` always yields at least one piece, and no piece contains the separator |
| Text.JoinSplit | crates/goose-cli/src/recipes/search_recipe.rs:52-55 | Joining the pieces of a split with the separator gives back the original text |
| Text.SplitJoin | crates/goose-cli/src/recipes/search_recipe.rs:52-55 | Splitting the join of separator-free pieces gives back the pieces |
| RecipeSearch.ReadRecipeFileOutcome | crates/goose-cli/src/recipes/search_recipe.rs:84-104 | Reading succeeds exactly when the read, the canonicalisation and the parent lookup succeed, and yields the text with the parent of the canonical path; a failed read decides the result before canonicalisation |
| RecipeSearch.FindInDirFirstReadable | crates/goose-cli/src/recipes/search_recipe.rs:33-46 | A directory yields a recipe iff some extension's candidate reads; it yields the first such extension's read; otherwise the error names the recipe and the directory |
| RecipeSearch.ReadRecipeInDir | crates/goose-cli/src/recipes/search_recipe.rs:33-46 | The loop over extensions with early return computes exactly the first-readable-candidate result above |
| RecipeSearch.YamlBeforeJson | crates/goose-cli/src/recipes/search_recipe.rs:34-39 | With the shipped extensions, a readable `<name>.yaml` wins over `<name>.json` in the same directory |
| RecipeSearch.FirstFoundFirstHit | crates/goose-cli/src/recipes/search_recipe.rs:58-62 | The local search finds a recipe iff some directory yields one, and then returns the recipe of the first such directory |
| RecipeSearch.LaterDirsIgnored | crates/goose-cli/src/recipes/search_recipe.rs:58-62 | Directories after the first hit are never consulted: replacing them leaves the result unchanged |
| RecipeSearch.RetrieveRecipeFromLocalPath | crates/goose-cli/src/recipes/search_recipe.rs:48-74 | The loop over search directories returns the first directory's hit, or the failure message listing the directories |
| RecipeSearch.LocalFailureMessage | crates/goose-cli/src/recipes/search_recipe.rs:63-73 | A failed local search's message ends with ` in ` and every search directory joined with `:`, whatever the platform separator |
| RecipeSearch.LocalFailureWithoutVariable | crates/goose-cli/src/recipes/search_recipe.rs:63-73 | With the variable unset, the failure message lists exactly `.` |
| RecipeSearch.LocalFailureWithVariable | crates/goose-cli/src/recipes/search_recipe.rs:63-73 | With `:` as separator, the failure message ends with `.:` followed by the variable's value unchanged |
| RecipeCatalogue.ListAvailableRecipes | crates/goose-cli/src/recipes/search_recipe.rs:106-123 | Listing always succeeds with the local entries followed by the remote ones |
| RecipeCatalogue.RemoteCatalogueSources | crates/goose-cli/src/recipes/search_recipe.rs:115-120 | Remote entries are the configured repository's listing unchanged; none without a repository or when that listing fails |
| RecipeCatalogue.DiscoverLocalRecipes | crates/goose-cli/src/recipes/search_recipe.rs:125-146 | The loop over search directories always succeeds and yields each successful directory scan appended in order, failed scans adding nothing |
| RecipeCatalogue.LocalCatalogueAppend | crates/goose-cli/src/recipes/search_recipe.rs:139-143 | The local listing of two runs of directories is the concatenation of their listings: nothing is merged or de-duplicated |
| RecipeCatalogue.LocalCatalogueOrigin | crates/goose-cli/src/recipes/search_recipe.rs:139-143 | Every local entry is marked local and was found by the scan of one of the search directories |
| RecipeCatalogue.ScanDirectoryForRecipes | crates/goose-cli/src/recipes/search_recipe.rs:148-171 | A missing path or non-directory gives an empty list; a `read_dir` or entry error fails the scan; otherwise each admitted entry's recipe is pushed in entry order |
| RecipeCatalogue.ScanEntriesContents | crates/goose-cli/src/recipes/search_recipe.rs:155-170 | A scan succeeds iff every entry reads; it then lists at most one recipe per entry, all local, each contributed by some entry, and every contributing entry's recipe is listed |
| RecipeCatalogue.SkippedEntryChangesNothing | crates/goose-cli/src/recipes/search_recipe.rs:159-167 | An entry that is not a file, has another extension, or cannot be read or parsed can be removed without changing the scan |
| RecipeCatalogue.LocalRecipeInfoShape | crates/goose-cli/src/recipes/search_recipe.rs:173-197 | An entry is made iff the file reads and parses (with its lexical parent or `.` as base); it is named by the file stem or `unknown`, marked local, carries the path as given and the parsed title and description |
| RecipeCatalogue.ListedEntryIsCandidate | crates/goose-cli/src/recipes/search_recipe.rs:159-186 | A listed local entry's path is the candidate `<dir>/<name>.<ext>` of its listed name (the file stem) for a recognised extension; when a lookup of that name reaches and returns it is the subject of the next two rows |
| RecipeCatalogue.ListedEntryFoundInDir | crates/goose-cli/src/recipes/search_recipe.rs:33-39 | Within its directory, the listed name finds the listed file when that file passes `read_recipe_file` and no extension tried before its own has a readable candidate of the same stem; a readable `<name>.yaml` shadows a listed `<name>.json` |
| RecipeCatalogue.ListedEntryRetrieved | crates/goose-cli/src/recipes/search_recipe.rs:15-62 | A recipe listed from search directory `i` is what retrieving its listed name returns, with the listed file's text, when the name is not itself a direct path, no earlier directory yields that name and nothing shadows it in its own directory |
| RecipeCatalogue.CandidateEntryListed | crates/goose-cli/src/recipes/search_recipe.rs:159-186 | Conversely, a regular file `<name>.<ext>` of a recognised extension that reads and parses is listed under `name` with the candidate's path |
| Paths.StemAndExtension | crates/goose-cli/src/recipes/search_recipe.rs:182-186 | A name with an extension is its file stem, a dot and the extension, and the extension contains no dot |
| Paths.ExtensionOfCandidate | crates/goose-cli/src/recipes/search_recipe.rs:35 | The file name `<name>.<ext>` has extension `ext` and stem `name` for a non-empty name and a non-empty dot-free extension |
| RecipeCommand.HandleValidate | crates/goose-cli/src/commands/recipe.rs:19-31 | Validation succeeds exactly when loading succeeds, and a load error is returned unchanged |
| RecipeCommand.HandleDeeplinkOutcome | crates/goose-cli/src/commands/recipe.rs:42-65 | A load error passes through with no link; a failed serialisation gives `Ok("")`; otherwise the link starts with `goose://recipe?config=` and decodes to the recipe's JSON text |
| RecipeCommand.DeeplinkRoundTrip | crates/goose-cli/src/commands/recipe.rs:46-58 | Stripping the prefix, percent-decoding, base64-decoding and UTF-8 decoding a link gives back exactly the JSON text it was built from |
| RecipeCommand.DeeplinkQuerySafe | crates/goose-cli/src/commands/recipe.rs:54-55 | The query value holds only unreserved characters and `%` escapes, so no reserved character such as `=` appears unescaped |
| RecipeCommand.DeeplinkSinglePadding | crates/goose-cli/src/commands/recipe.rs:48-55 | JSON of two bytes more than a multiple of three gives a link ending in `%3D` |
| RecipeCommand.DeeplinkDoublePadding | crates/goose-cli/src/commands/recipe.rs:48-55 | JSON of one byte more than a multiple of three gives a link ending in `%3D%3D` |
| PercentEncoding.EncodePaddingChar | crates/goose-cli/src/commands/recipe.rs:162 | The base64 padding `=` is percent-encoded as `%3D` |
| PercentEncoding.DecodeEncodeBytes | crates/goose-cli/src/commands/recipe.rs:54 | Percent-decoding recovers every byte string from its encoding |
| PercentEncoding.EncodedIsQuerySafe | crates/goose-cli/src/commands/recipe.rs:54 | Every character of a percent-encoding is unreserved or part of a `%XY` escape |
| PercentEncoding.HexDigit | crates/goose-cli/src/commands/recipe.rs:54 | Escapes use upper-case hexadecimal digits |
| Base64.DecodeEncode | crates/goose-cli/src/commands/recipe.rs:48 | Base64 decoding recovers every byte string from its standard padded encoding |
| Base64.EncodeLength | crates/goose-cli/src/commands/recipe.rs:48 | Every started group of three bytes becomes four characters |
| Base64.EncodePadding | crates/goose-cli/src/commands/recipe.rs:48 | The encoding ends in `==` after one leftover byte, in a single `=` after two, and without padding otherwise |
| Base64.SextetRoundTrip | crates/goose-cli/src/commands/recipe.rs:48 | Each 6-bit value maps to an alphabet character that maps back to it |
| Utf8.DecodeEncode | crates/goose-cli/src/commands/recipe.rs:48 | Every string survives the trip through its UTF-8 bytes, the bytes base64 reads |
| Utf8.DecodeFirstEncodeChar | crates/goose-cli/src/commands/recipe.rs:48 | Reading one character's UTF-8 encoding from the front of any bytes gives the character and the encoding's length |
| Utf8.EncodeChar | crates/goose-cli/src/commands/recipe.rs:48 | A character takes one to four bytes, and one byte exactly when it is ASCII |
| RecipeCommand.HandleList | crates/goose-cli/src/commands/recipe.rs:77-126 | `handle_list` over the real listing: the text format always succeeds and prints the text listing of the local recipes followed by the remote ones; `json` prints their serialisation or returns the serialiser's error |
| RecipeCommand.ShowListing | crates/goose-cli/src/commands/recipe.rs:78-126 | Given any listing result: a failure is reported as `Failed to list recipes: ` plus its error with no output; `json` prints the serialised list or returns the serialiser's error; any other format prints the text listing and succeeds |
| RecipeCommand.PrintTextListing | crates/goose-cli/src/commands/recipe.rs:89-122 | The line-by-line printing loop outputs exactly the text listing |
| RecipeCommand.PrintRecipe | crates/goose-cli/src/commands/recipe.rs:96-120 | The lines printed for one recipe are exactly its block |
| RecipeCommand.TextListingLines | crates/goose-cli/src/commands/recipe.rs:90-95 | An empty list prints only `No recipes found`; otherwise `Available recipes:` comes first; in short form line `i + 1` is the main line of recipe `i` and there is one line per recipe |
| RecipeCommand.RecipeBlocksAppend | crates/goose-cli/src/commands/recipe.rs:95-121 | The blocks follow the recipes' order: the output for two runs of recipes is the output of each, one after the other |
| RecipeCommand.ColumnsShown | crates/goose-cli/src/commands/recipe.rs:96-111 | The description shown is the description when non-empty and `(none)` when missing or empty (never empty); the source is `local: <path>` or `github: <path>` |
| RecipeCommand.RecipeBlockShape | crates/goose-cli/src/commands/recipe.rs:112-120 | Verbose: the main line indented two spaces, a `Title:` line exactly when there is a title, always a final `Path:` line; short: the main line alone |

## Left out

- Filesystem, environment, configuration and network access are fields of `Host.Host`, not real I/O. This covers `fs::read_to_string`, `canonicalize`, `read_dir`, `exists`, `is_dir` and `is_file`. The environment is `env::var`. The configuration is `Config::global().get_param`. The network is the GitHub client in `github_recipe.rs`, which is not part of this model.
- Directory entry order is taken as the sequence the filesystem gives. The OS decides it.
- `Path::parent` is an abstract field of the filesystem. `Path::join`, `Path::extension` and `Path::file_stem` are modelled lexically, with Unix conventions only. Windows prefixes and `\` separators are not modelled.
- Directory entries are known by their file names as Unicode text. Non-UTF-8 names and the lossy conversion of `to_string_lossy` are not modelled.
- `cfg!(windows)` becomes the separator field. The constant `RECIPE_FILE_EXTENSIONS` (`recipes/recipe.rs`) becomes the extensions field, with `["yaml", "json"]` given as `Host.RecipeFileExtensions`.
- `load_recipe`, `parse_recipe_content` (templating, YAML and JSON parsing) and `serde_json::to_string` are parameters. The JSON text of a recipe and of the listing is therefore not modelled.
- Terminal styling and the lines that `validate` and `deeplink` print are left out. `handle_list` returns its printed lines instead of printing them.
- The `.yaml or .json` wording of both not-found messages is fixed text in the source, and the model keeps it whatever the extensions field holds.
- RecipeCatalogue.DiscoverLocalRecipes: the method takes the search directories from `RecipeSearch.SearchDirs`. The split that builds them is modelled step by step in `RecipeSearch.RetrieveRecipeFromLocalPath`, which is the same construction.

Behaviour of the code that a reader might not expect, which the model keeps:
- A candidate file in a search directory is passed over whatever makes `read_recipe_file` fail. A failed canonicalisation or a missing parent also counts, not only a missing or non-UTF-8 file.
- The failure message of a local search lists the directories but does not say whether GitHub was tried. With a repository configured, the message is never seen: the remote result replaces it.
- `handle_deeplink` returns `Ok("")`, not an error, when serialisation fails after a successful load.
- In the `json` format `handle_list` can also fail, with the serialiser's error. It does not fail only when listing fails.
- A `read_dir` error, or one bad entry, makes the whole directory contribute nothing, including entries already pushed.
