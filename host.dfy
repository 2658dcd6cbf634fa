/** What the recipe code reads from outside the process, passed in as one
    value: the filesystem, the `GOOSE_RECIPE_PATH` variable, the platform's
    path-list separator, the recognised extensions, the configured GitHub
    repository, the GitHub client and the recipe parser. Also the listing
    entry `RecipeInfo` that local and remote sources both produce. */
module Host {
  import opened Wrappers

  /** Where a listed recipe comes from. */
  datatype RecipeSource = Local | GitHub

  /** One entry of a recipe listing. */
  datatype RecipeInfo = RecipeInfo(
    name: string,
    source: RecipeSource,
    path: string,
    title: Option<string>,
    description: Option<string>)

  /** A resolved recipe: its raw text and the directory its relative
      resources are looked up from. */
  datatype Resolved = Resolved(content: string, parentDir: string)

  /** The title and description of a parsed recipe, all the listing keeps
      of it. */
  datatype ParsedRecipe = ParsedRecipe(title: string, description: string)

  /** A read-only view of the filesystem. Every operation answers for a
      path given as text; errors carry the text of the OS error. */
  datatype FileSystem = FileSystem(
    /** `fs::read_to_string`: fails when the file is missing, unreadable or
        not valid UTF-8. */
    readToString: string -> Result<string>,
    /** `Path::canonicalize`: the absolute path with every symbolic link
        resolved. */
    canonicalize: string -> Result<string>,
    /** `Path::parent`: lexical, `None` for a root or an empty path. */
    parent: string -> Option<string>,
    /** `Path::exists`, `Path::is_dir`, `Path::is_file` */
    pathExists: string -> bool,
    isDir: string -> bool,
    isFile: string -> bool,
    /** `fs::read_dir`: the file names of a directory's entries in the
        order the OS yields them; reading any one entry may fail. */
    readDir: string -> Result<seq<Result<string>>>)

  /** The GitHub recipe client: `list_github_recipes(repo)` and
      `retrieve_recipe_from_github(name, repo)`. */
  datatype GitHubClient = GitHubClient(
    list: string -> Result<seq<RecipeInfo>>,
    fetch: (string, string) -> Result<Resolved>)

  datatype Host = Host(
    fs: FileSystem,
    /** `env::var("GOOSE_RECIPE_PATH")`, `None` when unset or not Unicode */
    recipePathVar: Option<string>,
    /** `;` on Windows, `:` elsewhere */
    separator: char,
    /** `RECIPE_FILE_EXTENSIONS`, in priority order */
    extensions: seq<string>,
    /** `Config::get_param` for the GitHub repository key */
    repoSetting: Result<Option<string>>,
    github: GitHubClient,
    /** `parse_recipe_content(content, recipe_dir)` */
    parse: (string, string) -> Result<ParsedRecipe>)

  /** The recognised extensions of the shipped program. */
  const RecipeFileExtensions: seq<string> := ["yaml", "json"]
}
