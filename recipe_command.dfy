/** The `recipe` subcommands of the command line (`commands/recipe.rs`):
    validating a recipe, turning it into a deep link, and listing the
    available recipes as text. `load_recipe` and the JSON serialiser are
    passed in; printed lines are returned rather than written. */
module RecipeCommand {
  import opened Wrappers
  import opened Text
  import opened Host
  import Utf8
  import Base64
  import PercentEncoding
  import RecipeSearch
  import RecipeCatalogue

  /** `handle_validate`: the recipe is valid exactly when it loads, and a
      loading error is handed back as it is. */
  function HandleValidate<R>(load: string -> Result<R>, recipeName: string): (r: Result<()>)
    ensures r.Ok? <==> load(recipeName).Ok?
    ensures r.Err? ==> r.error == load(recipeName).error
  {
    match load(recipeName)
    case Ok(_) => Ok(())
    case Err(e) => Err(e)
  }

  const DeeplinkPrefix: string := "goose://recipe?config="

  /** The deep link of a recipe's JSON text: the prefix, then the
      percent-encoded standard base64 of the text's UTF-8 bytes. */
  function Deeplink(json: string): string
  {
    DeeplinkPrefix + PercentEncoding.Encode(Base64.Encode(Utf8.Encode(json)))
  }

  /** Reads a deep link back to the JSON text it carries, undoing each
      encoding step in turn. */
  function DecodeDeeplink(url: string): Option<string>
  {
    if !StartsWith(url, DeeplinkPrefix) then None
    else
      match PercentEncoding.Decode(url[|DeeplinkPrefix|..])
      case None => None
      case Some(query) =>
        match Utf8.Decode(query)
        case None => None
        case Some(base64Text) =>
          match Base64.Decode(base64Text)
          case None => None
          case Some(jsonBytes) => Utf8.Decode(jsonBytes)
  }

  /** Every deep link carries exactly the JSON text it was made from. */
  lemma DeeplinkRoundTrip(json: string)
    ensures DecodeDeeplink(Deeplink(json)) == Some(json)
  {
    var bytes := Utf8.Encode(json);
    var base64Text := Base64.Encode(bytes);
    var query := Utf8.Encode(base64Text);
    var url := Deeplink(json);
    assert url[..|DeeplinkPrefix|] == DeeplinkPrefix;
    assert url[|DeeplinkPrefix|..] == PercentEncoding.EncodeBytes(query);
    PercentEncoding.DecodeEncodeBytes(query);
    Utf8.DecodeEncode(base64Text);
    Base64.DecodeEncode(bytes);
    Utf8.DecodeEncode(json);
  }

  /** The query value of a deep link: the percent-encoded UTF-8 bytes of
      the base64 text. */
  lemma DeeplinkValue(json: string)
    ensures StartsWith(Deeplink(json), DeeplinkPrefix)
    ensures Deeplink(json)[|DeeplinkPrefix|..]
      == PercentEncoding.EncodeBytes(Utf8.Encode(Base64.Encode(Utf8.Encode(json))))
  {
  }

  /** The text after the prefix holds only unreserved characters and `%`
      escapes, so it can stand as a query value as it is. */
  lemma DeeplinkQuerySafe(json: string)
    ensures var value := Deeplink(json)[|DeeplinkPrefix|..];
      forall i :: 0 <= i < |value| ==> PercentEncoding.QuerySafe(value[i])
  {
    DeeplinkValue(json);
    PercentEncoding.EncodedIsQuerySafe(Utf8.Encode(Base64.Encode(Utf8.Encode(json))));
  }

  /** Escaping a text escapes its head and then its tail. */
  lemma EscapedTail(head: string, tail: string)
    ensures PercentEncoding.Encode(head + tail) == PercentEncoding.Encode(head) + PercentEncoding.Encode(tail)
  {
    Utf8.EncodeAppend(head, tail);
    PercentEncoding.EncodeBytesAppend(Utf8.Encode(head), Utf8.Encode(tail));
  }

  /** A deep link ends with the escaped form of any suffix of its base64
      text. */
  lemma EscapedEnding(json: string, k: nat)
    requires k <= |Base64.Encode(Utf8.Encode(json))|
    ensures var b64 := Base64.Encode(Utf8.Encode(json));
      EndsWith(Deeplink(json), PercentEncoding.Encode(b64[|b64| - k..]))
  {
    var b64 := Base64.Encode(Utf8.Encode(json));
    var head, tail := b64[..|b64| - k], b64[|b64| - k..];
    assert b64 == head + tail;
    EscapedTail(head, tail);
    assert Deeplink(json) == (DeeplinkPrefix + PercentEncoding.Encode(head)) + PercentEncoding.Encode(tail);
    EndsWithAppend(DeeplinkPrefix + PercentEncoding.Encode(head), PercentEncoding.Encode(tail));
  }

  /** Two padding characters escape to `%3D%3D`. */
  lemma EscapedDoubleEquals()
    ensures PercentEncoding.Encode("==") == "%3D%3D"
  {
    assert "==" == "=" + "=";
    EscapedTail("=", "=");
    PercentEncoding.EncodePaddingChar();
  }

  /** When the JSON takes two bytes more than a multiple of three, the
      base64 text ends in a single `=`, which the link carries as `%3D`. */
  lemma DeeplinkSinglePadding(json: string)
    requires |Utf8.Encode(json)| % 3 == 2
    ensures EndsWith(Deeplink(json), "%3D")
  {
    Base64.EncodeEndsWithSingle(Utf8.Encode(json));
    EscapedEnding(json, 1);
    PercentEncoding.EncodePaddingChar();
  }

  /** When the JSON takes one byte more than a multiple of three, the
      base64 text ends in `==`, which the link carries as `%3D%3D`. */
  lemma DeeplinkDoublePadding(json: string)
    requires |Utf8.Encode(json)| % 3 == 1
    ensures EndsWith(Deeplink(json), "%3D%3D")
  {
    Base64.EncodeEndsWithDouble(Utf8.Encode(json));
    EscapedEnding(json, 2);
    EscapedDoubleEquals();
  }

  /** `handle_deeplink` */
  function HandleDeeplink<R>(load: string -> Result<R>, toJson: R -> Option<string>, recipeName: string): Result<string>
  {
    match load(recipeName)
    case Err(e) => Err(e)
    case Ok(recipe) =>
      match toJson(recipe)
      case None => Ok("")
      case Some(json) => Ok(Deeplink(json))
  }

  /** A recipe that does not load gives the loader's own error and no link;
      one that loads gives a link that carries its JSON text, or an empty
      link when serialising fails. */
  lemma HandleDeeplinkOutcome<R>(load: string -> Result<R>, toJson: R -> Option<string>, recipeName: string)
    ensures load(recipeName).Err? ==> HandleDeeplink(load, toJson, recipeName) == Err(load(recipeName).error)
    ensures load(recipeName).Ok? && toJson(load(recipeName).value).None? ==>
      HandleDeeplink(load, toJson, recipeName) == Ok("")
    ensures load(recipeName).Ok? && toJson(load(recipeName).value).Some? ==>
      var url := HandleDeeplink(load, toJson, recipeName);
      && url.Ok?
      && StartsWith(url.value, DeeplinkPrefix)
      && DecodeDeeplink(url.value) == Some(toJson(load(recipeName).value).value)
  {
    if load(recipeName).Ok? && toJson(load(recipeName).value).Some? {
      DeeplinkRoundTrip(toJson(load(recipeName).value).value);
    }
  }

  /** The description column: the description, or `(none)` when it is
      missing or empty. */
  function DescriptionShown(info: RecipeInfo): string
  {
    match info.description
    case None => "(none)"
    case Some(d) => if d == "" then "(none)" else d
  }

  /** The source column: `local: <path>` or `github: <path>`. */
  function SourceShown(info: RecipeInfo): string
  {
    match info.source
    case Local => "local: " + info.path
    case GitHub => "github: " + info.path
  }

  function MainLine(info: RecipeInfo): string
  {
    info.name + " - " + DescriptionShown(info) + " - " + SourceShown(info)
  }

  /** The lines printed for one recipe. */
  function RecipeLines(info: RecipeInfo, verbose: bool): seq<string>
  {
    if verbose then
      ["  " + MainLine(info)]
      + (match info.title case Some(t) => ["    Title: " + t] case None => [])
      + ["    Path: " + info.path]
    else [MainLine(info)]
  }

  /** The lines printed for the recipes, one block after another. */
  function RecipeBlocks(recipes: seq<RecipeInfo>, verbose: bool): seq<string>
    decreases |recipes|
  {
    if recipes == [] then [] else RecipeLines(recipes[0], verbose) + RecipeBlocks(recipes[1..], verbose)
  }

  /** The text-format output of `recipe list`. */
  function TextListing(recipes: seq<RecipeInfo>, verbose: bool): seq<string>
  {
    if recipes == [] then ["No recipes found"]
    else ["Available recipes:"] + RecipeBlocks(recipes, verbose)
  }

  /** The lines `handle_list` prints for one recipe in the text format. */
  method PrintRecipe(recipe: RecipeInfo, verbose: bool) returns (lines: seq<string>)
    ensures lines == RecipeLines(recipe, verbose)
  {
    var sourceInfo := match recipe.source
                      case Local => "local: " + recipe.path
                      case GitHub => "github: " + recipe.path;
    var description := if recipe.description.Some? && recipe.description.value != ""
                       then recipe.description.value else "(none)";
    var output := recipe.name + " - " + description + " - " + sourceInfo;
    if verbose {
      lines := ["  " + output];
      if recipe.title.Some? {
        lines := lines + ["    Title: " + recipe.title.value];
      }
      lines := lines + ["    Path: " + recipe.path];
    } else {
      lines := [output];
    }
  }

  /** The text branch of `handle_list`: a header, then each recipe's lines. */
  method PrintTextListing(recipes: seq<RecipeInfo>, verbose: bool) returns (out: seq<string>)
    ensures out == TextListing(recipes, verbose)
  {
    if recipes == [] {
      return ["No recipes found"];
    }
    out := ["Available recipes:"];
    assert recipes[0..] == recipes;
    for i := 0 to |recipes|
      invariant TextListing(recipes, verbose) == out + RecipeBlocks(recipes[i..], verbose)
    {
      var lines := PrintRecipe(recipes[i], verbose);
      assert recipes[i..][1..] == recipes[i + 1..];
      ghost var rest := RecipeBlocks(recipes[i + 1..], verbose);
      assert RecipeBlocks(recipes[i..], verbose) == lines + rest;
      assert out + (lines + rest) == (out + lines) + rest;
      out := out + lines;
    }
    assert recipes[|recipes|..] == [];
  }

  /** The body of `handle_list` once `list_available_recipes` has answered:
      a failed listing is reported with a `Failed to list recipes: `
      prefix; the `json` format prints the serialised list; any other
      format prints the text listing line by line. */
  method ShowListing(listing: Result<seq<RecipeInfo>>, format: string, verbose: bool,
                    toJson: seq<RecipeInfo> -> Result<string>)
    returns (r: Result<()>, out: seq<string>)
    ensures listing.Err? ==> r == Err("Failed to list recipes: " + listing.error) && out == []
    ensures listing.Ok? && format == "json" ==>
      match toJson(listing.value)
      case Ok(json) => r == Ok(()) && out == [json]
      case Err(e) => r == Err(e) && out == []
    ensures listing.Ok? && format != "json" ==> r == Ok(()) && out == TextListing(listing.value, verbose)
  {
    out := [];
    if listing.Err? {
      return Err("Failed to list recipes: " + listing.error), out;
    }
    var recipes := listing.value;
    if format == "json" {
      var json := toJson(recipes);
      if json.Err? {
        return Err(json.error), out;
      }
      out := out + [json.value];
    } else {
      out := PrintTextListing(recipes, verbose);
    }
    return Ok(()), out;
  }

  /** `handle_list`: lists the available recipes and shows them. Listing
      never fails, so the text format always succeeds with the listing of
      the local recipes followed by the remote ones. */
  method HandleList(host: Host, format: string, verbose: bool, toJson: seq<RecipeInfo> -> Result<string>)
    returns (r: Result<()>, out: seq<string>)
    ensures var recipes := RecipeCatalogue.LocalCatalogue(host, RecipeSearch.SearchDirs(host.recipePathVar, host.separator))
                           + RecipeCatalogue.RemoteCatalogue(host);
      && (format != "json" ==> r == Ok(()) && out == TextListing(recipes, verbose))
      && (format == "json" ==>
            match toJson(recipes)
            case Ok(json) => r == Ok(()) && out == [json]
            case Err(e) => r == Err(e) && out == [])
  {
    var listing := RecipeCatalogue.ListAvailableRecipes(host);
    r, out := ShowListing(listing, format, verbose, toJson);
  }

  /** An empty list prints the one line `No recipes found`. Otherwise a
      header comes first and each recipe gets its own block, in order; in
      the short format a block is the one main line, so line `i + 1` is the
      main line of recipe `i`. */
  lemma {:induction false} TextListingLines(recipes: seq<RecipeInfo>, verbose: bool)
    ensures recipes == [] ==> TextListing(recipes, verbose) == ["No recipes found"]
    ensures recipes != [] ==> TextListing(recipes, verbose)[0] == "Available recipes:"
    ensures !verbose ==> |RecipeBlocks(recipes, verbose)| == |recipes|
    ensures !verbose ==> forall i :: 0 <= i < |recipes| ==> RecipeBlocks(recipes, verbose)[i] == MainLine(recipes[i])
    decreases |recipes|
  {
    if recipes != [] && !verbose {
      TextListingLines(recipes[1..], verbose);
      assert forall i :: 1 <= i < |recipes| ==> recipes[i] == recipes[1..][i - 1];
    }
  }

  /** The blocks of two runs of recipes are the blocks of each, one after
      the other. */
  lemma {:induction false} RecipeBlocksAppend(first: seq<RecipeInfo>, second: seq<RecipeInfo>, verbose: bool)
    ensures RecipeBlocks(first + second, verbose) == RecipeBlocks(first, verbose) + RecipeBlocks(second, verbose)
    decreases |first|
  {
    if first == [] {
      assert first + second == second;
    } else {
      assert (first + second)[1..] == first[1..] + second;
      RecipeBlocksAppend(first[1..], second, verbose);
    }
  }

  /** A verbose block is the main line indented by two spaces, a `Title:`
      line exactly when there is a title, and always a closing `Path:`
      line; a short block is the main line alone. */
  lemma RecipeBlockShape(info: RecipeInfo)
    ensures RecipeLines(info, false) == [MainLine(info)]
    ensures var lines := RecipeLines(info, true);
      && |lines| == (if info.title.Some? then 3 else 2)
      && lines[0] == "  " + MainLine(info)
      && lines[|lines| - 1] == "    Path: " + info.path
      && (info.title.Some? ==> lines[1] == "    Title: " + info.title.value)
  {
  }

  /** The description shown is never empty: it is the description when
      there is a non-empty one, and `(none)` otherwise. The source shows
      where the recipe comes from and its path. */
  lemma ColumnsShown(info: RecipeInfo)
    ensures DescriptionShown(info) != ""
    ensures info.description.Some? && info.description.value != "" ==> DescriptionShown(info) == info.description.value
    ensures info.description.None? || info.description.value == "" ==> DescriptionShown(info) == "(none)"
    ensures info.source == Local ==> SourceShown(info) == "local: " + info.path
    ensures info.source == GitHub ==> SourceShown(info) == "github: " + info.path
  {
  }
}
