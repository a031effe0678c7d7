/** The repository picker: derive one entry per `<code dir>/<group>/<project>/.git`
    match, render the entries as an aligned two-column list for fzf, parse the
    line fzf hands back into a name, and resolve that name to the first entry
    that carries it. File system, home directory and the fzf process are
    parameters. */
module Repos {
  import opened Outcomes
  import opened GoStrings
  import GoFilepath

  /** A discovered checkout: the name shown in the list and the working directory. */
  datatype Repo = Repo(name: GoString, path: GoString)

  /** The repository marker every glob match ends with. */
  const Marker: GoString := ".git"

  /** What parseName splits on: four spaces. */
  const ColumnGap: GoString := "    "

  /** Extra spaces after the longest name. */
  const Padding: nat := 5

  /** The message the lookup panics with. */
  const NotFound: string := "Could not find repo"

  // ---------------------------------------------------------------------------
  // Must

  /** Must: the value when there is no error, otherwise a panic with the error. */
  function Must<T>(v: T, err: Option<string>): (r: Result<T>)
    ensures r.Ok? <==> err.None?
    ensures r.Ok? ==> r.value == v
    ensures r.Abort? ==> r.reason == err.value
  {
    match err
    case None => Ok(v)
    case Some(e) => Abort(e)
  }

  // ---------------------------------------------------------------------------
  // Discovery

  /** The entry one glob match yields: its path is the match without the
      trailing marker (the separator before the marker stays), its name is
      the base of that path; `None` when that name is empty. */
  function Derive(found: GoString): (r: Option<Repo>)
    ensures r.Some?
    ensures r.value.name != []
    ensures r.value.name == GoFilepath.Base(r.value.path)
    ensures r.value.name == [GoFilepath.Separator] || GoFilepath.Separator !in r.value.name
    ensures HasSuffix(found, Marker) ==> r.value.path + Marker == found
    ensures !HasSuffix(found, Marker) ==> r.value.path == found
  {
    var repoPath := TrimSuffix(found, Marker);
    var name := GoFilepath.Base(repoPath);
    if name == [] then None else Some(Repo(name, repoPath))
  }

  /** The entries the matches yield, in match order, skipping the matches
      whose derived name is empty. */
  function Entries(results: seq<GoString>): (repos: seq<Repo>)
    ensures |repos| <= |results|
    ensures forall i :: 0 <= i < |repos| ==> repos[i].name != []
  {
    if results == [] then []
    else
      var prefix := Entries(results[..|results| - 1]);
      match Derive(results[|results| - 1])
      case None => prefix
      case Some(repo) => prefix + [repo]
  }

  /** searchForGitRepositories over what the glob returned (`results`) and
      the error it reported (`globErr`); a glob error panics through Must. */
  method SearchForGitRepositories(results: seq<GoString>, globErr: Option<string>)
    returns (r: Result<seq<Repo>>)
    ensures globErr.Some? ==> r == Abort(globErr.value)
    ensures globErr.None? ==> r == Ok(Entries(results))
  {
    var globbed := Must(results, globErr);
    if globbed.Abort? {
      return Abort(globbed.reason);
    }
    var repos: seq<Repo> := [];
    for i := 0 to |results|
      invariant repos == Entries(results[..i])
    {
      assert results[..i + 1][..i] == results[..i];
      var repoPath := TrimSuffix(results[i], Marker);
      var name := GoFilepath.Base(repoPath);
      if name == [] {
        continue;
      }
      repos := repos + [Repo(name, repoPath)];
    }
    assert results[..|results|] == results;
    return Ok(repos);
  }

  // ---------------------------------------------------------------------------
  // Rendering

  /** The longest name, 0 for no entries. */
  function Longest(repos: seq<Repo>): (longest: nat)
    ensures forall i :: 0 <= i < |repos| ==> |repos[i].name| <= longest
    ensures repos == [] ==> longest == 0
    ensures repos != [] ==> exists i :: 0 <= i < |repos| && |repos[i].name| == longest
  {
    if repos == [] then 0
    else
      var longest := Longest(repos[..|repos| - 1]);
      var last := repos[|repos| - 1];
      if |last.name| > longest then |last.name| else longest
  }

  /** No name is longer than `width`. */
  predicate FitsWidth(repos: seq<Repo>, width: nat) {
    forall i :: 0 <= i < |repos| ==> |repos[i].name| <= width
  }

  /** One row of the list, without its line feed: the name, padded with
      spaces to `width + Padding` bytes, then the path. */
  function Line(repo: Repo, width: nat): GoString
    requires |repo.name| <= width
  {
    repo.name + Spaces(width + Padding - |repo.name|) + repo.path
  }

  /** The rows of the list, in entry order. */
  function Lines(repos: seq<Repo>, width: nat): (lines: seq<GoString>)
    requires FitsWidth(repos, width)
    ensures |lines| == |repos|
    ensures forall i :: 0 <= i < |repos| ==> lines[i] == Line(repos[i], width)
  {
    if repos == [] then []
    else Lines(repos[..|repos| - 1], width) + [Line(repos[|repos| - 1], width)]
  }

  /** The rows joined, each followed by a line feed. */
  function Unlines(lines: seq<GoString>): GoString {
    if lines == [] then [] else lines[0] + "\n" + Unlines(lines[1..])
  }

  /** The text formatSearch produces. */
  function Rendered(repos: seq<Repo>): (text: GoString)
    ensures text == [] <==> repos == []
  {
    Unlines(Lines(repos, Longest(repos)))
  }

  /** formatSearch: the longest name first, then one padded row per entry. */
  method FormatSearch(repos: seq<Repo>) returns (searchList: GoString)
    ensures searchList == Rendered(repos)
  {
    var longest := 0;
    for i := 0 to |repos|
      invariant longest == Longest(repos[..i])
    {
      assert repos[..i + 1][..i] == repos[..i];
      if |repos[i].name| > longest {
        longest := |repos[i].name|;
      }
    }
    assert repos[..|repos|] == repos;

    searchList := [];
    for i := 0 to |repos|
      invariant searchList == Unlines(Lines(repos[..i], longest))
    {
      var spaces := (longest + Padding) - |repos[i].name|;
      var text := repos[i].name + Spaces(spaces) + repos[i].path;
      RowsSnoc(repos, i, longest);
      searchList := searchList + text + "\n";
    }
  }

  /** Rendering one more entry appends its row and a line feed. */
  lemma RowsSnoc(repos: seq<Repo>, i: nat, width: nat)
    requires i < |repos| && FitsWidth(repos, width)
    ensures Unlines(Lines(repos[..i + 1], width)) == Unlines(Lines(repos[..i], width)) + Line(repos[i], width) + "\n"
  {
    assert repos[..i + 1][..i] == repos[..i];
    UnlinesSnoc(Lines(repos[..i], width), Line(repos[i], width));
  }

  /** Appending a row appends its text and a line feed. */
  lemma {:induction false} UnlinesSnoc(lines: seq<GoString>, line: GoString)
    ensures Unlines(lines + [line]) == Unlines(lines) + line + "\n"
    decreases |lines|
  {
    if lines == [] {
      assert lines + [line] == [line];
    } else {
      assert (lines + [line])[1..] == lines[1..] + [line];
      UnlinesSnoc(lines[1..], line);
    }
  }

  // ---------------------------------------------------------------------------
  // Parsing and resolution

  /** parseName: the text before the first four-space gap, without
      surrounding white space. */
  function ParseName(line: GoString): (name: GoString)
    ensures IsTrimmed(name)
    ensures !Contains(name, ColumnGap)
  {
    var field := FirstField(line, ColumnGap);
    var name := TrimSpace(field);
    AbsentAfterTrimSpace(field, ColumnGap);
    name
  }

  /** The position of the first entry named `name`, if any. */
  function FirstNamed(repos: seq<Repo>, name: GoString): (k: Option<nat>)
    ensures k.None? <==> forall j :: 0 <= j < |repos| ==> repos[j].name != name
    ensures k.Some? ==> k.value < |repos| && repos[k.value].name == name
    ensures k.Some? ==> forall j :: 0 <= j < k.value ==> repos[j].name != name
  {
    if repos == [] then None
    else if repos[0].name == name then Some(0)
    else
      match FirstNamed(repos[1..], name)
      case None => None
      case Some(k) => Some(k + 1)
  }

  /** The entry a name resolves to: the first one carrying it; a panic when none does. */
  function Resolve(repos: seq<Repo>, name: GoString): Result<Repo> {
    match FirstNamed(repos, name)
    case None => Abort(NotFound)
    case Some(k) => Ok(repos[k])
  }

  /** The lookup loop of fzfSearch: the first entry with exactly this name. */
  method FindRepo(repos: seq<Repo>, name: GoString) returns (r: Result<Repo>)
    ensures r == Resolve(repos, name)
  {
    for i := 0 to |repos|
      invariant forall j :: 0 <= j < i ==> repos[j].name != name
    {
      if repos[i].name == name {
        return Ok(repos[i]);
      }
    }
    return Abort(NotFound);
  }

  /** The shell command fzfSearch runs with `bash -c`: the listing, quoted
      and echoed into fzf. */
  function Command(searchList: GoString): (command: GoString)
    ensures |command| == |searchList| + 13
    ensures command[..6] == "echo '" && command[6..6 + |searchList|] == searchList
    ensures command[6 + |searchList|..] == "' | fzf"
  {
    "echo '" + searchList + "' | fzf"
  }

  /** fzfSearch. `fzf` stands for running a command with the terminal
      attached: the bytes it printed, or the error that ends the program
      through log.Fatal. */
  method FzfSearch(repos: seq<Repo>, fzf: GoString -> Result<GoString>) returns (r: Result<Repo>)
    ensures fzf(Command(Rendered(repos))).Abort? ==> r == Abort(fzf(Command(Rendered(repos))).reason)
    ensures fzf(Command(Rendered(repos))).Ok? ==>
              r == Resolve(repos, ParseName(TrimSpace(fzf(Command(Rendered(repos))).value)))
  {
    var searchList := FormatSearch(repos);
    var output := fzf(Command(searchList));
    if output.Abort? {
      return Abort(output.reason);
    }
    var name := TrimSpace(output.value);
    name := ParseName(name);
    r := FindRepo(repos, name);
  }

  /** main, given the glob's answer for the code directory and the fzf run:
      the path of the chosen entry, which main prints. */
  method PickRepository(results: seq<GoString>, globErr: Option<string>, fzf: GoString -> Result<GoString>)
    returns (r: Result<GoString>)
    ensures globErr.Some? ==> r == Abort(globErr.value)
    ensures globErr.None? ==>
              var repos := Entries(results);
              var output := fzf(Command(Rendered(repos)));
              match output
              case Abort(e) => r == Abort(e)
              case Ok(out) =>
                match Resolve(repos, ParseName(TrimSpace(out)))
                case Abort(e) => r == Abort(e)
                case Ok(repo) => r == Ok(repo.path)
  {
    var found := SearchForGitRepositories(results, globErr);
    if found.Abort? {
      return Abort(found.reason);
    }
    var chosen := FzfSearch(found.value, fzf);
    if chosen.Abort? {
      return Abort(chosen.reason);
    }
    return Ok(chosen.value.path);
  }
}
