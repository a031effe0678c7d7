/** What the picker promises across its operations: every glob match is
    listed, the list is aligned and made of one row per entry, and the row
    fzf hands back parses to the name it was rendered from and resolves to
    the first entry with that name. */
module ReposProperties {
  import opened Outcomes
  import opened GoStrings
  import opened Repos
  import GoFilepath

  // ---------------------------------------------------------------------------
  // Discovery

  /** What `f` yields over `xs`, in order, dropping the `None`s; Entries is
      this with `f` = Derive. */
  function Collect<T, U>(f: T -> Option<U>, xs: seq<T>): seq<U> {
    if xs == [] then []
    else
      var prefix := Collect(f, xs[..|xs| - 1]);
      match f(xs[|xs| - 1])
      case None => prefix
      case Some(y) => prefix + [y]
  }

  /** Entries collects Derive over the matches. */
  lemma {:induction false} EntriesCollect(results: seq<GoString>)
    ensures Entries(results) == Collect(Derive, results)
  {
    if results != [] {
      EntriesCollect(results[..|results| - 1]);
    }
  }

  /** When `f` never yields `None`, collecting keeps one value per element. */
  lemma {:induction false} CollectTotal<T, U>(f: T -> Option<U>, xs: seq<T>)
    requires forall x :: f(x).Some?
    ensures |Collect(f, xs)| == |xs|
    ensures forall i :: 0 <= i < |xs| ==> Collect(f, xs)[i] == f(xs[i]).value
  {
    if xs != [] {
      var init := xs[..|xs| - 1];
      CollectTotal(f, init);
      var previous := Collect(f, init);
      assert Collect(f, xs) == previous + [f(xs[|xs| - 1]).value];
      forall i | 0 <= i < |init| ensures Collect(f, xs)[i] == f(xs[i]).value {
        assert init[i] == xs[i];
      }
    }
  }

  /** The empty-name guard never fires: Base never returns "", so every
      match yields exactly one entry, in match order. */
  lemma EveryMatchYieldsOneEntry(results: seq<GoString>)
    ensures |Entries(results)| == |results|
    ensures forall i :: 0 <= i < |results| ==> Entries(results)[i] == Derive(results[i]).value
  {
    EntriesCollect(results);
    CollectTotal(Derive, results);
  }

  /** A checkout at `<codeDir>/<group>/<project>` is listed under the name
      `project`, with its working directory (trailing separator kept) as path. */
  lemma DiscoverProject(codeDir: GoString, group: GoString, project: GoString)
    requires project != [] && GoFilepath.Separator !in project
    ensures var dir := codeDir + "/" + group + "/" + project + "/";
            Derive(dir + Marker) == Some(Repo(project, dir))
  {
    var parent := codeDir + "/" + group;
    var dir := codeDir + "/" + group + "/" + project + "/";
    assert dir == parent + [GoFilepath.Separator] + project + [GoFilepath.Separator];
    assert (dir + Marker)[|dir + Marker| - |Marker|..] == Marker;
    assert (dir + Marker)[..|dir + Marker| - |Marker|] == dir;
    GoFilepath.BaseOfDirectory(parent, project);
  }

  // ---------------------------------------------------------------------------
  // Rendering

  /** In every row the name is followed by at least Padding spaces and the
      path starts at the same offset, Longest(repos) + Padding. */
  lemma Alignment(repos: seq<Repo>, i: nat)
    requires i < |repos|
    ensures var width := Longest(repos);
            var line := Lines(repos, width)[i];
            var name := repos[i].name;
            width + Padding - |name| >= Padding &&
            |line| == width + Padding + |repos[i].path| &&
            line[..|name|] == name &&
            (forall k :: |name| <= k < width + Padding ==> line[k] == ' ') &&
            line[width + Padding..] == repos[i].path
  {
  }

  /** How a line-oriented reader such as fzf splits text into rows: at each
      line feed; a last row without one still counts. */
  function SplitLines(text: GoString): seq<GoString>
    decreases |text|
  {
    if text == [] then []
    else
      var k := Index(text, "\n");
      if k == -1 then [text] else [text[..k]] + SplitLines(text[k + 1..])
  }

  /** A row without a line feed, followed by one, splits off as the first row. */
  lemma SplitFirstLine(line: GoString, rest: GoString)
    requires '\n' !in line
    ensures SplitLines(line + "\n" + rest) == [line] + SplitLines(rest)
  {
    var text := line + "\n" + rest;
    assert OccursAt(text, "\n", |line|);
    forall i | 0 <= i < |line| ensures !OccursAt(text, "\n", i) {
      assert text[i] == line[i];
    }
    assert text[..|line|] == line;
    assert text[|line| + 1..] == rest;
  }

  /** Text made of line-feed-terminated rows splits back into those rows. */
  lemma {:induction false} SplitUnlines(lines: seq<GoString>)
    requires forall j :: 0 <= j < |lines| ==> '\n' !in lines[j]
    ensures SplitLines(Unlines(lines)) == lines
    decreases |lines|
  {
    if lines != [] {
      SplitFirstLine(lines[0], Unlines(lines[1..]));
      SplitUnlines(lines[1..]);
    }
  }

  /** A row holds a line feed only if its name or path does. */
  lemma NoLineFeedInRow(repo: Repo, width: nat)
    requires |repo.name| <= width
    requires '\n' !in repo.name && '\n' !in repo.path
    ensures '\n' !in Line(repo, width)
  {
    var gap := Spaces(width + Padding - |repo.name|);
    assert '\n' !in gap;
    assert Line(repo, width) == repo.name + gap + repo.path;
  }

  /** The rendered list is exactly one row per entry, in entry order, as long
      as no name or path holds a line feed. */
  lemma OneRowPerEntry(repos: seq<Repo>)
    requires forall j :: 0 <= j < |repos| ==> '\n' !in repos[j].name && '\n' !in repos[j].path
    ensures SplitLines(Rendered(repos)) == Lines(repos, Longest(repos))
  {
    var width := Longest(repos);
    var lines := Lines(repos, width);
    forall j | 0 <= j < |lines| ensures '\n' !in lines[j] {
      NoLineFeedInRow(repos[j], width);
    }
    SplitUnlines(lines);
  }

  // ---------------------------------------------------------------------------
  // Parsing

  /** A name the list can hand back intact: not empty, no white space at
      either end, no run of four spaces. */
  ghost predicate Selectable(name: GoString) {
    name != [] && IsTrimmed(name) && !Contains(name, ColumnGap)
  }

  /** After a selectable name, text that is empty or starts with four
      spaces: the first field is the name. */
  lemma FieldBeforeGap(name: GoString, tail: GoString)
    requires Selectable(name)
    requires tail == [] || (|tail| >= |ColumnGap| && forall k :: 0 <= k < |ColumnGap| ==> tail[k] == ' ')
    ensures FirstField(name + tail, ColumnGap) == name
  {
    var s := name + tail;
    var r := FirstField(s, ColumnGap);
    // No gap starts inside the name: it would lie in the name, or cover its last byte.
    forall at | 0 <= at < |name| ensures !OccursAt(s, ColumnGap, at) {
      if at + |ColumnGap| <= |name| {
        assert s[at..at + |ColumnGap|] == name[at..at + |ColumnGap|];
        assert !OccursAt(name, ColumnGap, at);
      } else if at + |ColumnGap| <= |s| {
        assert s[at..at + |ColumnGap|][|name| - 1 - at] == name[|name| - 1];
        assert ColumnGap[|name| - 1 - at] == ' ';
      }
    }
    if tail != [] {
      assert forall k :: 0 <= k < |ColumnGap| ==> s[|name|..|name| + |ColumnGap|][k] == ColumnGap[k];
      assert OccursAt(s, ColumnGap, |name|);
    }
    assert |r| == |name|;
  }

  /** Round trip on the row text: the row rendered for an entry, followed by
      the line feed fzf prints after it and trimmed, parses to the entry's
      name. (That fzf hands back this row whole is OneRowPerEntry.) */
  lemma ParseLine(repo: Repo, width: nat)
    requires |repo.name| <= width
    requires Selectable(repo.name)
    ensures ParseName(TrimSpace(Line(repo, width) + "\n")) == repo.name
  {
    var name := repo.name;
    var pad := width + Padding - |name|;
    var after := repo.path + "\n";
    assert Line(repo, width) + "\n" == name + (Spaces(pad) + after);
    TrimSpaceAfterTrimmed(name, Spaces(pad) + after);
    TrimRightAfterSpaces(pad, after);
    var tail := TrimRight(Spaces(pad) + after);
    FieldBeforeGap(name, tail);
  }

  /** An entry whose name holds a four-space gap. */
  const Gapped: Repo := Repo("a    b", "/c/")

  /** Why the round trip asks for a selectable name: a name holding four
      spaces is cut at them, so the lookup searches for another name. */
  lemma GapInNameIsCut()
    ensures ParseName(TrimSpace(Line(Gapped, 6) + "\n")) == "a"
  {
    var name := Gapped.name;
    var rest := Spaces(5) + Gapped.path + "\n";
    assert Line(Gapped, 6) + "\n" == name + rest;
    assert IsTrimmed(name);
    TrimSpaceAfterTrimmed(name, rest);
    var t := TrimSpace(name + rest);
    assert t[..|name|] == name;
    ParseNameOfOneByte(t);
  }

  /** Text whose second byte starts a four-space gap, and whose first byte is
      not a space, has that first byte as its first field. */
  lemma ParseNameOfOneByte(s: GoString)
    requires |s| >= 5 && s[0] == 'a' && s[1..5] == ColumnGap
    ensures ParseName(s) == "a"
  {
    assert OccursAt(s, ColumnGap, 1);
    assert !OccursAt(s, ColumnGap, 0);
    var field := FirstField(s, ColumnGap);
    assert |field| == 1;
    assert field == [s[0]];
    assert IsTrimmed(field);
  }

  /** parseName applied to its own result changes nothing. */
  lemma ParseNameIdempotent(line: GoString)
    ensures ParseName(ParseName(line)) == ParseName(line)
  {
  }

  // ---------------------------------------------------------------------------
  // Resolution

  /** The row text of entry `i`, as fzf prints it, resolves to the first
      entry that has the same name: entry `i` itself, or an earlier namesake.
      ChooseRow states this for the rows fzf splits the listing into. */
  lemma SelectLine(repos: seq<Repo>, i: nat)
    requires i < |repos|
    requires Selectable(repos[i].name)
    ensures var chosen := Lines(repos, Longest(repos))[i] + "\n";
            var k := FirstNamed(repos, repos[i].name);
            k.Some? && k.value <= i &&
            Resolve(repos, ParseName(TrimSpace(chosen))) == Ok(repos[k.value])
  {
    ParseLine(repos[i], Longest(repos));
  }

  /** With distinct names, choosing the row of entry `i` resolves to entry `i`. */
  lemma SelectLineDistinct(repos: seq<Repo>, i: nat)
    requires i < |repos|
    requires Selectable(repos[i].name)
    requires forall j :: 0 <= j < |repos| && j != i ==> repos[j].name != repos[i].name
    ensures Resolve(repos, ParseName(TrimSpace(Lines(repos, Longest(repos))[i] + "\n"))) == Ok(repos[i])
  {
    SelectLine(repos, i);
  }

  /** Choosing row `i` of the listing, as a line-oriented reader splits it,
      resolves to the first entry with entry `i`'s name, as long as no name
      or path holds a line feed. */
  lemma ChooseRow(repos: seq<Repo>, i: nat)
    requires i < |repos|
    requires Selectable(repos[i].name)
    requires forall j :: 0 <= j < |repos| ==> '\n' !in repos[j].name && '\n' !in repos[j].path
    ensures var rows := SplitLines(Rendered(repos));
            var k := FirstNamed(repos, repos[i].name);
            i < |rows| && k.Some? && k.value <= i &&
            Resolve(repos, ParseName(TrimSpace(rows[i] + "\n"))) == Ok(repos[k.value])
  {
    OneRowPerEntry(repos);
    SelectLine(repos, i);
  }

  // ---------------------------------------------------------------------------
  // A worked example

  /** A list of two entries, the first with the longer name, is the first
      entry's row then the second's, both padded to the first name. */
  lemma TwoRows(first: Repo, second: Repo)
    requires |second.name| <= |first.name|
    ensures Rendered([first, second]) == (Line(first, |first.name|) + "\n") + (Line(second, |first.name|) + "\n")
  {
    var repos := [first, second];
    var width := |first.name|;
    assert repos[..1] == [first];
    assert Longest(repos) == width;
    var rows := Lines(repos, width);
    assert rows == [Line(first, width), Line(second, width)];
    UnlinesSnoc([Line(first, width)], Line(second, width));
    UnlinesSnoc([], Line(first, width));
    assert [Line(first, width)] + [Line(second, width)] == rows;
  }

  /** Two checkouts, `alpha` under group `org` and `b` under group `org2`. */
  const Alpha: Repo := Repo("alpha", "/home/u/code/org/alpha/")
  const B: Repo := Repo("b", "/home/u/code/org2/b/")

  /** `alpha` is followed by five spaces and `b` by nine, so both paths start
      at offset 10. */
  lemma ExampleListing()
    ensures Rendered([Alpha, B]) == (Alpha.name + "     " + Alpha.path + "\n") + (B.name + "         " + B.path + "\n")
  {
    TwoRows(Alpha, B);
    assert Spaces(5) == "     ";
    assert Spaces(9) == "         ";
  }

  /** Choosing the first row of that list resolves to `alpha`'s directory. */
  lemma ExampleSelection()
    ensures Resolve([Alpha, B], ParseName(TrimSpace(Alpha.name + "     " + Alpha.path + "\n"))) == Ok(Alpha)
  {
    var repos := [Alpha, B];
    assert Selectable(Alpha.name) by {
      forall i | 0 <= i ensures !OccursAt(Alpha.name, ColumnGap, i) {
        if i < |Alpha.name| {
          assert Alpha.name[i] != ' ';
        }
      }
    }
    TwoRows(Alpha, B);
    assert Spaces(5) == "     ";
    assert Lines(repos, Longest(repos))[0] == Alpha.name + "     " + Alpha.path;
    SelectLineDistinct(repos, 0);
  }
}
