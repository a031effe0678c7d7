# Repository picker

A model of the `repos` tool (`pkgs/repos/repos.go`). The tool lists every git
checkout under `~/code/<group>/<project>` and shows the list in fzf, an
interactive fuzzy finder. It then turns the line the user picked back into an
entry and prints that entry's working directory. The model follows the code
step by step:

- **Discovery** (`searchForGitRepositories`). Each glob match `…/.git` loses
  the `.git` suffix. Its name is `filepath.Base` of what remains. A match with
  an empty name is skipped.
- **Rendering** (`formatSearch`). A first pass finds the longest name. Each
  entry then becomes the row `name + (longest + 5 - len(name)) spaces + path`,
  followed by a line feed.
- **Parsing** (`parseName`). The line fzf printed is trimmed. Then the text
  before the first four-space gap is taken and trimmed again.
- **Resolution** (the loop at the end of `fzfSearch`). The first entry with
  exactly that name wins. The program panics when there is none.

The Go helpers the code relies on are modelled in their own modules, byte for
byte:
- `GoStrings` covers `TrimSpace`, `TrimSuffix`, `Index`, the first element of
  `Split` and `Repeat(" ", n)`;
- `GoFilepath` covers `filepath.Base` on Unix.

Go strings are byte sequences (`GoString`). `panic` and `log.Fatal` become an
`Abort` value that carries the message. The environment is passed in:
- what the glob returned and the error it reported are parameters;
- running `bash -c "echo '…' | fzf"` is a function parameter from the command
  text to the bytes it printed or to the error that ends the program.

`Repos` holds the operations. The source's loops are methods, proved against
recursive specification functions. `ReposProperties` holds the lemmas that
relate several operations:
- every match yields exactly one entry, since `Base` never returns "";
- `<code>/<group>/<project>/.git` is listed as `project`;
- the path column is aligned;
- the listing is one row per entry;
- each row parses back to its entry's name;
- the chosen row resolves to the first entry with that name.

Behaviour of the code a reader might not expect:
- An entry's path keeps the separator that came before `.git`: the match
  `<code>/<group>/<project>/.git` gives the path `<code>/<group>/<project>/`
  (`ReposProperties.DiscoverProject`), so the paths in
  `ReposProperties.ExampleListing` end in `/`.
- The empty-name guard can never fire, because `filepath.Base` returns "." or
  "/" rather than "" (`EveryMatchYieldsOneEntry`). No match is ever dropped.
- fzf is run even when the list is empty. Its output is then parsed and looked
  up like any other, and the lookup panics unless fzf failed first.
- The glob pattern `**/*/.git` is handled by `filepath.Glob`, where `**` means
  the same as `*`. Discovery therefore sees exactly two levels below the code
  directory. The matches are a parameter of the model, so it takes no
  position on depth.

## Model

| member | source | states |
|---|---|---|
| `Repos.Must` | pkgs/repos/repos.go:17-23 | The value comes back exactly when there is no error; otherwise the result aborts with that error. |
| `GoStrings.TrimSuffix` | pkgs/repos/repos.go:44 | If the text ends with the suffix, the result followed by the suffix is the text; otherwise the text is unchanged. |
| `GoFilepath.Base` | pkgs/repos/repos.go:46 | Never empty; either "/" or free of separators; "." for the empty path and "/" for a non-empty path of separators only. Whenever the result is not "/", it is the path's last element: it starts the path or follows a separator, and only separators come after it. |
| `GoFilepath.BaseOfNonSeparators` | pkgs/repos/repos.go:46 | A path holding a byte other than a separator has a base other than "/", and that base is the path's last element. |
| `GoFilepath.BaseOfDirectory` | pkgs/repos/repos.go:46 | For `dir/name/` with `name` non-empty and free of separators, the base is `name`, whatever `dir` is. |
| `Repos.Derive` | pkgs/repos/repos.go:44-55 | One match always yields an entry. Its name is `Base` of its path, so it is non-empty and either "/" or free of separators. Its path followed by `.git` is the match when the match ends in `.git`, and is the match itself otherwise. |
| `Repos.Entries` | pkgs/repos/repos.go:43-56 | No more entries than matches, and no entry with an empty name (the guard at line 48). |
| `Repos.SearchForGitRepositories` | pkgs/repos/repos.go:35-59 | A glob error aborts with that error. Otherwise the loop returns exactly the entries the matches yield, in match order. |
| `ReposProperties.EveryMatchYieldsOneEntry` | pkgs/repos/repos.go:43-56 | There are as many entries as matches, and entry `i` is the one match `i` yields: the empty-name guard never skips anything. |
| `ReposProperties.DiscoverProject` | pkgs/repos/repos.go:41-55 | The match `<code>/<group>/<project>/.git` is listed with name `project` and path `<code>/<group>/<project>/`. |
| `Repos.Longest` | pkgs/repos/repos.go:62-68 | No name is longer than the result; some name is exactly that long; 0 for no entries. |
| `GoStrings.Spaces` | pkgs/repos/repos.go:74 | `strings.Repeat(" ", n)` is `n` bytes, all spaces. |
| `Repos.Lines` | pkgs/repos/repos.go:71-77 | One row per entry, in entry order; row `i` is entry `i`'s name, padding and path. |
| `Repos.Rendered` | pkgs/repos/repos.go:61-80 | The listing is empty exactly when there are no entries. |
| `Repos.FormatSearch` | pkgs/repos/repos.go:61-80 | Both loops together produce exactly the rendered listing for the longest name: the rows, each followed by a line feed. |
| `Repos.RowsSnoc` | pkgs/repos/repos.go:71-77 | One more iteration of the second loop appends the next entry's row and a line feed. |
| `Repos.UnlinesSnoc` | pkgs/repos/repos.go:76 | Appending `text + "\n"` to the list is joining one more row. |
| `ReposProperties.Alignment` | pkgs/repos/repos.go:71-74 | In every row the name is followed by at least 5 spaces. The path starts at offset longest + 5 and fills the rest of the row. |
| `ReposProperties.TwoRows` | pkgs/repos/repos.go:61-80 | Two entries render as the first row and then the second, both padded to the first, longer name. |
| `ReposProperties.ExampleListing` | pkgs/repos/repos.go:61-80 | `alpha` and `b` render with 5 and 9 spaces before their paths. |
| `ReposProperties.SplitUnlines` | pkgs/repos/repos.go:76 | Rows without line feeds, each followed by one, split back into the same rows. |
| `ReposProperties.OneRowPerEntry` | pkgs/repos/repos.go:70-79 | When no name or path holds a line feed, the listing splits into exactly one row per entry, in order. |
| `GoStrings.TrimSpace` | pkgs/repos/repos.go:103 | The result is the text with white space removed from its two ends only: a slice of the text with only white space before and after it. It has no white space at either end, is empty exactly when the text is all white space, and equals text that was already trimmed. |
| `GoStrings.Index` | pkgs/repos/repos.go:84 | -1 exactly when the separator does not occur; otherwise an offset where it occurs, with no earlier occurrence. |
| `GoStrings.FirstField` | pkgs/repos/repos.go:84 | `Split(s, sep)[0]` is a prefix of `s` that does not contain the separator. When shorter than `s`, the separator follows it, and it does not occur at any earlier offset. |
| `GoStrings.TrimSpaceAfterTrimmed` | pkgs/repos/repos.go:103 | Trimming a trimmed, non-empty text followed by more text only removes white space from the end of the latter. |
| `Repos.ParseName` | pkgs/repos/repos.go:83-85 | The parsed name has no white space at either end and no four-space gap. |
| `ReposProperties.ParseNameIdempotent` | pkgs/repos/repos.go:83-85 | Parsing a parsed name changes nothing. |
| `ReposProperties.FieldBeforeGap` | pkgs/repos/repos.go:84 | Before a four-space gap or the end of text, a selectable name is the whole first field. |
| `ReposProperties.ParseLine` | pkgs/repos/repos.go:72-105 | Round trip on the row text: an entry's row followed by a line feed, trimmed and parsed, gives back the entry's name. The name must be non-empty, trimmed and free of four-space gaps. |
| `ReposProperties.GapInNameIsCut` | pkgs/repos/repos.go:83-85 | The row of an entry named `a    b` parses to `a`, so the round trip needs its precondition. |
| `Repos.FirstNamed` | pkgs/repos/repos.go:107-114 | None exactly when no entry has the name. Otherwise the position of an entry with the name, and no earlier entry has it. |
| `Repos.FindRepo` | pkgs/repos/repos.go:107-114 | The loop returns the first entry with the name, or panics with "Could not find repo" when none has it. |
| `ReposProperties.SelectLine` | pkgs/repos/repos.go:103-114 | Choosing entry `i`'s row resolves to the first entry with the same name, at `i` or earlier: duplicates resolve to the first. |
| `ReposProperties.SelectLineDistinct` | pkgs/repos/repos.go:103-114 | With distinct names, choosing entry `i`'s row resolves to entry `i`. |
| `ReposProperties.ExampleSelection` | pkgs/repos/repos.go:82-114 | Choosing `alpha`'s row in the two-entry example resolves to `alpha`. |
| `ReposProperties.ChooseRow` | pkgs/repos/repos.go:70-114 | When no name or path holds a line feed, row `i` of the listing, as a line-oriented reader splits it, resolves to the first entry with entry `i`'s name, at `i` or earlier. |
| `Repos.Command` | pkgs/repos/repos.go:89 | The command text is `echo '`, then the listing itself at offset 6, then the closing quote and the pipe into `fzf`; 13 bytes longer than the listing. |
| `Repos.FzfSearch` | pkgs/repos/repos.go:82-115 | What runs is the command that echoes the rendered listing into fzf. Its failure ends the run with its error. Otherwise the result is the entry its trimmed and parsed output resolves to, or the not-found panic. |
| `Repos.PickRepository` | pkgs/repos/repos.go:117-124 | A glob error, an fzf failure and the not-found panic each abort the run. Otherwise the result is the path of the entry the chosen row resolves to. |

## Left out

- `getCodeDir` (`os.UserHomeDir`, `path.Join` with `code`) and the glob itself: the model takes the glob's matches and its error as inputs, so neither file-system traversal nor glob syntax is modelled.
- The bash and fzf subprocess, its stdin/stderr wiring and the terminal: running the command is a function parameter. Shell quoting of a `'` inside the listing, and the extra line feed `echo` adds, are not modelled.
- `fmt.Print` of the chosen path: `PickRepository` returns the path instead of printing it.
- `GoStrings.TrimSpace`: trims the six ASCII white-space bytes only; Go's `strings.TrimSpace` also removes multi-byte Unicode spaces (U+0085, U+00A0 and others), which the model does not decode.
- `GoFilepath.Base`: Unix semantics only (separator `/`, no volume names); Windows paths are not modelled.
- `GoStrings.FirstField`: models `strings.Split(s, sep)[0]` for a non-empty separator only, the only way the code calls it.
- The Python scripts beside the Go tool (`scripts/zsh-install-plugins.py`, `scripts/ftp.py`) are not part of this model: they only run installers and file transfers.
