# obsidian-mkdocs-export: the link traversal and rewriting core in Dafny

This project models the part of obsidian-mkdocs-export that turns an Obsidian
vault into a MkDocs tree. Starting from one note, it reads the note, puts blank
lines around every list or table, and finds the bracketed links
`[alias](path#anchor)` and the wikilinks `[[path#anchor|alias]]`. It then
resolves each link to a vault file under the vault's link format (`absolute`,
`relative` or `shortest`) and rewrites the link relative to the note's
directory. Each newly found target is copied, and the traversal recurses,
depth first, into each newly found note.

The modules follow the program's structure:

- `Strings` (strings.dfy): the Python string behaviour the rest relies on.
  This is truthiness of optional strings, `startswith`, `endswith`, `in` and
  `isnumeric`.
- `Links` (links.dfy): the `Link` value and the two ways of building it from
  a match (`md_match_to_link`, `wiki_match_to_link`). It also holds the two
  renderers (`render_link`, `render_image_link`) and full-match readings of
  the two link patterns.
- `Paths` (paths.dfy): the parts of `os.path` that are used. These are
  `join`, `dirname` and `relpath` over `/`-separated vault-relative paths.
  The module proves that a relative path, followed from its start directory,
  leads to its target.
- `Resolve` (resolve.dfy): `checked_path`, `find_file` (a loop over the
  vault walk) and `find_linked_file` under the three link formats.
- `BlankLines` (blanklines.dfy): `markdown_fix_blank_lines` as a method with
  its two flags, proved equal to a recursive specification `Normalize`. Its
  output is characterised line by line.
- `Export` (export.dfy): the traversal. It is an `Exporter` class whose
  fields are the `visited_files` list, the log of copies and the log of
  written notes. `ProcessFile`, `SubstitutePass` (one `re.sub`) and
  `ProcessLink` are mutually recursive methods. They keep an invariant saying:
  - visited files are distinct and reachable;
  - every finished note was written with its rewritten text, and all the
    notes it links to are visited;
  - every copy is a target of a visited note.

  `Export` proves that the notes visited are exactly those reachable from the
  starting note. It also proves that each of them is written once, with its
  rewritten text.

The file system is a value. A `Vault` holds a map from vault-relative paths to
file contents, plus the order in which a directory walk reports the files. The
link format is a parameter. Searching a note's text for the two link patterns
is a function `scan` from text to pieces: plain text, bracketed matches and
wikilink matches.

### Where the code does not do what one would expect

The points below are what the code computes, set against what the program's
own comments and names lead one to expect. Each is proved in the model except
the last. That one describes the program as written, which the model abstracts
and does not prove.

- `markdown_fix_blank_lines` (utils.py:136-160) makes sure lists and tables
  are surrounded by blank lines, as its docstring says, but running it again on
  its own output adds more: normalising `"- a\n"` gives `"\n- a\n"`, and
  normalising that gives `"\n\n- a\n"` (`BlankLines.NotIdempotent`). The
  inserted blank line is not list-like, so the next run sees a new change of
  list-likeness before the list.
- The comment on `MDLINK_RE` (utils.py:9-14) names group 4 as `#anchor`, but
  the path group is greedy and takes `#anchor` with it, and
  `md_match_to_link` builds the anchor from group 3, the path, rather than
  group 4. So `[x](foo)` is read with anchor `oo` and rendered as
  `[x](foo#oo)` (`Links.BracketAnchorIsPathTail`,
  `Links.BracketAnchorExample`).
- The docstring of `vault_link_format` (utils.py:123) says a `relative` link
  is relative to the current file, but `find_linked_file` joins it onto the
  file's own path, not its directory. In a vault that a file tree can hold,
  nothing resolves that way (`Resolve.RelativeNeverResolves`). For example,
  `../c` in `a/b.md` is not found even though `c.md` exists
  (`Resolve.RelativeUpLinkExample`).
- A resolved link to a note with no alias shows the link text as written, `.md`
  included if it was written (main.py:127-128, `Export.ResolvedNoteLink`).
  An unresolved link shows `path -file not found-`
  (`Export.NotFoundLinkFlagged`), and a resolved image link without an alias
  shows its relative path. Only external links without an alias show the path
  with `.md` stripped, through `render_link` (utils.py:53-57).
- The check against `visited_files` (main.py:133) does not make copies "once
  per file". An asset is never added to `visited_files`, so it is copied again
  for every link that reaches it (`Export.Exporter.ProcessLink`). The starting
  note is written but never copied: the notes copied are exactly the visited
  notes after the first (`Export.Exporter.Export`).
- `find_file` (utils.py:99-102) returns `os.path.join(root, name)`, and the
  roots of `os.walk(vault_path)` start with the vault path itself, which
  `checked_path` then joins on again (utils.py:106, 110). The model's walk
  lists vault-relative paths instead; see "## Left out" for what this hides.

## Model

| member | source | states |
|---|---|---|
| Links.BracketAnchorIsPathTail | obsidian_mkdocs/utils.py:33-36 | a bracketed link's anchor is its path without the first character, not the `#anchor` part |
| Links.BracketAnchorExample | obsidian_mkdocs/utils.py:33-36 | `[x](foo)` is read as path `foo`, alias `x`, anchor `oo`, and rendered as `[x](foo#oo)` |
| Links.WikiMatchToLink | obsidian_mkdocs/utils.py:39-48 | the path is group 2 verbatim |
| Links.SplitWiki | obsidian_mkdocs/utils.py:23 | a full match of the wikilink groups fits each group's character class, and the groups put together give back the matched text |
| Links.SplitTail | obsidian_mkdocs/utils.py:23 | what follows the path is read as an optional `#anchor` of at least one character and an optional `\|alias`, and the two groups put together give back that text |
| Links.SplitTailComplete | obsidian_mkdocs/utils.py:17-23 | every admissible anchor and alias group pair is read back from its text |
| Links.SplitWikiComplete | obsidian_mkdocs/utils.py:17-23 | every admissible split of a wikilink's inner text into path, `#anchor` and `\|alias` groups is the one the match finds |
| Links.WikiLinkRoundTrip | obsidian_mkdocs/utils.py:39-48 | a wikilink written from a path, anchor and alias is read back as the link with that path, alias and anchor |
| Links.RenderLinkAnchor | obsidian_mkdocs/utils.py:51-58 | `RenderLink` (`render_link`) ends with `#anchor)` when the anchor is non-empty, and with `](path)` otherwise |
| Links.RenderLinkDefaultAlias | obsidian_mkdocs/utils.py:53-58 | with no alias, `RenderLink` displays the path with one trailing `.md` removed |
| Links.ImageLinkWithWidth | obsidian_mkdocs/utils.py:61-72 | `RenderImageLink` (`render_image_link`) turns a numeric alias into a `{width="N"}` attribute and displays the path |
| Links.ImageLinkWithoutWidth | obsidian_mkdocs/utils.py:67-72 | for any other alias `RenderImageLink` displays the alias (the path when there is none), with no attribute |
| Links.ImageLinkExample | obsidian_mkdocs/utils.py:61-72 | `pic.png` with alias `300` renders as `[pic.png](pic.png){width="300"}` |
| Links.MatchBracketed | obsidian_mkdocs/utils.py:15 | a full match of `MDLINK_RE` gives a non-empty alias without `]` and a non-empty target without `)` or `/`, and the groups rebuild the text |
| Links.MatchBracketedComplete | obsidian_mkdocs/utils.py:15 | every `[text](path)` with such an alias and target matches, with path group 3 taking the whole target |
| Links.BracketedNeverExternal | obsidian_mkdocs/main.py:102-104 | a bracketed link never has a `scheme://` target, because its path group excludes `/` |
| Links.RenderedLinkMatches | obsidian_mkdocs/utils.py:15 | a rendered link with an alias matches the bracketed pattern again, with path and anchor together as group 3 |
| Links.RerenderFixedPointOnlyForOneCharacter | obsidian_mkdocs/utils.py:33-58 | rendering, reading back and rendering again gives the same text if and only if the path is one character and there is no anchor |
| Strings.AvoidsSlashNotExternal | obsidian_mkdocs/main.py:103 | text without `/` never contains the `://` marker |
| Paths.Segments | obsidian_mkdocs/main.py:114 | a path's components are non-empty and contain no separator |
| Paths.SegmentsOfJoin | obsidian_mkdocs/main.py:114-115 | splitting a `/`-joined list of components gives back the components |
| Paths.JoinKeepsBase | obsidian_mkdocs/utils.py:84-86 | `PathJoin` (`os.path.join`) onto a path keeps all its components and appends those of the relative second path |
| Paths.LastCut | obsidian_mkdocs/main.py:112 | the base name starts just after the last `/`, and contains none |
| Paths.DirnameThenBasename | obsidian_mkdocs/main.py:112 | a path's components are those of its `Dirname` (`os.path.dirname`) followed by its base name |
| Paths.FollowRelSegments | obsidian_mkdocs/main.py:114 | the `..` steps and remaining components of `relpath`, followed from the start directory, reach the target |
| Paths.RelPathLeadsToTarget | obsidian_mkdocs/main.py:114-115 | the path `RelPath` (`os.path.relpath`) writes, followed from the start directory, names the target |
| Paths.RelPathUpExample | obsidian_mkdocs/main.py:114 | `relpath("c.md", "a")` is `../c.md` |
| Resolve.CheckedPath | obsidian_mkdocs/utils.py:105-114 | the result is `p.md` when that file exists, else `p` when it exists, else nothing; a result is always a vault file |
| Resolve.FirstNamed | obsidian_mkdocs/utils.py:99-102 | the position found is the first file of the walk with that name, and none is found only when no file has it |
| Resolve.FindFile | obsidian_mkdocs/utils.py:99-102 | the walk loop returns `FoundFile`: the first file of the walk with that name, or nothing |
| Resolve.FoundFile | obsidian_mkdocs/utils.py:99-102 | a file found has the name searched for and no earlier file of the walk has it; nothing is found exactly when no file of the walk has the name |
| Resolve.EmptyNameNeverFound | obsidian_mkdocs/utils.py:99-102 | in a tree-shaped vault whose walk lists each file once, no file has an empty name, so searching for `""` finds nothing |
| Resolve.FindLinkedFile | obsidian_mkdocs/utils.py:75-96 | a result is always a vault file, and a link format other than the three gives no result |
| Resolve.ShortestWithSlashIsAbsolute | obsidian_mkdocs/utils.py:87-89 | under `shortest`, a link containing `/` resolves exactly as under `absolute` |
| Resolve.ShortestPrefersNote | obsidian_mkdocs/utils.py:90-95 | under `shortest`, a bare name resolves to the first file of the walk called `name.md` |
| Resolve.ShortestFallsBackToName | obsidian_mkdocs/utils.py:91-95 | under `shortest`, with no file called `name.md`, a bare name resolves to the first file called `name` |
| Resolve.ShortestUnknownName | obsidian_mkdocs/utils.py:90-96 | under `shortest`, a bare name that no file carries is not found |
| Resolve.BelowFileIsNoFile | obsidian_mkdocs/utils.py:84-86 | a path joined onto a file's own path is never a file of a tree-shaped vault |
| Resolve.RelativeCandidateIsNoFile | obsidian_mkdocs/utils.py:110-112 | under `relative`, the joined candidate is never a file |
| Resolve.RelativeNoteCandidateIsNoFile | obsidian_mkdocs/utils.py:106-108 | under `relative`, the joined candidate with `.md` is never a file |
| Resolve.RelativeNeverResolves | obsidian_mkdocs/utils.py:83-86 | under `relative`, no link of a tree-shaped vault resolves |
| Resolve.RelativeUpLinkExample | obsidian_mkdocs/utils.py:83-86 | `../c` in `a/b.md` is not found under `relative`, although `c.md` exists |
| Resolve.AbsoluteExample | obsidian_mkdocs/utils.py:81-82 | `notes/foo` resolves to `notes/foo.md` under `absolute` |
| BlankLines.LineEnd | obsidian_mkdocs/utils.py:143 | the first line ends at the first `\n`, which it keeps, or at the end of the text |
| BlankLines.SplitLinesJoin | obsidian_mkdocs/utils.py:143 | `SplitLines` (`splitlines(keepends=True)`) loses nothing: the lines joined give back the text, and every line but the last ends in `\n` |
| BlankLines.SplitConcat | obsidian_mkdocs/utils.py:143 | splitting joined, well-split lines gives back those lines |
| BlankLines.LStrip | obsidian_mkdocs/utils.py:149 | the result is the line with its leading whitespace removed and nothing else: a suffix of it, everything before it whitespace, and it does not start with whitespace |
| BlankLines.OrderedMarkerIff | obsidian_mkdocs/utils.py:133 | the ordered-list part of `MD_LIST_RE` matches exactly when the text starts with one or more digits, a dot and a space |
| BlankLines.ListLikeIff | obsidian_mkdocs/utils.py:149-152 | `ListLike` holds exactly when the stripped line starts with digits, a dot and a space, or with one of `- * + \|` and a space |
| BlankLines.BlankNotListLike | obsidian_mkdocs/utils.py:133 | the inserted blank line does not match `MD_LIST_RE` |
| BlankLines.DashLineListLike | obsidian_mkdocs/utils.py:133 | `- a` is a list line |
| BlankLines.FixBlankLines | obsidian_mkdocs/utils.py:136-160 | the loop with `in_list` and `was_in_list` computes `Normalize` of the content |
| BlankLines.FixIsConcatExpand | obsidian_mkdocs/utils.py:148-159 | the output is the input lines in order, each preceded by a blank line when its list-likeness differs from the previous line's |
| BlankLines.FixLength | obsidian_mkdocs/utils.py:148-159 | the output is longer than the input by one character per change of list-likeness |
| BlankLines.NormalizeLines | obsidian_mkdocs/utils.py:136-160 | the lines of `Normalize(content)` are the input's lines unchanged, with a blank line before each change of list-likeness; the length grows by the number of changes |
| BlankLines.ExpandFenced | obsidian_mkdocs/utils.py:148-159 | in the expanded lines, two neighbours that differ in list-likeness always include a blank line |
| BlankLines.ListsSurroundedByBlankLines | obsidian_mkdocs/utils.py:136-160 | in the output every list or table run is separated from other text by a blank line, and the text does not start with a list line |
| BlankLines.NotIdempotent | obsidian_mkdocs/utils.py:136-160 | normalising `- a\n` gives `\n- a\n`, and normalising again adds a second blank line |
| Export.Resolution | obsidian_mkdocs/main.py:103-110 | a resolved link names a vault file with a non-empty path, and an external link is never resolved |
| Export.BothPassesRewriteEveryLink | obsidian_mkdocs/main.py:55-88 | after the bracketed pass and the wikilink pass every piece of the note is text: plain text unchanged, each link of either syntax rewritten once by `Rewrite`; `OutputText`, the text written, is the pieces' texts in order with none dropped |
| Export.ExternalLinkUnchanged | obsidian_mkdocs/main.py:102-104 | `Rewrite` renders a `scheme://` link as written, whatever resolution would say |
| Export.NotFoundLinkFlagged | obsidian_mkdocs/main.py:106-110 | `Rewrite` keeps an unresolved link's path and shows `path -file not found-` |
| Export.ResolvedNoteLink | obsidian_mkdocs/main.py:112-130 | `Rewrite` shows a resolved non-image link's alias, or the link text as written, and points it at the target relative to the note's directory |
| Export.ResolvedImageLink | obsidian_mkdocs/main.py:121-125 | `Rewrite` sends a resolved image link through the image renderer with the relative path |
| Export.RewrittenPathLeadsToTarget | obsidian_mkdocs/main.py:112-130 | the path written for a resolved link, followed from the note's directory, leads to the target |
| Export.ReachableSelf | obsidian_mkdocs/main.py:50 | every note is reachable from itself |
| Export.ReachableStep | obsidian_mkdocs/main.py:133-138 | a note linked from a reachable note is reachable |
| Export.ChainStaysInside | obsidian_mkdocs/main.py:133-138 | a chain of links that starts inside a set closed under links ends inside it |
| Export.ClosedSetHoldsReachable | obsidian_mkdocs/main.py:133-138 | a set closed under links that holds the start holds everything reachable from it |
| Export.VisitStep | obsidian_mkdocs/main.py:50 | appending an unvisited, reachable file to `visited_files` keeps the visit invariants and puts the file on the stack of notes in progress |
| Export.FinishStep | obsidian_mkdocs/main.py:86-88 | writing a note whose linked notes are all visited keeps the invariant, and takes the note off the stack |
| Export.CopyStep | obsidian_mkdocs/main.py:133-136 | copying an unvisited target of a visited note keeps the copy invariant, and a note is never copied twice |
| Export.PassNoteTargetsSnoc | obsidian_mkdocs/main.py:61-84 | the notes one pass reaches grow by at most the target of each piece it handles |
| Export.ChildrenOfBothPasses | obsidian_mkdocs/main.py:61-84 | every note a note links to is reached by the bracketed pass or by the wikilink pass after it |
| Export.TargetsOfBothPasses | obsidian_mkdocs/main.py:61-84 | every file a note links to, asset or note, is reached by the bracketed pass or by the wikilink pass after it |
| Export.AllTargetsCopied | obsidian_mkdocs/main.py:133-135 | when every visited note is written and the copied notes are the visited ones after the first, every file a visited note links to, other than the starting note, has been copied |
| Export.FinishedTraversal | obsidian_mkdocs/main.py:33-34 | with no note in progress, the visited files are exactly those reachable from the first, and all have been written |
| Export.Exporter.constructor | obsidian_mkdocs/main.py:34 | a run starts with nothing visited, copied or written |
| Export.Exporter.ProcessFile | obsidian_mkdocs/main.py:47-89 | the note is appended to `visited_files` and processed, and the invariant is kept: each finished note written with its rewritten text, every note it links to visited, visited notes distinct and reachable, notes copied once, every file a written note links to copied or visited |
| Export.Exporter.SubstitutePass | obsidian_mkdocs/main.py:61-84 | the pieces returned are the substitution pass's, and every note the pass's links resolve to has been visited by the end, and every file they resolve to, asset or note, has been copied or visited |
| Export.Exporter.ProcessLink | obsidian_mkdocs/main.py:92-140 | the text returned is the rewritten link. An unresolved or already visited target changes nothing. A new target is appended to the copies. A new asset changes nothing else. A note target ends up visited. Any resolved target ends up copied or visited |
| Export.Exporter.Export | obsidian_mkdocs/main.py:33-34 | from the starting note, the files visited are exactly those reachable from it, each is written once with its rewritten text, and the notes copied are the visited notes after the first. Every file, asset or note, that a visited note links to has been copied, the starting note excepted |

## Left out

- The command-line entry `export_obsidian_to_mkdocs` is not modelled beyond its call `process_file(starting_note, …, [])`. This leaves out clearing the `wiki` directory, copying the `mkdocs.yml` template, `chdir` and running `mkdocs build`, and the `fire` entry point. All of it is I/O outside the traversal.
- `vault_link_format`, which reads `.obsidian/app.json`, is left out. The link format is a parameter of the site, and a missing setting (default `shortest`) is the caller's choice.
- `extract_json_from_excalidraw_md` is left out. It is not called from the traversal.
- Logging and `os.makedirs` are left out: they do not affect what is written or returned.
- File contents are read from the vault map and written to a log of `(path, text)` pairs. The copy of a note's raw bytes (which `process_file` then overwrites with the rewritten text) is recorded as a copy. I/O errors are not modelled, and a starting note that does not exist is a precondition of `Export`.
- The regular-expression searches are abstracted to a `scan` of the normalised text into pieces. Each pass rewrites the link pieces of its own syntax. The wikilink pass runs over the pieces the first pass left, not over a rescan of the rewritten text, so a wikilink match that would span a rewritten bracketed link is not modelled. `MatchBracketed` and `SplitWiki` state what one match of each pattern reads.
- Links.MatchBracketed: models full matches whose target contains no `/` or `)` only, where group 4 never takes part. The backtracking cases of `(#.*)*` are not modelled.
- Links.WikiMatchToLink: its own contract states only the path. The alias and anchor it builds are stated by `Links.WikiLinkRoundTrip`.
- `os.path.exists` is membership in the vault's file map. Directories do not exist in the model, so `checked_path` naming a directory (which would make the copy fail) and links that rely on `..` being resolved by the operating system are not modelled.
- `find_file` returns `os.path.join(root, name)`, whose root starts with the vault path, and `checked_path` joins the vault path on again. The model's walk lists vault-relative paths instead, and the walk order is a parameter. So `Resolve.ShortestPrefersNote`, `Resolve.ShortestFallsBackToName` and `Resolve.ShortestUnknownName` hold for this abstraction only. Read as written, the program does the following for a bare name under `shortest`:
  - with a relative vault path such that `vault/vault` names nothing, no bare-name link resolves, because `vault/vault/x/Foo.md` is tested. An example is `notes`, unless the vault holds a `notes` directory of its own;
  - with a vault path of the form `../d`, `vault/vault` is `../d/../d`, which the operating system reads as the vault itself. The link then resolves to `../d/x/Foo.md`. The copy (main.py:117, 135) and the write (main.py:86-88) put the note at `<output>/wiki/../d/x/Foo.md`, outside the wiki directory;
  - with the vault path `.`, the result is `./x/Foo.md`, which differs from the `x/Foo.md` a path link gives, so one note can be visited, copied and written twice;
  - with an absolute vault path, the result is absolute, `os.path.join(output_path, file_path)` is the source file itself, and `shutil.copyfile` (main.py:135) fails because source and destination are the same file.
- A link path starting with `/` makes `os.path.join` drop what comes before it, so `checked_path` tests a host path such as `/x.md` outside the vault (utils.py:85, 106). The model looks only in the vault map, so it reports such a link as not found; `Resolve.RelativeNeverResolves` holds within the vault map only.
- Export.Exporter.Export: completes for a starting note in a subdirectory. The program writes each note (main.py:86-88) into a directory that only the copy of a linked file creates (main.py:134). For the starting note nothing creates it, so the write fails unless a copy made while processing its links already did.
- Paths.RelPath: models `os.path.relpath` for the vault's own plain paths (no `.` or `..` components, no absolute paths), which is what `find_linked_file` returns. `as_posix` is the identity on `/`-separated paths.
- BlankLines.SplitLines: splits on `\n` only. Python's `splitlines` also breaks at `\r`, `\r\n`, `\v`, `\f`, `\x1c`–`\x1e`, `\x85` and the Unicode line and paragraph separators.
- Unicode digits (`\d` and `str.isnumeric`) and Unicode whitespace (`str.lstrip`) are limited to ASCII.
