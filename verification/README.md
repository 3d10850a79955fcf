# ghmeta, modelled in Dafny

ghmeta keeps the metadata of GitHub repositories, meaning their labels and milestones,
in one YAML document. It can print that document, or push it to other
repositories. Pushing edits the labels and milestones that already exist and
creates the missing ones. The same repository ships a release-note generator. It
looks up the milestone titled "next release", turns each of its issues into a
note, and writes the notes as a Markdown table: the issue number, title and web
url, plus the release-note text found in the issue's comments. Bugs go last.

The model covers both programs:

- `wrappers.dfy`: `Option` and `Result`.
- `strings.dfy`: the Python string operations the two programs rely on. These
  are `lower`, `capitalize`, `str.replace`, `split()` with `" ".join`,
  `split(",")` and `str(n)`, all on ASCII.
- `md_escape.dfy`: `md_escape` and `escape_table`.
- `note_table.dfy`: the note record, the `(bug, number)` sort, `format_row`,
  `headers` and `create_md_file`. The file's text is returned instead of written.
- `release_notes.dfy`: `format_body`, `extract_release_notes`, `is_bug`, the url
  rewrite and `get_release_notes`. The GitHub listings are passed in as sequences.
- `push_spec.dfy`: what `push_data` does to a repository's state, as functions.
  This is where the properties of pushing are proved: the closed form, the
  label override, idempotence, and "a second push only edits".
- `ghmeta.dfy`: a repository as a class with milestone and label fields and one
  method per GitHub request; `push_data`, `load_github` and the `ghmeta` command
  as module-level methods that take repositories as arguments, and `load_local`
  as a function. Each is proved against the functions of `push_spec.dfy`.
  Round trip: pulling a repository and pushing the result back to it changes
  nothing, when its milestone titles are distinct.

The model follows the code as written:

- `get_release_notes` ignores its `milestone` argument: the loop variable
  shadows it, and the title searched for is always `next release`.
- When several milestones carry that title, the last one wins.
- `format_body` can leave a marker in its result: see
  `ReleaseNotes.MarkerCanSurvive`.

## Model

| member | source | states |
|---|---|---|
| Strings.Capitalize | release_notes.py:115 | same length and whitespace positions; the first character is not lower-case; no later character is upper-case; lower-casing the result gives the lower-cased input |
| Strings.CapitalizeUnchanged | release_notes.py:115 | text that is already capitalized is left unchanged |
| Strings.CapitalizedUnique | release_notes.py:115 | two texts that are both capitalized and agree up to case are equal |
| Strings.Lower | release_notes.py:105 | same length; each upper-case letter becomes its lower-case partner, 32 code points on; every other character is kept in place; no upper-case letter is left and whitespace stays whitespace |
| Strings.DeleteUnchangedIff | release_notes.py:26 | deleting every occurrence of a pattern changes the text exactly when the pattern occurs in it |
| Strings.DeleteShortens | release_notes.py:26 | when the pattern occurs, deleting it makes the text strictly shorter |
| Strings.DeleteKeepsAbsent | release_notes.py:26 | deletion introduces no character the text did not have |
| Strings.Replace | release_notes.py:26 | a replacement no longer than the pattern never lengthens the text; one no shorter never shortens it |
| Strings.SplitStr | release_notes.py:26 | splitting on a pattern gives at least one piece |
| Strings.DeleteIsSplitJoin | release_notes.py:26 | deleting a pattern is concatenating the pieces of the split on it, and joining those pieces with the pattern gives the text back |
| Strings.SplitStrPieces | release_notes.py:26 | no piece of the split holds the pattern |
| Strings.DeleteOnly | release_notes.py:26 | deleting `p` from `x + p + y`, where this `p` is the first occurrence and `y` holds none, leaves `x + y` |
| Strings.ReplaceSkip | release_notes.py:26 | a prefix at none of whose positions the pattern starts passes through the replacement unchanged |
| Strings.Words | release_notes.py:114 | `split()` yields whitespace-free, non-empty words whose concatenation is the text's non-whitespace characters, in order |
| Strings.JoinWordsCollapsed | release_notes.py:114 | joining words with single spaces gives text with no leading, trailing or repeated whitespace |
| Strings.WordsSplit | release_notes.py:114 | a run of whitespace separates words: the words of `a + run + b` are the words of `a` followed by those of `b` |
| Strings.WordsJoin | release_notes.py:114 | joining words with single spaces and splitting the result gives the same words back |
| Strings.CollapseSpaces | release_notes.py:114 | `" ".join(s.split())` is collapsed, has the same words as `s`, and keeps exactly the non-whitespace characters of `s` |
| Strings.CollapsedFixed | release_notes.py:114 | collapsed text is left unchanged |
| Strings.CollapseSpacesUnique | release_notes.py:114 | any collapsed text with the words of `s` is the result for `s` |
| Strings.WordsLower | release_notes.py:114 | splitting lower-cased text gives the lower-cased words of the text |
| Strings.LowerCollapsed | release_notes.py:105 | lower-casing keeps text collapsed |
| Strings.CapitalizeCollapsed | release_notes.py:114-115 | capitalizing collapsed text keeps it collapsed |
| Strings.LowerNonSpace | release_notes.py:105 | lower-casing commutes with dropping whitespace |
| Strings.SplitOn | ghmeta.py:102 | `split(",")` returns at least one part |
| Strings.SplitOnSpec | ghmeta.py:102 | joining the parts with the separator gives the input back; there is one part more than there are separators |
| Strings.Decimal | release_notes.py:53 | `str(n)` is non-empty decimal digits with no leading zero, and it reads back as `n` |
| Markdown.EscapeTable | release_notes.py:63-79 | fourteen entries; each maps a special character to that character preceded by a backslash |
| Markdown.SpecialKeys | release_notes.py:63-79 | the keys are pairwise distinct and none of them is the backslash |
| Markdown.MdEscape | release_notes.py:57-60 | applying one `replace` per table entry, in table order, equals escaping each special character on its own |
| Markdown.ReplaceIsNextKey | release_notes.py:58-59 | one more `replace` step extends the per-character escaping by one key |
| Markdown.EscapedLength | release_notes.py:57-60 | escaping adds exactly one character per special character |
| Markdown.Escaped | release_notes.py:57-60 | escaping keeps at least the length and at most doubles it |
| Markdown.EscapedUnchangedIff | release_notes.py:57-60 | escaping changes the text exactly when it holds a special character |
| Markdown.EscapedSpecialsPreceded | release_notes.py:57-60 | every special character in the output directly follows a backslash |
| Markdown.UnescapeEscaped | release_notes.py:57-60 | removing the added backslashes gives the original text back |
| Markdown.EscapeTwiceIff | release_notes.py:57-60 | escaping twice equals escaping once exactly when the input has no special character |
| Markdown.BackslashNotEscaped | release_notes.py:63-79 | a backslash is not itself escaped: a backslash followed by a pipe becomes two backslashes followed by the pipe |
| NoteTable.InsertPermutes | release_notes.py:35 | inserting a note adds exactly that note to the multiset |
| NoteTable.InsertSorted | release_notes.py:35 | inserting into a list sorted by `(bug, number)` keeps it sorted |
| NoteTable.SortByKey | release_notes.py:35 | the sort keeps the number of notes |
| NoteTable.SortByKeySpec | release_notes.py:35 | the sort gives a permutation sorted by `(bug, number)` |
| NoteTable.SortByKeyUnique | release_notes.py:35 | when numbers identify notes, any sorted permutation is the result of the sort |
| NoteTable.NonBugsFirstExample | release_notes.py:35 | non-bugs come first, each group in ascending number order |
| NoteTable.SortNotes | release_notes.py:35 | the in-place sort leaves the array holding the sorted notes |
| NoteTable.InsertAt | release_notes.py:35 | one insertion step inserts the next element into the sorted prefix and leaves the rest of the array unchanged |
| NoteTable.FormatRow | release_notes.py:49-54 | title and body are escaped and reversible; number, url and bug are untouched; the line is the row's Markdown text |
| NoteTable.TableSnoc | release_notes.py:44-46 | each further row appends its escaped line to the file's text |
| NoteTable.Table | release_notes.py:44-46 | the text starts with the header |
| NoteTable.CreateMdFile | release_notes.py:34-46 | the text is the headers followed by the rows in `(bug, number)` order; the array ends up sorted and escaped, as the dicts are |
| NoteTable.RenderRows | release_notes.py:45-46 | the row loop writes every row and escapes each record in place |
| NoteTable.Headers | release_notes.py:82-86 | the header is exactly two lines |
| NoteTable.RowIsOneLine | release_notes.py:49-54 | a row whose title, url and body hold no newline is exactly one line |
| NoteTable.TableLines | release_notes.py:44-46 | the file has `2 + n` lines for `n` notes |
| ReleaseNotes.RemoveMarkersUnchangedIff | release_notes.py:113 | the substitution changes the text exactly when it holds a marker |
| ReleaseNotes.RemoveMarkers | release_notes.py:113 | the substitution never lengthens the text and every character it leaves comes from the text |
| ReleaseNotes.RemoveMarkersSkip | release_notes.py:113 | a prefix at none of whose positions a marker starts is kept as it is, `*` included, and the substitution continues after it; with `RemoveSingularAt` and `RemovePluralAt` this fixes the result on every text |
| ReleaseNotes.NoMarkerWithoutStar | release_notes.py:113 | no marker starts inside text that holds no `*` |
| ReleaseNotes.StrayStarKept | release_notes.py:113 | `***release note**` becomes `*`: a `*` that starts no marker survives beside one |
| ReleaseNotes.RemoveSingularAt | release_notes.py:113 | a singular marker at the scan position is deleted whole, and not mistaken for the plural |
| ReleaseNotes.RemovePluralAt | release_notes.py:113 | a plural marker at the scan position is deleted whole |
| ReleaseNotes.RemoveMarkersDeletes | release_notes.py:113 | `x` + marker + `y`, with no `*` in `x`, becomes `x` followed by the substitution applied to `y`, for both markers |
| ReleaseNotes.FormatBody | release_notes.py:112-115 | the result is collapsed; its first character is not lower-case and no later one is upper-case; lower-cased, it has the same words as the lower-cased marker-free text |
| ReleaseNotes.FormatBodyUnique | release_notes.py:112-115 | those properties determine the result: any text that has them is the formatted text |
| ReleaseNotes.MarkerCanSurvive | release_notes.py:113-114 | `**release  note**` holds no marker, yet it formats to one |
| ReleaseNotes.LastFlagged | release_notes.py:104-107 | the index of the last comment whose lower-cased body contains `**release note`, or none exactly when no comment does |
| ReleaseNotes.ExtractReleaseNotes | release_notes.py:100-109 | the loop returns the formatted body of the last flagged comment, or nothing |
| ReleaseNotes.LatestReleaseNote | release_notes.py:100-109 | none exactly when no comment is flagged; a note is collapsed, with no upper-case letter after its first character |
| ReleaseNotes.NoteBody | release_notes.py:27 | never empty; a non-empty note is kept; no note or an empty one gives `NO RELEASE NOTES` |
| ReleaseNotes.SentinelIff | release_notes.py:27 | the body is `NO RELEASE NOTES` exactly when no comment is flagged or the note is empty |
| ReleaseNotes.MarkerOnlyComment | release_notes.py:27 | a comment holding only the marker is flagged, but its body is the sentinel |
| ReleaseNotes.IsBug | release_notes.py:89-97 | true exactly when some label name lower-cases to `bug` |
| ReleaseNotes.PublicUrl | release_notes.py:26 | the rewritten url is never longer than the API url |
| ReleaseNotes.PublicUrlSplitJoin | release_notes.py:26 | each deletion glues together the pieces of a split on its token; the pieces joined by the token give back the text they came from, and no piece holds the token |
| ReleaseNotes.PublicUrlOfApiUrl | release_notes.py:26 | an API url `scheme` `api.` `host` `repos/` `path` becomes `scheme host path` when that `api.` is the first in the url and none follows it, and that `repos/` is the first in `scheme host repos/ path` and none follows it |
| ReleaseNotes.PublicUrlExample | release_notes.py:26 | `https://api.github.com/repos/o/r/issues/7` becomes `https://github.com/o/r/issues/7` |
| ReleaseNotes.PublicUrlUnchangedIff | release_notes.py:26 | the url is left unchanged exactly when it holds neither `api.` nor `repos/` |
| ReleaseNotes.PublicUrlKeepsAbsent | release_notes.py:26 | the rewrite introduces no new character |
| ReleaseNotes.NextReleaseIndex | release_notes.py:17-19 | the last milestone whose lower-cased title is `next release`, or none exactly when no milestone has that title |
| ReleaseNotes.SelectMilestone | release_notes.py:17-19 | the loop picks that milestone, whatever milestone name is requested |
| ReleaseNotes.NoteOf | release_notes.py:23-28 | number and title are kept; the bug flag is set exactly when a label lower-cases to `bug`; the body is never empty; the url is no longer than the API url |
| ReleaseNotes.BuildNote | release_notes.py:23-28 | the record built for one issue |
| ReleaseNotes.CollectNotes | release_notes.py:21-29 | one note per issue, in listing order |
| ReleaseNotes.GetReleaseNotes | release_notes.py:14-31 | the table of the next-release notes, or `NoNextRelease` when no milestone has that title |
| ReleaseNotes.ReleaseNotesFor | release_notes.py:14-31 | succeeds exactly when some milestone is titled `next release`, otherwise fails with `NoNextRelease`; the text starts with the header |
| ReleaseNotes.FormattedNoNewline | release_notes.py:112-115 | formatted text holds no newline |
| ReleaseNotes.ReleaseNotesShape | release_notes.py:14-31 | succeeds exactly when a next-release milestone exists; then the text has two header lines plus one line per issue |
| PushSpec.LabelOf | ghmeta.py:66-68 | the colour is kept; a missing description becomes `""` |
| PushSpec.TitleIndex | ghmeta.py:52-54 | every index entry points into the listing |
| PushSpec.TitleIndexKeys | ghmeta.py:52-54 | every listed title is indexed |
| PushSpec.TitleIndexLast | ghmeta.py:52-54 | a title maps to the last milestone carrying it |
| PushSpec.ApplyMilestones | ghmeta.py:56-63 | the milestone loop never removes a milestone |
| PushSpec.MilestoneCalls | ghmeta.py:56-63 | one request per entry: an edit of the indexed position exactly when the title is indexed, otherwise a creation; each request carries the entry as an open milestone |
| PushSpec.EditedBy | ghmeta.py:59-61 | the last entry that edits a position, or none exactly when no entry does |
| PushSpec.Created | ghmeta.py:62-63 | a created milestone never carries an indexed title |
| PushSpec.MilestonesApplied | ghmeta.py:56-63 | closed form: each position holds the milestone of its last editor, or its old value; the created milestones follow |
| PushSpec.UntouchedMilestones | ghmeta.py:56-63 | a milestone whose title no entry names is kept |
| PushSpec.CreatedAreNew | ghmeta.py:59-63 | at most one creation per entry; nothing is created exactly when every title is already indexed |
| PushSpec.DuplicateCreatedTwice | ghmeta.py:52-63 | an entry repeated in the metadata with a new title is created twice, because the index is not updated |
| PushSpec.TitlesKept | ghmeta.py:56-63 | every existing position keeps its title |
| PushSpec.SpecTitlesPresent | ghmeta.py:56-63 | after a push, every entry's title is in the repository |
| PushSpec.PushedAtIndex | ghmeta.py:56-63 | after a push, the title of the last entry carrying it indexes the milestone that entry pushed |
| PushSpec.MilestonesTwice | ghmeta.py:56-63 | pushing the same milestones again changes nothing, even when titles repeat |
| PushSpec.LabelsOverride | ghmeta.py:65-80 | the label loop is a map override by the metadata's labels |
| PushSpec.LabelMapKeys | ghmeta.py:65-80 | the names set are exactly the entries' names |
| PushSpec.LabelMapValues | ghmeta.py:65-80 | each name holds the label of its last entry |
| PushSpec.LabelsApplied | ghmeta.py:65-80 | the result holds the old names plus the entries' names; each entry's name holds its normalized label; the other labels are untouched |
| PushSpec.LabelsTwice | ghmeta.py:65-80 | pushing the same labels again changes nothing |
| PushSpec.LabelCallsEdit | ghmeta.py:70-76 | when every name exists, the loop only edits |
| PushSpec.ApplyLabels | ghmeta.py:65-80 | every existing name is kept; every entry's name is present; the last entry's name holds its normalized label |
| PushSpec.LabelCalls | ghmeta.py:65-80 | one request per entry, an edit or a creation of the entry's name with its normalized label |
| PushSpec.ApplyLabelsKeys | ghmeta.py:65-80 | after the loop a name is present exactly when it was before or an entry carries it |
| PushSpec.LabelCallsLookup | ghmeta.py:70-80 | entry `k` is an edit exactly when its name is present after the entries before it have been pushed |
| PushSpec.LabelCallsEditIff | ghmeta.py:70-80 | entry `k` is an edit exactly when its name was on the repository or an earlier entry carries it |
| PushSpec.LabelCallsRepeat | ghmeta.py:70-80 | a label named twice, on a repository without labels, is created and then edited |
| PushSpec.Pushed | ghmeta.py:46-80 | no milestone is removed; every existing label name is kept; every label entry's name is present |
| PushSpec.PushTwice | ghmeta.py:46-80 | pushing the same metadata twice equals pushing it once |
| PushSpec.SecondPushOnlyEdits | ghmeta.py:46-80 | a second push issues only edit requests |
| GhMeta.Repository.constructor | ghmeta.py:96 | a repository holds the given milestones and labels |
| GhMeta.Repository.EditMilestone | ghmeta.py:61 | replaces one milestone; nothing else changes |
| GhMeta.Repository.CreateMilestone | ghmeta.py:63 | appends one milestone; nothing else changes |
| GhMeta.Repository.GetLabel | ghmeta.py:71 | finds a label exactly when its name exists; a missing name plays the part of `UnknownObjectException` |
| GhMeta.Repository.EditLabel | ghmeta.py:74 | overwrites an existing label; nothing else changes |
| GhMeta.Repository.CreateLabel | ghmeta.py:80 | adds a new label; nothing else changes |
| GhMeta.Repository.ListLabels | ghmeta.py:35-38 | lists each label once, by name, colour and description |
| GhMeta.PushData | ghmeta.py:46-80 | the new repository state is the push function applied to the old state; the requests are the modelled requests |
| GhMeta.IndexMilestones | ghmeta.py:52-54 | the loop builds the title index |
| GhMeta.PushMilestones | ghmeta.py:56-63 | the milestone loop's effect and requests; the labels are untouched |
| GhMeta.PushLabels | ghmeta.py:65-80 | the label loop's effect and requests; the milestones are untouched |
| GhMeta.LoadLocal | ghmeta.py:23-29 | succeeds exactly when there is one document, and returns it; otherwise `NotSingleDocument` |
| GhMeta.LoadGithub | ghmeta.py:32-43 | `push_to` is empty, every label is listed, and the milestones are the open ones in order |
| GhMeta.OpenSpecs | ghmeta.py:40-41 | no more entries than listed milestones |
| GhMeta.OpenSpecFrom | ghmeta.py:40-41 | each pulled milestone comes from an open milestone |
| GhMeta.OpenSpecCover | ghmeta.py:40-41 | each open milestone is pulled |
| GhMeta.PullPushKeepsLabels | ghmeta.py:35-38 | pushing a repository's own labels back changes nothing |
| GhMeta.PullPushKeepsMilestones | ghmeta.py:40-41 | with unique titles, pushing the open milestones back changes nothing |
| GhMeta.PullPushSameRepo | ghmeta.py:32-80 | with unique titles, pulling a repository and pushing the result to it leaves it unchanged |
| GhMeta.ResolveTargets | ghmeta.py:100-102 | a non-empty `--push-to` replaces the targets with its comma-separated parts, which join back to it; otherwise the document's targets are kept |
| GhMeta.FirstMissing | ghmeta.py:110-112 | the first target that names no reachable repository |
| GhMeta.PushAll | ghmeta.py:110-112 | pushes to targets in order until one is missing, which gives `RepoNotFound`; the targets reached so far are pushed and no other repository changes |
| GhMeta.Ghmeta | ghmeta.py:92-114 | a missing token, a missing source repository and a document count other than one each give their error and change nothing; otherwise the loaded document, with `--push-to` applied, is described; `display` returns it; `push` with no targets gives `NothingToPush`; `push` reaches the targets before the first unknown name, which gives `RepoNotFound` for that name, and succeeds exactly when there is none; any other command gives `UnknownCommand`; only the reached repositories change, each to its pushed state |

## Left out

- Authentication: the token comes from the environment. For the `ghmeta` command
  the client is a parameter here, the map of reachable repositories.
  `get_release_notes` also calls `auth()` and looks its repository up by name;
  neither call is modelled, its milestone and issue listings are passed in, and
  a failed login or an unknown repository has no error path there.
- A target or source name that does not resolve gives `RepoNotFound`, in place
  of the client library's exception.
- YAML parsing and printing, file names, the dated output file, its encoding,
  and command-line parsing are not modelled. `display` returns the document it
  would print.
- `print` output is not modelled, and neither is the `--milestone` option's
  default value.
- Issues of a milestone are given as input. The client's paging and the
  `get_issues(milestone=...)` filter are not modelled.
- `get_release_notes` with no `next release` milestone raises `NameError`. The
  model returns `NoNextRelease` instead.
- Case mapping and whitespace are ASCII only. Python's Unicode `lower`,
  `capitalize` and `split` are not modelled.
- A milestone's description passes through unchanged, `None` included.
- A label's description read back from GitHub is a string: `None` is listed as
  `""`.
- GitHub matches label names without regard to case. The model treats names as
  exact keys.
- A metadata document missing a required key raises `KeyError` in the source.
  The model's documents always have every key. A label's missing `description`
  is modelled as `None`, and so becomes `""`.
- The order of `repo.get_milestones()` is the model's listing order.
- PushSpec.TitleIndex: the model indexes the milestones of every state.
  `push_data` calls `get_milestones()` with no state, which GitHub answers with
  the open milestones only. So a title carried only by a closed milestone is
  edited and re-opened by the model, where the program creates a new milestone.
  `load_github` asks for the open ones explicitly, as the model does.
- NoteTable.SortNotes: Python's `list.sort` is a stable merge sort. The model
  sorts by an insertion sort that keeps equal keys in order. The result is the
  same when issue numbers are distinct (NoteTable.SortByKeyUnique); stability in
  general is not proved, and the comparison sequence differs.
- GhMeta.PullPushKeepsMilestones and GhMeta.PullPushSameRepo require
  milestone titles to be unique. With a repeated title, every entry of that title
  edits the last milestone carrying it, which may be a different, closed one.
  Idempotence
  (PushSpec.PushTwice) needs no such condition.
- Concurrent changes to a repository during a push are not modelled.
