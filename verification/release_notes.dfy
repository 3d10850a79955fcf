/**
  The release-note pipeline of release_notes.py: pick the "next release" milestone,
  turn each of its issues into a note (number, title, public url, release-note text,
  bug flag), and render the notes as the Markdown table `create_md_file` writes.
  The GitHub listings are given as plain sequences.
 */
module ReleaseNotes {
  import opened Wrappers
  import opened Strings
  import opened Markdown
  import opened NoteTable

  /** The substring that flags a comment as holding the release note. */
  const Tag: string := "**release note"
  /** The two tokens the regular expression `\*\*release note[s]?\*\*` matches. */
  const PluralMarker: string := "**release notes**"
  const SingularMarker: string := "**release note**"
  /** The body of a note whose issue has no release note. */
  const NoNotes: string := "NO RELEASE NOTES"
  /** The milestone title searched for, compared after lower-casing. */
  const NextRelease: string := "next release"

  datatype Issue = Issue(number: nat, title: string, url: string, comments: seq<string>, labels: seq<string>)

  /** A milestone of the repository with the issues listed for it. */
  datatype TrackedMilestone = TrackedMilestone(title: string, issues: seq<Issue>)

  datatype NotesError =
    | NoNextRelease  // no milestone is titled "next release": `next_release` is unbound

  // ---------------------------------------------------------------------------
  // format_body

  /** `re.sub(r"\*\*release note[s]?\*\*", "", text)`: scanning from the left, a
      match at a position is the plural token if it is there (the optional `s` is
      tried first) and otherwise the singular one; matched text is dropped and the
      scan resumes after it. The match is case-sensitive. */
  function RemoveMarkers(s: string): (r: string)
    ensures |r| <= |s|
    ensures forall i :: 0 <= i < |r| ==> r[i] in s
    decreases |s|
  {
    if s == [] then []
    else if PluralMarker <= s then RemoveMarkers(s[|PluralMarker|..])
    else if SingularMarker <= s then RemoveMarkers(s[|SingularMarker|..])
    else [s[0]] + RemoveMarkers(s[1..])
  }

  predicate HasMarker(s: string) {
    Contains(s, PluralMarker) || Contains(s, SingularMarker)
  }

  /** The substitution changes the text exactly when a marker occurs in it. */
  lemma {:induction false} RemoveMarkersUnchangedIff(s: string)
    ensures RemoveMarkers(s) == s <==> !HasMarker(s)
    decreases |s|
  {
    if s == [] {
      assert !StartsAt(s, PluralMarker, 0) && !StartsAt(s, SingularMarker, 0);
    } else if PluralMarker <= s {
      assert StartsAt(s, PluralMarker, 0);
    } else if SingularMarker <= s {
      assert StartsAt(s, SingularMarker, 0);
    } else {
      assert !StartsAt(s, PluralMarker, 0) && !StartsAt(s, SingularMarker, 0);
      ContainsTail(s, PluralMarker);
      ContainsTail(s, SingularMarker);
      RemoveMarkersUnchangedIff(s[1..]);
    }
  }

  /** A prefix at none of whose positions a marker starts is kept as it is, whatever
      `*` it holds, and the scan goes on after it. */
  lemma {:induction false} RemoveMarkersSkip(x: string, y: string)
    requires forall i :: 0 <= i < |x| ==>
      !StartsAt(x + y, PluralMarker, i) && !StartsAt(x + y, SingularMarker, i)
    ensures RemoveMarkers(x + y) == x + RemoveMarkers(y)
    decreases |x|
  {
    if x != [] {
      var s := x + y;
      assert s[1..] == x[1..] + y;
      RemoveMarkersStep(s);
      NoMarkerTail(x, y);
      RemoveMarkersSkip(x[1..], y);
      assert x == [x[0]] + x[1..];
    } else {
      assert x + y == y;
    }
  }

  /** Where no marker starts, the first character is kept. */
  lemma RemoveMarkersStep(s: string)
    requires s != [] && !StartsAt(s, PluralMarker, 0) && !StartsAt(s, SingularMarker, 0)
    ensures RemoveMarkers(s) == [s[0]] + RemoveMarkers(s[1..])
  {
    assert !(PluralMarker <= s) && !(SingularMarker <= s);
  }

  /** No marker starts in the rest of a prefix that starts none. */
  lemma NoMarkerTail(x: string, y: string)
    requires x != []
    requires forall i :: 0 <= i < |x| ==>
      !StartsAt(x + y, PluralMarker, i) && !StartsAt(x + y, SingularMarker, i)
    ensures forall i :: 0 <= i < |x[1..]| ==>
      !StartsAt(x[1..] + y, PluralMarker, i) && !StartsAt(x[1..] + y, SingularMarker, i)
  {
    assert (x + y)[1..] == x[1..] + y;
    forall i | 0 <= i < |x[1..]|
      ensures !StartsAt(x[1..] + y, PluralMarker, i) && !StartsAt(x[1..] + y, SingularMarker, i)
    {
      StartsAtTail(x + y, PluralMarker, i);
      StartsAtTail(x + y, SingularMarker, i);
    }
  }

  /** Text without a `*` starts no marker, since both markers start with one. */
  lemma NoMarkerWithoutStar(x: string, y: string)
    requires '*' !in x
    ensures forall i :: 0 <= i < |x| ==>
      !StartsAt(x + y, PluralMarker, i) && !StartsAt(x + y, SingularMarker, i)
  {
    NoStartWithout(x, y, PluralMarker);
    NoStartWithout(x, y, SingularMarker);
  }

  /** A `*` that starts no marker survives next to one: `***release note**` keeps
      its first `*`, since the match is found one position later. */
  lemma StrayStarKept(s: string)
    requires s == "*" + SingularMarker
    ensures RemoveMarkers(s) == "*"
  {
    assert s[2] == '*' && PluralMarker[2] == 'r' && SingularMarker[2] == 'r';
    assert |PluralMarker| <= |s| ==> s[..|PluralMarker|][2] == s[2];
    assert s[..|SingularMarker|][2] == s[2];
    assert s == "*" + SingularMarker + [];
    RemoveMarkersSkip("*", SingularMarker);
    RemoveSingularAt([]);
    assert SingularMarker + [] == SingularMarker;
  }

  /** A singular marker is dropped whole. Its closing `**` is not the plural's `s**`,
      so the plural is never matched in its place. */
  lemma RemoveSingularAt(y: string)
    ensures RemoveMarkers(SingularMarker + y) == RemoveMarkers(y)
  {
    var s := SingularMarker + y;
    assert s[14] == '*' && PluralMarker[14] == 's';
    assert |PluralMarker| <= |s| ==> s[..|PluralMarker|][14] == s[14];
    assert SingularMarker <= s;
    assert s[|SingularMarker|..] == y;
  }

  /** A plural marker is dropped whole. */
  lemma RemovePluralAt(y: string)
    ensures RemoveMarkers(PluralMarker + y) == RemoveMarkers(y)
  {
    var s := PluralMarker + y;
    assert PluralMarker <= s;
    assert s[|PluralMarker|..] == y;
  }

  /** Deleting a marker: text before its first `*` is kept, the marker itself
      (singular or plural) is deleted, and the scan goes on after it. */
  lemma RemoveMarkersDeletes(x: string, y: string)
    requires '*' !in x
    ensures RemoveMarkers(x + SingularMarker + y) == x + RemoveMarkers(y)
    ensures RemoveMarkers(x + PluralMarker + y) == x + RemoveMarkers(y)
  {
    assert x + SingularMarker + y == x + (SingularMarker + y);
    NoMarkerWithoutStar(x, SingularMarker + y);
    RemoveMarkersSkip(x, SingularMarker + y);
    RemoveSingularAt(y);
    assert x + PluralMarker + y == x + (PluralMarker + y);
    NoMarkerWithoutStar(x, PluralMarker + y);
    RemoveMarkersSkip(x, PluralMarker + y);
    RemovePluralAt(y);
  }

  /** `format_body`: drop the markers, collapse whitespace, capitalize. The result has
      no leading, trailing or repeated whitespace, starts with a character that is not
      lower-case, has no upper-case letter after that, and splits into the words of
      the marker-free text, up to case; `FormatBodyUnique` shows these properties
      determine it. */
  function FormatBody(text: string): (r: string)
    ensures Collapsed(r)
    ensures |r| > 0 ==> !IsLower(r[0])
    ensures forall i :: 1 <= i < |r| ==> !IsUpper(r[i])
    ensures Words(Lower(r)) == Words(Lower(RemoveMarkers(text)))
    ensures Lower(NonSpace(r)) == Lower(NonSpace(RemoveMarkers(text)))
  {
    var stripped := RemoveMarkers(text);
    var collapsed := CollapseSpaces(stripped);
    CapitalizeCollapsed(collapsed);
    LowerNonSpace(Capitalize(collapsed));
    LowerNonSpace(collapsed);
    WordsLower(collapsed);
    WordsLower(stripped);
    Capitalize(collapsed)
  }

  /** Only one text is collapsed, capitalized and made of the lower-cased words of
      the marker-free text: whitespace runs become single spaces and nothing else
      changes but case. */
  lemma FormatBodyUnique(text: string, r: string)
    requires Collapsed(r)
    requires |r| > 0 ==> !IsLower(r[0])
    requires forall i :: 1 <= i < |r| ==> !IsUpper(r[i])
    requires Words(Lower(r)) == Words(Lower(RemoveMarkers(text)))
    ensures r == FormatBody(text)
  {
    var f, lowered := FormatBody(text), Lower(RemoveMarkers(text));
    LowerCollapsed(r);
    LowerCollapsed(f);
    CollapseSpacesUnique(lowered, Lower(r));
    CollapseSpacesUnique(lowered, Lower(f));
    CapitalizedUnique(r, f);
  }

  /** The result of `format_body` can still hold a marker: `**release  note**` holds
      none, but collapsing its two spaces makes one. */
  lemma MarkerCanSurvive(w1: string, sp: string, w2: string)
    requires w1 == "**release" && sp == "  " && w2 == "note**"
    ensures !HasMarker(w1 + sp + w2)
    ensures FormatBody(w1 + sp + w2) == SingularMarker
  {
    SplitMarkerIsNone(w1, sp, w2);
    SplitMarkerWords(w1, sp, w2);
    MarkerAcrossSpaces(w1, sp, w2);
  }

  /** A marker split at its space by a longer run of whitespace comes back whole. */
  lemma MarkerAcrossSpaces(w1: string, sp: string, w2: string)
    requires IsWord(w1) && IsWord(w2) && w1 + " " + w2 == SingularMarker
    requires |sp| > 0 && forall i :: 0 <= i < |sp| ==> IsSpace(sp[i])
    requires !HasMarker(w1 + sp + w2)
    ensures FormatBody(w1 + sp + w2) == SingularMarker
  {
    FormatBodyWithoutMarkers(w1 + sp + w2);
    CollapseTwoWords(w1, sp, w2);
    MarkerCapitalized();
  }

  lemma MarkerCapitalized()
    ensures Capitalize(SingularMarker) == SingularMarker
  {
    CapitalizeUnchanged(SingularMarker);
  }

  lemma FormatBodyWithoutMarkers(text: string)
    requires !HasMarker(text)
    ensures FormatBody(text) == Capitalize(CollapseSpaces(text))
  {
    RemoveMarkersUnchangedIff(text);
  }

  lemma SplitMarkerWords(w1: string, sp: string, w2: string)
    requires w1 == "**release" && sp == "  " && w2 == "note**"
    ensures IsWord(w1) && IsWord(w2) && w1 + " " + w2 == SingularMarker
    ensures |sp| > 0 && forall i :: 0 <= i < |sp| ==> IsSpace(sp[i])
  {
  }

  lemma SplitMarkerIsNone(w1: string, sp: string, w2: string)
    requires w1 == "**release" && sp == "  " && w2 == "note**"
    ensures !HasMarker(w1 + sp + w2)
  {
    var text := w1 + sp + w2;
    forall i: nat | i <= |text| ensures !StartsAt(text, PluralMarker, i) && !StartsAt(text, SingularMarker, i) {
      if i == 0 {
        assert text[10] != SingularMarker[10] && text[10] != PluralMarker[10];
      } else if i == 1 {
        assert text[2] != SingularMarker[1];
      }
    }
  }

  /** Two words with whitespace between them collapse to the words with one space. */
  lemma CollapseTwoWords(w1: string, sp: string, w2: string)
    requires IsWord(w1) && IsWord(w2)
    requires |sp| > 0 && forall i :: 0 <= i < |sp| ==> IsSpace(sp[i])
    ensures CollapseSpaces(w1 + sp + w2) == w1 + " " + w2
  {
    WordsWordThen(w1, sp + w2);
    WordsSpaces(sp, w2);
    WordsOfWord(w2);
    assert w1 + sp + w2 == w1 + (sp + w2);
    assert Words(w1 + sp + w2) == [w1, w2];
    assert [w1, w2][1..] == [w2];
    assert JoinWith([w2], " ") == w2;
  }

  // ---------------------------------------------------------------------------
  // extract_release_notes

  /** A comment holds a release note when its lower-cased body contains the tag. */
  predicate Flagged(comment: string) {
    Contains(Lower(comment), Tag)
  }

  /** The index of the last flagged comment. */
  function LastFlagged(comments: seq<string>): (r: Option<nat>)
    ensures r.None? <==> forall k :: 0 <= k < |comments| ==> !Flagged(comments[k])
    ensures r.Some? ==>
      && r.value < |comments| && Flagged(comments[r.value])
      && forall k :: r.value < k < |comments| ==> !Flagged(comments[k])
    decreases |comments|
  {
    if comments == [] then None
    else if Flagged(comments[|comments| - 1]) then Some(|comments| - 1)
    else
      var init := comments[..|comments| - 1];
      assert forall k :: 0 <= k < |init| ==> init[k] == comments[k];
      LastFlagged(init)
  }

  /** The release note of an issue: `format_body` of the lower-cased body of the last
      flagged comment, or nothing when no comment is flagged. */
  function LatestReleaseNote(comments: seq<string>): (r: Option<string>)
    ensures r.None? <==> forall k :: 0 <= k < |comments| ==> !Flagged(comments[k])
    ensures r.Some? ==> Collapsed(r.value) && forall i :: 1 <= i < |r.value| ==> !IsUpper(r.value[i])
  {
    match LastFlagged(comments)
    case None => None
    case Some(k) => Some(FormatBody(Lower(comments[k])))
  }

  /** `extract_release_notes`: every flagged comment overwrites the note found so far. */
  method ExtractReleaseNotes(comments: seq<string>) returns (notes: Option<string>)
    ensures notes == LatestReleaseNote(comments)
  {
    notes := None;
    ghost var last: Option<nat> := None;
    for i := 0 to |comments|
      invariant last == LastFlagged(comments[..i])
      invariant last.Some? ==> last.value < |comments| && notes == Some(FormatBody(Lower(comments[last.value])))
      invariant last.None? ==> notes.None?
    {
      var body := Lower(comments[i]);
      LastFlaggedSnoc(comments, i);
      if Contains(body, Tag) {
        notes := Some(FormatBody(body));
        last := Some(i);
      }
    }
    assert comments[..|comments|] == comments;
  }

  lemma LastFlaggedSnoc(comments: seq<string>, i: nat)
    requires i < |comments|
    ensures LastFlagged(comments[..i + 1]) == if Flagged(comments[i]) then Some(i) else LastFlagged(comments[..i])
  {
    assert comments[..i + 1][..i] == comments[..i];
  }

  /** `extract_release_notes(issue) or "NO RELEASE NOTES"`: no note and an empty note
      both give the sentinel. */
  function NoteBody(extracted: Option<string>): (r: string)
    ensures r != ""
    ensures extracted.Some? && extracted.value != "" ==> r == extracted.value
    ensures extracted.None? || extracted.value == "" ==> r == NoNotes
  {
    if extracted.Some? && extracted.value != "" then extracted.value else NoNotes
  }

  /** A note body is the sentinel exactly when no comment is flagged or the last
      flagged comment formats to nothing: a formatted note never equals the
      sentinel, whose second letter is upper-case. */
  lemma SentinelIff(comments: seq<string>)
    ensures NoteBody(LatestReleaseNote(comments)) == NoNotes <==>
      LatestReleaseNote(comments).None? || LatestReleaseNote(comments).value == ""
  {
    var r := LatestReleaseNote(comments);
    assert IsUpper(NoNotes[1]);
  }

  /** A comment made of the marker alone is flagged but formats to nothing, so the
      note falls back to the sentinel. */
  lemma MarkerOnlyComment(comment: string)
    requires Lower(comment) == SingularMarker
    ensures Flagged(comment)
    ensures LatestReleaseNote([comment]) == Some("")
    ensures NoteBody(LatestReleaseNote([comment])) == NoNotes
  {
    MarkerOnlyFacts();
    assert [comment][..0] == [];
  }

  lemma MarkerOnlyFacts()
    ensures StartsAt(SingularMarker, Tag, 0)
    ensures RemoveMarkers(SingularMarker) == ""
    ensures FormatBody(SingularMarker) == ""
  {
    assert !(PluralMarker <= SingularMarker);
    assert SingularMarker[|SingularMarker|..] == "";
  }

  // ---------------------------------------------------------------------------
  // is_bug

  predicate HasBugLabel(labels: seq<string>) {
    exists k :: 0 <= k < |labels| && Lower(labels[k]) == "bug"
  }

  /** `is_bug`: scans the label names and stops at the first one that lower-cases to `bug`. */
  method IsBug(labels: seq<string>) returns (bug: bool)
    ensures bug <==> HasBugLabel(labels)
  {
    bug := false;
    for i := 0 to |labels|
      invariant forall k :: 0 <= k < i ==> Lower(labels[k]) != "bug"
    {
      if Lower(labels[i]) == "bug" {
        bug := true;
        break;
      }
    }
  }

  // ---------------------------------------------------------------------------
  // The issue url

  /** `url.replace("api.", "").replace("repos/", "")`: the API url of an issue turned
      into the url of its web page. */
  function PublicUrl(url: string): (r: string)
    ensures |r| <= |url|
  {
    Replace(Replace(url, "api.", ""), "repos/", "")
  }

  /** Each deletion is `"".join(s.split(token))`: the url is cut at every `api.`,
      the pieces are glued, and the result is cut at every `repos/` and glued again;
      no piece holds the token it was cut at. */
  lemma PublicUrlSplitJoin(url: string, api: string, repos: string)
    requires api == "api." && repos == "repos/"
    ensures var first := Concat(SplitStr(url, api));
      && PublicUrl(url) == Concat(SplitStr(first, repos))
      && JoinWith(SplitStr(url, api), api) == url
      && JoinWith(SplitStr(first, repos), repos) == first
      && (forall k :: 0 <= k < |SplitStr(url, api)| ==> !Contains(SplitStr(url, api)[k], api))
      && (forall k :: 0 <= k < |SplitStr(first, repos)| ==> !Contains(SplitStr(first, repos)[k], repos))
  {
    DeleteIsSplitJoin(url, api);
    DeleteIsSplitJoin(Concat(SplitStr(url, api)), repos);
    SplitStrPieces(url, api);
    SplitStrPieces(Concat(SplitStr(url, api)), repos);
  }

  /** An API url `scheme api. host repos/ path` loses exactly its `api.` and its
      `repos/`: this `api.` is the first occurrence in the url and none follows it,
      and this `repos/` is the first occurrence in what is left and none follows. */
  lemma PublicUrlOfApiUrl(scheme: string, host: string, path: string)
    requires forall i :: 0 <= i < |scheme| ==> !StartsAt(scheme + "api." + (host + "repos/" + path), "api.", i)
    requires !Contains(host + "repos/" + path, "api.")
    requires forall i :: 0 <= i < |scheme + host| ==> !StartsAt((scheme + host) + "repos/" + path, "repos/", i)
    requires !Contains(path, "repos/")
    ensures PublicUrl(scheme + "api." + host + "repos/" + path) == scheme + host + path
  {
    assert scheme + "api." + host + "repos/" + path == scheme + "api." + (host + "repos/" + path);
    DeleteOnly(scheme, "api.", host + "repos/" + path);
    assert scheme + (host + "repos/" + path) == (scheme + host) + "repos/" + path;
    DeleteOnly(scheme + host, "repos/", path);
  }

  /** The API url of issue 7 of `o/r` becomes the url of its web page. */
  lemma PublicUrlExample(api: string, web: string)
    requires api == "https://api.github.com/repos/o/r/issues/7"
    requires web == "https://github.com/o/r/issues/7"
    ensures PublicUrl(api) == web
  {
    var scheme, host, path := ExampleUrlParts(api, web);
    ExampleUrlLetters(scheme, host, path);
    NoStartWithout(scheme, "api." + (host + "repos/" + path), "api.");
    assert 'a' !in host + "repos/" + path;
    MissingCharNotContained(host + "repos/" + path, "api.", 'a');
    assert 'r' !in scheme + host;
    NoStartWithout(scheme + host, "repos/" + path, "repos/");
    assert forall i :: 0 <= i < |scheme + host| ==>
      !StartsAt((scheme + host) + "repos/" + path, "repos/", i) by {
      assert (scheme + host) + "repos/" + path == (scheme + host) + ("repos/" + path);
    }
    assert scheme + "api." + (host + "repos/" + path) == scheme + ("api." + (host + "repos/" + path));
    MissingCharNotContained(path, "repos/", 'p');
    PublicUrlOfApiUrl(scheme, host, path);
  }

  /** The example's urls cut into the parts `PublicUrlOfApiUrl` speaks of. */
  lemma ExampleUrlParts(api: string, web: string) returns (scheme: string, host: string, path: string)
    requires api == "https://api.github.com/repos/o/r/issues/7"
    requires web == "https://github.com/o/r/issues/7"
    ensures scheme == "https://" && host == "github.com/" && path == "o/r/issues/7"
    ensures api == scheme + "api." + host + "repos/" + path
    ensures web == scheme + host + path
  {
    scheme, host, path := "https://", "github.com/", "o/r/issues/7";
    assert scheme + "api." == "https://api.";
    assert scheme + "api." + host == "https://api.github.com/";
    assert scheme + "api." + host + "repos/" == "https://api.github.com/repos/";
    assert scheme + host == "https://github.com/";
  }

  /** The parts hold no second `api.` or `repos/` to be deleted. */
  lemma ExampleUrlLetters(scheme: string, host: string, path: string)
    requires scheme == "https://" && host == "github.com/" && path == "o/r/issues/7"
    ensures 'a' !in scheme && 'a' !in host && 'a' !in path
    ensures 'r' !in scheme && 'r' !in host && 'p' !in path
  {
  }

  /** The url is left as it is exactly when it holds neither `api.` nor `repos/`. */
  lemma PublicUrlUnchangedIff(url: string)
    ensures PublicUrl(url) == url <==> !Contains(url, "api.") && !Contains(url, "repos/")
  {
    DeleteUnchangedIff(url, "api.");
    if Contains(url, "api.") {
      DeleteShortens(url, "api.");
    } else {
      DeleteUnchangedIff(url, "repos/");
    }
  }

  /** Neither deletion puts in a character the url did not have. */
  lemma PublicUrlKeepsAbsent(url: string, c: char)
    requires c !in url
    ensures c !in PublicUrl(url)
  {
    DeleteKeepsAbsent(url, "api.", c);
    DeleteKeepsAbsent(Replace(url, "api.", ""), "repos/", c);
  }

  // ---------------------------------------------------------------------------
  // Choosing the milestone

  predicate IsNextRelease(m: TrackedMilestone) {
    Lower(m.title) == NextRelease
  }

  /** The index of the last milestone whose lower-cased title is `next release`. */
  function NextReleaseIndex(milestones: seq<TrackedMilestone>): (r: Option<nat>)
    ensures r.None? <==> forall k :: 0 <= k < |milestones| ==> !IsNextRelease(milestones[k])
    ensures r.Some? ==>
      && r.value < |milestones| && IsNextRelease(milestones[r.value])
      && forall k :: r.value < k < |milestones| ==> !IsNextRelease(milestones[k])
    decreases |milestones|
  {
    if milestones == [] then None
    else if IsNextRelease(milestones[|milestones| - 1]) then Some(|milestones| - 1)
    else
      var init := milestones[..|milestones| - 1];
      assert forall k :: 0 <= k < |init| ==> init[k] == milestones[k];
      NextReleaseIndex(init)
  }

  /** The milestone loop of `get_release_notes`. The `milestone` argument is
      shadowed by the loop variable and plays no part; the title searched for is
      always `next release`. */
  method SelectMilestone(milestones: seq<TrackedMilestone>, requested: string) returns (next: Option<nat>)
    ensures next == NextReleaseIndex(milestones)
  {
    next := None;
    for i := 0 to |milestones|
      invariant next == NextReleaseIndex(milestones[..i])
    {
      if Lower(milestones[i].title) == NextRelease {
        next := Some(i);
      }
      assert milestones[..i + 1][..i] == milestones[..i];
    }
    assert milestones[..|milestones|] == milestones;
  }

  // ---------------------------------------------------------------------------
  // get_release_notes

  /** The record `get_release_notes` builds for an issue. */
  function NoteOf(issue: Issue): (n: Note)
    ensures n.number == issue.number && n.title == issue.title
    ensures n.bug <==> HasBugLabel(issue.labels)
    ensures n.body != "" && |n.url| <= |issue.url|
  {
    Note(issue.number, issue.title, PublicUrl(issue.url), NoteBody(LatestReleaseNote(issue.comments)),
      HasBugLabel(issue.labels))
  }

  function NotesOf(issues: seq<Issue>): (notes: seq<Note>)
    ensures |notes| == |issues|
  {
    seq(|issues|, i requires 0 <= i < |issues| => NoteOf(issues[i]))
  }

  /** The body of the issue loop of `get_release_notes`. */
  method BuildNote(issue: Issue) returns (note: Note)
    ensures note == NoteOf(issue)
  {
    var extracted := ExtractReleaseNotes(issue.comments);
    var bug := IsBug(issue.labels);
    var url := Replace(Replace(issue.url, "api.", ""), "repos/", "");
    note := Note(issue.number, issue.title, url, NoteBody(extracted), bug);
  }

  /** The issue loop of `get_release_notes`: one note per issue, in listing order. */
  method CollectNotes(issues: seq<Issue>) returns (notes: seq<Note>)
    ensures notes == NotesOf(issues)
  {
    notes := [];
    for i := 0 to |issues|
      invariant |notes| == i
      invariant forall j :: 0 <= j < i ==> notes[j] == NoteOf(issues[j])
    {
      var note := BuildNote(issues[i]);
      notes := notes + [note];
    }
  }

  /** What `get_release_notes` writes: the table of the notes of the last milestone
      titled `next release`, or a failure when there is none. */
  function ReleaseNotesFor(milestones: seq<TrackedMilestone>): (r: Result<string, NotesError>)
    ensures r.Ok? <==> exists k :: 0 <= k < |milestones| && IsNextRelease(milestones[k])
    ensures r.Err? ==> r.error == NoNextRelease
    ensures r.Ok? ==> Headers() <= r.value
  {
    match NextReleaseIndex(milestones)
    case None => Err(NoNextRelease)
    case Some(k) => Ok(Table(SortByKey(NotesOf(milestones[k].issues))))
  }

  /** `get_release_notes`, with the repository's milestones and issues given as
      listings and the written file given as the returned text. */
  method GetReleaseNotes(milestones: seq<TrackedMilestone>, requested: string)
    returns (r: Result<string, NotesError>)
    ensures r == ReleaseNotesFor(milestones)
  {
    var next := SelectMilestone(milestones, requested);
    if next.None? {
      return Err(NoNextRelease);
    }
    var notes := CollectNotes(milestones[next.value].issues);
    var buffer := new Note[|notes|](i requires 0 <= i < |notes| => notes[i]);
    assert buffer[..] == notes;
    var text := CreateMdFile(buffer);
    r := Ok(text);
  }

  // ---------------------------------------------------------------------------
  // The written text

  /** Formatted note text never holds a newline. */
  lemma FormattedNoNewline(text: string)
    ensures NoNewline(FormatBody(text))
  {
  }

  predicate OneLineNote(n: Note) {
    NoNewline(n.title) && NoNewline(n.url) && NoNewline(n.body)
  }

  /** Notes built from issues whose title and url hold no newline hold none anywhere. */
  lemma NotesNoNewline(issues: seq<Issue>)
    requires forall j :: 0 <= j < |issues| ==> NoNewline(issues[j].title) && NoNewline(issues[j].url)
    ensures forall i :: 0 <= i < |NotesOf(issues)| ==> OneLineNote(NotesOf(issues)[i])
  {
    var notes := NotesOf(issues);
    forall i | 0 <= i < |notes| ensures OneLineNote(notes[i]) {
      PublicUrlKeepsAbsent(issues[i].url, '\n');
      var k := LastFlagged(issues[i].comments);
      if k.Some? {
        FormattedNoNewline(Lower(issues[i].comments[k.value]));
      }
    }
  }

  /** Sorting keeps every note on one line. */
  lemma SortedNoNewline(notes: seq<Note>)
    requires forall i :: 0 <= i < |notes| ==> OneLineNote(notes[i])
    ensures forall i :: 0 <= i < |SortByKey(notes)| ==> OneLineNote(SortByKey(notes)[i])
  {
    var sorted := SortByKey(notes);
    SortByKeySpec(notes);
    forall i | 0 <= i < |sorted| ensures OneLineNote(sorted[i]) {
      assert sorted[i] in multiset(notes);
    }
  }

  /** The text written for the next-release milestone is the two header lines and
      one line per issue, provided no issue title or url holds a newline; its rows
      are the notes in `(bug, number)` order. */
  lemma ReleaseNotesShape(milestones: seq<TrackedMilestone>)
    requires forall m, j :: 0 <= m < |milestones| && 0 <= j < |milestones[m].issues| ==>
      NoNewline(milestones[m].issues[j].title) && NoNewline(milestones[m].issues[j].url)
    ensures ReleaseNotesFor(milestones).Ok? <==> NextReleaseIndex(milestones).Some?
    ensures ReleaseNotesFor(milestones).Ok? ==>
      var issues := milestones[NextReleaseIndex(milestones).value].issues;
      CountChar(ReleaseNotesFor(milestones).value, '\n') == 2 + |issues|
  {
    var next := NextReleaseIndex(milestones);
    if next.Some? {
      var issues := milestones[next.value].issues;
      NotesNoNewline(issues);
      SortedNoNewline(NotesOf(issues));
      TableLines(SortByKey(NotesOf(issues)));
    }
  }
}
