/**
  ghmeta.py: copy the labels and milestones described by a metadata document into
  one or more GitHub repositories. A repository is an object whose milestone list
  and label table change as requests are sent to it; `push_data` is proved to leave
  it in the state `PushSpec.Pushed` describes. The command line entry point pushes
  to a target as often as it is named, sending its requests each time; since a
  second push changes nothing, every target ends in the state of a single push.
 */
module GhMeta {
  import opened Wrappers
  import opened Strings
  import opened PushSpec

  /** The exceptions the script raises, one per cause. */
  datatype Error =
    | MissingToken
    | NotSingleDocument
    | RepoNotFound(name: string)
    | NothingToPush
    | UnknownCommand(command: string)

  /** A remote repository, as far as the script sees it: its milestones in listing
      order, all states included, and its labels by name. Each method is one request. */
  class Repository {
    var milestones: seq<Milestone>
    var labels: map<string, Label>

    constructor (ms: seq<Milestone>, ls: map<string, Label>)
      ensures milestones == ms && labels == ls
    {
      milestones := ms;
      labels := ls;
    }

    function State(): RepoState
      reads this
    {
      RepoState(milestones, labels)
    }

    /** `Milestone.edit`: the milestone at position `at` takes the new title, state
        and description. */
    method EditMilestone(at: nat, m: Milestone)
      requires at < |milestones|
      modifies this
      ensures milestones == old(milestones)[at := m] && labels == old(labels)
    {
      milestones := milestones[at := m];
    }

    /** `create_milestone`: a new milestone is listed after the existing ones. */
    method CreateMilestone(m: Milestone)
      modifies this
      ensures milestones == old(milestones) + [m] && labels == old(labels)
    {
      milestones := milestones + [m];
    }

    /** `get_label`: `None` stands for the `UnknownObjectException` raised for a
        missing name. */
    method GetLabel(name: string) returns (l: Option<Label>)
      ensures l.Some? <==> name in labels
      ensures l.Some? ==> l.value == labels[name]
    {
      l := if name in labels then Some(labels[name]) else None;
    }

    /** `Label.edit` with the label's own name. */
    method EditLabel(name: string, to: Label)
      requires name in labels
      modifies this
      ensures labels == old(labels)[name := to] && milestones == old(milestones)
    {
      labels := labels[name := to];
    }

    /** `create_label`, for a name the repository does not have. */
    method CreateLabel(name: string, to: Label)
      requires name !in labels
      modifies this
      ensures labels == old(labels)[name := to] && milestones == old(milestones)
    {
      labels := labels[name := to];
    }

    /** `get_labels`: every label once, in an order the server chooses. */
    method ListLabels() returns (listing: seq<LabelSpec>)
      ensures ListsLabels(listing, labels)
    {
      listing := [];
      var rest := labels.Keys;
      while rest != {}
        invariant rest <= labels.Keys
        invariant forall k :: 0 <= k < |listing| ==>
          listing[k].name in labels && listing[k].name !in rest && listing[k] == Listed(listing[k].name, labels[listing[k].name])
        invariant forall n :: n in labels && n !in rest ==> exists k :: 0 <= k < |listing| && listing[k].name == n
        invariant forall k, m :: 0 <= k < m < |listing| ==> listing[k].name != listing[m].name
        decreases rest
      {
        var n :| n in rest;
        var before := listing;
        listing := listing + [Listed(n, labels[n])];
        assert listing[|before|].name == n;
        assert forall k :: 0 <= k < |before| ==> listing[k] == before[k];
        rest := rest - {n};
      }
    }
  }

  /** The metadata entry `load_github` makes of a label. */
  function Listed(name: string, l: Label): LabelSpec {
    LabelSpec(name, l.color, Some(l.description))
  }

  /** `listing` names every label of `labels` exactly once, with its colour and
      description. */
  predicate ListsLabels(listing: seq<LabelSpec>, labels: map<string, Label>) {
    && (forall k :: 0 <= k < |listing| ==>
          listing[k].name in labels && listing[k] == Listed(listing[k].name, labels[listing[k].name]))
    && (forall n :: n in labels ==> exists k :: 0 <= k < |listing| && listing[k].name == n)
    && (forall k, m :: 0 <= k < m < |listing| ==> listing[k].name != listing[m].name)
  }

  /** The metadata entry `load_github` makes of a milestone. */
  function SpecOf(m: Milestone): MilestoneSpec {
    MilestoneSpec(m.title, m.description)
  }

  /** The entries of the open milestones, in listing order. */
  function OpenSpecs(ms: seq<Milestone>): (r: seq<MilestoneSpec>)
    ensures |r| <= |ms|
    decreases |ms|
  {
    if ms == [] then []
    else
      var m := ms[|ms| - 1];
      OpenSpecs(ms[..|ms| - 1]) + (if m.state == Open then [SpecOf(m)] else [])
  }

  // ---------------------------------------------------------------------------
  // push_data

  /** `push_data`: index the milestones by title, push every milestone entry, then
      every label entry. Returns the requests sent, in order. */
  method PushData(repo: Repository, data: MetaData) returns (calls: seq<Call>)
    modifies repo
    ensures repo.State() == Pushed(old(repo.State()), data)
    ensures calls == PushCalls(old(repo.State()), data)
  {
    var existing := IndexMilestones(repo.milestones);
    var milestoneCalls := PushMilestones(repo, existing, data.milestones);
    var labelCalls := PushLabels(repo, data.labels);
    calls := milestoneCalls + labelCalls;
  }

  /** The dict `existing_milestones`, filled one listed milestone at a time. */
  method IndexMilestones(listed: seq<Milestone>) returns (existing: map<string, nat>)
    ensures existing == TitleIndex(listed)
  {
    existing := map[];
    for i := 0 to |listed|
      invariant existing == TitleIndex(listed[..i])
    {
      assert listed[..i + 1][..i] == listed[..i];
      existing := existing[listed[i].title := i];
    }
    assert listed[..|listed|] == listed;
  }

  /** The milestone loop: the index is not updated as milestones are created. */
  method PushMilestones(repo: Repository, existing: map<string, nat>, specs: seq<MilestoneSpec>) returns (calls: seq<Call>)
    requires IndexInto(existing, |repo.milestones|)
    modifies repo
    ensures repo.milestones == ApplyMilestones(old(repo.milestones), existing, specs)
    ensures repo.labels == old(repo.labels)
    ensures calls == MilestoneCalls(existing, specs)
  {
    calls := [];
    for i := 0 to |specs|
      invariant repo.milestones == ApplyMilestones(old(repo.milestones), existing, specs[..i])
      invariant repo.labels == old(repo.labels)
      invariant calls == MilestoneCalls(existing, specs[..i])
    {
      var s := specs[i];
      assert specs[..i + 1][..i] == specs[..i];
      MilestoneCallsSnoc(existing, specs, i);
      if s.title in existing {
        repo.EditMilestone(existing[s.title], Opened(s));
        calls := calls + [EditMilestone(existing[s.title], Opened(s))];
      } else {
        repo.CreateMilestone(Opened(s));
        calls := calls + [CreateMilestone(Opened(s))];
      }
    }
    assert specs[..|specs|] == specs;
  }

  lemma {:induction false} MilestoneCallsSnoc(idx: map<string, nat>, specs: seq<MilestoneSpec>, i: nat)
    requires i < |specs|
    ensures MilestoneCalls(idx, specs[..i + 1]) == MilestoneCalls(idx, specs[..i]) + [MilestoneCall(idx, specs[i])]
  {
  }

  /** The label loop: each entry is looked up on the repository as it is now, then
      edited or created. */
  method PushLabels(repo: Repository, entries: seq<LabelSpec>) returns (calls: seq<Call>)
    modifies repo
    ensures repo.labels == ApplyLabels(old(repo.labels), entries)
    ensures repo.milestones == old(repo.milestones)
    ensures calls == LabelCalls(old(repo.labels), entries)
  {
    calls := [];
    for i := 0 to |entries|
      invariant repo.milestones == old(repo.milestones)
      invariant repo.labels == ApplyLabels(old(repo.labels), entries[..i])
      invariant calls == LabelCalls(old(repo.labels), entries[..i])
    {
      var e := entries[i];
      assert entries[..i + 1][..i] == entries[..i];
      var found := repo.GetLabel(e.name);
      if found.Some? {
        repo.EditLabel(e.name, LabelOf(e));
        calls := calls + [EditLabel(e.name, LabelOf(e))];
      } else {
        repo.CreateLabel(e.name, LabelOf(e));
        calls := calls + [CreateLabel(e.name, LabelOf(e))];
      }
    }
    assert entries[..|entries|] == entries;
  }

  // ---------------------------------------------------------------------------
  // Loading metadata

  /** `load_local`: the file must hold exactly one YAML document. */
  function LoadLocal(docs: seq<MetaData>): (r: Result<MetaData, Error>)
    ensures r.Ok? <==> |docs| == 1
    ensures r.Ok? ==> r.value == docs[0]
    ensures r.Err? ==> r.error == NotSingleDocument
  {
    if |docs| != 1 then Err(NotSingleDocument) else Ok(docs[0])
  }

  /** `load_github`: no targets, every label of the repository, and an entry per
      open milestone. */
  method LoadGithub(repo: Repository) returns (data: MetaData)
    ensures data.pushTo == []
    ensures ListsLabels(data.labels, repo.labels)
    ensures data.milestones == OpenSpecs(repo.milestones)
  {
    var labels := repo.ListLabels();
    var listed := repo.milestones;
    var milestones := [];
    for i := 0 to |listed|
      invariant milestones == OpenSpecs(listed[..i])
    {
      assert listed[..i + 1][..i] == listed[..i];
      if listed[i].state == Open {
        milestones := milestones + [SpecOf(listed[i])];
      }
    }
    assert listed[..|listed|] == listed;
    data := MetaData([], labels, milestones);
  }

  /** Every entry of `OpenSpecs` comes from an open milestone. */
  lemma {:induction false} OpenSpecFrom(ms: seq<Milestone>, k: nat)
    requires k < |OpenSpecs(ms)|
    ensures exists i :: 0 <= i < |ms| && ms[i].state == Open && OpenSpecs(ms)[k] == SpecOf(ms[i])
    decreases |ms|
  {
    var init, m := ms[..|ms| - 1], ms[|ms| - 1];
    var prev := OpenSpecs(init);
    assert OpenSpecs(ms) == prev + (if m.state == Open then [SpecOf(m)] else []);
    if k < |prev| {
      OpenSpecFrom(init, k);
      var i :| 0 <= i < |init| && init[i].state == Open && prev[k] == SpecOf(init[i]);
      assert ms[i] == init[i];
    } else {
      assert OpenSpecs(ms)[k] == SpecOf(ms[|ms| - 1]);
    }
  }

  /** Every open milestone gives an entry of `OpenSpecs`. */
  lemma {:induction false} OpenSpecCover(ms: seq<Milestone>, i: nat)
    requires i < |ms| && ms[i].state == Open
    ensures exists k :: 0 <= k < |OpenSpecs(ms)| && OpenSpecs(ms)[k] == SpecOf(ms[i])
    decreases |ms|
  {
    var init, m := ms[..|ms| - 1], ms[|ms| - 1];
    var prev := OpenSpecs(init);
    assert OpenSpecs(ms) == prev + (if m.state == Open then [SpecOf(m)] else []);
    if i < |init| {
      assert init[i] == ms[i];
      OpenSpecCover(init, i);
      var k :| 0 <= k < |prev| && prev[k] == SpecOf(init[i]);
      assert OpenSpecs(ms)[k] == prev[k];
    } else {
      assert OpenSpecs(ms)[|prev|] == SpecOf(ms[i]);
    }
  }

  /** Titles are pairwise distinct. */
  predicate UniqueTitles(ms: seq<Milestone>) {
    forall i, j :: 0 <= i < j < |ms| ==> ms[i].title != ms[j].title
  }

  /** Pushing a repository's own labels back to it changes none of them. */
  lemma {:induction false} PullPushKeepsLabels(labels: map<string, Label>, listing: seq<LabelSpec>)
    requires ListsLabels(listing, labels)
    ensures ApplyLabels(labels, listing) == labels
  {
    SameLabels(labels, listing);
  }

  /** Entries that each set a label to what it already is change nothing. */
  lemma {:induction false} SameLabels(labels: map<string, Label>, specs: seq<LabelSpec>)
    requires forall k :: 0 <= k < |specs| ==> specs[k].name in labels && LabelOf(specs[k]) == labels[specs[k].name]
    ensures ApplyLabels(labels, specs) == labels
    decreases |specs|
  {
    if specs != [] {
      var init := specs[..|specs| - 1];
      assert forall k :: 0 <= k < |init| ==> init[k] == specs[k];
      SameLabels(labels, init);
    }
  }

  /** Pushing a repository's own open milestones back to it changes none of them,
      when its titles are distinct. */
  lemma {:induction false} PullPushKeepsMilestones(ms: seq<Milestone>)
    requires UniqueTitles(ms)
    ensures ApplyMilestones(ms, TitleIndex(ms), OpenSpecs(ms)) == ms
  {
    var idx, specs := TitleIndex(ms), OpenSpecs(ms);
    var r := ApplyMilestones(ms, idx, specs);
    forall k | 0 <= k < |specs| ensures specs[k].title in idx {
      OpenSpecFrom(ms, k);
      var i :| 0 <= i < |ms| && ms[i].state == Open && specs[k] == SpecOf(ms[i]);
      IndexedKey(ms, i);
    }
    CreatedAreNew(specs, idx);
    MilestonesApplied(ms, idx, specs);
    forall j | 0 <= j < |ms| ensures r[j] == ms[j] {
      var e := EditedBy(specs, idx, j);
      if e.Some? {
        var k := e.value;
        OpenSpecFrom(ms, k);
        var i :| 0 <= i < |ms| && ms[i].state == Open && specs[k] == SpecOf(ms[i]);
        IndexedAt(ms, ms[i].title);
        assert i == j;
      }
    }
  }

  /** Pulling from a repository and pushing to the same repository leaves it as it
      was, when its milestone titles are distinct. */
  lemma {:induction false} PullPushSameRepo(st: RepoState, data: MetaData)
    requires UniqueTitles(st.milestones)
    requires ListsLabels(data.labels, st.labels) && data.milestones == OpenSpecs(st.milestones)
    ensures Pushed(st, data) == st
  {
    PullPushKeepsLabels(st.labels, data.labels);
    PullPushKeepsMilestones(st.milestones);
  }

  // ---------------------------------------------------------------------------
  // The command

  /** `--push-to`: a non-empty value replaces the document's targets with its
      comma-separated parts. */
  function ResolveTargets(data: MetaData, pushTo: Option<string>): (r: MetaData)
    ensures r.labels == data.labels && r.milestones == data.milestones
    ensures pushTo.None? || pushTo.value == "" ==> r.pushTo == data.pushTo
    ensures pushTo.Some? && pushTo.value != "" ==>
      && JoinWith(r.pushTo, [',']) == pushTo.value
      && |r.pushTo| == CountChar(pushTo.value, ',') + 1
  {
    match pushTo
    case Some(v) =>
      if v == "" then data
      else
        SplitOnSpec(v, ',');
        data.(pushTo := SplitOn(v, ','))
    case None => data
  }

  /** A set option or environment variable: present and not empty. */
  predicate Given(o: Option<string>) {
    o.Some? && o.value != ""
  }

  /** The position of the first target that names no repository, or the number of
      targets when all of them do. */
  function FirstMissing(targets: seq<string>, repos: map<string, Repository>): (n: nat)
    ensures n <= |targets|
    ensures forall j :: 0 <= j < n ==> targets[j] in repos
    ensures n < |targets| ==> targets[n] !in repos
  {
    if targets == [] then 0
    else if targets[0] !in repos then 0
    else 1 + FirstMissing(targets[1..], repos)
  }

  /** The repositories the names in `targets` resolve to. */
  function Reached(targets: seq<string>, repos: map<string, Repository>): set<Repository> {
    set u | u in targets && u in repos :: repos[u]
  }

  lemma {:induction false} ReachedSnoc(targets: seq<string>, repos: map<string, Repository>, i: nat)
    requires i < |targets| && targets[i] in repos
    ensures Reached(targets[..i + 1], repos) == Reached(targets[..i], repos) + {repos[targets[i]]}
  {
    assert targets[..i + 1] == targets[..i] + [targets[i]];
  }

  /** The push loop of `ghmeta`: each target in turn, stopping at the first name
      that resolves to no repository. A repository named twice, or under two names,
      ends up pushed once, because a push repeated with the same data changes
      nothing. */
  method PushAll(targets: seq<string>, data: MetaData, repos: map<string, Repository>) returns (r: Result<(), Error>)
    modifies repos.Values
    ensures var n := FirstMissing(targets, repos);
      && (r.Ok? <==> n == |targets|)
      && (r.Err? ==> r.error == RepoNotFound(targets[n]))
      && forall x :: x in repos.Values ==>
        x.State() == if x in Reached(targets[..n], repos) then Pushed(old(x.State()), data) else old(x.State())
  {
    var n := FirstMissing(targets, repos);
    var i := 0;
    while i < |targets|
      invariant i <= n
      invariant forall x :: x in repos.Values ==>
        x.State() == if x in Reached(targets[..i], repos) then Pushed(old(x.State()), data) else old(x.State())
    {
      var url := targets[i];
      if url !in repos {
        assert i == n;
        return Err(RepoNotFound(url));
      }
      var repo := repos[url];
      ghost var done := Reached(targets[..i], repos);
      label Before:
      var _ := PushData(repo, data);
      ReachedSnoc(targets, repos, i);
      forall x | x in repos.Values
        ensures x.State() == if x in done + {repo} then Pushed(old(x.State()), data) else old(x.State())
      {
        if x == repo {
          if repo in done {
            PushTwice(old(repo.State()), data);
          }
        } else {
          assert x.State() == old@Before(x.State());
        }
      }
      i := i + 1;
    }
    assert targets[..i] == targets && n == |targets|;
    r := Ok(());
  }

  /** The metadata source exists: the repository to pull from, or a local file
      holding exactly one document. */
  predicate Sourced(pullFrom: Option<string>, localDocs: seq<MetaData>, repos: map<string, Repository>) {
    if Given(pullFrom) then pullFrom.value in repos else |localDocs| == 1
  }

  /** `ghmeta`: authenticate, load the metadata from a repository or the local
      file, apply `--push-to`, then display or push. Display returns the document it
      would print. `meta` is the document once loaded and resolved; a push reaches
      the targets before the first unknown name, and nothing else is changed. */
  method Ghmeta(command: string, pullFrom: Option<string>, pushTo: Option<string>, token: Option<string>,
                localDocs: seq<MetaData>, repos: map<string, Repository>)
    returns (r: Result<MetaData, Error>, ghost meta: MetaData)
    modifies repos.Values
    ensures !Given(token) ==> r == Err(MissingToken)
    ensures Given(token) && Given(pullFrom) && pullFrom.value !in repos ==> r == Err(RepoNotFound(pullFrom.value))
    ensures Given(token) && !Given(pullFrom) && |localDocs| != 1 ==> r == Err(NotSingleDocument)
    ensures Given(token) && Sourced(pullFrom, localDocs, repos) ==>
      && (!Given(pullFrom) ==> meta == ResolveTargets(localDocs[0], pushTo))
      && (Given(pullFrom) ==>
        && meta.pushTo == ResolveTargets(MetaData([], [], []), pushTo).pushTo
        && ListsLabels(meta.labels, old(repos[pullFrom.value].labels))
        && meta.milestones == OpenSpecs(old(repos[pullFrom.value].milestones)))
      && (command == "display" ==> r == Ok(meta))
      && (command == "push" && meta.pushTo == [] ==> r == Err(NothingToPush))
      && (command == "push" && meta.pushTo != [] ==>
        var n := FirstMissing(meta.pushTo, repos);
        && (r.Ok? <==> n == |meta.pushTo|)
        && (r.Ok? ==> r.value == meta)
        && (r.Err? ==> r.error == RepoNotFound(meta.pushTo[n])))
      && (command != "display" && command != "push" ==> r == Err(UnknownCommand(command)))
    ensures forall x :: x in repos.Values ==>
      x.State() ==
        if Given(token) && Sourced(pullFrom, localDocs, repos) && command == "push"
           && x in Reached(meta.pushTo[..FirstMissing(meta.pushTo, repos)], repos)
        then Pushed(old(x.State()), meta)
        else old(x.State())
  {
    meta := MetaData([], [], []);
    if !Given(token) {
      return Err(MissingToken), meta;
    }
    var data: MetaData;
    if Given(pullFrom) {
      if pullFrom.value !in repos {
        return Err(RepoNotFound(pullFrom.value)), meta;
      }
      data := LoadGithub(repos[pullFrom.value]);
    } else {
      var loaded := LoadLocal(localDocs);
      if loaded.Err? {
        return Err(loaded.error), meta;
      }
      data := loaded.value;
    }
    data := ResolveTargets(data, pushTo);
    meta := data;
    if command == "display" {
      r := Ok(data);
    } else if command == "push" {
      if data.pushTo == [] {
        return Err(NothingToPush), meta;
      }
      var pushed := PushAll(data.pushTo, data, repos);
      if pushed.Err? {
        return Err(pushed.error), meta;
      }
      assert data.pushTo[..|data.pushTo|] == data.pushTo;
      r := Ok(data);
    } else {
      r := Err(UnknownCommand(command));
    }
  }
}
