/**
  What `push_data` in ghmeta.py does to a repository, as functions on values: the
  repository's milestones (a sequence, since titles may repeat) and labels (a map
  from name), the metadata pushed, the requests sent, and the state reached.
 */
module PushSpec {
  import opened Wrappers

  /** Every pushed milestone is given this state. */
  const Open: string := "open"

  datatype Milestone = Milestone(title: string, state: string, description: Option<string>)

  datatype Label = Label(color: string, description: string)

  /** A milestone entry of the metadata; `None` is a missing or null description. */
  datatype MilestoneSpec = MilestoneSpec(title: string, description: Option<string>)

  /** A label entry of the metadata; `None` is a missing or null description. */
  datatype LabelSpec = LabelSpec(name: string, color: string, description: Option<string>)

  /** The metadata document: `ghmeta.push_to`, `labels` and `milestones`. */
  datatype MetaData = MetaData(pushTo: seq<string>, labels: seq<LabelSpec>, milestones: seq<MilestoneSpec>)

  datatype RepoState = RepoState(milestones: seq<Milestone>, labels: map<string, Label>)

  /** A mutating request sent to the repository. */
  datatype Call =
    | EditMilestone(at: nat, milestone: Milestone)
    | CreateMilestone(milestone: Milestone)
    | EditLabel(name: string, to: Label)
    | CreateLabel(name: string, to: Label)

  /** The milestone a metadata entry is pushed as. */
  function Opened(s: MilestoneSpec): Milestone {
    Milestone(s.title, Open, s.description)
  }

  /** `label.get("description", "") or ""` */
  function Normalize(d: Option<string>): string {
    d.GetOr("")
  }

  /** The label a metadata entry is pushed as: its colour and normalised description. */
  function LabelOf(s: LabelSpec): (l: Label)
    ensures l.color == s.color
    ensures s.description.None? ==> l.description == ""
    ensures s.description.Some? ==> l.description == s.description.value
  {
    Label(s.color, Normalize(s.description))
  }

  // ---------------------------------------------------------------------------
  // Milestones

  /** The dict `existing_milestones`: filled in listing order, so each title ends up
      mapped to the position of the last milestone carrying it. */
  function TitleIndex(ms: seq<Milestone>): (idx: map<string, nat>)
    ensures IndexInto(idx, |ms|)
    decreases |ms|
  {
    if ms == [] then map[] else TitleIndex(ms[..|ms| - 1])[ms[|ms| - 1].title := |ms| - 1]
  }

  /** Every title of the repository is indexed. */
  lemma {:induction false} TitleIndexKeys(ms: seq<Milestone>)
    ensures forall k :: 0 <= k < |ms| ==> ms[k].title in TitleIndex(ms)
    decreases |ms|
  {
    if ms != [] {
      var init := ms[..|ms| - 1];
      TitleIndexKeys(init);
      assert forall k :: 0 <= k < |init| ==> init[k] == ms[k];
    }
  }

  /** An indexed title points at the last milestone carrying it. */
  lemma {:induction false} TitleIndexLast(ms: seq<Milestone>)
    ensures forall t :: t in TitleIndex(ms) ==>
      && TitleIndex(ms)[t] < |ms| && ms[TitleIndex(ms)[t]].title == t
      && forall k :: TitleIndex(ms)[t] < k < |ms| ==> ms[k].title != t
    decreases |ms|
  {
    if ms != [] {
      var init := ms[..|ms| - 1];
      TitleIndexLast(init);
      assert forall k :: 0 <= k < |init| ==> init[k] == ms[k];
    }
  }

  predicate IndexInto(idx: map<string, nat>, n: nat) {
    forall t :: t in idx ==> idx[t] < n
  }

  /** The milestone loop: an entry whose title is in the index edits the indexed
      milestone, any other entry appends a new one. The index is not updated. */
  function ApplyMilestones(ms: seq<Milestone>, idx: map<string, nat>, specs: seq<MilestoneSpec>): (r: seq<Milestone>)
    requires IndexInto(idx, |ms|)
    ensures |r| >= |ms|
    decreases |specs|
  {
    if specs == [] then ms
    else
      var prev := ApplyMilestones(ms, idx, specs[..|specs| - 1]);
      var s := specs[|specs| - 1];
      if s.title in idx then prev[idx[s.title] := Opened(s)] else prev + [Opened(s)]
  }

  function MilestoneCall(idx: map<string, nat>, s: MilestoneSpec): Call {
    if s.title in idx then EditMilestone(idx[s.title], Opened(s)) else CreateMilestone(Opened(s))
  }

  /** The requests of the milestone loop, one per entry. */
  function MilestoneCalls(idx: map<string, nat>, specs: seq<MilestoneSpec>): (r: seq<Call>)
    ensures |r| == |specs|
    ensures forall k :: 0 <= k < |r| ==>
      && (r[k].EditMilestone? || r[k].CreateMilestone?)
      && (r[k].EditMilestone? <==> specs[k].title in idx)
      && (r[k].EditMilestone? ==> r[k].at == idx[specs[k].title])
      && r[k].milestone == Opened(specs[k])
  {
    seq(|specs|, k requires 0 <= k < |specs| => MilestoneCall(idx, specs[k]))
  }

  predicate EditsAt(idx: map<string, nat>, s: MilestoneSpec, j: nat) {
    s.title in idx && idx[s.title] == j
  }

  /** The last entry that edits position `j`. */
  function EditedBy(specs: seq<MilestoneSpec>, idx: map<string, nat>, j: nat): (r: Option<nat>)
    ensures r.None? <==> forall k :: 0 <= k < |specs| ==> !EditsAt(idx, specs[k], j)
    ensures r.Some? ==>
      && r.value < |specs| && EditsAt(idx, specs[r.value], j)
      && forall m :: r.value < m < |specs| ==> !EditsAt(idx, specs[m], j)
    decreases |specs|
  {
    if specs == [] then None
    else if EditsAt(idx, specs[|specs| - 1], j) then Some(|specs| - 1)
    else
      var init := specs[..|specs| - 1];
      assert forall k :: 0 <= k < |init| ==> init[k] == specs[k];
      EditedBy(init, idx, j)
  }

  /** The milestones the loop creates, in order. */
  function Created(specs: seq<MilestoneSpec>, idx: map<string, nat>): (c: seq<Milestone>)
    ensures forall p :: 0 <= p < |c| ==> c[p].title !in idx
    decreases |specs|
  {
    if specs == [] then []
    else
      var s := specs[|specs| - 1];
      Created(specs[..|specs| - 1], idx) + (if s.title in idx then [] else [Opened(s)])
  }

  /** The milestone loop in closed form: a position of the repository holds the
      milestone pushed by the last entry that edits it, or is untouched; after them
      come the created milestones. */
  lemma {:induction false} MilestonesApplied(ms: seq<Milestone>, idx: map<string, nat>, specs: seq<MilestoneSpec>)
    requires IndexInto(idx, |ms|)
    ensures var r := ApplyMilestones(ms, idx, specs);
      && |r| == |ms| + |Created(specs, idx)|
      && r[|ms|..] == Created(specs, idx)
      && forall j :: 0 <= j < |ms| ==>
        && (EditedBy(specs, idx, j).None? ==> r[j] == ms[j])
        && (EditedBy(specs, idx, j).Some? ==> r[j] == Opened(specs[EditedBy(specs, idx, j).value]))
    decreases |specs|
  {
    if specs != [] {
      var init, s := specs[..|specs| - 1], specs[|specs| - 1];
      MilestonesApplied(ms, idx, init);
      var prev := ApplyMilestones(ms, idx, init);
      assert forall k :: 0 <= k < |init| ==> init[k] == specs[k];
      forall j | 0 <= j < |ms|
        ensures EditedBy(specs, idx, j) == if EditsAt(idx, s, j) then Some(|specs| - 1) else EditedBy(init, idx, j)
      {
      }
      if s.title !in idx {
        assert (prev + [Opened(s)])[|ms|..] == prev[|ms|..] + [Opened(s)];
      }
    }
  }

  /** A repository milestone whose title no entry carries is left as it was. */
  lemma {:induction false} UntouchedMilestones(ms: seq<Milestone>, specs: seq<MilestoneSpec>)
    ensures var r := ApplyMilestones(ms, TitleIndex(ms), specs);
      forall j :: 0 <= j < |ms| && (forall k :: 0 <= k < |specs| ==> specs[k].title != ms[j].title) ==> r[j] == ms[j]
  {
    MilestonesApplied(ms, TitleIndex(ms), specs);
    TitleIndexLast(ms);
  }

  /** At most one milestone is created per entry, and nothing is created exactly when
      every entry's title is already indexed. */
  lemma {:induction false} CreatedAreNew(specs: seq<MilestoneSpec>, idx: map<string, nat>)
    ensures |Created(specs, idx)| <= |specs|
    ensures (forall k :: 0 <= k < |specs| ==> specs[k].title in idx) <==> Created(specs, idx) == []
    decreases |specs|
  {
    if specs != [] {
      var init := specs[..|specs| - 1];
      CreatedAreNew(init, idx);
      assert forall k :: 0 <= k < |init| ==> init[k] == specs[k];
    }
  }

  /** Because the index is built before the loop, an entry repeated in the metadata
      whose title the repository lacks (is not among the indexed titles) is created
      twice. */
  lemma {:induction false} DuplicateCreatedTwice(ms: seq<Milestone>, s: MilestoneSpec)
    requires s.title !in TitleIndex(ms)
    ensures ApplyMilestones(ms, TitleIndex(ms), [s, s]) == ms + [Opened(s), Opened(s)]
  {
    var idx := TitleIndex(ms);
    assert [s, s][..1] == [s] && [s][..0] == [];
    assert ApplyMilestones(ms, idx, [s]) == ms + [Opened(s)];
  }

  /** An entry with a new title puts its milestone among the created ones; when it is
      the last entry with that title, no later created milestone carries the title. */
  lemma {:induction false} CreatedHas(specs: seq<MilestoneSpec>, idx: map<string, nat>, k: nat)
    requires k < |specs| && specs[k].title !in idx
    ensures exists q :: (
      && 0 <= q < |Created(specs, idx)| && Created(specs, idx)[q] == Opened(specs[k])
      && ((forall m :: k < m < |specs| ==> specs[m].title != specs[k].title) ==>
          forall q' :: q < q' < |Created(specs, idx)| ==> Created(specs, idx)[q'].title != specs[k].title))
    decreases |specs|
  {
    var init, s := specs[..|specs| - 1], specs[|specs| - 1];
    var c := Created(specs, idx);
    if k == |specs| - 1 {
      assert c[|c| - 1] == Opened(s);
    } else {
      assert init[k] == specs[k];
      assert forall m :: k < m < |init| ==> init[m] == specs[m];
      CreatedHas(init, idx, k);
      var q :| 0 <= q < |Created(init, idx)| && Created(init, idx)[q] == Opened(specs[k])
        && ((forall m :: k < m < |init| ==> init[m].title != init[k].title) ==>
            forall q' :: q < q' < |Created(init, idx)| ==> Created(init, idx)[q'].title != init[k].title);
      assert c[q] == Opened(specs[k]);
    }
  }

  /** Pushing keeps the title at every position of the repository, and the created
      milestones come after them. */
  lemma {:induction false} TitlesKept(ms: seq<Milestone>, specs: seq<MilestoneSpec>)
    ensures var r := ApplyMilestones(ms, TitleIndex(ms), specs);
      && |r| == |ms| + |Created(specs, TitleIndex(ms))|
      && (forall j :: 0 <= j < |ms| ==> r[j].title == ms[j].title)
      && (forall j :: |ms| <= j < |r| ==> r[j] == Created(specs, TitleIndex(ms))[j - |ms|])
  {
    MilestonesApplied(ms, TitleIndex(ms), specs);
    TitleIndexLast(ms);
    var r := ApplyMilestones(ms, TitleIndex(ms), specs);
    assert forall j :: |ms| <= j < |r| ==> r[j] == r[|ms|..][j - |ms|];
  }

  /** After a push every entry's title is in the repository. */
  lemma {:induction false} SpecTitlesPresent(ms: seq<Milestone>, specs: seq<MilestoneSpec>)
    ensures var r := ApplyMilestones(ms, TitleIndex(ms), specs);
      forall k :: 0 <= k < |specs| ==> specs[k].title in TitleIndex(r)
  {
    var idx := TitleIndex(ms);
    var r := ApplyMilestones(ms, idx, specs);
    TitlesKept(ms, specs);
    TitleIndexLast(ms);
    TitleIndexKeys(r);
    forall k | 0 <= k < |specs| ensures specs[k].title in TitleIndex(r) {
      var t := specs[k].title;
      if t in idx {
        assert r[idx[t]].title == t;
      } else {
        CreatedHas(specs, idx, k);
        var q :| 0 <= q < |Created(specs, idx)| && Created(specs, idx)[q] == Opened(specs[k]);
        assert r[|ms| + q].title == t;
      }
    }
  }

  /** After a push, the milestone indexed under the title of the last entry carrying
      that title is the one this entry pushes. */
  lemma {:induction false} PushedAtIndex(ms: seq<Milestone>, specs: seq<MilestoneSpec>, k: nat)
    requires k < |specs|
    requires forall m :: k < m < |specs| ==> specs[m].title != specs[k].title
    ensures var r := ApplyMilestones(ms, TitleIndex(ms), specs);
      specs[k].title in TitleIndex(r) && r[TitleIndex(r)[specs[k].title]] == Opened(specs[k])
  {
    SpecTitlesPresent(ms, specs);
    if specs[k].title in TitleIndex(ms) {
      EditedAtIndex(ms, specs, k);
    } else {
      CreatedAtIndex(ms, specs, k);
    }
  }

  lemma {:induction false} EditedAtIndex(ms: seq<Milestone>, specs: seq<MilestoneSpec>, k: nat)
    requires k < |specs| && specs[k].title in TitleIndex(ms)
    requires forall m :: k < m < |specs| ==> specs[m].title != specs[k].title
    ensures var r := ApplyMilestones(ms, TitleIndex(ms), specs);
      specs[k].title in TitleIndex(r) && r[TitleIndex(r)[specs[k].title]] == Opened(specs[k])
  {
    var idx := TitleIndex(ms);
    var r := ApplyMilestones(ms, idx, specs);
    var t := specs[k].title;
    var j := idx[t];
    IndexedAt(ms, t);
    AppliedAt(ms, idx, specs, j);
    var e := EditedBy(specs, idx, j);
    assert EditsAt(idx, specs[k], j);
    if e.value != k {
      IndexedAt(ms, specs[e.value].title);
    }
    forall i | j < i < |r| ensures r[i].title != t {
      KeptAt(ms, specs, i);
      if i < |ms| {
        IndexedLast(ms, t, i);
      }
    }
    LastTitle(r, t, j);
  }

  lemma {:induction false} CreatedAtIndex(ms: seq<Milestone>, specs: seq<MilestoneSpec>, k: nat)
    requires k < |specs| && specs[k].title !in TitleIndex(ms)
    requires forall m :: k < m < |specs| ==> specs[m].title != specs[k].title
    ensures var r := ApplyMilestones(ms, TitleIndex(ms), specs);
      specs[k].title in TitleIndex(r) && r[TitleIndex(r)[specs[k].title]] == Opened(specs[k])
  {
    var idx := TitleIndex(ms);
    var r := ApplyMilestones(ms, idx, specs);
    var t := specs[k].title;
    CreatedHas(specs, idx, k);
    var c := Created(specs, idx);
    var q :| 0 <= q < |c| && c[q] == Opened(specs[k]) && forall q' :: q < q' < |c| ==> c[q'].title != t;
    KeptAt(ms, specs, |ms| + q);
    forall i | |ms| + q < i < |r| ensures r[i].title != t {
      KeptAt(ms, specs, i);
    }
    LastTitle(r, t, |ms| + q);
  }

  /** The index maps a title to the last position that carries it. */
  lemma {:induction false} LastTitle(ms: seq<Milestone>, t: string, p: nat)
    requires p < |ms| && ms[p].title == t
    requires forall i :: p < i < |ms| ==> ms[i].title != t
    ensures t in TitleIndex(ms) && TitleIndex(ms)[t] == p
  {
    IndexedKey(ms, p);
    IndexedAt(ms, t);
    if TitleIndex(ms)[t] < p {
      IndexedLast(ms, t, p);
    }
  }

  // Single instances of the quantified facts above, which keep the proofs that
  // combine them small.

  lemma {:induction false} IndexedKey(ms: seq<Milestone>, k: nat)
    requires k < |ms|
    ensures ms[k].title in TitleIndex(ms)
  {
    TitleIndexKeys(ms);
  }

  lemma {:induction false} IndexedAt(ms: seq<Milestone>, t: string)
    requires t in TitleIndex(ms)
    ensures TitleIndex(ms)[t] < |ms| && ms[TitleIndex(ms)[t]].title == t
  {
    TitleIndexLast(ms);
  }

  lemma {:induction false} IndexedLast(ms: seq<Milestone>, t: string, k: nat)
    requires t in TitleIndex(ms) && TitleIndex(ms)[t] < k < |ms|
    ensures ms[k].title != t
  {
    TitleIndexLast(ms);
  }

  lemma {:induction false} KeptAt(ms: seq<Milestone>, specs: seq<MilestoneSpec>, j: nat)
    ensures var r := ApplyMilestones(ms, TitleIndex(ms), specs);
      && |r| == |ms| + |Created(specs, TitleIndex(ms))|
      && (j < |ms| ==> r[j].title == ms[j].title)
      && (|ms| <= j < |r| ==> r[j] == Created(specs, TitleIndex(ms))[j - |ms|])
  {
    TitlesKept(ms, specs);
  }

  lemma {:induction false} AppliedAt(ms: seq<Milestone>, idx: map<string, nat>, specs: seq<MilestoneSpec>, j: nat)
    requires IndexInto(idx, |ms|) && j < |ms|
    ensures var r := ApplyMilestones(ms, idx, specs);
      && |r| >= |ms|
      && (EditedBy(specs, idx, j).None? ==> r[j] == ms[j])
      && (EditedBy(specs, idx, j).Some? ==> r[j] == Opened(specs[EditedBy(specs, idx, j).value]))
  {
    MilestonesApplied(ms, idx, specs);
  }

  /** Pushing the same milestone entries a second time changes nothing, whether or
      not titles repeat. */
  lemma {:induction false} MilestonesTwice(ms: seq<Milestone>, specs: seq<MilestoneSpec>)
    ensures var r := ApplyMilestones(ms, TitleIndex(ms), specs);
      ApplyMilestones(r, TitleIndex(r), specs) == r
  {
    var r := ApplyMilestones(ms, TitleIndex(ms), specs);
    var idx := TitleIndex(r);
    var r2 := ApplyMilestones(r, idx, specs);
    SpecTitlesPresent(ms, specs);
    CreatedAreNew(specs, idx);
    MilestonesApplied(r, idx, specs);
    TitleIndexLast(r);
    forall j | 0 <= j < |r| ensures r2[j] == r[j] {
      var e := EditedBy(specs, idx, j);
      if e.Some? {
        var k := e.value;
        forall m | k < m < |specs| ensures specs[m].title != specs[k].title {
          assert !EditsAt(idx, specs[m], j);
        }
        PushedAtIndex(ms, specs, k);
      }
    }
  }

  // ---------------------------------------------------------------------------
  // Labels

  /** The label loop: each entry sets its name to its label, editing or creating. */
  function ApplyLabels(labels: map<string, Label>, specs: seq<LabelSpec>): (r: map<string, Label>)
    ensures labels.Keys <= r.Keys
    ensures forall k :: 0 <= k < |specs| ==> specs[k].name in r
    ensures |specs| > 0 ==> r[specs[|specs| - 1].name] == LabelOf(specs[|specs| - 1])
    decreases |specs|
  {
    if specs == [] then labels
    else
      var init, s := specs[..|specs| - 1], specs[|specs| - 1];
      assert forall k :: 0 <= k < |init| ==> init[k] == specs[k];
      ApplyLabels(labels, init)[s.name := LabelOf(s)]
  }

  /** After the loop a name is present exactly when it was before or an entry carries it. */
  lemma {:induction false} ApplyLabelsKeys(labels: map<string, Label>, specs: seq<LabelSpec>, n: string)
    ensures n in ApplyLabels(labels, specs) <==> n in labels || exists k :: 0 <= k < |specs| && specs[k].name == n
    decreases |specs|
  {
    if specs != [] {
      var init := specs[..|specs| - 1];
      assert forall k :: 0 <= k < |init| ==> init[k] == specs[k];
      ApplyLabelsKeys(labels, init, n);
    }
  }

  /** The requests of the label loop: the lookup happens on the current state, so a
      label created earlier in the loop is edited by a later entry of the same name. */
  function LabelCalls(labels: map<string, Label>, specs: seq<LabelSpec>): (r: seq<Call>)
    ensures |r| == |specs|
    ensures forall k :: 0 <= k < |r| ==>
      (r[k].EditLabel? || r[k].CreateLabel?) && r[k].name == specs[k].name && r[k].to == LabelOf(specs[k])
    decreases |specs|
  {
    if specs == [] then []
    else
      var init, s := specs[..|specs| - 1], specs[|specs| - 1];
      assert forall k :: 0 <= k < |init| ==> init[k] == specs[k];
      LabelCalls(labels, init)
        + [if s.name in ApplyLabels(labels, init) then EditLabel(s.name, LabelOf(s)) else CreateLabel(s.name, LabelOf(s))]
  }

  /** The labels the metadata sets, on an empty repository. */
  function LabelMap(specs: seq<LabelSpec>): map<string, Label> {
    ApplyLabels(map[], specs)
  }

  /** The label loop overrides the repository's labels with the metadata's. */
  lemma {:induction false} LabelsOverride(labels: map<string, Label>, specs: seq<LabelSpec>)
    ensures ApplyLabels(labels, specs) == labels + LabelMap(specs)
    decreases |specs|
  {
    if specs != [] {
      LabelsOverride(labels, specs[..|specs| - 1]);
      LabelsOverride(map[], specs[..|specs| - 1]);
    }
  }

  /** The names the metadata sets are exactly the names of its entries. */
  lemma {:induction false} LabelMapKeys(specs: seq<LabelSpec>)
    ensures forall n :: n in LabelMap(specs) <==> exists k :: 0 <= k < |specs| && specs[k].name == n
    decreases |specs|
  {
    if specs != [] {
      var init := specs[..|specs| - 1];
      LabelMapKeys(init);
      assert forall k :: 0 <= k < |init| ==> init[k] == specs[k];
      var last := specs[|specs| - 1];
      assert LabelMap(specs) == LabelMap(init)[last.name := LabelOf(last)];
      forall n ensures n in LabelMap(specs) <==> exists k :: 0 <= k < |specs| && specs[k].name == n {
        if n in LabelMap(specs) && n != last.name {
          var k :| 0 <= k < |init| && init[k].name == n;
          assert specs[k].name == n;
        }
        if exists k :: 0 <= k < |specs| && specs[k].name == n {
          var k :| 0 <= k < |specs| && specs[k].name == n;
          if k < |init| {
            assert init[k].name == n;
          }
        }
      }
    }
  }

  /** Each name holds the label of the last entry carrying it. */
  lemma {:induction false} LabelMapValues(specs: seq<LabelSpec>)
    ensures forall k :: 0 <= k < |specs| && (forall m :: k < m < |specs| ==> specs[m].name != specs[k].name) ==>
      specs[k].name in LabelMap(specs) && LabelMap(specs)[specs[k].name] == LabelOf(specs[k])
    decreases |specs|
  {
    if specs != [] {
      var init, s := specs[..|specs| - 1], specs[|specs| - 1];
      LabelMapValues(init);
      forall k | 0 <= k < |specs| && (forall m :: k < m < |specs| ==> specs[m].name != specs[k].name)
        ensures specs[k].name in LabelMap(specs) && LabelMap(specs)[specs[k].name] == LabelOf(specs[k])
      {
        if k < |init| {
          assert init[k] == specs[k];
          assert forall m :: k < m < |init| ==> init[m] == specs[m];
        }
      }
    }
  }

  /** After the label loop every entry's name holds its normalised label (the last
      entry wins when a name repeats) and labels the metadata does not name are
      untouched. */
  lemma {:induction false} LabelsApplied(labels: map<string, Label>, specs: seq<LabelSpec>)
    ensures var r := ApplyLabels(labels, specs);
      && (forall n :: n in r <==> n in labels || exists k :: 0 <= k < |specs| && specs[k].name == n)
      && (forall n :: n in labels && (forall k :: 0 <= k < |specs| ==> specs[k].name != n) ==> r[n] == labels[n])
      && (forall k :: 0 <= k < |specs| && (forall m :: k < m < |specs| ==> specs[m].name != specs[k].name) ==>
        r[specs[k].name] == LabelOf(specs[k]))
  {
    LabelsOverride(labels, specs);
    LabelMapKeys(specs);
    LabelMapValues(specs);
  }

  /** Pushing the same label entries a second time changes nothing. */
  lemma {:induction false} LabelsTwice(labels: map<string, Label>, specs: seq<LabelSpec>)
    ensures ApplyLabels(ApplyLabels(labels, specs), specs) == ApplyLabels(labels, specs)
  {
    var m := LabelMap(specs);
    LabelsOverride(labels, specs);
    LabelsOverride(labels + m, specs);
    assert (labels + m) + m == labels + m;
  }

  /** When every entry's name is already present, the label loop only edits. */
  lemma {:induction false} LabelCallsEdit(labels: map<string, Label>, specs: seq<LabelSpec>)
    requires forall k :: 0 <= k < |specs| ==> specs[k].name in labels
    ensures forall c :: c in LabelCalls(labels, specs) ==> c.EditLabel?
    decreases |specs|
  {
    if specs != [] {
      var init, s := specs[..|specs| - 1], specs[|specs| - 1];
      assert forall k :: 0 <= k < |init| ==> init[k] == specs[k];
      LabelCallsEdit(labels, init);
      LabelsOverride(labels, init);
      assert s.name in ApplyLabels(labels, init);
    }
  }

  /** Entry `k` of the label loop is an edit exactly when its name is already present
      after the entries before it have been pushed. */
  lemma {:induction false} LabelCallsLookup(labels: map<string, Label>, specs: seq<LabelSpec>, k: nat)
    requires k < |specs|
    ensures LabelCalls(labels, specs)[k].EditLabel? <==> specs[k].name in ApplyLabels(labels, specs[..k])
    decreases |specs|
  {
    var init := specs[..|specs| - 1];
    if k < |init| {
      assert init[..k] == specs[..k];
      assert init[k] == specs[k];
      LabelCallsLookup(labels, init, k);
    } else {
      assert specs[..k] == init;
    }
  }

  /** The same, without the intermediate state: entry `k` is an edit exactly when its
      name was on the repository before the push or an earlier entry carries it. */
  lemma LabelCallsEditIff(labels: map<string, Label>, specs: seq<LabelSpec>, k: nat)
    requires k < |specs|
    ensures LabelCalls(labels, specs)[k].EditLabel? <==>
      specs[k].name in labels || exists j :: 0 <= j < k && specs[j].name == specs[k].name
  {
    LabelCallsLookup(labels, specs, k);
    var pre := specs[..k];
    ApplyLabelsKeys(labels, pre, specs[k].name);
    assert forall j :: 0 <= j < k ==> pre[j] == specs[j];
    if exists j :: 0 <= j < k && specs[j].name == specs[k].name {
      var j :| 0 <= j < k && specs[j].name == specs[k].name;
      assert pre[j].name == specs[k].name;
    }
  }

  /** A label named twice in the metadata of a repository without labels is created
      by the first entry and edited by the second. */
  lemma LabelCallsRepeat(s: LabelSpec)
    ensures LabelCalls(map[], [s, s]) == [CreateLabel(s.name, LabelOf(s)), EditLabel(s.name, LabelOf(s))]
  {
    assert [s, s][..1] == [s];
    assert [s][..0] == [];
  }

  // ---------------------------------------------------------------------------
  // The whole push

  /** The state `push_data` leaves: milestones are edited or appended, never removed,
      and every label name of the metadata is present. */
  function Pushed(st: RepoState, data: MetaData): (r: RepoState)
    ensures |r.milestones| >= |st.milestones|
    ensures st.labels.Keys <= r.labels.Keys
    ensures forall k :: 0 <= k < |data.labels| ==> data.labels[k].name in r.labels
  {
    RepoState(ApplyMilestones(st.milestones, TitleIndex(st.milestones), data.milestones),
      ApplyLabels(st.labels, data.labels))
  }

  function PushCalls(st: RepoState, data: MetaData): seq<Call> {
    MilestoneCalls(TitleIndex(st.milestones), data.milestones) + LabelCalls(st.labels, data.labels)
  }

  /** Pushing the same metadata twice leaves the state of pushing it once. */
  lemma {:induction false} PushTwice(st: RepoState, data: MetaData)
    ensures Pushed(Pushed(st, data), data) == Pushed(st, data)
  {
    MilestonesTwice(st.milestones, data.milestones);
    LabelsTwice(st.labels, data.labels);
  }

  /** The second push of the same metadata creates nothing: every request it sends
      is an edit. */
  lemma {:induction false} SecondPushOnlyEdits(st: RepoState, data: MetaData)
    ensures forall c :: c in PushCalls(Pushed(st, data), data) ==> c.EditMilestone? || c.EditLabel?
  {
    var after := Pushed(st, data);
    var idx := TitleIndex(after.milestones);
    SpecTitlesPresent(st.milestones, data.milestones);
    assert forall c :: c in MilestoneCalls(idx, data.milestones) ==> c.EditMilestone?;
    LabelsApplied(st.labels, data.labels);
    LabelCallsEdit(after.labels, data.labels);
  }
}
