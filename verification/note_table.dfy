/**
  The Markdown table of release notes (`create_md_file`, `format_row` and `headers`
  in release_notes.py): the notes are sorted in place, non-bugs first and then by
  issue number, and written as a two-line header followed by one row per note.
 */
module NoteTable {
  import opened Strings
  import opened Markdown

  /** One issue's entry, the dict `meta` built by `get_release_notes`. */
  datatype Note = Note(number: nat, title: string, url: string, body: string, bug: bool)

  // ---------------------------------------------------------------------------
  // Ordering: the sort key `(x["bug"], x["number"])`, with False < True

  /** The key of `x` is strictly smaller than the key of `y`. */
  predicate Before(x: Note, y: Note) {
    (!x.bug && y.bug) || (x.bug == y.bug && x.number < y.number)
  }

  predicate SortedByKey(s: seq<Note>) {
    forall i, j :: 0 <= i < j < |s| ==> !Before(s[j], s[i])
  }

  /** Inserts `x` after every element whose key is not larger, as a stable sort does. */
  function Insert(s: seq<Note>, x: Note): (r: seq<Note>)
    ensures |r| == |s| + 1
    decreases |s|
  {
    if s == [] || !Before(x, s[|s| - 1]) then s + [x]
    else Insert(s[..|s| - 1], x) + [s[|s| - 1]]
  }

  lemma {:induction false} InsertPermutes(s: seq<Note>, x: Note)
    ensures multiset(Insert(s, x)) == multiset(s) + multiset{x}
    decreases |s|
  {
    if s != [] && Before(x, s[|s| - 1]) {
      InsertPermutes(s[..|s| - 1], x);
      assert s == s[..|s| - 1] + [s[|s| - 1]];
    }
  }

  lemma {:induction false} InsertSorted(s: seq<Note>, x: Note)
    requires SortedByKey(s)
    ensures SortedByKey(Insert(s, x))
    decreases |s|
  {
    InsertPermutes(s, x);
    if s != [] && Before(x, s[|s| - 1]) {
      var init, last := s[..|s| - 1], s[|s| - 1];
      InsertSorted(init, x);
      InsertPermutes(init, x);
      var r := Insert(init, x) + [last];
      forall i | 0 <= i < |r| - 1 ensures !Before(last, r[i]) {
        assert r[i] in multiset(init) + multiset{x} by {
          assert r[i] in Insert(init, x);
        }
        if r[i] != x {
          assert r[i] in init;
        }
      }
    }
  }

  /** The stable sort of `s` by key: what Python's `list.sort` leaves. */
  function SortByKey(s: seq<Note>): (r: seq<Note>)
    ensures |r| == |s|
    decreases |s|
  {
    if s == [] then [] else Insert(SortByKey(s[..|s| - 1]), s[|s| - 1])
  }

  /** The sort returns a sorted permutation of its input. */
  lemma {:induction false} SortByKeySpec(s: seq<Note>)
    ensures SortedByKey(SortByKey(s))
    ensures multiset(SortByKey(s)) == multiset(s)
    decreases |s|
  {
    if s != [] {
      var init := s[..|s| - 1];
      SortByKeySpec(init);
      InsertSorted(SortByKey(init), s[|s| - 1]);
      InsertPermutes(SortByKey(init), s[|s| - 1]);
      assert s == init + [s[|s| - 1]];
    }
  }

  /** Notes that share an issue number are the same note (numbers are unique within
      a run, since each note comes from one issue). */
  predicate NumbersIdentify(s: seq<Note>) {
    forall i, j :: 0 <= i < |s| && 0 <= j < |s| && s[i].number == s[j].number ==> s[i] == s[j]
  }

  lemma SortedHeadLeast(s: seq<Note>, k: nat)
    requires SortedByKey(s) && k < |s|
    ensures !Before(s[k], s[0])
  {
    if k > 0 {
      assert !Before(s[k], s[0]);
    }
  }

  /** With unique issue numbers the sorted order is fully determined: any two sorted
      permutations of the same notes are equal. */
  lemma {:induction false} SortedPermutationUnique(a: seq<Note>, b: seq<Note>)
    requires SortedByKey(a) && SortedByKey(b) && multiset(a) == multiset(b)
    requires NumbersIdentify(a)
    ensures a == b
    decreases |a|
  {
    if a == [] {
      assert |b| == |multiset(b)| == 0;
    } else {
      SameHead(a, b);
      TailFacts(a);
      TailFacts(b);
      SortedPermutationUnique(a[1..], b[1..]);
      assert a == [a[0]] + a[1..];
      assert b == [b[0]] + b[1..];
    }
  }

  /** Two sorted permutations of notes that issue numbers identify start alike. */
  lemma SameHead(a: seq<Note>, b: seq<Note>)
    requires SortedByKey(a) && SortedByKey(b) && multiset(a) == multiset(b)
    requires NumbersIdentify(a) && a != []
    ensures b != [] && a[0] == b[0]
  {
    assert a[0] in multiset(b);
    var k :| 0 <= k < |b| && b[k] == a[0];
    SortedHeadLeast(b, k);
    assert b[0] in multiset(a);
    var m :| 0 <= m < |a| && a[m] == b[0];
    SortedHeadLeast(a, m);
    assert a[m].number == a[0].number;
  }

  /** What the tail of a non-empty sequence keeps of the head's sequence. */
  lemma TailFacts(s: seq<Note>)
    requires s != []
    ensures multiset(s[1..]) == multiset(s) - multiset{s[0]}
    ensures SortedByKey(s) ==> SortedByKey(s[1..])
    ensures NumbersIdentify(s) ==> NumbersIdentify(s[1..])
  {
    assert s == [s[0]] + s[1..];
  }

  /** With unique issue numbers, the notes sorted by `SortByKey` are the only sorted
      permutation of the input, whatever sort produced it. */
  lemma SortByKeyUnique(s: seq<Note>, t: seq<Note>)
    requires NumbersIdentify(s)
    requires SortedByKey(t) && multiset(t) == multiset(s)
    ensures t == SortByKey(s)
  {
    forall i, j | 0 <= i < |t| && 0 <= j < |t| && t[i].number == t[j].number ensures t[i] == t[j] {
      assert t[i] in multiset(s) && t[j] in multiset(s);
    }
    SortByKeySpec(s);
    SortedPermutationUnique(t, SortByKey(s));
  }

  /** A three-note example: non-bugs 5 and 1 and a bug 2, given in the order
      5, 2, 1, come out as 1, 5, 2. */
  lemma NonBugsFirstExample(n5: Note, n2: Note, n1: Note)
    requires n5.number == 5 && !n5.bug
    requires n2.number == 2 && n2.bug
    requires n1.number == 1 && !n1.bug
    ensures SortByKey([n5, n2, n1]) == [n1, n5, n2]
  {
    var s := [n5, n2, n1];
    assert s[..2] == [n5, n2] && s[..2][..1] == [n5] && s[..2][..1][..0] == [];
    assert SortByKey([n5]) == Insert([], n5) == [n5];
    assert SortByKey([n5, n2]) == Insert([n5], n2) == [n5, n2];
    assert [n5, n2][..1] == [n5] && [n5][..0] == [];
    assert Insert([n5], n1) == Insert([], n1) + [n5] == [n1, n5];
    assert Insert([n5, n2], n1) == Insert([n5], n1) + [n2] == [n1, n5, n2];
  }

  // ---------------------------------------------------------------------------
  // The in-place sort of `create_md_file`

  /** `notes.sort(key=lambda x: (x["bug"], x["number"]))`, as a stable insertion sort on the array. */
  method SortNotes(a: array<Note>)
    modifies a
    ensures a[..] == SortByKey(old(a[..]))
  {
    ghost var input := a[..];
    for i := 0 to a.Length
      invariant a[..i] == SortByKey(input[..i])
      invariant a[i..] == input[i..]
    {
      InsertAt(a, i);
      SortByKeySnoc(input, i);
    }
    assert input[..a.Length] == input;
  }

  lemma SortByKeySnoc(s: seq<Note>, i: nat)
    requires i < |s|
    ensures SortByKey(s[..i + 1]) == Insert(SortByKey(s[..i]), s[i])
  {
    assert s[..i + 1][..i] == s[..i];
  }

  /** One pass of the insertion sort: moves `a[i]` left past every element of the
      prefix whose key is larger. */
  method InsertAt(a: array<Note>, i: nat)
    requires i < a.Length
    modifies a
    ensures a[..i + 1] == Insert(old(a[..i]), old(a[i]))
    ensures a[i + 1..] == old(a[i + 1..])
  {
    ghost var sorted, rest := a[..i], a[i + 1..];
    var x := a[i];
    var j := i;
    assert sorted[..j] == sorted && sorted[j..] == [];
    assert a[..] == sorted[..j] + [a[j]] + sorted[j..] + rest;
    while j > 0 && Before(x, a[j - 1])
      invariant 0 <= j <= i
      invariant a[..] == sorted[..j] + [a[j]] + sorted[j..] + rest
      invariant Insert(sorted, x) == Insert(sorted[..j], x) + sorted[j..]
    {
      ShiftStep(sorted, x, j);
      ghost var before := a[..];
      a[j] := a[j - 1];
      assert a[..] == before[j := before[j - 1]];
      ShiftUpdate(sorted, j, before[j], rest);
      j := j - 1;
    }
    ghost var before := a[..];
    a[j] := x;
    assert a[..] == before[j := x];
    SetHole(sorted, j, before[j], x, rest);
    assert Insert(sorted[..j], x) == sorted[..j] + [x];
  }

  lemma ShiftStep(sorted: seq<Note>, x: Note, j: nat)
    requires 0 < j <= |sorted| && Before(x, sorted[j - 1])
    ensures Insert(sorted[..j], x) + sorted[j..] == Insert(sorted[..j - 1], x) + sorted[j - 1..]
  {
    assert sorted[..j][..j - 1] == sorted[..j - 1];
    assert sorted[j - 1..] == [sorted[j - 1]] + sorted[j..];
  }

  /** Shifting the element left of the hole into it moves the hole one place left. */
  lemma ShiftUpdate(sorted: seq<Note>, j: nat, y: Note, rest: seq<Note>)
    requires 0 < j <= |sorted|
    ensures (sorted[..j] + [y] + sorted[j..] + rest)[j := sorted[j - 1]]
      == sorted[..j - 1] + [sorted[j - 1]] + sorted[j - 1..] + rest
  {
    assert sorted[..j] == sorted[..j - 1] + [sorted[j - 1]];
    assert sorted[j - 1..] == [sorted[j - 1]] + sorted[j..];
  }

  /** Filling the hole with `x` leaves the prefix with `x` inserted, and the rest. */
  lemma SetHole(sorted: seq<Note>, j: nat, y: Note, x: Note, rest: seq<Note>)
    requires j <= |sorted|
    ensures var r := (sorted[..j] + [y] + sorted[j..] + rest)[j := x];
      r[..|sorted| + 1] == sorted[..j] + [x] + sorted[j..] && r[|sorted| + 1..] == rest
  {
  }

  // ---------------------------------------------------------------------------
  // Rendering

  /** `headers()`: the column titles and the rule under them. */
  function Headers(): (h: string)
    ensures CountChar(h, '\n') == 2
  {
    var titles, rule := "| **GitHub Issue** | **Summary** |", "| ----------------- | ----------- |";
    TwoLines(titles, rule);
    titles + "\n" + rule + "\n"
  }

  /** A note whose title and body have been escaped, as `format_row` leaves the dict. */
  function EscapeNote(n: Note): Note {
    n.(title := Escaped(n.title), body := Escaped(n.body))
  }

  /** The row `format_row` returns for a note whose fields are already escaped. */
  function RowText(n: Note): string {
    "| [#" + Decimal(n.number) + " " + n.title + "](" + n.url + ") | " + n.body + " |\n"
  }

  /** `format_row`: escapes the title and the body (writing them back into the note)
      and renders the row; the url is not escaped. */
  method FormatRow(row: Note) returns (escaped: Note, line: string)
    ensures escaped.number == row.number && escaped.url == row.url && escaped.bug == row.bug
    ensures Unescape(escaped.title) == row.title && Unescape(escaped.body) == row.body
    ensures escaped == EscapeNote(row)
    ensures line == RowText(escaped)
  {
    var title := MdEscape(row.title);
    var body := MdEscape(row.body);
    UnescapeEscaped(row.title);
    UnescapeEscaped(row.body);
    escaped := row.(title := title, body := body);
    line := "| [#" + Decimal(escaped.number) + " " + escaped.title + "](" + escaped.url + ") | " + escaped.body + " |\n";
  }

  function EscapeAll(notes: seq<Note>): seq<Note> {
    seq(|notes|, i requires 0 <= i < |notes| => EscapeNote(notes[i]))
  }

  /** The text `create_md_file` writes for `notes` once they are sorted: the header,
      then one row per note, in order. */
  function Table(notes: seq<Note>): (t: string)
    ensures Headers() <= t
    decreases |notes|
  {
    if notes == [] then Headers() else Table(notes[..|notes| - 1]) + RowText(EscapeNote(notes[|notes| - 1]))
  }

  lemma TableSnoc(s: seq<Note>, k: nat)
    requires k < |s|
    ensures Table(s[..k + 1]) == Table(s[..k]) + RowText(EscapeNote(s[k]))
  {
    assert s[..k + 1][..k] == s[..k];
  }

  /** `create_md_file` without the file: sorts the notes in place, escapes each one's
      title and body in place, and returns the text written. */
  method CreateMdFile(notes: array<Note>) returns (text: string)
    modifies notes
    ensures text == Table(SortByKey(old(notes[..])))
    ensures notes[..] == EscapeAll(SortByKey(old(notes[..])))
  {
    SortNotes(notes);
    text := RenderRows(notes);
  }

  /** The loop of `create_md_file`: the header, then `format_row` of each note in
      array order, each note's escaped fields written back into the array. */
  method RenderRows(notes: array<Note>) returns (text: string)
    modifies notes
    ensures text == Table(old(notes[..]))
    ensures notes[..] == EscapeAll(old(notes[..]))
  {
    ghost var input := notes[..];
    text := Headers();
    assert input[..0] == [] && input[0..] == input;
    for k := 0 to notes.Length
      invariant notes[..] == EscapeAll(input[..k]) + input[k..]
      invariant text == Table(input[..k])
    {
      assert notes[k] == input[k];
      var escaped, line := FormatRow(notes[k]);
      ghost var before := notes[..];
      notes[k] := escaped;
      assert notes[..] == before[k := escaped];
      EscapeStep(input, k);
      text := text + line;
      TableSnoc(input, k);
    }
    assert input[..notes.Length] == input;
  }

  /** Writing the escaped note back at `k` extends the escaped prefix by one. */
  lemma EscapeStep(s: seq<Note>, k: nat)
    requires k < |s|
    ensures (EscapeAll(s[..k]) + s[k..])[k := EscapeNote(s[k])] == EscapeAll(s[..k + 1]) + s[k + 1..]
  {
  }

  // ---------------------------------------------------------------------------
  // Shape of the written text

  predicate NoNewline(s: string) {
    '\n' !in s
  }

  lemma {:induction false} CountCharAppend(a: string, b: string, c: char)
    ensures CountChar(a + b, c) == CountChar(a, c) + CountChar(b, c)
    decreases |a|
  {
    if a == [] {
      assert a + b == b;
    } else {
      assert (a + b)[1..] == a[1..] + b;
      CountCharAppend(a[1..], b, c);
    }
  }

  lemma {:induction false} NoNewlineCount(s: string)
    requires NoNewline(s)
    ensures CountChar(s, '\n') == 0
    decreases |s|
  {
    if s != [] {
      NoNewlineCount(s[1..]);
    }
  }

  lemma {:induction false} EscapedNoNewline(s: string)
    requires NoNewline(s)
    ensures NoNewline(Escaped(s))
    decreases |s|
  {
    if s != [] {
      EscapedNoNewline(s[1..]);
      var head := if s[0] in Special then ['\\', s[0]] else [s[0]];
      assert Escaped(s) == head + Escaped(s[1..]);
    }
  }

  lemma TwoLines(a: string, b: string)
    requires NoNewline(a) && NoNewline(b)
    ensures CountChar(a + "\n" + b + "\n", '\n') == 2
  {
    NoNewlineCount(a);
    NoNewlineCount(b);
    var nl := "\n";
    assert CountChar(nl, '\n') == 1;
    CountCharAppend(a, nl, '\n');
    CountCharAppend(b, nl, '\n');
    CountCharAppend(a + nl, b + nl, '\n');
    assert a + nl + b + nl == (a + nl) + (b + nl);
  }

  /** A row ends in its one newline when its fields hold none. */
  lemma RowIsOneLine(n: Note)
    requires NoNewline(n.title) && NoNewline(n.url) && NoNewline(n.body)
    ensures CountChar(RowText(EscapeNote(n)), '\n') == 1
  {
    var e := EscapeNote(n);
    EscapedNoNewline(n.title);
    EscapedNoNewline(n.body);
    var d := Decimal(n.number);
    NoNewlineCount(d);
    NoNewlineCount(e.title);
    NoNewlineCount(e.url);
    NoNewlineCount(e.body);
    CountCharAppend("| [#", d, '\n');
    CountCharAppend("| [#" + d, " ", '\n');
    CountCharAppend("| [#" + d + " ", e.title, '\n');
    CountCharAppend("| [#" + d + " " + e.title, "](", '\n');
    CountCharAppend("| [#" + d + " " + e.title + "](", e.url, '\n');
    CountCharAppend("| [#" + d + " " + e.title + "](" + e.url, ") | ", '\n');
    CountCharAppend("| [#" + d + " " + e.title + "](" + e.url + ") | ", e.body, '\n');
    CountCharAppend("| [#" + d + " " + e.title + "](" + e.url + ") | " + e.body, " |\n", '\n');
  }

  /** The text is the two header lines and exactly one line per note, provided no
      title, url or body holds a newline. */
  lemma {:induction false} TableLines(notes: seq<Note>)
    requires forall i :: 0 <= i < |notes| ==>
      NoNewline(notes[i].title) && NoNewline(notes[i].url) && NoNewline(notes[i].body)
    ensures CountChar(Table(notes), '\n') == 2 + |notes|
    decreases |notes|
  {
    if notes == [] {
      assert Table(notes) == Headers();
    } else {
      var init := notes[..|notes| - 1];
      TableLines(init);
      RowIsOneLine(notes[|notes| - 1]);
      assert Table(notes) == Table(init) + RowText(EscapeNote(notes[|notes| - 1]));
      CountCharAppend(Table(init), RowText(EscapeNote(notes[|notes| - 1])), '\n');
    }
  }
}
