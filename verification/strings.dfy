/**
  The few Python `str` operations the two scripts rely on, restricted to ASCII:
  `isspace`, `lower`, `upper`, `capitalize`, `find`, `replace`, `split()` with no
  argument, `split(sep)` with a one-character separator, `join` and `str(int)`.
 */
module Strings {

  // ---------------------------------------------------------------------------
  // Characters

  /** Python's `str.isspace` on ASCII: tab, newline, vertical tab, form feed,
      carriage return (9..13), the four separators 0x1C..0x1F, and the space. */
  predicate IsSpace(c: char) {
    c == ' ' || ('\t' <= c <= '\r') || ('\U{1C}' <= c <= '\U{1F}')
  }

  predicate IsUpper(c: char) { 'A' <= c <= 'Z' }

  predicate IsLower(c: char) { 'a' <= c <= 'z' }

  predicate IsDigit(c: char) { '0' <= c <= '9' }

  function ToLower(c: char): (r: char)
    ensures !IsUpper(r)
    ensures IsSpace(r) == IsSpace(c)
    ensures IsUpper(c) ==> IsLower(r) && r as int == c as int + 32
    ensures !IsUpper(c) ==> r == c
  {
    if IsUpper(c) then (c as int + 32) as char else c
  }

  function ToUpper(c: char): (r: char)
    ensures !IsLower(r)
    ensures IsSpace(r) == IsSpace(c)
    ensures ToLower(r) == ToLower(c)
  {
    if IsLower(c) then (c as int - 32) as char else c
  }

  /** `str.lower()`: each upper-case letter becomes its lower-case partner, 32 code
      points further on, and every other character, the whitespace included, is
      kept where it was. */
  function Lower(s: string): (r: string)
    ensures |r| == |s|
    ensures forall i :: 0 <= i < |r| ==> !IsUpper(r[i]) && IsSpace(r[i]) == IsSpace(s[i])
    ensures forall i :: 0 <= i < |r| && IsUpper(s[i]) ==> IsLower(r[i]) && r[i] as int == s[i] as int + 32
    ensures forall i :: 0 <= i < |r| && !IsUpper(s[i]) ==> r[i] == s[i]
  {
    seq(|s|, i requires 0 <= i < |s| => ToLower(s[i]))
  }

  lemma LowerCons(c: char, t: string)
    ensures Lower([c] + t) == [ToLower(c)] + Lower(t)
  {
  }

  lemma LowerTwice(s: string)
    ensures Lower(Lower(s)) == Lower(s)
  {
  }

  /** `str.capitalize()`: the first character upper-cased, every other one lower-cased. */
  function Capitalize(s: string): (r: string)
    ensures |r| == |s|
    ensures forall i :: 0 <= i < |s| ==> IsSpace(r[i]) == IsSpace(s[i])
    ensures |r| > 0 ==> !IsLower(r[0])
    ensures forall i :: 1 <= i < |r| ==> !IsUpper(r[i])
    ensures Lower(r) == Lower(s)
  {
    if s == [] then []
    else
      var c, t := s[0], s[1..];
      assert s == [c] + t;
      LowerCons(c, t);
      LowerCons(ToUpper(c), Lower(t));
      LowerTwice(t);
      [ToUpper(c)] + Lower(t)
  }

  /** Text that is already capitalized is left as it is. */
  lemma CapitalizeUnchanged(s: string)
    requires |s| > 0 ==> !IsLower(s[0])
    requires forall i :: 1 <= i < |s| ==> !IsUpper(s[i])
    ensures Capitalize(s) == s
  {
    if s != [] {
      assert Lower(s[1..]) == s[1..];
    }
  }

  // ---------------------------------------------------------------------------
  // Searching and replacing

  /** `p` occurs in `s` starting at index `i`. */
  predicate StartsAt(s: string, p: string, i: nat) {
    i + |p| <= |s| && s[i..i + |p|] == p
  }

  /** `s.find(p) > -1` */
  predicate Contains(s: string, p: string) {
    exists i: nat | i <= |s| :: StartsAt(s, p, i)
  }

  lemma StartsAtTail(s: string, p: string, i: nat)
    requires |s| > 0
    ensures StartsAt(s, p, i + 1) == StartsAt(s[1..], p, i)
  {
    if StartsAt(s, p, i + 1) {
      assert s[1..][i..i + |p|] == s[i + 1..i + 1 + |p|];
    }
    if StartsAt(s[1..], p, i) {
      assert s[1..][i..i + |p|] == s[i + 1..i + 1 + |p|];
    }
  }

  /** `s.replace(target, with)` for a non-empty `target`: occurrences are found from the
      left and never overlap; the replacement text is not searched again. */
  function Replace(s: string, target: string, with: string): (r: string)
    requires |target| > 0
    ensures |with| <= |target| ==> |r| <= |s|
    ensures |with| >= |target| ==> |r| >= |s|
    decreases |s|
  {
    if s == [] then []
    else if target <= s then with + Replace(s[|target|..], target, with)
    else [s[0]] + Replace(s[1..], target, with)
  }

  /** `s.split(p)` for a non-empty separator `p`: the pieces between the occurrences
      of `p`, found from the left without overlap. */
  function SplitStr(s: string, p: string): (parts: seq<string>)
    requires |p| > 0
    ensures |parts| > 0
    decreases |s|
  {
    if s == [] then [[]]
    else if p <= s then [[]] + SplitStr(s[|p|..], p)
    else
      var rest := SplitStr(s[1..], p);
      [[s[0]] + rest[0]] + rest[1..]
  }

  /** `s.replace(p, "")` is `"".join(s.split(p))`, and joining the pieces with `p`
      gives `s` back: deletion removes exactly the occurrences `split` cuts at. */
  lemma DeleteIsSplitJoin(s: string, p: string)
    requires |p| > 0
    ensures Replace(s, p, "") == Concat(SplitStr(s, p))
    ensures JoinWith(SplitStr(s, p), p) == s
  {
    DeleteIsConcat(s, p);
    SplitStrJoin(s, p);
  }

  lemma {:induction false} DeleteIsConcat(s: string, p: string)
    requires |p| > 0
    ensures Replace(s, p, "") == Concat(SplitStr(s, p))
    decreases |s|
  {
    if s != [] {
      if p <= s {
        var rest := SplitStr(s[|p|..], p);
        DeleteIsConcat(s[|p|..], p);
        ConcatCons([], rest);
      } else {
        var rest := SplitStr(s[1..], p);
        DeleteIsConcat(s[1..], p);
        ExtendedConcat(s[0], rest);
      }
    }
  }

  lemma {:induction false} SplitStrJoin(s: string, p: string)
    requires |p| > 0
    ensures JoinWith(SplitStr(s, p), p) == s
    decreases |s|
  {
    if s != [] {
      if p <= s {
        var rest := SplitStr(s[|p|..], p);
        SplitStrJoin(s[|p|..], p);
        JoinEmptyFirst(rest, p);
        assert s == p + s[|p|..];
      } else {
        var rest := SplitStr(s[1..], p);
        SplitStrJoin(s[1..], p);
        JoinExtendFirst(s[0], rest, p);
        assert s == [s[0]] + s[1..];
      }
    }
  }

  lemma JoinEmptyFirst(ws: seq<string>, sep: string)
    requires |ws| > 0
    ensures JoinWith([[]] + ws, sep) == sep + JoinWith(ws, sep)
  {
    assert ([[]] + ws)[1..] == ws;
  }

  lemma JoinExtendFirst(c: char, ws: seq<string>, sep: string)
    requires |ws| > 0
    ensures JoinWith([[c] + ws[0]] + ws[1..], sep) == [c] + JoinWith(ws, sep)
  {
    var parts := [[c] + ws[0]] + ws[1..];
    if |ws| > 1 {
      assert parts[1..] == ws[1..];
      assert JoinWith(parts, sep) == [c] + (ws[0] + sep + JoinWith(ws[1..], sep));
    }
  }

  /** No piece of `s.split(p)` holds `p`. */
  lemma {:induction false} SplitStrPieces(s: string, p: string)
    requires |p| > 0
    ensures forall k :: 0 <= k < |SplitStr(s, p)| ==> !Contains(SplitStr(s, p)[k], p)
    decreases |s|
  {
    if s == [] {
      assert !StartsAt([], p, 0);
    } else if p <= s {
      SplitStrPieces(s[|p|..], p);
      var rest := SplitStr(s[|p|..], p);
      assert !StartsAt([], p, 0);
      assert forall k :: 1 <= k < |rest| + 1 ==> ([[]] + rest)[k] == rest[k - 1];
    } else {
      SplitStrPieces(s[1..], p);
      var rest := SplitStr(s[1..], p);
      var parts := [[s[0]] + rest[0]] + rest[1..];
      SplitStrJoin(s[1..], p);
      JoinPrefix(rest, p);
      var first := [s[0]] + rest[0];
      assert first <= s;
      assert !StartsAt(first, p, 0);
      assert first[1..] == rest[0];
      ContainsTail(first, p);
      assert forall k :: 1 <= k < |parts| ==> parts[k] == rest[k];
    }
  }

  /** The first piece starts the joined text. */
  lemma {:induction false} JoinPrefix(ws: seq<string>, sep: string)
    requires |ws| > 0
    ensures ws[0] <= JoinWith(ws, sep)
  {
  }

  /** When `p` does not start `s`, it occurs in `s` exactly when it occurs in the tail. */
  lemma ContainsTail(s: string, p: string)
    requires |s| > 0 && !StartsAt(s, p, 0)
    ensures Contains(s, p) == Contains(s[1..], p)
  {
    if Contains(s, p) {
      var i: nat :| i <= |s| && StartsAt(s, p, i);
      StartsAtTail(s, p, i - 1);
    }
    if Contains(s[1..], p) {
      var i: nat :| i <= |s[1..]| && StartsAt(s[1..], p, i);
      StartsAtTail(s, p, i);
    }
  }

  /** Deleting every occurrence of `p` shortens `s` when `p` occurs in it. */
  lemma {:induction false} DeleteShortens(s: string, p: string)
    requires |p| > 0 && Contains(s, p)
    ensures |Replace(s, p, "")| < |s|
    decreases |s|
  {
    if !(p <= s) {
      assert !StartsAt(s, p, 0);
      ContainsTail(s, p);
      DeleteShortens(s[1..], p);
    }
  }

  /** Deleting every occurrence of `p` leaves `s` as it was exactly when `p` does not
      occur in `s`. */
  lemma {:induction false} DeleteUnchangedIff(s: string, p: string)
    requires |p| > 0
    ensures Replace(s, p, "") == s <==> !Contains(s, p)
    decreases |s|
  {
    if Contains(s, p) {
      DeleteShortens(s, p);
    } else if s != [] {
      assert !StartsAt(s, p, 0);
      assert !(p <= s);
      ContainsTail(s, p);
      DeleteUnchangedIff(s[1..], p);
    }
  }

  /** A stretch at none of whose positions the target starts is copied as it is. */
  lemma {:induction false} ReplaceSkip(x: string, y: string, target: string, with: string)
    requires |target| > 0
    requires forall i :: 0 <= i < |x| ==> !StartsAt(x + y, target, i)
    ensures Replace(x + y, target, with) == x + Replace(y, target, with)
    decreases |x|
  {
    if x != [] {
      assert !StartsAt(x + y, target, 0);
      assert !(target <= x + y);
      assert (x + y)[1..] == x[1..] + y;
      forall i | 0 <= i < |x[1..]| ensures !StartsAt(x[1..] + y, target, i) {
        StartsAtTail(x + y, target, i);
      }
      ReplaceSkip(x[1..], y, target, with);
    } else {
      assert x + y == y;
    }
  }

  /** Deleting `p` from `x p y`, where this `p` is the leftmost occurrence and `y`
      holds none, leaves `x y`. */
  lemma DeleteOnly(x: string, p: string, y: string)
    requires |p| > 0
    requires forall i :: 0 <= i < |x| ==> !StartsAt(x + p + y, p, i)
    requires !Contains(y, p)
    ensures Replace(x + p + y, p, "") == x + y
  {
    var rest := p + y;
    assert x + p + y == x + rest;
    ReplaceSkip(x, rest, p, "");
    assert Replace(rest, p, "") == Replace(y, p, "") by {
      assert p <= rest;
      assert rest[|p|..] == y;
    }
    DeleteUnchangedIff(y, p);
  }

  /** A pattern does not start where the text holds a character other than its first. */
  lemma NotStartsAt(s: string, p: string, i: nat)
    requires |p| > 0 && i < |s| && s[i] != p[0]
    ensures !StartsAt(s, p, i)
  {
    assert i + |p| <= |s| ==> s[i..i + |p|][0] == s[i];
  }

  /** A pattern cannot start inside a stretch that lacks its first character. */
  lemma NoStartWithout(x: string, y: string, p: string)
    requires |p| > 0 && p[0] !in x
    ensures forall i :: 0 <= i < |x| ==> !StartsAt(x + y, p, i)
  {
    forall i | 0 <= i < |x| ensures !StartsAt(x + y, p, i) {
      assert (x + y)[i] == x[i];
      NotStartsAt(x + y, p, i);
    }
  }

  /** A string that lacks some character of a pattern does not contain it. */
  lemma MissingCharNotContained(s: string, p: string, c: char)
    requires c in p && c !in s
    ensures !Contains(s, p)
  {
    var j :| 0 <= j < |p| && p[j] == c;
    forall i: nat | i <= |s| ensures !StartsAt(s, p, i) {
      if i + |p| <= |s| {
        assert s[i..i + |p|][j] == s[i + j];
      }
    }
  }

  /** Deleting text never puts in a character that was not there. */
  lemma {:induction false} DeleteKeepsAbsent(s: string, p: string, c: char)
    requires |p| > 0 && c !in s
    ensures c !in Replace(s, p, "")
    decreases |s|
  {
    if s == [] {
    } else if p <= s {
      DeleteKeepsAbsent(s[|p|..], p, c);
    } else {
      DeleteKeepsAbsent(s[1..], p, c);
    }
  }

  // ---------------------------------------------------------------------------
  // Words: `str.split()` with no argument and `sep.join(...)`

  /** The characters of `s` that are not whitespace, in order. */
  function NonSpace(s: string): string {
    if s == [] then [] else (if IsSpace(s[0]) then [] else [s[0]]) + NonSpace(s[1..])
  }

  predicate IsWord(w: string) {
    |w| > 0 && forall i :: 0 <= i < |w| ==> !IsSpace(w[i])
  }

  function Concat(ws: seq<string>): string {
    if ws == [] then [] else ws[0] + Concat(ws[1..])
  }

  /** `s.split()`: the maximal runs of non-whitespace characters, in order. */
  function Words(s: string): (ws: seq<string>)
    ensures forall k :: 0 <= k < |ws| ==> IsWord(ws[k])
    ensures Concat(ws) == NonSpace(s)
    ensures |s| > 0 && !IsSpace(s[0]) ==> |ws| > 0 && |ws[0]| > 0 && ws[0][0] == s[0]
    decreases |s|
  {
    if s == [] then []
    else if IsSpace(s[0]) then Words(s[1..])
    else
      var ws := Words(s[1..]);
      if |s| > 1 && !IsSpace(s[1]) then
        WordsExtend(s[0], ws);
        [[s[0]] + ws[0]] + ws[1..]
      else
        ConcatCons([s[0]], ws);
        [[s[0]]] + ws
  }

  lemma {:induction false} ConcatCons(w: string, ws: seq<string>)
    ensures Concat([w] + ws) == w + Concat(ws)
  {
    assert ([w] + ws)[1..] == ws;
  }

  /** A non-whitespace character put in front of the first word. */
  lemma {:induction false} WordsExtend(c: char, ws: seq<string>)
    requires !IsSpace(c) && |ws| > 0
    requires forall k :: 0 <= k < |ws| ==> IsWord(ws[k])
    ensures forall k :: 0 <= k < |ws| ==> IsWord(([[c] + ws[0]] + ws[1..])[k])
    ensures Concat([[c] + ws[0]] + ws[1..]) == [c] + Concat(ws)
  {
    ExtendedWords(c, ws);
    ExtendedConcat(c, ws);
  }

  lemma {:induction false} ExtendedWords(c: char, ws: seq<string>)
    requires !IsSpace(c) && |ws| > 0
    requires forall k :: 0 <= k < |ws| ==> IsWord(ws[k])
    ensures forall k :: 0 <= k < |ws| ==> IsWord(([[c] + ws[0]] + ws[1..])[k])
  {
    var extended := [[c] + ws[0]] + ws[1..];
    forall k | 0 <= k < |ws| ensures IsWord(extended[k]) {
      if k == 0 {
        IsWordCons(c, ws[0]);
      } else {
        assert extended[k] == ws[k];
      }
    }
  }

  lemma {:induction false} ExtendedConcat(c: char, ws: seq<string>)
    requires |ws| > 0
    ensures Concat([[c] + ws[0]] + ws[1..]) == [c] + Concat(ws)
  {
    ConcatCons([c] + ws[0], ws[1..]);
    assert Concat(ws) == ws[0] + Concat(ws[1..]);
    assert [c] + ws[0] + Concat(ws[1..]) == [c] + (ws[0] + Concat(ws[1..]));
  }


  lemma {:induction false} IsWordCons(c: char, w: string)
    requires !IsSpace(c) && IsWord(w)
    ensures IsWord([c] + w)
  {
    forall i | 0 < i < |w| + 1 ensures !IsSpace(([c] + w)[i]) {
      assert ([c] + w)[i] == w[i - 1];
    }
  }


  /** A single word splits into itself. */
  lemma {:induction false} WordsOfWord(w: string)
    requires IsWord(w)
    ensures Words(w) == [w]
    decreases |w|
  {
    if |w| > 1 {
      WordsOfWord(w[1..]);
      assert !IsSpace(w[1]);
      assert [w[0]] + w[1..] == w;
    } else {
      assert w[1..] == [] && [w[0]] == w;
    }
  }

  /** Leading whitespace is skipped by `split()`. */
  lemma {:induction false} WordsSpaces(sp: string, s: string)
    requires forall i :: 0 <= i < |sp| ==> IsSpace(sp[i])
    ensures Words(sp + s) == Words(s)
    decreases |sp|
  {
    if sp != [] {
      assert (sp + s)[0] == sp[0] && IsSpace(sp[0]);
      assert (sp + s)[1..] == sp[1..] + s;
      WordsSpaces(sp[1..], s);
    } else {
      assert sp + s == s;
    }
  }

  /** A word followed by whitespace is the first piece of `split()`. */
  lemma {:induction false} WordsWordThen(w: string, s: string)
    requires IsWord(w) && |s| > 0 && IsSpace(s[0])
    ensures Words(w + s) == [w] + Words(s)
    decreases |w|
  {
    assert (w + s)[0] == w[0];
    assert (w + s)[1..] == w[1..] + s;
    if |w| > 1 {
      WordsWordThen(w[1..], s);
      assert (w + s)[1] == w[1] && !IsSpace(w[1]);
      assert [w[0]] + w[1..] == w;
    } else {
      assert (w + s)[1] == s[0];
      assert w[1..] + s == s;
      assert [w[0]] == w;
    }
  }

  /** One step of `split()`: a character in front of `t` is dropped if it is
      whitespace, starts the first word of `t` if that word begins right after it,
      and is a word of its own otherwise. */
  lemma WordsCons(c: char, t: string)
    ensures Words([c] + t) ==
      if IsSpace(c) then Words(t)
      else if |t| > 0 && !IsSpace(t[0]) then [[c] + Words(t)[0]] + Words(t)[1..]
      else [[c]] + Words(t)
  {
    var s := [c] + t;
    assert s[0] == c && s[1..] == t;
    if |t| > 0 {
      assert s[1] == t[0];
    }
  }

  /** `split()` cuts at every run of whitespace: whatever surrounds a run is split
      on its own. */
  lemma {:induction false} WordsSplit(a: string, sp: string, b: string)
    requires |sp| > 0 && forall i :: 0 <= i < |sp| ==> IsSpace(sp[i])
    ensures Words(a + sp + b) == Words(a) + Words(b)
    decreases |a|
  {
    if a == [] {
      assert a + sp + b == sp + b;
      WordsSpaces(sp, b);
    } else {
      var c, rest := a[0], a[1..];
      assert a == [c] + rest;
      assert a + sp + b == [c] + (rest + sp + b);
      WordsSplit(rest, sp, b);
      WordsSplitStep(c, rest, sp, b);
    }
  }

  lemma WordsSplitStep(c: char, rest: string, sp: string, b: string)
    requires |sp| > 0 && IsSpace(sp[0])
    requires Words(rest + sp + b) == Words(rest) + Words(b)
    ensures Words([c] + (rest + sp + b)) == Words([c] + rest) + Words(b)
  {
    var t := rest + sp + b;
    WordsCons(c, t);
    WordsCons(c, rest);
    if IsSpace(c) {
    } else if rest != [] && !IsSpace(rest[0]) {
      assert t[0] == rest[0];
      WordsJoinFirst(c, Words(rest), Words(b), Words(t), Words([c] + t), Words([c] + rest));
    } else {
      assert t[0] == if rest == [] then sp[0] else rest[0];
      WordsAlone(c, Words(rest), Words(b), Words(t), Words([c] + t), Words([c] + rest));
    }
  }

  lemma WordsAlone(c: char, wr: seq<string>, wb: seq<string>, wt: seq<string>, wct: seq<string>, wcr: seq<string>)
    requires wt == wr + wb
    requires wct == [[c]] + wt
    requires wcr == [[c]] + wr
    ensures wct == wcr + wb
  {
  }

  lemma WordsJoinFirst(c: char, wr: seq<string>, wb: seq<string>, wt: seq<string>, wct: seq<string>, wcr: seq<string>)
    requires |wr| > 0 && wt == wr + wb
    requires wct == [[c] + wt[0]] + wt[1..]
    requires wcr == [[c] + wr[0]] + wr[1..]
    ensures wct == wcr + wb
  {
    assert wt[0] == wr[0] && wt[1..] == wr[1..] + wb;
  }


  /** `sep.join(ws)` */
  function JoinWith(ws: seq<string>, sep: string): string {
    if ws == [] then [] else if |ws| == 1 then ws[0] else ws[0] + sep + JoinWith(ws[1..], sep)
  }

  /** No leading or trailing whitespace, and every whitespace character is a single
      space between two non-whitespace characters. */
  predicate Collapsed(s: string) {
    && (|s| > 0 ==> !IsSpace(s[0]) && !IsSpace(s[|s| - 1]))
    && forall i :: 0 <= i < |s| && IsSpace(s[i]) ==> s[i] == ' ' && i + 1 < |s| && !IsSpace(s[i + 1])
  }

  /** `" ".join(s.split())`: collapsed text with the words of `s`; by
      `CollapseSpacesUnique` it is the only such text. */
  function CollapseSpaces(s: string): (r: string)
    ensures Collapsed(r)
    ensures Words(r) == Words(s)
    ensures NonSpace(r) == NonSpace(s)
  {
    JoinWordsCollapsed(Words(s));
    WordsJoin(Words(s));
    JoinWith(Words(s), " ")
  }

  /** Joining words with single spaces and splitting again gives the words back. */
  lemma {:induction false} WordsJoin(ws: seq<string>)
    requires forall k :: 0 <= k < |ws| ==> IsWord(ws[k])
    ensures Words(JoinWith(ws, " ")) == ws
    decreases |ws|
  {
    if |ws| == 1 {
      WordsOfWord(ws[0]);
    } else if |ws| > 1 {
      WordsJoin(ws[1..]);
      WordsSplit(ws[0], " ", JoinWith(ws[1..], " "));
      WordsOfWord(ws[0]);
      assert [ws[0]] + ws[1..] == ws;
    }
  }

  lemma {:induction false} JoinAppend(xs: seq<string>, ys: seq<string>, sep: string)
    requires |xs| > 0 && |ys| > 0
    ensures JoinWith(xs + ys, sep) == JoinWith(xs, sep) + sep + JoinWith(ys, sep)
    decreases |xs|
  {
    if |xs| == 1 {
      assert (xs + ys)[1..] == ys;
    } else {
      JoinAppend(xs[1..], ys, sep);
      assert (xs + ys)[1..] == xs[1..] + ys;
    }
  }

  /** Collapsed text is left as it is by `" ".join(t.split())`. */
  lemma {:induction false} CollapsedFixed(t: string)
    requires Collapsed(t)
    ensures CollapseSpaces(t) == t
    decreases |t|
  {
    if forall i :: 0 <= i < |t| ==> !IsSpace(t[i]) {
      if t != [] {
        WordsOfWord(t);
      }
    } else {
      var i :| 0 <= i < |t| && IsSpace(t[i]);
      CollapsedSlices(t, i);
      var a, b := t[..i], t[i + 1..];
      assert t == a + [t[i]] + b;
      CollapsedFixed(a);
      CollapsedFixed(b);
      WordsSplit(a, [t[i]], b);
      JoinAppend(Words(a), Words(b), " ");
      assert t[i] == ' ';
    }
  }

  lemma CollapsedSlices(t: string, i: nat)
    requires Collapsed(t) && i < |t| && IsSpace(t[i])
    ensures 0 < i < |t| - 1
    ensures Collapsed(t[..i]) && Collapsed(t[i + 1..])
    ensures !IsSpace(t[0]) && !IsSpace(t[i + 1])
  {
    var a, b := t[..i], t[i + 1..];
    assert forall j :: 0 <= j < |a| ==> a[j] == t[j];
    assert forall j :: 0 <= j < |b| ==> b[j] == t[i + 1 + j];
    assert !IsSpace(a[|a| - 1]);
  }

  /** `" ".join(s.split())` is the only collapsed text with the words of `s`: every
      run of whitespace becomes exactly one space. */
  lemma CollapseSpacesUnique(s: string, t: string)
    requires Collapsed(t) && Words(t) == Words(s)
    ensures t == CollapseSpaces(s)
  {
    CollapsedFixed(t);
  }

  lemma {:induction false} JoinWordsCollapsed(ws: seq<string>)
    requires forall k :: 0 <= k < |ws| ==> IsWord(ws[k])
    ensures Collapsed(JoinWith(ws, " "))
    ensures NonSpace(JoinWith(ws, " ")) == Concat(ws)
  {
    if |ws| == 0 {
    } else if |ws| == 1 {
      WordNonSpace(ws[0]);
      assert Concat(ws) == ws[0] + Concat([]);
    } else {
      var w, rest := ws[0], JoinWith(ws[1..], " ");
      JoinWordsCollapsed(ws[1..]);
      JoinLength(ws[1..]);
      assert JoinWith(ws, " ") == w + " " + rest;
      WordSpaceCollapsed(w, rest);
      assert w + " " + rest == w + (" " + rest);
      NonSpaceAppend(w, " " + rest);
      NonSpaceAppend(" ", rest);
      assert NonSpace(" ") == [];
      WordNonSpace(w);
      assert Concat(ws) == w + Concat(ws[1..]);
    }
  }

  lemma WordSpaceCollapsed(w: string, rest: string)
    requires IsWord(w) && Collapsed(rest) && |rest| > 0
    ensures Collapsed(w + " " + rest)
  {
    var r := w + " " + rest;
    forall i | 0 <= i < |r|
      ensures IsSpace(r[i]) ==> r[i] == ' ' && i + 1 < |r| && !IsSpace(r[i + 1])
    {
      if i < |w| {
        assert r[i] == w[i];
      } else if i == |w| {
        assert r[i + 1] == rest[0];
      } else {
        assert r[i] == rest[i - |w| - 1];
        if i + 1 < |r| {
          assert r[i + 1] == rest[i - |w|];
        }
      }
    }
    assert r[|r| - 1] == rest[|rest| - 1];
  }

  lemma {:induction false} JoinLength(ws: seq<string>)
    requires |ws| > 0 && IsWord(ws[0])
    ensures |JoinWith(ws, " ")| > 0
  {
  }

  lemma {:induction false} WordNonSpace(w: string)
    requires forall i :: 0 <= i < |w| ==> !IsSpace(w[i])
    ensures NonSpace(w) == w
    decreases |w|
  {
    if w != [] {
      WordNonSpace(w[1..]);
    }
  }

  lemma {:induction false} NonSpaceAppend(a: string, b: string)
    ensures NonSpace(a + b) == NonSpace(a) + NonSpace(b)
    decreases |a|
  {
    if a != [] {
      var head := if IsSpace(a[0]) then [] else [a[0]];
      assert (a + b)[0] == a[0];
      assert (a + b)[1..] == a[1..] + b;
      NonSpaceAppend(a[1..], b);
      assert NonSpace(a + b) == head + NonSpace(a[1..] + b);
      assert NonSpace(a) == head + NonSpace(a[1..]);
    } else {
      assert a + b == b;
    }
  }

  /** Lower-casing does not move whitespace, so it commutes with dropping it. */
  lemma {:induction false} LowerNonSpace(s: string)
    ensures Lower(NonSpace(s)) == NonSpace(Lower(s))
    decreases |s|
  {
    if s != [] {
      LowerNonSpace(s[1..]);
      assert Lower(s)[1..] == Lower(s[1..]);
      var head := if IsSpace(s[0]) then [] else [s[0]];
      assert Lower(head + NonSpace(s[1..])) == Lower(head) + Lower(NonSpace(s[1..]));
    }
  }

  /** `[w.lower() for w in ws]` */
  function LowerAll(ws: seq<string>): (r: seq<string>)
    ensures |r| == |ws|
  {
    seq(|ws|, k requires 0 <= k < |ws| => Lower(ws[k]))
  }

  /** Lower-casing does not move whitespace, so the words of the lower-cased text
      are the lower-cased words. */
  lemma {:induction false} WordsLower(s: string)
    ensures Words(Lower(s)) == LowerAll(Words(s))
    decreases |s|
  {
    if s != [] {
      var c, t := s[0], s[1..];
      assert s == [c] + t;
      LowerCons(c, t);
      WordsLower(t);
      WordsLowerStep(c, t);
    }
  }

  lemma WordsLowerStep(c: char, t: string)
    requires Words(Lower(t)) == LowerAll(Words(t))
    ensures Words([ToLower(c)] + Lower(t)) == LowerAll(Words([c] + t))
  {
    var lt := Lower(t);
    WordsCons(c, t);
    WordsCons(ToLower(c), lt);
    if |t| > 0 {
      assert lt[0] == ToLower(t[0]);
    }
    if IsSpace(c) {
    } else if |t| > 0 && !IsSpace(t[0]) {
      LowerFirst(c, Words(t), Words(lt), Words([ToLower(c)] + lt), Words([c] + t));
    } else {
      LowerAlone(c, Words(t), Words(lt), Words([ToLower(c)] + lt), Words([c] + t));
    }
  }

  lemma LowerFirst(c: char, ws: seq<string>, lws: seq<string>, wcl: seq<string>, wc: seq<string>)
    requires |ws| > 0 && lws == LowerAll(ws)
    requires wcl == [[ToLower(c)] + lws[0]] + lws[1..]
    requires wc == [[c] + ws[0]] + ws[1..]
    ensures wcl == LowerAll(wc)
  {
    assert Lower([c] + ws[0]) == [ToLower(c)] + Lower(ws[0]);
    assert LowerAll(wc) == [Lower([c] + ws[0])] + LowerAll(ws)[1..];
  }

  lemma LowerAlone(c: char, ws: seq<string>, lws: seq<string>, wcl: seq<string>, wc: seq<string>)
    requires lws == LowerAll(ws)
    requires wcl == [[ToLower(c)]] + lws
    requires wc == [[c]] + ws
    ensures wcl == LowerAll(wc)
  {
    assert Lower([c]) == [ToLower(c)];
    assert forall k :: 1 <= k < |wc| ==> LowerAll(wc)[k] == Lower(ws[k - 1]);
  }

  /** Lower-casing keeps collapsed text collapsed. */
  lemma LowerCollapsed(s: string)
    requires Collapsed(s)
    ensures Collapsed(Lower(s))
  {
  }

  /** Two capitalized strings that lower-case alike are equal. */
  lemma CapitalizedUnique(a: string, b: string)
    requires |a| > 0 ==> !IsLower(a[0])
    requires |b| > 0 ==> !IsLower(b[0])
    requires forall i :: 1 <= i < |a| ==> !IsUpper(a[i])
    requires forall i :: 1 <= i < |b| ==> !IsUpper(b[i])
    requires Lower(a) == Lower(b)
    ensures a == b
  {
    assert |a| == |Lower(a)| == |Lower(b)| == |b|;
    forall i | 0 <= i < |a| ensures a[i] == b[i] {
      assert Lower(a)[i] == ToLower(a[i]) && Lower(b)[i] == ToLower(b[i]);
    }
  }

  /** Capitalising keeps a collapsed string collapsed. */
  lemma CapitalizeCollapsed(s: string)
    requires Collapsed(s)
    ensures Collapsed(Capitalize(s))
  {
    var r := Capitalize(s);
    forall i | 0 <= i < |r| && IsSpace(r[i]) ensures r[i] == s[i] {
      if i > 0 {
        assert r[i] == ToLower(s[i]);
      }
    }
  }

  // ---------------------------------------------------------------------------
  // `s.split(sep)` with a one-character separator

  /** `s.split(sep)`: the pieces between separators, so an empty string yields `[""]`
      and two adjacent separators an empty piece. */
  function SplitOn(s: string, sep: char): (parts: seq<string>)
    ensures |parts| > 0
    decreases |s|
  {
    if s == [] then [[]]
    else
      var rest := SplitOn(s[1..], sep);
      if s[0] == sep then [[]] + rest else [[s[0]] + rest[0]] + rest[1..]
  }

  function CountChar(s: string, c: char): nat {
    if s == [] then 0 else (if s[0] == c then 1 else 0) + CountChar(s[1..], c)
  }

  /** Splitting on `sep` and joining again with `sep` gives the string back; there is
      one more piece than there are separators, and no piece holds the separator. */
  lemma {:induction false} SplitOnSpec(s: string, sep: char)
    ensures JoinWith(SplitOn(s, sep), [sep]) == s
    ensures |SplitOn(s, sep)| == CountChar(s, sep) + 1
    ensures forall k :: 0 <= k < |SplitOn(s, sep)| ==> sep !in SplitOn(s, sep)[k]
    decreases |s|
  {
    if s != [] {
      var rest := SplitOn(s[1..], sep);
      SplitOnSpec(s[1..], sep);
      if s[0] == sep {
        assert SplitOn(s, sep) == [[]] + rest;
        assert JoinWith([[]] + rest, [sep]) == [] + [sep] + JoinWith(rest, [sep]);
        assert s == [s[0]] + s[1..];
      } else {
        var parts := [[s[0]] + rest[0]] + rest[1..];
        assert SplitOn(s, sep) == parts;
        if |rest| == 1 {
          assert s == [s[0]] + s[1..];
        } else {
          assert parts[1..] == rest[1..];
          assert JoinWith(parts, [sep]) == [s[0]] + (rest[0] + [sep] + JoinWith(rest[1..], [sep]));
          assert s == [s[0]] + s[1..];
        }
        forall k | 0 <= k < |parts| ensures sep !in parts[k] {
          if k > 0 {
            assert parts[k] == rest[k];
          }
        }
      }
    }
  }

  // ---------------------------------------------------------------------------
  // `str(n)` for a non-negative integer

  function DigitsValue(r: string): nat
    requires forall i :: 0 <= i < |r| ==> IsDigit(r[i])
  {
    if r == [] then 0
    else
      assert IsDigit(r[|r| - 1]);
      DigitsValue(r[..|r| - 1]) * 10 + (r[|r| - 1] as int - '0' as int)
  }

  /** `str(n)`: decimal digits without leading zeros that read back as `n`. */
  function Decimal(n: nat): (r: string)
    ensures |r| > 0 && forall i :: 0 <= i < |r| ==> IsDigit(r[i])
    ensures |r| == 1 || r[0] != '0'
    ensures DigitsValue(r) == n
  {
    if n < 10 then [('0' as int + n) as char]
    else
      var r := Decimal(n / 10) + [('0' as int + n % 10) as char];
      assert r[..|r| - 1] == Decimal(n / 10);
      r
  }
}
