/**
  Markdown escaping of table cells (`md_escape` and `escape_table` in
  release_notes.py): each of fourteen characters that Markdown treats specially is
  prefixed with a backslash.
 */
module Markdown {
  import opened Strings

  /** The keys of `escape_table()`, in the dict's insertion order. */
  const Special: string := "*_{}[]()#+-.!|"

  /** `escape_table()`: every key maps to itself prefixed with a backslash. */
  function EscapeTable(): (table: seq<(char, string)>)
    ensures |table| == |Special| == 14
    ensures forall i :: 0 <= i < |table| ==> table[i].0 == Special[i] && table[i].1 == ['\\', Special[i]]
  {
    [('*', "\\*"), ('_', "\\_"), ('{', "\\{"), ('}', "\\}"), ('[', "\\["), (']', "\\]"), ('(', "\\("),
     (')', "\\)"), ('#', "\\#"), ('+', "\\+"), ('-', "\\-"), ('.', "\\."), ('!', "\\!"), ('|', "\\|")]
  }

  /** The keys are pairwise distinct and the backslash is not one of them, so no
      replacement puts in a character that a later replacement would act on. */
  lemma SpecialKeys()
    ensures forall i, j :: 0 <= i < j < |Special| ==> Special[i] != Special[j]
    ensures '\\' !in Special
  {
  }

  /** Per-character escaping: each character of `keys` gets a backslash in front of it,
      every other character is copied. */
  function EscapeWith(s: string, keys: string): (r: string)
    ensures |s| <= |r| <= 2 * |s|
  {
    if s == [] then []
    else (if s[0] in keys then ['\\', s[0]] else [s[0]]) + EscapeWith(s[1..], keys)
  }

  /** What `md_escape` computes. */
  function Escaped(s: string): (r: string)
    ensures |s| <= |r| <= 2 * |s|
  {
    EscapeWith(s, Special)
  }

  function CountSpecial(s: string): nat {
    if s == [] then 0 else (if s[0] in Special then 1 else 0) + CountSpecial(s[1..])
  }

  /** Removes the backslash in front of each escaped special character. */
  function Unescape(t: string): string
    decreases |t|
  {
    if t == [] then []
    else if |t| >= 2 && t[0] == '\\' && t[1] in Special then [t[1]] + Unescape(t[2..])
    else [t[0]] + Unescape(t[1..])
  }

  // ---------------------------------------------------------------------------
  // The loop of `md_escape`

  /** `md_escape`: one `str.replace` per table entry, in table order. */
  method MdEscape(text: string) returns (escaped: string)
    ensures escaped == Escaped(text)
  {
    var table := EscapeTable();
    SpecialKeys();
    escaped := text;
    EscapeWithNoKeys(text);
    for i := 0 to |table|
      invariant escaped == EscapeWith(text, Special[..i])
    {
      var (key, value) := table[i];
      ReplaceIsNextKey(text, Special[..i], key);
      escaped := Replace(escaped, [key], value);
      assert Special[..i + 1] == Special[..i] + [key];
    }
    assert Special[..|table|] == Special;
  }

  lemma {:induction false} EscapeWithNoKeys(s: string)
    ensures EscapeWith(s, []) == s
    decreases |s|
  {
    if s != [] {
      EscapeWithNoKeys(s[1..]);
    }
  }

  /** `str.replace` of a single character distributes over concatenation. */
  lemma {:induction false} ReplaceCharAppend(a: string, b: string, key: char, with: string)
    ensures Replace(a + b, [key], with) == Replace(a, [key], with) + Replace(b, [key], with)
    decreases |a|
  {
    if a == [] {
      assert a + b == b;
    } else {
      assert (a + b)[0] == a[0];
      assert (a + b)[1..] == a[1..] + b;
      ReplaceCharAppend(a[1..], b, key, with);
      var rest := Replace(a[1..] + b, [key], with);
      var head := if a[0] == key then with else [a[0]];
      assert [key] <= a + b <==> [key] <= a;
      assert Replace(a + b, [key], with) == head + rest;
      assert Replace(a, [key], with) == head + Replace(a[1..], [key], with);
    }
  }

  /** Replacing the next key in a string already escaped for `keys` gives the string
      escaped for `keys` plus that key: sequential replacement is per-character
      escaping. */
  lemma {:induction false} ReplaceIsNextKey(s: string, keys: string, key: char)
    requires key !in keys && key != '\\'
    ensures Replace(EscapeWith(s, keys), [key], ['\\', key]) == EscapeWith(s, keys + [key])
    decreases |s|
  {
    if s != [] {
      var c := s[0];
      var head := if c in keys then ['\\', c] else [c];
      ReplaceCharAppend(head, EscapeWith(s[1..], keys), key, ['\\', key]);
      ReplaceIsNextKey(s[1..], keys, key);
      if c == key {
        assert Replace(head, [key], ['\\', key]) == ['\\', key] + Replace([], [key], ['\\', key]);
      } else {
        ReplaceAbsent(head, key, ['\\', key]);
      }
    }
  }

  /** Replacing a character that does not occur changes nothing. */
  lemma {:induction false} ReplaceAbsent(s: string, key: char, with: string)
    requires key !in s
    ensures Replace(s, [key], with) == s
    decreases |s|
  {
    if s != [] {
      assert s[0] != key;
      assert forall i :: 0 <= i < |s| - 1 ==> s[1..][i] == s[i + 1];
      ReplaceAbsent(s[1..], key, with);
    }
  }

  // ---------------------------------------------------------------------------
  // Properties of the escaped text

  /** Escaping adds exactly one character per special character. */
  lemma {:induction false} EscapedLength(s: string)
    ensures |Escaped(s)| == |s| + CountSpecial(s)
    decreases |s|
  {
    if s != [] {
      EscapedLength(s[1..]);
    }
  }

  /** Escaping changes a string exactly when it holds a special character. */
  lemma EscapedUnchangedIff(s: string)
    ensures Escaped(s) == s <==> forall i :: 0 <= i < |s| ==> s[i] !in Special
  {
    EscapedLength(s);
    NoSpecialCount(s);
    if forall i :: 0 <= i < |s| ==> s[i] !in Special {
      NoSpecialIdentity(s);
    }
  }

  lemma {:induction false} NoSpecialCount(s: string)
    ensures CountSpecial(s) == 0 <==> forall i :: 0 <= i < |s| ==> s[i] !in Special
    decreases |s|
  {
    if s != [] {
      NoSpecialCount(s[1..]);
      assert forall i :: 1 <= i < |s| ==> s[i] == s[1..][i - 1];
    }
  }

  lemma {:induction false} NoSpecialIdentity(s: string)
    requires forall i :: 0 <= i < |s| ==> s[i] !in Special
    ensures Escaped(s) == s
    decreases |s|
  {
    if s != [] {
      NoSpecialIdentity(s[1..]);
    }
  }

  /** Every special character of the escaped text directly follows a backslash. */
  lemma {:induction false} EscapedSpecialsPreceded(s: string)
    ensures forall i :: 0 <= i < |Escaped(s)| && Escaped(s)[i] in Special ==>
      i > 0 && Escaped(s)[i - 1] == '\\'
    decreases |s|
  {
    if s != [] {
      SpecialKeys();
      EscapedSpecialsPreceded(s[1..]);
      var e, rest := Escaped(s), Escaped(s[1..]);
      var head := if s[0] in Special then ['\\', s[0]] else [s[0]];
      assert e == head + rest;
      forall i | 0 <= i < |e| && e[i] in Special ensures i > 0 && e[i - 1] == '\\' {
        if i >= |head| {
          assert e[i] == rest[i - |head|];
          if i - |head| > 0 {
            assert e[i - 1] == rest[i - |head| - 1];
          }
        }
      }
    }
  }

  /** Unescaping the escaped text gives the original back, backslashes included. */
  lemma {:induction false} UnescapeEscaped(s: string)
    ensures Unescape(Escaped(s)) == s
    decreases |s|
  {
    if s != [] {
      SpecialKeys();
      UnescapeEscaped(s[1..]);
      var rest := Escaped(s[1..]);
      if s[0] in Special {
        assert Escaped(s) == ['\\', s[0]] + rest;
        assert (['\\', s[0]] + rest)[2..] == rest;
      } else {
        assert Escaped(s) == [s[0]] + rest;
        assert ([s[0]] + rest)[1..] == rest;
        if |rest| > 0 {
          assert rest[0] !in Special by {
            assert rest[0] == (if s[1] in Special then '\\' else s[1]);
          }
        }
      }
    }
  }

  /** Escaping is not idempotent: escaping twice equals escaping once exactly when the
      input holds no special character (the backslash is not itself escaped). */
  lemma EscapeTwiceIff(s: string)
    ensures Escaped(Escaped(s)) == Escaped(s) <==> forall i :: 0 <= i < |s| ==> s[i] !in Special
  {
    EscapedUnchangedIff(Escaped(s));
    EscapedUnchangedIff(s);
    if exists i :: 0 <= i < |s| && s[i] in Special {
      var i :| 0 <= i < |s| && s[i] in Special;
      SpecialSurvives(s, i);
    }
  }

  lemma {:induction false} SpecialSurvives(s: string, i: nat)
    requires i < |s| && s[i] in Special
    ensures exists j :: 0 <= j < |Escaped(s)| && Escaped(s)[j] in Special
    decreases |s|
  {
    var head := if s[0] in Special then ['\\', s[0]] else [s[0]];
    assert Escaped(s) == head + Escaped(s[1..]);
    if i == 0 {
      assert Escaped(s)[1] == s[0];
    } else {
      SpecialSurvives(s[1..], i - 1);
      var j :| 0 <= j < |Escaped(s[1..])| && Escaped(s[1..])[j] in Special;
      assert Escaped(s)[|head| + j] == Escaped(s[1..])[j];
    }
  }

  /** A backslash already in front of a special character is copied, and the
      character gets a second backslash: `\|` becomes `\\|`. */
  lemma BackslashNotEscaped()
    ensures Escaped("\\|") == "\\\\|"
  {
    assert Escaped("\\|") == ['\\'] + Escaped("|");
  }
}
