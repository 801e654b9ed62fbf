/**
  The string operations the help pipeline is built from: case folding,
  global replacement of a literal pattern (with or without the `i` flag),
  replacement of a leading occurrence (a `^`-anchored pattern), and
  `Array.prototype.join` with its inverse.
 */
module Strings {

  /** ASCII lower-casing. JavaScript's `i` flag without `u` never folds a
      non-ASCII character onto an ASCII one, so for an ASCII pattern such as
      `brobbot` this is exactly the folding the regular expression applies. */
  function Lower(c: char): (d: char)
    ensures !('A' <= d <= 'Z')
    ensures d == c || 'A' <= c <= 'Z'
  {
    if 'A' <= c <= 'Z' then (c as int + 32) as char else c
  }

  function Fold(s: string): string
  {
    seq(|s|, i requires 0 <= i < |s| => Lower(s[i]))
  }

  /** `a` and `b` are equal, up to ASCII case when `ci` is set. */
  predicate Same(a: string, b: string, ci: bool)
  {
    if ci then Fold(a) == Fold(b) else a == b
  }

  /** `pat` occurs in `s` starting at index `i`. */
  predicate MatchAt(s: string, i: nat, pat: string, ci: bool)
  {
    i + |pat| <= |s| && Same(s[i..i + |pat|], pat, ci)
  }

  predicate Occurs(s: string, pat: string, ci: bool)
  {
    exists i: nat :: i <= |s| && MatchAt(s, i, pat, ci)
  }

  predicate StartsWith(s: string, p: string)
  {
    |p| <= |s| && s[..|p|] == p
  }

  lemma FoldAppend(a: string, b: string)
    ensures Fold(a + b) == Fold(a) + Fold(b)
  {
  }

  /** An occurrence in a suffix is an occurrence in the whole string. */
  lemma MatchInSuffix(s: string, k: nat, i: nat, pat: string, ci: bool)
    requires k <= |s|
    requires MatchAt(s[k..], i, pat, ci)
    ensures MatchAt(s, k + i, pat, ci)
  {
    assert s[k..][i..i + |pat|] == s[k + i..k + i + |pat|];
  }

  /**
    `s.replace(pat, rep)` for a literal, global pattern (`/pat/g`, or
    `/pat/ig` when `ci`): the text is scanned left to right, each leftmost
    occurrence is replaced, scanning resumes after it, and the inserted
    text is never scanned again.
   */
  function ReplaceAll(s: string, pat: string, rep: string, ci: bool): string
    requires pat != []
    decreases |s|
  {
    if s == [] then []
    else if MatchAt(s, 0, pat, ci) then rep + ReplaceAll(s[|pat|..], pat, rep, ci)
    else [s[0]] + ReplaceAll(s[1..], pat, rep, ci)
  }

  /** Text in which no occurrence starts is copied through unchanged. */
  lemma {:induction false} ReplaceSkip(x: string, y: string, pat: string, rep: string, ci: bool)
    requires pat != []
    requires forall i: nat :: i < |x| ==> !MatchAt(x + y, i, pat, ci)
    ensures ReplaceAll(x + y, pat, rep, ci) == x + ReplaceAll(y, pat, rep, ci)
    decreases |x|
  {
    if x != [] {
      var s := x + y;
      assert !MatchAt(s, 0, pat, ci);
      assert ReplaceAll(s, pat, rep, ci) == [s[0]] + ReplaceAll(s[1..], pat, rep, ci);
      NoMatchInTail(x, y, pat, ci);
      assert s[1..] == x[1..] + y;
      ReplaceSkip(x[1..], y, pat, rep, ci);
      var t := ReplaceAll(y, pat, rep, ci);
      assert ReplaceAll(s, pat, rep, ci) == [x[0]] + (x[1..] + t);
      assert [x[0]] + (x[1..] + t) == x + t;
    } else {
      assert x + y == y;
    }
  }

  /** A text without an occurrence of the pattern is left as it is. */
  lemma ReplaceAbsent(s: string, pat: string, rep: string, ci: bool)
    requires pat != [] && !Occurs(s, pat, ci)
    ensures ReplaceAll(s, pat, rep, ci) == s
  {
    assert s + [] == s;
    ReplaceSkip(s, [], pat, rep, ci);
  }

  /** A text none of whose characters folds to the pattern's `k`-th
      character holds no occurrence of the pattern. */
  lemma AbsentByChar(s: string, pat: string, ci: bool, k: nat)
    requires k < |pat|
    requires forall c :: c in s ==> Lower(c) != Lower(pat[k])
    ensures !Occurs(s, pat, ci)
  {
    forall i: nat | i <= |s|
      ensures !MatchAt(s, i, pat, ci)
    {
      if i + |pat| <= |s| {
        assert s[i + k] in s;
        assert Fold(s[i..i + |pat|])[k] == Lower(s[i + k]);
      }
    }
  }

  lemma NoMatchInTail(x: string, y: string, pat: string, ci: bool)
    requires x != []
    requires forall i: nat :: i < |x| ==> !MatchAt(x + y, i, pat, ci)
    ensures forall i: nat :: i < |x[1..]| ==> !MatchAt(x[1..] + y, i, pat, ci)
  {
    assert (x + y)[1..] == x[1..] + y;
    forall i: nat | i < |x[1..]|
      ensures !MatchAt(x[1..] + y, i, pat, ci)
    {
      if MatchAt(x[1..] + y, i, pat, ci) {
        MatchInSuffix(x + y, 1, i, pat, ci);
      }
    }
  }

  /**
    The leftmost occurrence `m` is replaced by `rep`, and scanning resumes
    on the original text after `m`: what precedes the first occurrence is
    kept, and the inserted `rep` is not rescanned.
   */
  lemma {:induction false} ReplaceFirst(x: string, m: string, y: string, pat: string, rep: string, ci: bool)
    requires pat != [] && |m| == |pat| && Same(m, pat, ci)
    requires forall i: nat :: i < |x| ==> !MatchAt(x + m + y, i, pat, ci)
    ensures ReplaceAll(x + m + y, pat, rep, ci) == x + rep + ReplaceAll(y, pat, rep, ci)
  {
    assert x + m + y == x + (m + y);
    ReplaceSkip(x, m + y, pat, rep, ci);
    assert (m + y)[..|pat|] == m;
    assert MatchAt(m + y, 0, pat, ci);
    assert (m + y)[|pat|..] == y;
  }

  /** Replacing by a case variant of the pattern changes letter case only. */
  lemma {:induction false} ReplaceCaseOnly(s: string, pat: string, rep: string)
    requires pat != [] && Fold(rep) == Fold(pat)
    ensures Fold(ReplaceAll(s, pat, rep, true)) == Fold(s)
    decreases |s|
  {
    if s != [] {
      if MatchAt(s, 0, pat, true) {
        ReplaceCaseOnly(s[|pat|..], pat, rep);
        FoldAppend(rep, ReplaceAll(s[|pat|..], pat, rep, true));
        assert s == s[..|pat|] + s[|pat|..];
        FoldAppend(s[..|pat|], s[|pat|..]);
      } else {
        ReplaceCaseOnly(s[1..], pat, rep);
        FoldAppend([s[0]], ReplaceAll(s[1..], pat, rep, true));
        assert s == [s[0]] + s[1..];
        FoldAppend([s[0]], s[1..]);
      }
    }
  }

  /** No character of `t` folds to a character of `pat`. */
  predicate Disjoint(t: string, pat: string)
  {
    forall j, k :: 0 <= j < |t| && 0 <= k < |pat| ==> Lower(t[j]) != Lower(pat[k])
  }

  /** An occurrence cannot reach over a character that folds to no
      character of the pattern. */
  lemma NoMatchAcross(x: string, y: string, i: nat, pat: string, ci: bool)
    requires y != [] && Disjoint(y[..1], pat)
    requires i <= |x| < i + |pat|
    ensures !MatchAt(x + y, i, pat, ci)
  {
    var s := x + y;
    if i + |pat| <= |s| {
      var w, k := s[i..i + |pat|], |x| - i;
      assert w[k] == y[0] && y[..1][0] == y[0];
      assert Lower(w[k]) != Lower(pat[k]);
      assert Fold(w)[k] != Fold(pat)[k];
    }
  }

  /** When the text after `x` starts with a character that folds to no
      character of the pattern, no occurrence spans the boundary, and the
      replacement acts on the two sides separately. */
  lemma {:induction false} ReplaceAcross(x: string, y: string, pat: string, rep: string, ci: bool)
    requires pat != []
    requires y != [] && Disjoint(y[..1], pat)
    ensures ReplaceAll(x + y, pat, rep, ci) == ReplaceAll(x, pat, rep, ci) + ReplaceAll(y, pat, rep, ci)
    decreases |x|
  {
    var s := x + y;
    if x == [] {
      assert s == y;
    } else {
      assert s[0] == x[0];
      if |pat| <= |x| {
        assert s[0..|pat|] == x[0..|pat|];
      } else {
        NoMatchAcross(x, y, 0, pat, ci);
      }
      var n := if MatchAt(x, 0, pat, ci) then |pat| else 1;
      assert MatchAt(s, 0, pat, ci) == MatchAt(x, 0, pat, ci);
      assert s[n..] == x[n..] + y;
      ReplaceAcross(x[n..], y, pat, rep, ci);
    }
  }

  /** Text none of whose characters folds to a character of the pattern is
      copied through unchanged, whatever follows it. */
  lemma PassOver(t: string, y: string, pat: string, rep: string, ci: bool)
    requires pat != [] && Disjoint(t, pat)
    ensures ReplaceAll(t + y, pat, rep, ci) == t + ReplaceAll(y, pat, rep, ci)
  {
    forall i: nat | i < |t|
      ensures !MatchAt(t + y, i, pat, ci)
    {
      if i + |pat| <= |t + y| {
        var w := (t + y)[i..i + |pat|];
        assert w[0] == t[i];
        assert Fold(w)[0] != Fold(pat)[0];
      }
    }
    ReplaceSkip(t, y, pat, rep, ci);
  }

  /** A one-character pattern is replaced character by character, so the
      replacement distributes over concatenation. */
  lemma {:induction false} ReplaceCharAppend(a: string, b: string, c: char, rep: string)
    ensures ReplaceAll(a + b, [c], rep, false) == ReplaceAll(a, [c], rep, false) + ReplaceAll(b, [c], rep, false)
    decreases |a|
  {
    if a != [] {
      assert (a + b)[1..] == a[1..] + b;
      assert (a + b)[0..1] == a[0..1];
      assert MatchAt(a + b, 0, [c], false) == MatchAt(a, 0, [c], false);
      ReplaceCharAppend(a[1..], b, c, rep);
    } else {
      assert a + b == b;
    }
  }

  /**
    `s.replace(new RegExp("^" + lead), with)` for a `lead` without regular
    expression metacharacters: only an occurrence at the very start is
    replaced.
   */
  function ReplaceLeading(s: string, lead: string, with: string): string
  {
    if StartsWith(s, lead) then with + s[|lead|..] else s
  }

  /** Everything after a leading occurrence (or, without one, the whole
      text) is kept, so occurrences further in survive, shifted. */
  lemma LeadingOnly(s: string, lead: string, with: string, i: nat)
    requires MatchAt(s, i, lead, false)
    requires if StartsWith(s, lead) then i >= |lead| else i > 0
    ensures var r := ReplaceLeading(s, lead, with);
      MatchAt(r, if StartsWith(s, lead) then i - |lead| + |with| else i, lead, false)
  {
    if StartsWith(s, lead) {
      var j := i - |lead| + |with|;
      var r := with + s[|lead|..];
      assert r[j..j + |lead|] == s[i..i + |lead|];
    }
  }

  /** Replacing a leading `lead` by itself is the identity. */
  lemma LeadingSelf(s: string, lead: string)
    ensures ReplaceLeading(s, lead, lead) == s
  {
    if StartsWith(s, lead) {
      assert s == s[..|lead|] + s[|lead|..];
    }
  }

  /** `parts.join(sep)`. */
  function Join(parts: seq<string>, sep: string): string
  {
    if |parts| == 0 then ""
    else if |parts| == 1 then parts[0]
    else parts[0] + sep + Join(parts[1..], sep)
  }

  /** `s.split(sep)` for a one-character separator: the inverse of `Join`. */
  function Split(s: string, sep: char): (parts: seq<string>)
    ensures |parts| >= 1
    decreases |s|
  {
    if s == [] then [""]
    else
      var rest := Split(s[1..], sep);
      if s[0] == sep then [""] + rest else [[s[0]] + rest[0]] + rest[1..]
  }

  lemma {:induction false} SplitNoSep(x: string, y: string, sep: char)
    requires sep !in x
    ensures Split(x + y, sep) == [x + Split(y, sep)[0]] + Split(y, sep)[1..]
    decreases |x|
  {
    if x != [] {
      assert (x + y)[1..] == x[1..] + y;
      SplitNoSep(x[1..], y, sep);
      assert [x[0]] + (x[1..] + Split(y, sep)[0]) == x + Split(y, sep)[0];
    } else {
      assert x + y == y;
      assert x + Split(y, sep)[0] == Split(y, sep)[0];
      assert Split(y, sep) == [Split(y, sep)[0]] + Split(y, sep)[1..];
    }
  }

  /** The replacement applied to each part on its own. */
  function ReplaceEach(parts: seq<string>, pat: string, rep: string, ci: bool): seq<string>
    requires pat != []
  {
    seq(|parts|, i requires 0 <= i < |parts| => ReplaceAll(parts[i], pat, rep, ci))
  }

  /** With a separator that shares no character with the pattern, replacing
      in the joined text is joining the replaced parts: no occurrence spans
      two parts. */
  lemma {:induction false} ReplaceJoin(parts: seq<string>, sep: string, pat: string, rep: string, ci: bool)
    requires pat != [] && sep != [] && Disjoint(sep, pat)
    ensures ReplaceAll(Join(parts, sep), pat, rep, ci) == Join(ReplaceEach(parts, pat, rep, ci), sep)
    decreases |parts|
  {
    var each := ReplaceEach(parts, pat, rep, ci);
    if |parts| > 1 {
      var tail := Join(parts[1..], sep);
      assert Join(parts, sep) == parts[0] + (sep + tail);
      assert (sep + tail)[..1] == sep[..1];
      ReplaceAcross(parts[0], sep + tail, pat, rep, ci);
      PassOver(sep, tail, pat, rep, ci);
      ReplaceJoin(parts[1..], sep, pat, rep, ci);
      assert each[1..] == ReplaceEach(parts[1..], pat, rep, ci);
      assert Join(each, sep) == each[0] + sep + Join(each[1..], sep);
    }
  }

  /** Splitting a join of separator-free parts gives back the parts: one
      segment per part, in order. */
  lemma {:induction false} SplitJoin(parts: seq<string>, sep: char)
    requires |parts| >= 1
    requires forall k :: 0 <= k < |parts| ==> sep !in parts[k]
    ensures Split(Join(parts, [sep]), sep) == parts
    decreases |parts|
  {
    if |parts| == 1 {
      SplitNoSep(parts[0], "", sep);
      assert Split("", sep) == [""];
      assert parts[0] + "" == parts[0];
    } else {
      var tail := Join(parts[1..], [sep]);
      SplitJoin(parts[1..], sep);
      assert Join(parts, [sep]) == parts[0] + ([sep] + tail);
      SplitNoSep(parts[0], [sep] + tail, sep);
      assert ([sep] + tail)[1..] == tail;
      assert Split([sep] + tail, sep) == [""] + parts[1..];
      assert parts[0] + "" == parts[0];
      assert parts == [parts[0]] + parts[1..];
    }
  }

  /** Joining the pieces of a split gives back the text. */
  lemma {:induction false} JoinSplit(s: string, sep: char)
    ensures Join(Split(s, sep), [sep]) == s
    decreases |s|
  {
    if s != [] {
      var rest := Split(s[1..], sep);
      JoinSplit(s[1..], sep);
      if s[0] == sep {
        assert Join([""] + rest, [sep]) == "" + [sep] + Join(rest, [sep]);
      } else {
        var parts := [[s[0]] + rest[0]] + rest[1..];
        if |rest| == 1 {
          assert Join(parts, [sep]) == [s[0]] + rest[0];
        } else {
          assert parts[1..] == rest[1..];
          assert Join(rest, [sep]) == rest[0] + [sep] + Join(rest[1..], [sep]);
        }
      }
      assert s == [s[0]] + s[1..];
    }
  }

}
