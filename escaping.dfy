/**
  HTML escaping of a help entry as the router handler does it: three global
  replacements, of `&`, then `<`, then `>`. The three passes are shown equal
  to escaping each character on its own, which gives the safety properties
  and the round trip through unescaping in the reverse order.
 */
module Escaping {
  import opened Strings

  /** `cmd.replace(/&/g, '&amp;').replace(/</g, '&lt;').replace(/>/g, '&gt;')`. */
  function EscapeHtml(s: string): string
  {
    ReplaceAll(ReplaceAll(ReplaceAll(s, "&", "&amp;", false), "<", "&lt;", false), ">", "&gt;", false)
  }

  /** The reverse passes: `&gt;`, then `&lt;`, then `&amp;`. */
  function UnescapeHtml(s: string): string
  {
    ReplaceAll(ReplaceAll(ReplaceAll(s, "&gt;", ">", false), "&lt;", "<", false), "&amp;", "&", false)
  }

  /** The escape of a single character. */
  function EscapeChar(c: char): string
  {
    if c == '&' then "&amp;" else if c == '<' then "&lt;" else if c == '>' then "&gt;" else [c]
  }

  /** The concatenation of `f(c)` over the characters `c` of `s`. */
  function Flat(s: string, f: char -> string): string
  {
    if s == [] then [] else f(s[0]) + Flat(s[1..], f)
  }

  /** `r[i..]` starts with one of the three entities the escape produces. */
  predicate EntityAt(r: string, i: nat)
    requires i <= |r|
  {
    StartsWith(r[i..], "&amp;") || StartsWith(r[i..], "&lt;") || StartsWith(r[i..], "&gt;")
  }

  /** No occurrence of `pat` can start inside `piece`, whatever follows it. */
  predicate Passes(piece: string, pat: string)
  {
    pat != [] && !StartsWith(piece, pat) && !StartsWith(pat, piece) && pat[0] !in piece[1..]
  }

  lemma PassesSkip(piece: string, y: string, pat: string)
    requires piece != [] && Passes(piece, pat)
    ensures forall i: nat :: i < |piece| ==> !MatchAt(piece + y, i, pat, false)
  {
  }

  /** A piece that differs from the pattern at some index and holds no
      further copy of the pattern's first character passes. */
  lemma PassesAt(piece: string, pat: string, j: nat)
    requires pat != [] && j < |piece| && j < |pat| && piece[j] != pat[j]
    requires pat[0] !in piece[1..]
    ensures Passes(piece, pat)
  {
  }

  /**
    One replacement pass over a text built piece by piece: if every piece
    either is the pattern (and becomes the replacement) or cannot hold the
    start of an occurrence (and stays), the pass maps each piece on its own.
   */
  lemma {:induction false} ReplaceFlat(s: string, f: char -> string, g: char -> string, pat: string, rep: string)
    requires pat != []
    requires forall c :: (f(c) == pat && g(c) == rep) || (g(c) == f(c) && f(c) != [] && Passes(f(c), pat))
    ensures ReplaceAll(Flat(s, f), pat, rep, false) == Flat(s, g)
    decreases |s|
  {
    if s != [] {
      var y := Flat(s[1..], f);
      ReplaceFlat(s[1..], f, g, pat, rep);
      if f(s[0]) == pat && g(s[0]) == rep {
        assert [] + pat + y == Flat(s, f);
        ReplaceFirst([], pat, y, pat, rep, false);
      } else {
        PassesSkip(f(s[0]), y, pat);
        ReplaceSkip(f(s[0]), y, pat, rep, false);
      }
    }
  }

  lemma ReplaceSingle(c: char, p: char, rep: string)
    ensures ReplaceAll([c], [p], rep, false) == if c == p then rep else [c]
  {
    assert [c][1..] == [];
    assert [c][0..1] == [c];
  }

  lemma {:induction false} ReplaceCharAbsent(s: string, p: char, rep: string)
    requires p !in s
    ensures ReplaceAll(s, [p], rep, false) == s
    decreases |s|
  {
    if s != [] {
      assert s[0..1] == [s[0]];
      ReplaceCharAbsent(s[1..], p, rep);
      assert s == [s[0]] + s[1..];
    }
  }

  lemma EscapeOne(c: char)
    ensures EscapeHtml([c]) == EscapeChar(c)
  {
    ReplaceSingle(c, '&', "&amp;");
    var a := ReplaceAll([c], "&", "&amp;", false);
    if c == '<' {
      ReplaceSingle(c, '<', "&lt;");
      ReplaceCharAbsent("&lt;", '>', "&gt;");
    } else {
      ReplaceCharAbsent(a, '<', "&lt;");
      if c == '>' {
        ReplaceSingle(c, '>', "&gt;");
      } else {
        ReplaceCharAbsent(a, '>', "&gt;");
      }
    }
  }

  /** The three passes escape each character independently. */
  lemma {:induction false} EscapeHtmlCharwise(s: string)
    ensures EscapeHtml(s) == Flat(s, EscapeChar)
    decreases |s|
  {
    if s != [] {
      var c, t := s[0], s[1..];
      assert s == [c] + t;
      ReplaceCharAppend([c], t, '&', "&amp;");
      var a1, b1 := ReplaceAll([c], "&", "&amp;", false), ReplaceAll(t, "&", "&amp;", false);
      ReplaceCharAppend(a1, b1, '<', "&lt;");
      var a2, b2 := ReplaceAll(a1, "<", "&lt;", false), ReplaceAll(b1, "<", "&lt;", false);
      ReplaceCharAppend(a2, b2, '>', "&gt;");
      EscapeOne(c);
      EscapeHtmlCharwise(t);
    }
  }

  lemma {:induction false} FlatSafe(s: string)
    ensures var r := Flat(s, EscapeChar);
      && '<' !in r && '>' !in r
      && forall i :: 0 <= i < |r| && r[i] == '&' ==> EntityAt(r, i)
    decreases |s|
  {
    if s != [] {
      var e, t := EscapeChar(s[0]), Flat(s[1..], EscapeChar);
      var r := e + t;
      FlatSafe(s[1..]);
      forall i | 0 <= i < |r| && r[i] == '&'
        ensures EntityAt(r, i)
      {
        if i < |e| {
          EntityInPiece(s[0], t, i);
        } else {
          EntityInTail(e, t, i);
        }
      }
    }
  }

  /** The only `&` of a character's escape is its first character, and it
      begins an entity whatever follows. */
  lemma EntityInPiece(c: char, t: string, i: nat)
    requires i < |EscapeChar(c)| && EscapeChar(c)[i] == '&'
    ensures i == 0 && EntityAt(EscapeChar(c) + t, i)
  {
    var e := EscapeChar(c);
    assert (e + t)[0..][..|e|] == e;
  }

  /** An entity in the tail is still one after a prefix. */
  lemma EntityInTail(e: string, t: string, i: nat)
    requires |e| <= i < |e + t|
    requires (e + t)[i] == '&'
    requires forall j :: 0 <= j < |t| && t[j] == '&' ==> EntityAt(t, j)
    ensures EntityAt(e + t, i)
  {
    assert t[i - |e|] == '&';
    assert (e + t)[i..] == t[i - |e|..];
  }

  /** Escaped text holds no `<` or `>`, and each `&` in it begins `&amp;`,
      `&lt;` or `&gt;`. */
  lemma EscapeSafe(s: string)
    ensures var r := EscapeHtml(s);
      && '<' !in r && '>' !in r
      && forall i :: 0 <= i < |r| && r[i] == '&' ==> EntityAt(r, i)
  {
    EscapeHtmlCharwise(s);
    FlatSafe(s);
  }

  function UndoGt(c: char): string
  {
    if c == '>' then ">" else EscapeChar(c)
  }

  function UndoLt(c: char): string
  {
    if c == '&' then "&amp;" else [c]
  }

  function Keep(c: char): string
  {
    [c]
  }

  lemma {:induction false} FlatKeep(s: string)
    ensures Flat(s, Keep) == s
    decreases |s|
  {
    if s != [] {
      FlatKeep(s[1..]);
      assert s == [s[0]] + s[1..];
    }
  }

  /** Unescaping in the reverse order restores the original text. */
  lemma UnescapeEscape(s: string)
    ensures UnescapeHtml(EscapeHtml(s)) == s
  {
    EscapeHtmlCharwise(s);
    forall c: char
      ensures (EscapeChar(c) == "&gt;" && UndoGt(c) == ">")
        || (UndoGt(c) == EscapeChar(c) && EscapeChar(c) != [] && Passes(EscapeChar(c), "&gt;"))
    {
      if c == '&' {
        PassesAt("&amp;", "&gt;", 1);
      } else if c == '<' {
        PassesAt("&lt;", "&gt;", 1);
      } else if c != '>' {
        PassesAt([c], "&gt;", 0);
      }
    }
    ReplaceFlat(s, EscapeChar, UndoGt, "&gt;", ">");
    forall c: char
      ensures (UndoGt(c) == "&lt;" && UndoLt(c) == "<")
        || (UndoLt(c) == UndoGt(c) && UndoGt(c) != [] && Passes(UndoGt(c), "&lt;"))
    {
      if c == '&' {
        PassesAt("&amp;", "&lt;", 1);
      } else if c != '<' {
        PassesAt([c], "&lt;", 0);
      }
    }
    ReplaceFlat(s, UndoGt, UndoLt, "&lt;", "<");
    forall c: char
      ensures (UndoLt(c) == "&amp;" && Keep(c) == "&")
        || (Keep(c) == UndoLt(c) && UndoLt(c) != [] && Passes(UndoLt(c), "&amp;"))
    {
      if c != '&' {
        PassesAt([c], "&amp;", 0);
      }
    }
    ReplaceFlat(s, UndoLt, Keep, "&amp;", "&");
    FlatKeep(s);
  }

}
