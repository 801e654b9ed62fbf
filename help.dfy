/**
  The help script: the `help [query]` chat listener and the `/<name>/help`
  page. Both read the ordered list of registered help lines. The listener
  filters them by the query, rewrites the generic name `brobbot` to the
  robot's name and a leading name to the robot's alias, and joins them with
  newlines. The page escapes them, wraps each in a paragraph, rewrites
  `brobbot` to the bold name and embeds the result in a fixed document.
 */
module Help {
  import opened Options
  import opened Strings
  import opened Escaping

  /** The generic robot name the registered help lines are written with. */
  const GenericName := "brobbot"

  /** The slice of the `robot` object the help script reads: its name and
      its optional alias. The part a response reads, the adapter, is
      `Replies.Robot`. */
  datatype Robot = Robot(name: string, alias: Option<string>)

  /** `robot.alias || robot.name`: a non-empty alias wins, an unset or empty
      one falls back to the name; so the prefix is empty only when the name
      is. */
  function CommandPrefix(robot: Robot): (prefix: string)
    ensures robot.alias.Some? && robot.alias.value != "" ==> prefix == robot.alias.value
    ensures robot.alias == None || robot.alias == Some("") ==> prefix == robot.name
    ensures prefix == "" ==> robot.name == ""
  {
    match robot.alias
    case Some(a) => if a != "" then a else robot.name
    case None => robot.name
  }

  /** `cmd.match(new RegExp(filter, 'i'))` for a filter without regular
      expression metacharacters: a case-insensitive substring test. */
  predicate Matches(cmd: string, filter: string)
  {
    Occurs(cmd, filter, true)
  }

  /** `cmds.filter(...)` with the case-insensitive test. */
  function FilterCommands(cmds: seq<string>, filter: string): (kept: seq<string>)
    ensures forall c :: c in kept ==> c in cmds && Matches(c, filter)
    ensures kept == [] <==> forall c :: c in cmds ==> !Matches(c, filter)
  {
    if cmds == [] then []
    else (if Matches(cmds[0], filter) then [cmds[0]] else []) + FilterCommands(cmds[1..], filter)
  }

  /** `a` is `b` with some elements dropped, the rest in the same order. */
  predicate Subsequence<T(==)>(a: seq<T>, b: seq<T>)
    decreases |b|
  {
    if a == [] then true
    else if b == [] then false
    else (a[0] == b[0] && Subsequence(a[1..], b[1..])) || Subsequence(a, b[1..])
  }

  /** The kept lines are exactly the matching ones, each as often as it is
      registered, in registry order. */
  lemma FilterExact(cmds: seq<string>, filter: string)
    ensures var kept := FilterCommands(cmds, filter);
      && Subsequence(kept, cmds)
      && forall c :: multiset(kept)[c] == if Matches(c, filter) then multiset(cmds)[c] else 0
  {
    FilterOrder(cmds, filter);
    FilterCounts(cmds, filter);
  }

  lemma {:induction false} FilterOrder(cmds: seq<string>, filter: string)
    ensures Subsequence(FilterCommands(cmds, filter), cmds)
    decreases |cmds|
  {
    if cmds != [] {
      var kept := FilterCommands(cmds, filter);
      var rest := FilterCommands(cmds[1..], filter);
      FilterOrder(cmds[1..], filter);
      if Matches(cmds[0], filter) {
        assert kept == [cmds[0]] + rest;
        assert kept[1..] == rest;
      } else {
        assert kept == rest;
        if rest != [] {
          assert Subsequence(rest, cmds);
        }
      }
    }
  }

  lemma FilterCounts(cmds: seq<string>, filter: string)
    ensures var kept := FilterCommands(cmds, filter);
      forall c :: multiset(kept)[c] == if Matches(c, filter) then multiset(cmds)[c] else 0
  {
    forall c
      ensures multiset(FilterCommands(cmds, filter))[c] == if Matches(c, filter) then multiset(cmds)[c] else 0
    {
      FilterCount(cmds, filter, c);
    }
  }

  /** How often the filter keeps one line: as often as it is registered if
      it matches, never otherwise. */
  lemma {:induction false} FilterCount(cmds: seq<string>, filter: string, c: string)
    ensures multiset(FilterCommands(cmds, filter))[c] == if Matches(c, filter) then multiset(cmds)[c] else 0
    decreases |cmds|
  {
    if cmds != [] {
      var keep := Matches(cmds[0], filter);
      var rest := FilterCommands(cmds[1..], filter);
      FilterCount(cmds[1..], filter, c);
      assert FilterCommands(cmds, filter) == (if keep then [cmds[0]] else []) + rest;
      assert cmds == [cmds[0]] + cmds[1..];
      HeadCount(cmds[0], keep, rest, cmds[1..], c, Matches(c, filter));
    }
  }

  /** One step of the count: the head is kept with its own verdict, and the
      count of the rest carries over. */
  lemma HeadCount(x: string, keepX: bool, rest: seq<string>, tail: seq<string>, c: string, keepC: bool)
    requires c == x ==> keepC == keepX
    requires multiset(rest)[c] == if keepC then multiset(tail)[c] else 0
    ensures multiset((if keepX then [x] else []) + rest)[c] == if keepC then multiset([x] + tail)[c] else 0
  {
    assert multiset((if keepX then [x] else []) + rest) == multiset(if keepX then [x] else []) + multiset(rest);
    assert multiset([x] + tail) == multiset{x} + multiset(tail);
  }

  /** The empty pattern matches every line, so filtering by it keeps all. */
  lemma {:induction false} EmptyFilterKeepsAll(cmds: seq<string>)
    ensures FilterCommands(cmds, "") == cmds
    decreases |cmds|
  {
    if cmds != [] {
      assert MatchAt(cmds[0], 0, "", true);
      EmptyFilterKeepsAll(cmds[1..]);
      assert cmds == [cmds[0]] + cmds[1..];
    }
  }

  /** The lines the listener reports: all of them for an empty query. */
  function Selected(cmds: seq<string>, filter: string): seq<string>
  {
    if filter != "" then FilterCommands(cmds, filter) else cmds
  }

  /** The rewrite each reported line goes through: every `brobbot`, in any
      case, becomes the name, then a leading name becomes the prefix. */
  function RewriteCommand(robot: Robot, cmd: string): string
  {
    ReplaceLeading(ReplaceAll(cmd, GenericName, robot.name, true), robot.name, CommandPrefix(robot))
  }

  function RewriteCommands(robot: Robot, cmds: seq<string>): seq<string>
  {
    seq(|cmds|, i requires 0 <= i < |cmds| => RewriteCommand(robot, cmds[i]))
  }

  function NoMatchReply(filter: string): string
  {
    "No available commands match " + filter
  }

  /** The text the `help` listener sends for the query `filter`. */
  function HelpReply(robot: Robot, cmds: seq<string>, filter: string): string
  {
    if filter != "" && FilterCommands(cmds, filter) == [] then NoMatchReply(filter)
    else Join(RewriteCommands(robot, Selected(cmds, filter)), "\n")
  }

  /** The reply is the no-match message exactly when a non-empty query
      matches no line; otherwise it is the listing of the selected lines. */
  lemma HelpReplyCases(robot: Robot, cmds: seq<string>, filter: string)
    ensures var none := filter != "" && forall c :: c in cmds ==> !Matches(c, filter);
      && (none ==> HelpReply(robot, cmds, filter) == NoMatchReply(filter))
      && (!none ==> Selected(cmds, filter) != [] || cmds == [])
      && (!none ==> HelpReply(robot, cmds, filter) == Join(RewriteCommands(robot, Selected(cmds, filter)), "\n"))
  {
  }

  /** With no alias, or an empty one, the alias step changes nothing. */
  lemma NoAliasRewrite(robot: Robot, cmd: string)
    requires robot.alias == None || robot.alias == Some("")
    ensures RewriteCommand(robot, cmd) == ReplaceAll(cmd, GenericName, robot.name, true)
  {
    LeadingSelf(ReplaceAll(cmd, GenericName, robot.name, true), robot.name);
  }

  /** An occurrence of the name past the leading one survives the alias
      step: only a leading name becomes the alias. */
  lemma MidNameKept(robot: Robot, cmd: string, i: nat)
    requires var named := ReplaceAll(cmd, GenericName, robot.name, true);
      && MatchAt(named, i, robot.name, false)
      && if StartsWith(named, robot.name) then i >= |robot.name| else i > 0
    ensures var named := ReplaceAll(cmd, GenericName, robot.name, true);
      MatchAt(RewriteCommand(robot, cmd),
              if StartsWith(named, robot.name) then i - |robot.name| + |CommandPrefix(robot)| else i,
              robot.name, false)
  {
    LeadingOnly(ReplaceAll(cmd, GenericName, robot.name, true), robot.name, CommandPrefix(robot), i);
  }

  /** With a non-empty alias, a leading name becomes the alias and the rest
      of the named line is kept; a line that does not open with the name is
      just the named line. */
  lemma LeadingAlias(robot: Robot, cmd: string)
    requires robot.alias.Some? && robot.alias.value != ""
    ensures var named := ReplaceAll(cmd, GenericName, robot.name, true);
      RewriteCommand(robot, cmd)
        == if StartsWith(named, robot.name) then robot.alias.value + named[|robot.name|..] else named
  {
  }

  /** When the robot keeps a name spelled `brobbot` in some letter case and
      has no alias, or an empty one, a line changes in letter case only. */
  lemma GenericNameCaseOnly(robot: Robot, cmd: string)
    requires Fold(robot.name) == Fold(GenericName)
    requires robot.alias == None || robot.alias == Some("")
    ensures Fold(RewriteCommand(robot, cmd)) == Fold(cmd)
  {
    NoAliasRewrite(robot, cmd);
    ReplaceCaseOnly(cmd, GenericName, robot.name);
  }

  /** The listing has one line per selected command, rewritten, in registry
      order, as long as no rewritten command holds a newline itself. */
  lemma HelpReplyLines(robot: Robot, cmds: seq<string>, filter: string)
    requires Selected(cmds, filter) != []
    requires forall c :: c in Selected(cmds, filter) ==> '\n' !in RewriteCommand(robot, c)
    ensures Split(HelpReply(robot, cmds, filter), '\n') == RewriteCommands(robot, Selected(cmds, filter))
    ensures Subsequence(Selected(cmds, filter), cmds)
  {
    var lines := RewriteCommands(robot, Selected(cmds, filter));
    forall k | 0 <= k < |lines|
      ensures '\n' !in lines[k]
    {
      assert Selected(cmds, filter)[k] in Selected(cmds, filter);
    }
    SplitJoin(lines, '\n');
    FilterExact(cmds, filter);
    if filter == "" {
      SubsequenceRefl(cmds);
    }
  }

  lemma {:induction false} SubsequenceRefl<T>(s: seq<T>)
    ensures Subsequence(s, s)
    decreases |s|
  {
    if s != [] {
      SubsequenceRefl(s[1..]);
    }
  }

  /** `"<p>" + cmds.join('</p><p>') + "</p>"`. */
  function Paragraphs(entries: seq<string>): string
  {
    "<p>" + Join(entries, "</p><p>") + "</p>"
  }

  /** Each entry in its own paragraph, in order. */
  function WrapEach(entries: seq<string>): string
  {
    if entries == [] then "" else "<p>" + entries[0] + "</p>" + WrapEach(entries[1..])
  }

  lemma Regroup(open: string, close: string, e: string, j: string)
    ensures open + (e + (close + open) + j) + close == open + e + close + (open + j + close)
  {
  }

  /** The joined markup is one paragraph per entry; an empty list still
      yields one empty paragraph. */
  lemma {:induction false} ParagraphsEach(entries: seq<string>)
    ensures Paragraphs(entries) == if entries == [] then "<p></p>" else WrapEach(entries)
    decreases |entries|
  {
    if |entries| > 1 {
      ParagraphsEach(entries[1..]);
      var j := Join(entries[1..], "</p><p>");
      assert "</p><p>" == "</p>" + "<p>";
      Regroup("<p>", "</p>", entries[0], j);
    }
  }

  function EscapeAll(cmds: seq<string>): seq<string>
  {
    seq(|cmds|, i requires 0 <= i < |cmds| => EscapeHtml(cmds[i]))
  }

  /** Every `<` of the text starts a paragraph tag. */
  predicate OnlyParagraphTags(s: string)
  {
    forall i :: 0 <= i < |s| && s[i] == '<' ==> StartsWith(s[i..], "<p>") || StartsWith(s[i..], "</p>")
  }

  lemma OnlyTagsAppend(a: string, b: string)
    requires OnlyParagraphTags(a) && OnlyParagraphTags(b)
    ensures OnlyParagraphTags(a + b)
  {
    var s := a + b;
    forall i | 0 <= i < |s| && s[i] == '<'
      ensures StartsWith(s[i..], "<p>") || StartsWith(s[i..], "</p>")
    {
      if i < |a| {
        assert a[i] == '<';
        assert s[i..] == a[i..] + b;
      } else {
        assert s[i..] == b[i - |a|..];
      }
    }
  }

  /** The two tags themselves pass. */
  lemma TagsOnly()
    ensures OnlyParagraphTags("<p>") && OnlyParagraphTags("</p>")
  {
    forall i | 0 <= i < |"<p>"| && "<p>"[i] == '<'
      ensures StartsWith("<p>"[i..], "<p>")
    {
      assert i == 0 && "<p>"[0..] == "<p>";
    }
    forall i | 0 <= i < |"</p>"| && "</p>"[i] == '<'
      ensures StartsWith("</p>"[i..], "</p>")
    {
      assert i == 0 && "</p>"[0..] == "</p>";
    }
  }

  lemma {:induction false} WrapEscapedTags(cmds: seq<string>)
    ensures OnlyParagraphTags(WrapEach(EscapeAll(cmds)))
    decreases |cmds|
  {
    if cmds != [] {
      var e := EscapeHtml(cmds[0]);
      EscapeSafe(cmds[0]);
      assert OnlyParagraphTags(e);
      assert EscapeAll(cmds)[1..] == EscapeAll(cmds[1..]);
      WrapEscapedTags(cmds[1..]);
      TagsOnly();
      OnlyTagsAppend("<p>", e);
      OnlyTagsAppend("<p>" + e, "</p>");
      OnlyTagsAppend("<p>" + e + "</p>", WrapEach(EscapeAll(cmds[1..])));
    }
  }

  /** The escaped entries cannot add markup of their own: before the bold
      rewrite, each `<` of the page body starts `<p>` or `</p>`. */
  lemma EscapedParagraphsTags(cmds: seq<string>)
    ensures OnlyParagraphTags(Paragraphs(EscapeAll(cmds)))
  {
    ParagraphsEach(EscapeAll(cmds));
    if cmds == [] {
      TagsOnly();
      OnlyTagsAppend("<p>", "</p>");
      assert "<p>" + "</p>" == "<p></p>";
    } else {
      WrapEscapedTags(cmds);
    }
  }

  /** The body of the help page: escaped paragraphs, then every `brobbot`,
      in any case, as the bold name. */
  function HelpBody(name: string, cmds: seq<string>): string
  {
    ReplaceAll(Paragraphs(EscapeAll(cmds)), GenericName, "<b>" + name + "</b>", true)
  }

  /** The paragraph tags hold no character of `brobbot`, in any case. */
  lemma TagsDisjoint()
    ensures Disjoint("<p>", GenericName) && Disjoint("</p><p>", GenericName) && Disjoint("</p>", GenericName)
  {
    forall c | c in "</p><p>"
      ensures c == '<' || c == '/' || c == 'p' || c == '>'
    {
    }
    forall d | d in GenericName
      ensures Lower(d) == 'b' || Lower(d) == 'r' || Lower(d) == 'o' || Lower(d) == 't'
    {
    }
  }

  /** The bold rewrite acts on each escaped entry on its own: the tags
      around and between the entries hold no character of `brobbot`, so no
      occurrence spans two entries and the paragraphs stay as they were. */
  lemma ServedParagraphs(name: string, cmds: seq<string>)
    ensures var bold := ReplaceEach(EscapeAll(cmds), GenericName, "<b>" + name + "</b>", true);
      && HelpBody(name, cmds) == Paragraphs(bold)
      && HelpBody(name, cmds) == if cmds == [] then "<p></p>" else WrapEach(bold)
  {
    var rep := "<b>" + name + "</b>";
    var j := Join(EscapeAll(cmds), "</p><p>");
    TagsDisjoint();
    assert Paragraphs(EscapeAll(cmds)) == "<p>" + (j + "</p>");
    PassOver("<p>", j + "</p>", GenericName, rep, true);
    assert "</p>"[..1] == "<";
    ReplaceAcross(j, "</p>", GenericName, rep, true);
    PassOver("</p>", [], GenericName, rep, true);
    assert "</p>" + [] == "</p>";
    ReplaceJoin(EscapeAll(cmds), "</p><p>", GenericName, rep, true);
    ParagraphsEach(ReplaceEach(EscapeAll(cmds), GenericName, rep, true));
  }

  /** In the page body the first `brobbot`, in any case, becomes the bold
      name, and the rewrite goes on after it in the original markup. */
  lemma BoldFirstOccurrence(name: string, cmds: seq<string>, x: string, m: string, y: string)
    requires Paragraphs(EscapeAll(cmds)) == x + m + y
    requires |m| == |GenericName| && Fold(m) == Fold(GenericName)
    requires forall i: nat :: i < |x| ==> !MatchAt(x + m + y, i, GenericName, true)
    ensures HelpBody(name, cmds) == x + "<b>" + name + "</b>" + ReplaceAll(y, GenericName, "<b>" + name + "</b>", true)
  {
    ReplaceFirst(x, m, y, GenericName, "<b>" + name + "</b>", true);
  }

  const PageHead := "<!DOCTYPE html>\n<html>\n  <head>\n  <meta charset=\"utf-8\">\n  <title>"
  const TitleToHeading := " Help</title>\n  <style type=\"text/css\">\n    body {\n      background: #d3d6d9;\n      color: #636c75;\n      text-shadow: 0 1px 1px rgba(255, 255, 255, .5);\n      font-family: Helvetica, Arial, sans-serif;\n    }\n    h1 {\n      margin: 8px 0;\n      padding: 0;\n    }\n    .commands {\n      font-size: 13px;\n    }\n    p {\n      border-bottom: 1px solid #eee;\n      margin: 6px 0 0 0;\n      padding-bottom: 5px;\n    }\n    p:last-child {\n      border: 0;\n    }\n  </style>\n  </head>\n  <body>\n    <h1>"
  const HeadingToCommands := " Help</h1>\n    <div class=\"commands\">\n      "
  const PageTail := "\n    </div>\n  </body>\n</html>"

  /** The page template `helpContents(name, commands)`. */
  function HelpContents(name: string, commands: string): string
  {
    PageHead + name + TitleToHeading + name + HeadingToCommands + commands + PageTail
  }

  /** The document the `/<name>/help` route answers with. */
  function HelpPage(name: string, cmds: seq<string>): string
  {
    HelpContents(name, HelpBody(name, cmds))
  }

  /** Reads the commands back out of a page made for `name`. */
  function CommandsOf(page: string, name: string): Option<string>
  {
    var pre := PageHead + name + TitleToHeading + name + HeadingToCommands;
    if |pre| + |PageTail| <= |page| && page[..|pre|] == pre && page[|page| - |PageTail|..] == PageTail
    then Some(page[|pre|..|page| - |PageTail|])
    else None
  }

  /** The name sits in the title and in the heading, and the commands can be
      read back from between the fixed parts of the page. */
  lemma HelpContentsSlots(name: string, commands: string)
    ensures var page := HelpContents(name, commands);
      var h := |PageHead| + |name| + |TitleToHeading|;
      && page[|PageHead|..|PageHead| + |name|] == name
      && page[h..h + |name|] == name
      && CommandsOf(page, name) == Some(commands)
  {
    Frame(PageHead, name, TitleToHeading, HeadingToCommands, commands, PageTail);
  }

  /** The slots of a page laid out as `a n b n c x d`. */
  lemma Frame(a: string, n: string, b: string, c: string, x: string, d: string)
    ensures var page, pre := a + n + b + n + c + x + d, a + n + b + n + c;
      && page[|a|..|a| + |n|] == n
      && page[|a| + |n| + |b|..|a| + |n| + |b| + |n|] == n
      && page[..|pre|] == pre
      && page[|page| - |d|..] == d
      && page[|pre|..|page| - |d|] == x
  {
    var page, pre := a + n + b + n + c + x + d, a + n + b + n + c;
    assert page == pre + x + d;
    assert page == a + n + (b + n + c + x + d);
    assert page == a + n + b + n + (c + x + d);
  }

  /** With nothing registered the page body is a single empty paragraph. */
  lemma EmptyRegistryBody(name: string)
    ensures HelpBody(name, []) == "<p></p>"
  {
    ParagraphsEach([]);
    assert EscapeAll([]) == [];
    var s := "<p></p>";
    forall c | c in s
      ensures Lower(c) != Lower(GenericName[0])
    {
    }
    AbsentByChar(s, GenericName, true, 0);
    ReplaceAbsent(s, GenericName, "<b>" + name + "</b>", true);
  }

  /** A line that opens with `brobbot` and then holds no `b` gets the name
      in place of that opening word only. */
  lemma LeadingGenericLine(tail: string, name: string)
    requires forall c :: c in tail ==> Lower(c) != Lower(GenericName[0])
    ensures ReplaceAll(GenericName + tail, GenericName, name, true) == name + tail
  {
    assert GenericName + tail == [] + GenericName + tail;
    ReplaceFirst([], GenericName, tail, GenericName, name, true);
    AbsentByChar(tail, GenericName, true, 0);
    ReplaceAbsent(tail, GenericName, name, true);
  }

  /** The registered line `brobbot ping - pings` matches the query `ping`;
      `brobbot pong - pongs` does not, as it holds no `i`. */
  lemma PingFiltered()
    ensures FilterCommands(["brobbot ping - pings", "brobbot pong - pongs"], "ping") == ["brobbot ping - pings"]
  {
    var ping, pong := "brobbot ping - pings", "brobbot pong - pongs";
    assert ping[8..12] == "ping";
    assert MatchAt(ping, 8, "ping", true);
    AbsentByChar(pong, "ping", true, 1);
    assert [ping, pong][1..] == [pong];
  }

  /** With the generic name and an alias, a line that opens with `brobbot`
      and holds no other `b` gets the alias for that opening word. */
  lemma AliasedGenericLine(alias: string, tail: string)
    requires alias != ""
    requires forall c :: c in tail ==> Lower(c) != Lower(GenericName[0])
    ensures RewriteCommand(Robot(GenericName, Some(alias)), GenericName + tail) == alias + tail
  {
    LeadingGenericLine(tail, GenericName);
    assert (GenericName + tail)[|GenericName|..] == tail;
  }

  lemma PingLine()
    ensures "brobbot ping - pings" == GenericName + " ping - pings"
    ensures "!b ping - pings" == "!b" + " ping - pings"
  {
  }

  /** The line `brobbot ping - pings` as the robot `brobbot` with alias `!b`
      lists it. */
  lemma PingRewritten()
    ensures RewriteCommand(Robot(GenericName, Some("!b")), "brobbot ping - pings") == "!b ping - pings"
  {
    PingLine();
    AliasedGenericLine("!b", " ping - pings");
  }

  /** The chat reply for the query `ping` over two registered lines. */
  lemma PingExample()
    ensures HelpReply(Robot("brobbot", Some("!b")), ["brobbot ping - pings", "brobbot pong - pongs"], "ping")
      == "!b ping - pings"
  {
    PingFiltered();
    PingRewritten();
    var robot := Robot("brobbot", Some("!b"));
    assert RewriteCommands(robot, ["brobbot ping - pings"]) == ["!b ping - pings"];
  }

  /** The chat reply for a query that matches nothing. */
  lemma NoMatchExample()
    ensures HelpReply(Robot("brobbot", Some("!b")), ["brobbot ping - pings", "brobbot pong - pongs"], "zzz")
      == "No available commands match zzz"
  {
    var ping, pong := "brobbot ping - pings", "brobbot pong - pongs";
    AbsentByChar(ping, "zzz", true, 0);
    AbsentByChar(pong, "zzz", true, 0);
    assert [ping, pong][1..] == [pong];
    assert FilterCommands([ping, pong], "zzz") == [];
  }

}
