# Brobbot help script and response handle, in Dafny

This project models two parts of the Brobbot chat robot.

The first is the help script (`src/scripts/help.js`). It answers the chat command `help [query]` with the registered help lines that match the query. Each line is rewritten before it is sent:

- every `brobbot`, in any letter case, becomes the robot's name;
- a leading name becomes the robot's alias;
- the lines are joined with newlines.

When nothing matches, the reply is `No available commands match <query>`. The script also serves the page `/<name>/help`. That page escapes each line for HTML, wraps each one in a paragraph, shows every `brobbot` as the bold name and places the result in a fixed HTML document.

The second is the response handle (`src/response.js`) that a listener receives. It builds an envelope from the message's room and user and the message itself. `send`, `emote`, `reply`, `topic`, `play` and `locked` each pass the envelope, followed by the caller's strings in order, to the adapter method of the same name. `random` picks an item and `finish` stops dispatch of the message.

Files:

- `options.dfy`: the `Option` type used for JavaScript's `undefined`.
- `strings.dfy` (module `Strings`) covers:
  - ASCII case folding;
  - global literal replacement, with or without the `i` flag (`ReplaceAll`);
  - replacement of a leading occurrence (`ReplaceLeading`);
  - `join`, and `split` as its inverse.
- `escaping.dfy` (module `Escaping`): the three-pass HTML escape, proved equal to escaping each character separately, with its safety property and the round trip through unescaping.
- `help.dfy` (module `Help`):
  - the filter;
  - the name and alias rewrite;
  - the chat reply `HelpReply`;
  - the page body `HelpBody`;
  - the page template `HelpContents` and the page `HelpPage`.
- `replies.dfy` (module `Replies`): the message, envelope, adapter, robot and `Response` classes. The adapter is a log of the calls it receives.

Modelling choices:

- **Help handlers as functions.** Both handlers are modelled as functions that return the text they would send (`HelpReply`, `HelpPage`). The registry `robot.helpCommands()` and the robot's name and alias are passed in as parameters.
- **The user's query.** `new RegExp(filter, 'i')` is modelled as a case-insensitive literal substring test (`Help.Matches`). `new RegExp("^" + robot.name)` is modelled as a case-sensitive literal prefix test (`Strings.ReplaceLeading`).
- **Case folding.** Case-insensitive matching folds ASCII letters only. For the pattern `brobbot` this is exact, because the `i` flag without `u` never folds a non-ASCII character onto an ASCII one.
- **`random`.** The draw of `Math.random()` is a parameter `draw` with `0 <= draw < 1`. It is read as an exact real number. An empty list yields `None`, which models the `undefined` the code returns.
- **The adapter and `message.finish()`.** The adapter is not part of this model. Each of its methods appends `Call(kind, args)` to a log, and `args` is the JavaScript argument list `[envelope, s1, …, sn]`. `message.finish()` is not part of this model either: it is a method that counts the requests it receives.
- **Field naming.** The field `match` of a response is named `matched`, because `match` is a Dafny keyword.

## Model

| member | source | states |
|---|---|---|
| `Strings.ReplaceAll` | src/scripts/help.js:38 | Definition of `s.replace(/pat/g, rep)` (`/pat/ig` with the `i` flag) for a literal pattern, used at lines 38, 47 and 51. Its behaviour is stated by `ReplaceFirst` and `ReplaceAbsent`, with `ReplaceCaseOnly`, `ReplaceJoin` and `ReplaceCharAppend` for the uses here. |
| `Strings.ReplaceLeading` | src/scripts/help.js:39 | Definition of the `^name` replacement. Its behaviour is stated by `LeadingOnly` and `LeadingSelf`. |
| `Strings.Join` | src/scripts/help.js:42 | Definition of `Array.prototype.join`, used at lines 42 and 50. `SplitJoin` and `JoinSplit` pair it with `split`, `ParagraphsEach` gives the paragraph join, and `ReplaceJoin` shows how a replacement passes through it. |
| `Escaping.EscapeHtml` | src/scripts/help.js:47 | Definition of the three escaping passes. Its behaviour is stated by `EscapeHtmlCharwise`, `EscapeSafe` and `UnescapeEscape`. |
| `Help.Matches` | src/scripts/help.js:27 | Definition of `cmd.match(new RegExp(filter, 'i'))` as a case-insensitive substring test. `FilterCommands` and `FilterExact` state how the filter uses it. |
| `Help.Selected` | src/scripts/help.js:22-29 | Definition of the lines the listener reports: the filtered registry for a non-empty query, the whole registry otherwise. `FilterExact` and `EmptyFilterKeepsAll` state what it keeps. |
| `Help.CommandPrefix` | src/scripts/help.js:36 | A set, non-empty alias is the prefix. An unset or empty alias gives the name. The prefix is therefore empty only when the name is. |
| `Help.RewriteCommand` | src/scripts/help.js:37-40 | Definition of the per-line rewrite: `brobbot`, in any case, to the name, then a leading name to the prefix. Its behaviour is stated by `LeadingAlias`, `NoAliasRewrite`, `MidNameKept`, `GenericNameCaseOnly` and `AliasedGenericLine`. |
| `Help.RewriteCommands` | src/scripts/help.js:37-40 | Definition of `cmds.map(...)` with the per-line rewrite, one rewritten line per line, in order. `HelpReplyLines` states what the listing is made of. |
| `Help.NoMatchReply` | src/scripts/help.js:31 | Definition of the message `No available commands match <query>`. `HelpReplyCases` states when it is sent, and `NoMatchExample` gives a concrete case. |
| `Help.LeadingAlias` | src/scripts/help.js:36-39 | With a set, non-empty alias, a line whose named form opens with the name lists as the alias followed by the rest of the named line. Any other line lists as its named form. |
| `Help.HelpReply` | src/scripts/help.js:21-43 | Definition of the text the `help` listener sends. Its behaviour is stated by `HelpReplyCases` and `HelpReplyLines`, with `PingExample` and `NoMatchExample` as concrete cases. |
| `Help.EscapeAll` | src/scripts/help.js:46-48 | Definition of the escaping `map` over the registry, one escaped entry per entry, in order. `EscapedParagraphsTags` and `ServedParagraphs` state what the page makes of it. |
| `Help.Paragraphs` | src/scripts/help.js:50 | Definition of `"<p>" + cmds.join('</p><p>') + "</p>"`. `ParagraphsEach` states that it is one paragraph per entry. |
| `Help.HelpBody` | src/scripts/help.js:46-51 | Definition of the page body: escaped paragraphs, then the bold rewrite. Its behaviour is stated by `ServedParagraphs`, `BoldFirstOccurrence`, `EmptyRegistryBody` and, before the bold step, `EscapedParagraphsTags`. |
| `Help.HelpContents` | src/scripts/help.js:13-15 | Definition of the page template. `HelpContentsSlots` states where the name and the commands sit. |
| `Help.HelpPage` | src/scripts/help.js:55 | Definition of the document the route answers with: the template applied to the robot's name and the page body. |
| `Replies.EnvelopeFor` | src/response.js:14-18 | Definition of the envelope: the message's room and user, and the message itself. `Response.constructor` states that a response holds it. |
| `Strings.ReplaceFirst` | src/scripts/help.js:38 | A global `/brobbot/ig` replacement replaces the leftmost occurrence. Scanning then resumes on the original text after it, and the inserted name is never rescanned. |
| `Strings.ReplaceAbsent` | src/scripts/help.js:38 | A line with no case-insensitive `brobbot` is left unchanged by the rewrite. |
| `Strings.ReplaceCaseOnly` | src/scripts/help.js:38 | Replacing `brobbot` by a case variant of it (the default robot name) changes letter case only. |
| `Strings.LeadingOnly` | src/scripts/help.js:39 | With a leading occurrence of the name, an occurrence that starts at or after the end of the leading one survives the `^name` replacement, moved by the difference between the replacement's length and the name's. Without a leading occurrence, any occurrence past index 0 survives in place. An occurrence overlapping the leading one is not promised to survive. |
| `Strings.LeadingSelf` | src/scripts/help.js:36-39 | When the prefix equals the name (no alias), the `^name` replacement is the identity. |
| `Strings.SplitJoin` | src/scripts/help.js:42 | For a non-empty list of lines none of which contains a newline, splitting `lines.join("\n")` on newlines gives back the lines, one per entry, in order. |
| `Strings.JoinSplit` | src/scripts/help.js:42 | Joining the newline-split pieces of a text gives back the text. |
| `Strings.ReplaceJoin` | src/scripts/help.js:50-51 | When the separator holds no character that folds to one of the pattern's, replacing in the joined text equals joining the parts replaced one by one. No occurrence spans two parts. |
| `Escaping.EscapeHtmlCharwise` | src/scripts/help.js:47 | The three passes `&`→`&amp;`, then `<`→`&lt;`, then `>`→`&gt;` escape each character independently. No ampersand is escaped twice. |
| `Escaping.EscapeSafe` | src/scripts/help.js:47 | Escaped text contains no `<` or `>`, and every `&` in it begins `&amp;`, `&lt;` or `&gt;`. |
| `Escaping.UnescapeEscape` | src/scripts/help.js:47 | Unescaping in the reverse order (`&gt;`, `&lt;`, `&amp;`) restores the original line. |
| `Help.FilterCommands` | src/scripts/help.js:25-28 | Every kept line is registered and matches the query case-insensitively. Nothing is kept exactly when no line matches. |
| `Help.FilterExact` | src/scripts/help.js:25-28 | The kept lines are a subsequence of the registry, so registry order is kept. Each line is kept as many times as it is registered if it matches, and never otherwise. |
| `Help.EmptyFilterKeepsAll` | src/scripts/help.js:21-25 | Filtering by the empty query would keep every line, so skipping the filter for an empty capture agrees with it. |
| `Help.HelpReplyCases` | src/scripts/help.js:25-42 | The reply is `No available commands match <query>` when a non-empty query matches no line. Otherwise it is the newline-joined rewrite of the selected lines, and those are all lines when the query is empty. |
| `Help.NoAliasRewrite` | src/scripts/help.js:36-39 | With an unset or empty alias, a line's rewrite is just the `brobbot`→name replacement. |
| `Help.MidNameKept` | src/scripts/help.js:36-39 | After the name rewrite, an occurrence of the name that starts at or after the end of a leading one is still the name after the alias step, at the shifted index. Without a leading one, any occurrence past index 0 is kept in place. |
| `Help.GenericNameCaseOnly` | src/scripts/help.js:36-39 | A robot named `brobbot` in any letter case, with no alias or an empty one, changes lines in letter case only. |
| `Help.HelpReplyLines` | src/scripts/help.js:37-42 | Provided no rewritten line holds a newline, a non-empty listing has one newline-separated segment per selected line, rewritten, in registry order. |
| `Help.AliasedGenericLine` | src/scripts/help.js:36-39 | For the robot named `brobbot` with a non-empty alias, a line that opens with `brobbot` and holds no other `b` lists with the alias in place of that opening word. |
| `Help.LeadingGenericLine` | src/scripts/help.js:38 | A line that begins with `brobbot` and contains no other `b` gets the name in place of that opening word only. |
| `Help.PingExample` | src/scripts/help.js:21-42 | Registry `brobbot ping - pings`, `brobbot pong - pongs`, query `ping`, alias `!b`: the reply is exactly `!b ping - pings`. |
| `Help.NoMatchExample` | src/scripts/help.js:30-33 | The same registry with the query `zzz` replies exactly `No available commands match zzz`. |
| `Help.ParagraphsEach` | src/scripts/help.js:50 | `"<p>" + join("</p><p>") + "</p>"` is one paragraph per entry, in order. An empty registry gives `<p></p>`. |
| `Help.EscapedParagraphsTags` | src/scripts/help.js:46-50 | Before the bold rewrite, every `<` in the page body starts `<p>` or `</p>`, so a help line cannot inject markup. |
| `Help.ServedParagraphs` | src/scripts/help.js:46-51 | The body served is the paragraph markup of the entries, each escaped and then bold-rewritten on its own. It is one paragraph per registry entry, in registry order, or `<p></p>` when nothing is registered. |
| `Help.BoldFirstOccurrence` | src/scripts/help.js:51 | In the page body the first case-insensitive `brobbot` becomes `<b>name</b>`, and rewriting resumes on the original markup after it. |
| `Help.EmptyRegistryBody` | src/scripts/help.js:50-51 | With nothing registered, the page body is `<p></p>`. |
| `Help.HelpContentsSlots` | src/scripts/help.js:13-15 | The template puts the name in `<title>` and in `<h1>`. The commands can be read back from between the fixed parts of the page. |
| `Replies.Arguments` | src/response.js:30-31 | The adapter's argument list is the envelope followed by each string at the next position. With no strings it is just the envelope. |
| `Replies.ArgumentsRoundTrip` | src/response.js:21-31 | The strings an adapter call carries after the envelope are exactly the strings given, in the given order. |
| `Replies.Response.constructor` | src/response.js:10-19 | The response keeps the robot, message and match. The envelope's room and user are the message's, and its message is the message itself. |
| `Replies.Response.Send` | src/response.js:29-32 | Exactly one `send` call is appended to the adapter log, with `[envelope] ++ strings`. The response and message are unchanged. |
| `Replies.Response.Emote` | src/response.js:42-45 | Exactly one `emote` call with `[envelope] ++ strings`. Nothing else changes. |
| `Replies.Response.Reply` | src/response.js:55-58 | Exactly one `reply` call with `[envelope] ++ strings`. Nothing else changes. |
| `Replies.Response.Topic` | src/response.js:68-71 | Exactly one `topic` call with `[envelope] ++ strings`. Nothing else changes. |
| `Replies.Response.Play` | src/response.js:81-84 | Exactly one `play` call with `[envelope] ++ strings`. Nothing else changes. |
| `Replies.Response.Locked` | src/response.js:94-97 | Exactly one `locked` call with `[envelope] ++ strings`. Nothing else changes. |
| `Replies.Pick` | src/response.js:107 | `Math.floor(draw * n)` with `0 <= draw < 1` and `n > 0` is an index in range. |
| `Replies.Response.Random` | src/response.js:106-108 | A non-empty list yields one of its items. An empty list yields nothing (`undefined`). |
| `Replies.RandomReachesEvery` | src/response.js:106-108 | Every item of the list is returned for some draw. |
| `Replies.Response.Finish` | src/response.js:115-117 | `finish` makes exactly one request to the message to stop dispatch. The adapter log and the response are unchanged. |

## Left out

- Listener and route registration are dispatcher and HTTP-router work, outside this model:
  - `robot.helpCommand`, `robot.respond` and the `^help\s*(.*)$` pattern, including how the query is captured;
  - `robot.router.get`, `res.setHeader` and `res.end`.

  The handlers are modelled as the functions that compute what they send.
- `Help.Matches`: the query is a regular expression in the code. The model treats it as a literal text, so regular-expression metacharacters in the query are not modelled, and neither is a query that fails to compile.
- `Strings.ReplaceLeading`: the robot name is likewise assumed to hold no regular-expression metacharacters.
- `$` substitution patterns in replacement strings (`$&` and others inside the name or alias) are not modelled. Replacement text is inserted literally.
- Case folding covers ASCII letters only. A non-ASCII query that the `i` flag would fold, such as `É` against `é`, is treated as case-sensitive.
- `Replies.Pick`: the draw is an exact real number. Floating-point rounding of `Math.random() * n` is not modelled.
- `Response.prototype.http` (src/response.js:127-129) returns a scoped HTTP client from a library that is not part of this model. It is left out.
- What the adapter methods and `message.finish()` do beyond being called is not part of this model. The adapter is a log of calls, and `finish` counts requests.
- The help registry's storage and registration format are not part of this model. The registry is given as the ordered list `robot.helpCommands()` returns.
