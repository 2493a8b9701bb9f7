# Shannon, modelled and proved

Shannon mirrors GitHub issues and pull requests into Discord threads. This project models its hardest
logic in Dafny and proves what that logic is for. `dafny verify dfyconfig.toml` checks all of it.

**From a body on GitHub to a message on Discord.** `Reader` is GitHub's reading of a body a line at a time
- quotes, list items, thematic breaks, fences, HTML blocks, headings, tables - in its simplest form.
`Reading.Reading` is the class the bot runs: fields changed line by line, a side index of the quotes, one
bisect and one sum of widths in place of a walk through a blank line, thematic breaks tried only from where
one could start. Every method of it is proved to do what the simple form says. `LineRules` is what is done
to one line, `DrawnLines` the fold over a body, and `RichText` with `Pipeline` the passes around it:
comments and pictures taken out, the cut, commit hashes and links written, what is left open closed.
`LineByLine` proves that what is taken out moves no line, and with it what the fold promises of a body as
it is shown; `SmallPrint` follows the bot's own voice and its headings to the published text. `Inserted` and
`SecondReading` are about reading what the pass wrote, `Twice` about a second pass over it, and `Rereadings`
has the bodies it changes. What the patterns take is pinned in characters, apart from how they are written:
`MarkTheorems`, `TableTheorems` and `HtmlTheorems` for the marks GitHub reads, `FenceTheorems` for which lines
open and close a fence, `HeadingTheorems` for a heading's words and what Discord could take for a mark, and
`PassTheorems` for every pass around the lines, the cut included. `MentionTheorems` counts the mentions that
are live in what is published. The theorems speak of Discord's side in terms of a separate reading of it
(`LineRules.DiscordLevel` of the output from a line on, `LooksLikeHeading`, `LooksLikeSubtext`, and the
parity of fences in the output above a line).

**The installation-token cache.** `Tokens` is a transition system. A call is a coroutine that runs unbroken
from one `await` to the next; between any two segments another call's segment, a webhook, a change of the
clock (either way), an answer from GitHub or a failure may come. The theorems hold in every reachable state;
`TokenOutcomes` says what a call comes back with, and on what grounds.

**Smaller machines.** The cooldown and the record that forgets nothing; paged reads against any server at
all; the panel cut to Discord's budget and laid out; the board picker's printer and parser; the rule that a
card moves forward one column at a time.

What comes from libraries is a parameter, so a theorem holds whatever it answers unless it says otherwise:
`Library` holds discord.py's mention finder, Python's `\d`, the host of an address, its idna form and the
commit finder; `lower` is Python's `str.lower`; a server is any function of the requests it is sent.

Some claims are not true of the code as they stand. Each is proved with its exact condition:

- The docstring of `rich_text` says every `](` that comes out is one the module wrote for a host GitHub
  serves. `][(](https://e.x)` comes out as `]( (e.x)`. `EveryJoinIsAccountedFor` counts the others exactly:
  one for each link off GitHub whose words open on `(` right behind a typed `]`.
- A test says that over any text no mention survives. `@[here](https://e.x)` comes out as `@here (e.x)`, and
  an address that is kept for a link to GitHub keeps what it holds. `EveryMentionIsAccountedFor` counts both
  exactly: nothing typed and no link's words hold one, and none is made anywhere but where typed text meets
  the words of a link off GitHub.
- The comment in `must_pass_through` says a step it refuses is always one somebody can take. On a board
  reading `a`, `b`, `a`, `c` the way from `a` to `c` leads back to where it began. `WalkableExactly`: the
  advice can be taken if and only if no column between that has a name is followed by one the board takes
  to come more than one step on; where all of them have names, if and only if each is the first of its name.
- An unconditional `get_pages_since` is `get_pages` if and only if the server does not answer its first
  request with a 304 (`UnconditionalIsGetPages`).
- `fit` stays within its limit if and only if the text did already, or the limit is at least two
  (`FitIsWithin`).
- A test says that reading the line pass's output again changes nothing more, for bodies without form
  feeds. It holds for every such body on which, outside Discord's code, each heading GitHub drew is one
  Discord has and a reader sees, and no words open on a plus (`SecondPassIsIdle`). Without any one of the
  three it can fail: `> ~~~`, `#`, `> # x`; `+ - -`, `  ~~~`, `# z`; `> > ## y`, `    + y`
  (`Rereadings`). The condition is not needed for each body, `+ x` being one; what is, exactly, is that the
  output is answered a heading where one was drawn and nowhere else, and words only where they open on no
  plus (`SecondPassExactly`).
- Rewritten links move no code if and only if, link by link, the name a link is shown by has the fences
  `_destination` counted. `[](https://```.github.com/)`, to a host the code takes for GitHub's, is shown by a
  name with one more (`ANameMovesCode`).

## Model

| member | source | states |
|---|---|---|
| LineByLine.HeadingsOfWhatIsShown | shannon/discord_bot/rich_text.py:137-143 | for every body as the pipeline shows it, in either image mode, and every line of the output: it is of an image shown there; outside Discord's code, counted in the output itself, Discord reading on from it draws a heading if and only if GitHub drew one on the line that Discord has and something is seen of what is shown behind its opening, at its level or the third; no line is small print, code included |
| LineByLine.EveryLineShownIsAccountedFor | shannon/discord_bot/rich_text.py:137-143 | every line shown has one image, of the line written that comes behind those the lines above it hold; it is dropped if and only if it is, outside code, a heading of which nothing is seen; it holds as many fences as the line shown without joins and form feeds, and a dropped one held none; a heading of hashes alone is shown as written, and any other heading opens as it was |
| LineByLine.OpeningIsShown | shannon/discord_bot/line_starts.py:491-497 | wherever GitHub drew a heading, the line shown there opens as the line written does, so the opening is always found where it is looked for |
| LineByLine.FencesOfWhatIsShown | shannon/discord_bot/line_starts.py:207-218 | over a whole body Discord reads exactly the fences of what is shown |
| LineByLine.ShownLineByLine | shannon/discord_bot/rich_text.py:285-339 | positions, not totals: what is shown from the k-th line on is what is shown of the body from the line on that the lines above it hold, so every line break keeps its place in either image mode |
| LineByLine.HashesAloneAreShown | shannon/discord_bot/rich_text.py:138-143 | a line GitHub drew as a heading of hashes alone is shown just as it was written, so none takes a fence away |
| LineByLine.CommentLine | shannon/discord_bot/rich_text.py:303-325 | the next line left when comments are taken out ends on a line break written outside every comment, and holds a join for each one written before it |
| LineByLine.LeftHoldsJoins | shannon/discord_bot/rich_text.py:319-325 | what one comment leaves: a join for each line break it held, and no line break |
| LineByLine.PicturesInLine | shannon/discord_bot/rich_text.py:285-339 | pictures are dealt with on each line as if it were all there is, in either mode |
| DrawnLines.HeadingsWhereGitHubDrewThem | shannon/discord_bot/line_starts.py:171-218 | for every body shown whole and every line of the output: outside Discord's code, counted in the output itself, Discord reading on from it draws a heading exactly when it is the image of a line the reader answered as a heading Discord has (visible words, at most one quote, no item), at its level or the third; no line of it is small print |
| DrawnLines.EveryLineIsAccountedFor | shannon/discord_bot/line_starts.py:196-218 | of a body shown whole: every line written has one image, in order, answered by the reader in its turn; it is dropped only as a heading with nothing to see in it, and otherwise holds as many fences as the line without its form feeds |
| DrawnLines.FencesAreConserved | shannon/discord_bot/line_starts.py:207-218 | over a whole body shown whole Discord reads exactly the fences that were written |
| DrawnLines.NoSmallPrintWhateverIsShown | shannon/discord_bot/line_starts.py:181-218 | whatever text is shown that holds the lines written: the output's lines are what is said of the images; none is small print; one is taken for code exactly when the fences above it in the output, and those lost with lines not shown, are odd; outside code Discord draws a heading exactly where it is shown one GitHub drew |
| DrawnLines.EveryImageIsAccountedFor | shannon/discord_bot/line_starts.py:196-218 | each image, whatever is shown: which line written and which shown it is of, and that its fences are said, or lost with a heading of hashes alone |
| DrawnLines.FencesWhateverIsShown | shannon/discord_bot/line_starts.py:181-218 | the fences of the output and the fences lost are the fences of what is shown |
| DrawnLines.LinesAsGithubDrewThem | shannon/discord_bot/line_starts.py:171-218 | the loop gives the lines of the fold, refuses exactly when the line breaks do not fit, and otherwise has handed the reader every line written, once and in order |
| LineTheorems.SaidReads | shannon/discord_bot/line_starts.py:207-216 | what one line is shown as, whatever lines follow: never small print; outside code a heading exactly where GitHub drew one Discord has, at which level; nothing exactly for a heading nobody would see |
| LineTheorems.SaidKeepsFences | shannon/discord_bot/line_starts.py:500-565 | a shown line holds as many fences as the line it came from without form feeds and a dropped one held none, if and only if it is not, outside code, a heading of hashes alone with a fence on its line |
| LineWords.SaidKeepsWords | shannon/discord_bot/line_starts.py:491-564 | apart from spaces and the marks a rewrite may write, swap or drop, a line says exactly its own characters in order: a heading its words behind its marks or its own opening, any other line all it held |
| HeadingTheorems.DrawnExactly | shannon/discord_bot/line_starts.py:500-541 | a heading is drawn from what stands in front of a closing run of hashes - one with a space or a tab in front of it, or nothing, and only spaces and tabs behind - and from all that was written but for the space behind it where there is no such run, stripped and without form feeds |
| HeadingTheorems.CSharpKeepsItsHash | shannon/discord_bot/line_starts.py:532-541 | so `# C#` is about C# |
| HeadingTheorems.ShownAfterExactly | shannon/discord_bot/line_starts.py:491-497 | what is shown of a heading is what stands behind its opening, its hashes and the one space behind them, where the line opens on exactly those; nothing, of hashes alone |
| HeadingTheorems.HeadingWordsExactly | shannon/discord_bot/line_starts.py:544-565 | a backslash goes in front of words that open on hashes, a zero-width space behind the dash of small print and behind hashes at the end, which Discord would take, and nothing else changes |
| HeadingTheorems.BoldExactly | shannon/discord_bot/line_starts.py:550-565 | a heading Discord has none for is bold with its words kept from opening a mark, unless they hold bold or end on a backslash |
| HeadingTheorems.PlusAsDashExactly | shannon/discord_bot/line_starts.py:160-162 | of a line, only a plus with a space or tab behind it and nothing but those in front becomes a dash |
| HeadingTheorems.LooksLikeHeadingExactly | shannon/discord_bot/line_starts.py:149-154 | a line looks like a heading if and only if marks, one right behind the other and each by its characters, lead to one to three hashes and Discord's space or the end |
| HeadingTheorems.LooksLikeSubtextExactly | shannon/discord_bot/line_starts.py:156-158 | and like small print if and only if they lead to a dash and a hash |
| Twice.HeadingIsPut | shannon/discord_bot/line_starts.py:517-522 | a line that looks like a heading gets a backslash in front of its first hash, and is otherwise as it was |
| Twice.SubtextIsPut | shannon/discord_bot/line_starts.py:525-529 | one that looks like small print a zero-width space between its dash and its first hash |
| LineTheorems.DroppedWhenUnseen | shannon/discord_bot/line_starts.py:500-505 | a heading goes exactly when every character left of it is Discord's whitespace or a zero-width space |
| LineTheorems.DrawnAtItsLevel | shannon/discord_bot/line_starts.py:512-514 | outside items and at most one quote deep, Discord reads the heading back at the level it was written at, or the third, whatever follows it |
| LineTheorems.NoneInAnItem | shannon/discord_bot/line_starts.py:506-511 | in an item or behind two quotes the line it becomes looks like no heading |
| LineRules.NotAHeadingIsNone | shannon/discord_bot/line_starts.py:517-522 | after the backslash no line looks like a heading, and none has become small print |
| LineRules.NotSubtextIsNone | shannon/discord_bot/line_starts.py:525-529 | after the break no line is small print, and no heading was made or lost by it |
| LineRules.DiscordHeadingsLookAlike | shannon/discord_bot/line_starts.py:149-154 | the loose pattern misses nothing: whatever Discord's own rule draws as a heading at the start of a line looks like one, even where its whitespace runs into the next lines |
| Reading.Reading.ReadLine | shannon/discord_bot/line_starts.py:303-369 | one line read in place: the fields and the answer are those of the simple reading, and the index of quotes stays exact |
| Reading.Reading.CarryOn | shannon/discord_bot/line_starts.py:371-393 | the bisect and the sum of widths match the containers a walk one at a time would, and leave the line where it does or both past its last word |
| Reading.Open | shannon/discord_bot/line_starts.py:396-421 | the mark loop ends, and opens the quotes and items of the reading that looks for a thematic break at every mark |
| Reading.Reading.Contain | shannon/discord_bot/line_starts.py:332-343 | dropping and appending containers keeps the index of quotes exact and gives the containers, flags and emptiness of the simple reading |
| Reading.Reading.Settle | shannon/discord_bot/line_starts.py:344-369 | what a line starts or its words carry on: every field and the answer as in the simple reading, a heading's quotes read off the index |
| Reading.BlankWalk | shannon/discord_bot/line_starts.py:376-383 | walking a blank line stops at the first quote, or before an innermost empty item whose full width is not left, or at the end |
| Reading.FirstQuoteByBisect | shannon/discord_bot/line_starts.py:378-380 | bisecting the index finds the first quote at or after a place, and finds none exactly when there is none |
| Reading.NoBreakBefore | shannon/discord_bot/line_starts.py:424-432 | no thematic break starts before the column the code tries first |
| Reading.QuotesBelowAreTheQuotes | shannon/discord_bot/line_starts.py:288-290 | the index is increasing, holds a position if and only if a quote is there, and is as long as there are quotes |
| Reading.QuotePositionsOfPrefix | shannon/discord_bot/line_starts.py:332-333 | cutting the index where it is bisected leaves exactly the quotes of the containers kept |
| ReaderTheorems.NextIsHealthy | shannon/discord_bot/line_starts.py:286-369 | every line keeps the invariant: an empty item is innermost, has width and holds nothing; paragraph and table are never both open; an open block excludes both |
| ReaderTheorems.ReadAllIsHealthy | shannon/discord_bot/line_starts.py:303-369 | and so does every sequence of lines |
| ReaderTheorems.HeadingIsTheLine | shannon/discord_bot/line_starts.py:303-347 | a heading answered is one to six hashes with a space, a tab or nothing behind them, and its opening and words are the whole line as written, tabs and all |
| ReaderTheorems.HeadingIsInItsContainers | shannon/discord_bot/line_starts.py:344-347 | its quote count is the number of quotes the line leaves open, and it is in an item exactly when an item is open |
| ReaderTheorems.ItemsHaveWidth | shannon/discord_bot/line_starts.py:404-421 | of the containers a line opens, exactly the quote marks have no width, so an item is never read as a quote |
| ReaderTheorems.TopHeadingsExactly | shannon/discord_bot/line_starts.py:83-86 | outside every quote, item and block, whatever paragraph or table is open, the reader answers a heading of no container for exactly the lines that are one |
| FenceTheorems.TopFencesExactly | shannon/discord_bot/line_starts.py:88-90 | outside every quote, item and block, whatever else is open, a line leaves a fence of so many marks open, and no container, if and only if it is up to three spaces and then exactly so many, three or more, with no further backtick on a line of them |
| FenceTheorems.ClosesExactly | shannon/discord_bot/line_starts.py:92-94 | and such a fence ends on exactly the lines, as written, of up to three spaces, its mark at least as often, and nothing but spaces and tabs behind; never on one with a tab in front |
| FenceTheorems.TopCodeExactly | shannon/discord_bot/line_starts.py:435-449 | outside every quote, item and block a line is code of no container if and only if no paragraph is open and it has four columns of space, tabs counted at their stops, in front of something |
| FenceTheorems.StartsExactly | shannon/discord_bot/line_starts.py:435-462 | in whatever containers: a line starts a heading, a fence, a block of HTML, a break or code by its own characters, so no kind hides another and the order they are tried in decides nothing further |
| MarkTheorems.QuoteMarksExactly | shannon/discord_bot/line_starts.py:76-81 | a quote mark is up to three spaces, the mark, and the one space that belongs to it |
| MarkTheorems.ItemsExactly | shannon/discord_bot/line_starts.py:76-78 | a list mark is up to three spaces, a bullet or one to nine digits and their mark, and one to four spaces, one of five or more, or the end of the line |
| MarkTheorems.BreaksExactly | shannon/discord_bot/line_starts.py:133-134 | a thematic break is up to three spaces and then one of its three characters at three places or more, with only spaces and tabs between and behind |
| MarkTheorems.OpeningFencesExactly | shannon/discord_bot/line_starts.py:88-90 | what opens a fence, in characters |
| MarkTheorems.CodeSpansExactly | shannon/discord_bot/line_starts.py:453-455 | and when a run of backticks opens a code span instead: exactly where another backtick is behind it |
| MarkTheorems.ClosingFencesExactly | shannon/discord_bot/line_starts.py:92-94 | what closes one, in the columns a line is read in |
| MarkTheorems.UnderlinesExactly | shannon/discord_bot/line_starts.py:136-141 | a heading's underline is a run of `=` or of `-`, and spaces and tabs behind it |
| MarkTheorems.TabsReachStops | shannon/discord_bot/line_starts.py:305-306 | laying out one more tab of an opening fills up to the next stop of four, one to four columns on, and any other character stands for itself |
| TableTheorems.CellsExactly | shannon/discord_bot/line_starts.py:465-476 | a row has one cell more than it has pipes no backslash stands in front of, but for one at either end; with no pipe one, or none if it is empty |
| TableTheorems.DelimiterRowsExactly | shannon/discord_bot/line_starts.py:142-144 | a table's second line, parted at its pipes but for one it opens on, is dashes with a colon at either end or none and space around in every part, or space alone in a last one that is not the first |
| HtmlTheorems.KindsExactly | shannon/discord_bot/line_starts.py:109-119 | the kinds of HTML block are told apart by what they open on, whatever order they are tried in |
| HtmlTheorems.EndsExactly | shannon/discord_bot/line_starts.py:109-119 | and each of the five that have an end of their own by that end, in characters |
| HtmlTheorems.TagsAloneExactly | shannon/discord_bot/line_starts.py:121-131 | the possessive pattern misses no tag and takes nothing else: a line is one tag alone if and only if some way of parting it into a name, attributes with or without values, and a close is its grammar's |
| ReaderTheorems.FenceHoldsWhatFollows | shannon/discord_bot/line_starts.py:311-315 | a fence opened outside every container makes code of each line after it up to the one that closes it, and to the end of the body if none does |
| ReaderTheorems.BlockHoldsItsLines | shannon/discord_bot/line_starts.py:310-315 | inside any block opened outside every container, HTML of all seven kinds included, every line up to its end is answered as code |
| ReaderTheorems.BlankLineBreaksOff | shannon/discord_bot/line_starts.py:310-315 | a blank line ends a block that has no end of its own, and is no code |
| RichTextTheorems.WhatIsShownFits | shannon/discord_bot/rich_text.py:137-143 | for every body and either image mode, what is shown holds as many line breaks and joins as were written line breaks, so the line reader never refuses it |
| RichTextTheorems.PicturesKeepBreaks | shannon/discord_bot/rich_text.py:285-339 | neither way of dealing with pictures makes or loses a break |
| RichTextTheorems.BalancedIsBalanced | shannon/discord_bot/rich_text.py:351-364 | neither mark is left open, counted as Python counts; only the end changes, by six characters at most; a second pass does nothing, and the first does nothing exactly when both counts were even |
| RichText.RewriteLinks | shannon/discord_bot/rich_text.py:209-222 | the loop over matches gives the pieces of the text, typed and linked by turns, each rendered |
| PassTheorems.PiecesAreInPlace | shannon/discord_bot/rich_text.py:215-222 | the pieces written one behind the other are the text: each link is where one is, and at no place of what is typed between does one begin |
| PassTheorems.LinksExactly | shannon/discord_bot/rich_text.py:215-218 | a link is words with no bracket and no line break between brackets, and an address with no parenthesis, angle or space between parentheses right behind |
| MentionTheorems.TypedIsDead | shannon/discord_bot/rich_text.py:198-206 | whatever is typed around links or as a link's words, no mention in it, of either rule's, is live once it is rendered |
| MentionTheorems.TypedIsLeft | shannon/discord_bot/rich_text.py:198-206 | and it gains zero-width spaces and nothing else, none where nothing in it was live and no `](` was in it |
| MentionTheorems.EveryMentionIsAccountedFor | shannon/discord_bot/rich_text.py:209-244 | over a whole text: the live mentions that come out are those an address of a link to GitHub holds, and those made where typed text meets the words of a link off GitHub |
| MentionTheorems.PublishedMentions | shannon/discord_bot/rich_text.py:145-148 | and the published text has no others: for every body, limit and image mode, with commits linked or not |
| MentionTheorems.NoneIsMade | shannon/discord_bot/rich_text.py:225-244 | none is made where what is typed ends on a character no mention holds, or what follows opens on one |
| MentionTheorems.ALinkThatRings | tests/unit/discord_bot/test_rich_text.py:876-894 | `@[here](https://e.x)` comes out as `@here (e.x)`, which is a mention |
| LinkTheorems.LinkComesTo | shannon/discord_bot/rich_text.py:225-244 | what each fate makes of a link: made inert as it was written, a link under its words or its host's name, or words and the host's name kept from opening a mark |
| PassTheorems.FatesExactly | shannon/discord_bot/rich_text.py:238-261 | a link stays one only over `https` and to a host GitHub serves; it is words only over `https` to another, where its address beyond the host holds no odd number of fences |
| PassTheorems.IsGitHubExactly | shannon/discord_bot/rich_text.py:264-269 | a host is GitHub's if and only if it is one of the two names or ends on one right behind a dot |
| LinkTheorems.LinksKeepFences | shannon/discord_bot/rich_text.py:203-244 | for every text whose links are each shown by a name on one line with, up to an even number, the fences that were counted: line by line, with its links rewritten it has an odd number of fences exactly where it had, and the same number of lines |
| LinkTheorems.LinkScansAlikeExactly | shannon/discord_bot/rich_text.py:225-244 | link by link, and in either direction: a link rewritten reads as the link written if and only if the name it is shown by, if it is, has the fences that were counted, up to an even number |
| LinkTheorems.ANameMovesCode | shannon/discord_bot/rich_text.py:238-242 | a link with no words to a host GitHub serves whose name brings a fence nobody counted: the line no longer has an odd number |
| LinkTheorems.BrokenMentionsStayBroken | shannon/discord_bot/safe_text.py:99-108 | nothing the mention rule leaves is a mention |
| LinkTheorems.DefusedOnce | shannon/discord_bot/rich_text.py:198-200 | safe to apply twice: with discord.py's pattern, neither rule matches what the two leave, and a second time changes nothing |
| LinkTheorems.MentionsBreakOnce | shannon/discord_bot/safe_text.py:99-108 | whatever discord.py's rule is, the bot's own breaks mentions once |
| JoinTheorems.EveryJoinIsAccountedFor | shannon/discord_bot/rich_text.py:209-269 | the `](` that come out are one for each link to a host GitHub serves and one for each link off GitHub that opens, as it is shown, on `(` right behind a typed `]`; so all of them are the module's own if and only if there is no such link |
| JoinTheorems.AForgedJoin | shannon/discord_bot/rich_text.py:225-244 | a text with no link to GitHub that comes out with a join |
| SmallPrint.NoSmallPrintIsPublished | shannon/discord_bot/rich_text.py:143-148 | for every body, limit and image mode, with commits linked or not: no line of the published text is small print, after the blank runs, the cut, the commits, the links and the closing |
| SmallPrint.HeadingsArePublishedWhereTheyWereCut | shannon/discord_bot/rich_text.py:145-148 | line by line the published text looks like a heading only where the text that was cut does, and has at most one line more, which is none |
| Pipeline.PublishedLinks | shannon/discord_bot/rich_text.py:148 | closing what is left open adds no join to that count |
| Pipeline.CodeStaysWhereItWasCut | shannon/discord_bot/rich_text.py:145-148 | from the cut on, commits and links written, code is on the same lines |
| Pipeline.AsRichText | shannon/discord_bot/rich_text.py:104-148 | the pipeline end to end: it never fails at the line reader, leaves neither mark open, and lifts the first four pictures GitHub serves |
| PassTheorems.CutExactly | shannon/discord_bot/safe_text.py:51-60 | a stripped text within the limit is as it was; any other is its first characters, not ending on a space and with nothing but space left out up to the limit, and the mark of the cut |
| PassTheorems.UncutExactly | shannon/discord_bot/safe_text.py:51-60 | it comes out as it was if and only if it fits, or all that is over is a mark of the cut of its own; and never more than one over the limit |
| PassTheorems.CutTextIsWithin | shannon/discord_bot/rich_text.py:145 | so is every body when it is cut, before commits and links are written |
| Text.StripExactly | shannon/discord_bot/safe_text.py:57 | stripping takes off exactly the characters in front of the first and behind the last that is not of the set |
| Text.SpacesDiffer | shannon/discord_bot/line_starts.py:53-63 | Discord's space and Python's differ on six characters only |
| PassTheorems.BlankRunsExactly | shannon/discord_bot/rich_text.py:71 | each run of line breaks is as it was up to two and two if longer, and what is on either side is shortened by itself |
| PassTheorems.NoThreeBreaks | shannon/discord_bot/rich_text.py:71 | so no three are left in a row |
| PassTheorems.FoldedExactly | shannon/discord_bot/rich_text.py:52 | a carriage return is a line break, together with the line break behind it where there is one, wherever it stands |
| PassTheorems.WrittenExactly | shannon/discord_bot/rich_text.py:137 | and one byte order mark is taken off the front |
| PassTheorems.CommentsExactly | shannon/discord_bot/rich_text.py:61 | a comment ends behind the first `-->` its opening has no part in; one never closed is none |
| PassTheorems.FirstCommentGoes | shannon/discord_bot/rich_text.py:138 | nothing in front of the first comment changes, and of the comment only what it leaves behind stays |
| PassTheorems.LeftBehindExactly | shannon/discord_bot/rich_text.py:303-325 | that is a join for each line break it held, and a zero-width space exactly where a mark in front has a space behind, or a mark could open behind |
| PassTheorems.FirstPictureGoes | shannon/discord_bot/rich_text.py:285-300 | the first picture becomes its words, kept from opening a mark, or what it leaves behind where it has none |
| PassTheorems.FirstPictureStays | shannon/discord_bot/rich_text.py:328-339 | or loses only its bang |
| Pipeline.LinkCommits | shannon/discord_bot/rich_text.py:174-195 | the loop is a splice: the text with the first five named hashes replaced by their links where they have one |
| PassTheorems.OneCommitLinked | shannon/discord_bot/rich_text.py:174-195 | any one of the hashes becomes its link or stays as it is, and what is in front of and behind it is as if it were not there |
| Pipeline.LiftPictures | shannon/discord_bot/rich_text.py:293-300 | the dictionary filled in a loop holds the first four distinct addresses GitHub serves, as first written |
| Pipeline.FirstServedOnce | shannon/discord_bot/rich_text.py:293-298 | which are exactly the served addresses, none twice, each picture the first in the body with its address |
| PassTheorems.PicturesInOrder | shannon/discord_bot/rich_text.py:293 | the pictures are taken from left to right, each the first behind the end of the one before |
| TokenTheorems.EveryRun | shannon/github/installations.py:191-288 | in every interleaving: mints for one installation never overlap, none is sent while the token last given for it has more than five minutes left, the cache is what was last given, one discovery at a time, ten list requests a call at most |
| TokenOutcomes.OutcomesExactly | shannon/github/installations.py:191-231 | in every interleaving: a call has come back with an outcome if and only if a step of the run gave it that outcome, as `EndingsExactly` has it |
| TokenOutcomes.EndingsExactly | shannon/github/installations.py:191-231 | with a token exactly when GitHub answers its mint with that one, or when the one last given for the installation it has in hand has more than five minutes left as it resumes or takes the lock; with none exactly unsigned, told of a suspension, after a 404, or where the list is refused, read to its end or to its tenth page; with an exception exactly where one is raised |
| TokenOutcomes.TokensAreTheLastGiven | shannon/github/installations.py:216-231 | so in every run a token a call comes back with is the one last given for the installation it had in hand, just given to it or with more than five minutes left |
| TokenOutcomes.EveryCallStandsOn | shannon/github/installations.py:191-339 | in every run what a call holds rests on a step of it: it was told what the map said as it was read, remembers the row GitHub's page covers its account by, has an installation in hand it was told of or found listed and not suspended, and forgets one only after a 404 |
| TokenTheorems.StepKeepsInv | shannon/github/installations.py:191-339 | every segment, webhook, tick and failure keeps the invariant of locks, cache, log and directory |
| TokenTheorems.RunKeepsInv | shannon/github/installations.py:191-339 | and so does every run |
| TokenTheorems.WrittenUnderItsLock | shannon/github/installations.py:224-231 | the cached token of an installation changes only by the answer to a mint, made by the call that holds its lock |
| TokenTheorems.NothingSentWhileSuspended | shannon/github/installations.py:199-253 | while the map holds a suspension, no call for that account sends GitHub anything unless it is past its read already, whatever interleaves; one that has read nothing, or nothing but the lack of a row, ends with no token |
| TokenTheorems.SuspendedCallsThatSend | shannon/github/installations.py:199-253 | which calls those are: in some run with the account suspended throughout a call sends something if and only if it was told of an installation, or of nothing under the discovery lock, and has not posted its mint |
| TokenTheorems.QueuedCallsUseTheRow | shannon/github/installations.py:248-251 | a call queued for discovery whose account has a row by then asks for no list and mints for that row's installation only |
| TokenTheorems.ForgottenStaysForgotten | shannon/github/installations.py:404-416 | once a mint was answered 404 and the row forgotten, no account reads as that installation until something tells the map again |
| TokenTheorems.UnnamedIsAskedAbout | shannon/github/installations.py:204-255 | in every interleaving, while the map has nothing on an account, a call for it is on its way to asking GitHub, or was ended by an exception, or has asked |
| TokenTheorems.AskedAboutAtOnce | shannon/github/installations.py:204-255 | and one nothing interrupts asks |
| TokenTheorems.RememberKeepsIdsUnique | shannon/db/stores/installations.py:42-105 | remembering and forgetting keep one row an id and one a login, and what was remembered reads back |
| TokenOutcomes.RememberExactly | shannon/db/stores/installations.py:42-105 | remembering and forgetting leave every account with another installation as it was, and no account with that one but the one remembered |
| Tokens.FindCovering | shannon/github/installations.py:467-492 | the loop finds the first row that covers the account, passing over rows with no login or no number |
| Tokens.Covering | shannon/github/installations.py:448-492 | none is found exactly when no row on the page covers the account |
| TokenOutcomes.CoveringIsFirst | shannon/github/installations.py:467-492 | and what is found is the id and the suspension of the first that does |
| Cooldowns.Cooldown.BeginRun | shannon/commands/_cooldowns.py:47-65 | the cooldown that prunes answers as the record of every finish does, and keeps agreeing with it |
| Cooldowns.Cooldown.FinishRun | shannon/commands/_cooldowns.py:67-70 | the finish is recorded and the run is over |
| Cooldowns.ForgettingChangesNoAnswer | shannon/commands/_cooldowns.py:47-70 | with a clock that never goes back, every history of calls is answered alike with and without pruning |
| Cooldowns.KeepsAfter | shannon/commands/_cooldowns.py:53-65 | one call: the same answer, and every wait not spent is still held |
| Cooldowns.OneRunAtATime | shannon/commands/_cooldowns.py:47-70 | between two runs of a key that began, the first finished |
| Cooldowns.RunsAreSpaced | shannon/commands/_cooldowns.py:36-37 | a run begins at least the spacing after any earlier finish of its key |
| Cooldowns.RunsBeginExactly | shannon/commands/_cooldowns.py:47-70 | over every history of calls: a run begins if and only if every run of its key that began has finished since, and every finish of its key is at least the spacing ago |
| Cooldowns.WaitsAreExact | shannon/commands/_cooldowns.py:50-63 | no refusal changes anything; one for a run under way holds for any time; the other promises the least whole number of seconds after which the call would begin |
| Paging.GetPages | shannon/github/client.py:801-846 | the loop reads what the links lead to, in at most fifty requests, self-referential cursors included |
| Paging.PagesAreWhatLinksName | shannon/github/client.py:820-846 | page by page the body at the address the links name; whole unless fifty pages left a link over, which is exactly when it warns, or a reply was no page |
| Paging.GetPagesSince | shannon/github/client.py:848-912 | the conditional read, in at most fifty requests |
| Paging.UnconditionalIsGetPages | shannon/github/client.py:848-912 | without a validator it reads the same pages, warns and fails alike, if and only if the first answer is not a 304 |
| Paging.ValidatorsSpeakForOnePage | shannon/github/client.py:882-912 | a validator is kept only for a list of one page, and a 304 keeps the one sent |
| Paging.ValidatorsExactly | shannon/github/client.py:877-912 | in either direction: a validator that is not empty goes with the first request, a 304 to it and nothing else is the news that nothing changed, and the one that came with a list is kept if and only if the list is that one page |
| Paging.TroubleExactly | shannon/github/client.py:1029-1046 | which replies are no page, and by which status each kind of failure is told |
| Paging.OpenItems | shannon/github/client.py:503-533 | the items found are the first rows of all the pages' rows, each id once |
| Paging.FirstRowsHoldEachOnce | shannon/github/client.py:513-533 | every id of a row that parses is there, once, at the first row that holds it |
| Paging.Send | shannon/github/client.py:771-799 | at most three redirects, each to where the reply before said and none off the first address's origin; it succeeds exactly when the last reply is a success, and else fails with what that reply's status says |
| Panels.LinesWithin | shannon/domain/text.py:24-41 | the most leading whole lines that fit, and always fewer than all of them for a text over its budget, so the loop stops inside itself |
| Panels.FittingIsLargest | shannon/domain/text.py:24-41 | there is only one such number of lines |
| Panels.FitText | shannon/discord_bot/safe_text.py:129-145 | the text as it is, or its fitting lines and the mark of the cut, or its first characters where no line fits |
| Panels.FitIsWithin | shannon/discord_bot/safe_text.py:129-145 | within the limit if and only if the text was or the limit is at least two |
| Panels.FitKeepsTheFront | shannon/discord_bot/safe_text.py:129-145 | what is kept is the most leading whole lines that leave room for the mark of the cut, and where not one does the first characters that do |
| Panels.Trim | shannon/discord_bot/panels.py:154-171 | the loop that pops blocks keeps as many leading ones as fit |
| Panels.TrimmedFits | shannon/discord_bot/panels.py:154-171 | always within 3900 characters, a prefix of the blocks with the first always in it, a text cut only in the sole survivor, idempotent, and the same panel exactly when it fitted |
| Layout.Parts | shannon/discord_bot/layout.py:61-91 | flattened, the components are the blocks under their rules, then the gallery and the button exactly when asked for; the picture hangs once, beside the first block and its subheading |
| Layout.RulesStand | shannon/discord_bot/layout.py:104-112 | the first block stands bare; a body under a large rule, fields and a footnote under a small one, a heading under none |
| Layout.ViewsSayTheBlocks | shannon/discord_bot/layout.py:136-143 | the view's texts are the blocks' in order, in at most two components a block and five |
| Layout.FlatSaysTheSame | shannon/discord_bot/layout.py:136-143 | a section changes nothing of what is said and costs two components |
| Layout.AsMessage | shannon/discord_bot/layout.py:34-58 | text for a plain panel and a view for any other, boxed in the accent exactly when there is one, within the budget and two components a block and six |
| Picker.NumbersReadBack | shannon/commands/board.py:440-463 | a bare board number reads back |
| Picker.LabelsReadBack | shannon/commands/board.py:520-532 | so does a picker's label, however long its title and wherever it was cut |
| Picker.AddressesReadBack | shannon/commands/board.py:440-481 | and a board's own address, with its owner, for both kinds of owner |
| Picker.WantedIsInRange | shannon/commands/board.py:471-481 | anything accepted is a board from 1 to 2147483647, with no owner or one that is a login |
| Picker.WantedExactly | shannon/commands/board.py:440-481 | a text is taken for a board if and only if, stripped, it is a number there is room for, a label of one, or an owner's board address in any case with nothing behind it but a view, a slash and a query |
| Picker.AddressesExactly | shannon/commands/board.py:88-92 | the address pattern by its parts: the site, the kind of owner, an owner, a number, and what is appended |
| Picker.SiteExactly | shannon/commands/board.py:88-92 | the site is `http` or `https`, `www.` or not, and the host, in any case |
| Picker.AppendedExactly | shannon/commands/board.py:88-92 | what may be appended is a view with a number, a slash, and a query or fragment on the same line, each there or not |
| Picker.LabelsExactly | shannon/commands/board.py:97 | a label is a hash and digits that end where a word does |
| Picker.LabelsFit | shannon/commands/board.py:520-532 | a label is within a hundred characters: whole where it fits, and else its front and the mark of the cut |
| Columns.MustPassThrough | shannon/domain/board.py:82-122 | the dictionary filled in a loop places each name at its first column, and the route is the columns between, or none where a column is unknown |
| Columns.NormalisedExactly | shannon/domain/board.py:68-69 | a column reads as the words of its name in lower case, a space between each two: whatever separators part them |
| Columns.RouteIsBetween | shannon/domain/board.py:82-122 | where columns read differently, the route forward from a column with a name is exactly the columns between, and any other route is empty |
| Columns.AllowedIsOneStep | shannon/domain/board.py:104-122 | a hop is allowed if and only if a column is unknown or the target is at most one step on |
| Columns.WalkableExactly | shannon/domain/board.py:97-122 | the route can be walked a column at a time if and only if from every column between that has a name the board takes the next to come at most one step on |
| Columns.WalkableWhereNamed | shannon/domain/board.py:97-122 | where all columns between have names, if and only if each is the first its name reads as |
| Columns.DifferentColumnsAreWalkable | shannon/domain/board.py:82-122 | so it always can on a board whose columns all read differently |
| Columns.AdviceThatCannotBeTaken | shannon/domain/board.py:112-122 | a board with a repeated column whose route cannot be walked |
| Twice.SecondPassIsIdle | tests/unit/discord_bot/test_line_starts.py:1294-1307 | for every body without form feeds on which, outside Discord's code, every heading GitHub drew is one Discord has and a reader sees and no words open on a plus, a second pass changes nothing |
| Twice.SecondPassLeaves | tests/unit/discord_bot/test_line_starts.py:1294-1307 | and whatever the body, its lines in front of the first that is none of those come out of a second pass as they came out of the first |
| Twice.SecondPassExactly | tests/unit/discord_bot/test_line_starts.py:1294-1307 | for every body without form feeds a second pass changes nothing if and only if the output, outside Discord's code, is answered a heading on each line one was drawn on and on no other, and words on none that opens on a plus |
| Twice.LineSaidAgain | shannon/discord_bot/line_starts.py:207-216 | one line of those says itself when it is read again, in any reading that differs in nothing but a table's header, and leaves such a reading |
| SecondReading.NextPut | shannon/discord_bot/line_starts.py:303-369 | a line that is no heading, with a backslash or a zero-width space put in front of its first hash, is read as it was: the same answer, the same containers, block, paragraph and table, and a header of as many cells |
| SecondReading.HeadingAgain | shannon/discord_bot/line_starts.py:303-347 | a heading as it is redrawn is read as a heading again, in one quote or none, and leaves what the heading left |
| SecondReading.NoHeadingBehindADash | shannon/discord_bot/line_starts.py:384-421 | no reading takes a line whose first hash stands right behind a dash for a heading |
| Inserted.CellsPut | shannon/discord_bot/line_starts.py:465-476 | a table's row has as many cells with a mark put in front of a hash of it |
| Inserted.EndsPut | shannon/discord_bot/line_starts.py:479-488 | and a block of code or of HTML ends on the line with the mark exactly where it did without |
| Twice.UnchangedExactly | shannon/discord_bot/line_starts.py:171-218 | which bodies are left as they are by one pass: each line, as GitHub reads it there, is said as itself, which is spelled out for code and for words |
| Rereadings.AHeadingThatGoesChangesMore | tests/unit/discord_bot/test_line_starts.py:1294-1307 | a second pass changes the output of a body of which only a heading with nothing in it goes |
| Rereadings.APlusThatBecomesADashChangesMore | tests/unit/discord_bot/test_line_starts.py:1294-1307 | and that of one of which only pluses become dashes |
| Rereadings.AHeadingShownAsBoldChangesMore | tests/unit/discord_bot/test_line_starts.py:1294-1307 | and that of one of which only a heading two quotes deep is shown as bold |
| Rereadings.APlusMayBecomeADash | tests/unit/discord_bot/test_line_starts.py:1294-1307 | but not that of every such body |
| Twice.ReadTwiceChangesMore | tests/unit/discord_bot/test_line_starts.py:1294-1307 | a body without form feeds whose output a second pass changes |

## Left out

- Discord and GitHub I/O, httpx, discord.py's objects, JSON and the database: replies, panels and rows are values.
- `app_auth`: signing is the flag on `Begin` that says whether there is a signature.
- `urlparse`, the idna codec, discord.py's mention escaping, Python's `\d` and the hash scanner in `commit_names`: fields of `Library`.
- LinkTheorems.LinksKeepFences: takes from the libraries that a name that is shown is on one line, and off GitHub not empty.
- JoinTheorems.EveryJoinIsAccountedFor: for texts with no `]` in a name that is shown; the code counts on the libraries for that.
- LinkTheorems.DefusedOnce: discord.py is not part of this model; its pattern for what to escape is written out as `EscapedAt`.
- MentionTheorems.EveryMentionIsAccountedFor: takes from the libraries that a host's name holds no `@` and no `<`, and that of ASCII only the digits are decimal.
- SmallPrint.NoSmallPrintIsPublished: takes from the libraries that a host's name is not empty and on one line, and that a commit's link opens on a bracket.
- Pipeline.CodeStaysWhereItWasCut: takes from the commit finder that hashes and links are ordered, disjoint, on one line and without backticks.
- ReaderTheorems.BlockHoldsItsLines: outside every quote and item; inside one, a line that leaves the container ends the block as well.
- The reader is proved against its simple form, and for headings and fences against their definitions; it is not compared with the whole of the GFM specification.
- PassTheorems.CutTextIsWithin: of the cut text; commits, names and the marks put in behind it come on top, and no bound of `as_rich_text` is proved.
- `_alt`'s description of a picture.
- The installation cache is a transition system on values rather than a class: its segments interleave, which methods of a class do not.
- `account_id` in a directory row, `installed_on`, `app_slug`, the log, and the warning that a walk stopped at its tenth page.
- The webhooks that write the directory are one step that puts any rows there, no id twice.
- Paging.GetPages: credentials and query parameters are part of what the server is; a failure to reach it is one reply, `NoAnswer`.
- Paging.Send: `_retry_after` and the words of an error.
- Cooldowns.WaitsAreExact: time is `real`, so the rounding of a floating-point clock is not modelled.
- Layout.Parts: asks that no block be empty, since the code leaves out an empty subheading; the alt text of the thumbnail is not modelled.
- The picker's suggestions, permission tiers, settings, wording, migrations, queues and reminders: finite cases or code that would only add easy members.
