# GroupMe sales bot: a Dafny model

This project models the core of a small GroupMe bot (`Program.cs`). Members of a group post their
sales as chat messages such as `$1,250.00` or `300`. The bot reads the day's messages, parses each one
that starts with a dollar amount, and keeps a list of today's sales. It answers two chat commands:

- `!leaderboard` posts a ranked board of every seller's total, with medals for the top three.
- `!mysales` posts the sender's own total.

The bot has two flows. The listen loop polls the latest messages, finds the ones posted since the
last poll (the watermark), rebuilds the sales and answers the new commands. The one-shot fetch
rebuilds the sales from the last hundred messages, answers the commands among the ten newest, and
posts the leaderboard once more.

The modules follow the program's pieces:

| file | module | what it holds |
|---|---|---|
| `wrappers.dfy` | `Wrappers` | `Option`, standing for C#'s `null` and for `out`/`bool` results |
| `messages.dfy` | `Messages` | a message `(text, user, created_at, id)` and a `SaleEntry` |
| `numerals.dfy` | `Numerals` | digit strings, their value, and the `N2` number format |
| `text.dfy` | `Text` | `Trim`, `TrimEnd`, white space, `OrdinalIgnoreCase` |
| `sale_parser.dfy` | `SaleParser` | the amount pattern, `decimal.TryParse`, `TryParseSale`, parsing a list of messages |
| `leaderboard.dfy` | `Leaderboard` | grouping, stable descending sort, rendering; `BuildLeaderboardMessage` as a loop |
| `commands.dfy` | `Commands` | command recognition and the reply to each message |
| `fetcher.dfy` | `Fetcher` | the filter on a deserialized response and the paging loop over today's messages |
| `bot.dfy` | `Bot` | the watermark, class `Bot` (the static `sales` list and `lastMessageId`), one poll step and the one-shot fetch |

Modelling choices:

- Amounts are whole numbers of cents (`nat`). The pattern lets at most two fraction digits through,
  so every `decimal` the source computes is a whole number of cents and every sum is exact.
- The regular expression `^\$?([\d,]+(?:\.\d{2})?)` is written out as a scanner over ASCII digits,
  `,`, `$` and `.`. The input is not trimmed first.
- `decimal.TryParse` is modelled for the strings the pattern can hand it once the commas are gone:
  digits, optionally followed by `.` and two digits. It fails only on the empty string, which is what
  a run of commas alone leaves. A run of commas followed by cents, such as `,.50`, becomes `.50`,
  which `decimal.TryParse` accepts as 50 cents.
- `:N2` is the invariant-culture format: a comma before every group of three integer digits, a
  `.`, and exactly two fraction digits.
- The static list `sales` and the listen loop's local `lastMessageId` are the two fields of class
  `Bot.Bot`. `BuildLeaderboardMessage` takes the sales as a parameter.
- A posted message is modelled as a string in the sequence of replies a method returns, in order.
- The GroupMe pager is a finite sequence of pages. Request `k` of one paging run is answered with
  page `k`, or with an empty page once the pages are used up. Each page is the list as received
  (`Fetcher.Received`): messages with blank text are already gone. A page that held only such
  messages therefore reads as empty and ends the paging. `FetchAllToday` also returns the
  `before_id` it sent with each request.
- The clock is the parameter `today`, a day number since the Unix epoch. A message is from today
  when `created_at / 86400 == today`. Dafny's division rounds down for a positive divisor, which
  matches the UTC date of `FromUnixTimeSeconds`, also before 1970.
- After startup, a watermark that the fetched window no longer holds makes nothing new.
  `FindIndex` returns -1 there and the code only takes messages when the index is above 0. The
  model follows the code. It does not treat the whole window as new in that case; the
  detection that does, `Bot.IntendedNewMessages`, stands beside it (see "## Findings").
- One iteration of the listen loop is `Bot.Bot.PollStep`. The loop itself and its ten-second delay
  are not modelled.

## Model

| member | source | states |
|---|---|---|
| `Numerals.NatToString` | Program.cs:186 | the rank is written as a non-empty string of digits whose value is the rank, with no leading zero (zero itself is `0`) |
| `Numerals.GroupThousands` | Program.cs:186 | the integer part of `N2` is made of digits and commas, starts and ends with a digit, and reads back as the number |
| `Numerals.GroupThousandsLayout` | Program.cs:186 | in the integer part of `N2` a comma stands exactly at every fourth place from the end, one before each group of three digits, and there is no leading zero except for zero itself |
| `Numerals.FormatN2` | Program.cs:186 | `N2` of an amount ends in `.` and two digits, before them is the grouped integer part, and its digits spell the amount in cents |
| `Numerals.ValueOfAppend` | Program.cs:186 | the value of a concatenation of digit strings is the left value shifted by the right one's digit count, plus the right value |
| `Text.TrimEndShape` | Program.cs:189 | `TrimEnd` keeps a prefix that does not end in white space and drops only white space |
| `Text.TrimStartShape` | Program.cs:90 | the start half of `Trim` keeps a suffix that does not start with white space and drops only white space |
| `Text.TrimEndOfPadded` | Program.cs:189 | `TrimEnd` removes exactly a white-space tail after a text that does not end in white space |
| `Text.TrimOfPadded` | Program.cs:90 | `Trim` gives back exactly the text inside any white-space padding when that text starts and ends with other characters |
| `Text.ToUpperAscii` | Program.cs:90 | ordinal case folding leaves no lower-case ASCII letter; a capital comes from itself or its small letter, every other character from itself, so white space stays white space |
| `Text.FoldMatches` | Program.cs:90 | against `!` or a small letter, a character folds to the same as it exactly when it is that character or, for a letter, its capital |
| `SaleParser.RunLength` | Program.cs:157 | the greedy `[\d,]+` takes every leading digit and comma and stops at the first other character |
| `SaleParser.MatchAmount` | Program.cs:157-158 | a match has a non-empty run of digits and commas and either no fraction or `.` with two digits |
| `SaleParser.RemoveCommas` | Program.cs:159 | after `Replace(",", "")` no comma is left, and digits and commas become digits only |
| `SaleParser.RemoveCommasKeepsDigits` | Program.cs:159 | removing commas keeps the value and, for a run of digits and commas, leaves as many characters as there were digits |
| `SaleParser.DecimalDollars` | Program.cs:159 | digits alone parse as that many whole dollars |
| `SaleParser.DecimalCents` | Program.cs:159 | digits, `.` and two digits parse as the dollars before the point and the cents after it |
| `SaleParser.CentsValue` | Program.cs:159 | the digits of dollars, `.` and two cent digits spell the dollars times 100 plus the cents |
| `SaleParser.NumberOfMatch` | Program.cs:157-159 | the matched group without commas is something `decimal.TryParse` reads, has a fraction exactly when cents matched, is empty exactly when the run had no digit and no cents matched, and keeps the value |
| `SaleParser.TryParseSaleMeaning` | Program.cs:153-167 | no match gives no sale; a match gives the sale of the matched amount for the author, except a run of commas alone, which gives none |
| `SaleParser.AmountPrefixBody` | Program.cs:157 | what follows the optional `$` of an amount prefix is exactly its run, its cents and the rest |
| `SaleParser.MatchOfAmountPrefix` | Program.cs:157-158 | every text of the declarative amount shape is matched with exactly that run and fraction |
| `SaleParser.MatchIsAmountPrefix` | Program.cs:157-158 | every successful match splits the text into that declarative shape |
| `SaleParser.ParseOfAmountPrefix` | Program.cs:153-167 | a text of the amount shape is a sale of exactly its amount for the author, or no sale when the run has no digit and no cents follow |
| `SaleParser.ParsedSaleHasAmountPrefix` | Program.cs:153-167 | every sale comes from a text of the amount shape and has its amount |
| `SaleParser.ParseNeedsLeadingAmount` | Program.cs:155-158 | a text whose first character after an optional `$` is neither a digit nor a comma is no sale |
| `SaleParser.ParseFormattedAmount` | Program.cs:153-167 | round trip: the bot's own `N2` rendering of an amount, with or without `$` and followed by anything, parses back to that amount |
| `SaleParser.DollarAndCentsExample` | Program.cs:157-159 | `$12.50 thanks!` is a sale of 1250 cents |
| `SaleParser.ThousandsExample` | Program.cs:157-159 | `1,250 cash` is a sale of 125000 cents |
| `SaleParser.OneFractionDigitExample` | Program.cs:157-159 | `12.5` is a sale of twelve dollars: one fraction digit is not taken |
| `SaleParser.NonSaleExamples` | Program.cs:155-159 | `great job`, `see you $12 later`, ` 12` and `,,` are not sales |
| `SaleParser.SalesFromMessages` | Program.cs:120-127 | every sale in the rebuilt list comes from a message that parses to it |
| `SaleParser.SalesInAppend` | Program.cs:81-85 | parsing a concatenation of message lists gives the concatenation of their sales, in order |
| `Leaderboard.UserTotalAppend` | Program.cs:97 | a user's total over two lists of sales is the sum of the two totals |
| `Leaderboard.UserTotalZero` | Program.cs:97-98 | a user's total is zero exactly when each of that user's sales is zero |
| `Leaderboard.FirstAppearance` | Program.cs:176 | the index found holds the user's first sale, or is past the end when the user has none |
| `Leaderboard.Users` | Program.cs:176 | the group keys hold each seller exactly once, in the order of their first sales |
| `Leaderboard.InsertByTotal` | Program.cs:178 | inserting a row adds exactly that row to the multiset of rows |
| `Leaderboard.SortByTotal` | Program.cs:178 | sorting is a permutation of the rows |
| `Leaderboard.InsertInRankOrder` | Program.cs:178 | inserting a row that appeared first into rows in rank order keeps rank order |
| `Leaderboard.SortInRankOrder` | Program.cs:178 | the stable descending sort of rows in first-appearance order is in rank order |
| `Leaderboard.RankedRowsAreGroups` | Program.cs:175-179 | the board has one row per seller, and each row holds a seller and that seller's exact total |
| `Leaderboard.EverySellerRanked` | Program.cs:175-179 | every seller has a row on the board |
| `Leaderboard.RankedOrder` | Program.cs:178 | totals never increase down the board, equal totals keep the order of the users' first sales, and no user has two rows |
| `Leaderboard.PodiumMedals` | Program.cs:174-185 | gold, silver and bronze, each with a space, go to ranks 1, 2 and 3, and no other rank gets a medal |
| `Leaderboard.TerminatedIsJoined` | Program.cs:181-188 | the lines the loop appends, each ending in a line break, read as the lines each preceded by a line break, plus one final line break |
| `Leaderboard.EmptyLeaderboard` | Program.cs:171-172 | no sales give exactly `No sales submitted today.` |
| `Leaderboard.RowLineEndsInDigit` | Program.cs:186 | every row line ends in a digit, the last digit of its amount |
| `Leaderboard.TrimmedBody` | Program.cs:189 | the final `TrimEnd` removes the last line break and nothing else |
| `Leaderboard.LeaderboardLayout` | Program.cs:181-189 | a board with sales is the header and then, for rank 1, 2, and so on, a line break and that row's line, with no white space at the end |
| `Leaderboard.BuildLeaderboardMessage` | Program.cs:169-190 | the append loop with its rank counter, followed by `TrimEnd`, yields exactly `LeaderboardMessage` of the sales, the board laid out above |
| `Commands.ReplyCases` | Program.cs:88-103 | a message is answered exactly when its trimmed text is one of the two commands, ignoring case, and with that command's answer |
| `Commands.RepliesAreAnswers` | Program.cs:88-103 | every reply is the leaderboard or the `!mysales` answer to a sender of `!mysales` |
| `Commands.RepliesAppend` | Program.cs:88-103 | answering a concatenation of messages gives the concatenation of the replies, in message order |
| `Commands.RepliesOnePerCommand` | Program.cs:88-103 | there is exactly one reply per command message |
| `Commands.NoCommandsNoReplies` | Program.cs:88-103 | messages that are not commands get no reply |
| `Commands.CommandRecognition` | Program.cs:90-95 | a message is a command exactly when its trimmed text spells the command with each letter in either case, so nothing else is answered |
| `Commands.PaddedCommand` | Program.cs:90 | a command in any letter case, with any white space around it, is recognised |
| `Commands.LeaderboardCommandExample` | Program.cs:90 | `  !LeaderBoard` followed by a line break is the leaderboard command |
| `Commands.MySalesCommandExample` | Program.cs:95 | `!MYSALES ` is the `!mysales` command |
| `Commands.ChatterExamples` | Program.cs:90-95 | `!leaderboard please` and `!my sales` are not commands |
| `Commands.ReplyFormsDiffer` | Program.cs:98-100 | the total answer and the no-sales answer are never the same text |
| `Commands.MySalesNoSales` | Program.cs:97-100 | `!mysales` answers with the no-sales line exactly when none of the sender's sales is above zero |
| `Commands.MySalesFigureReadsBack` | Program.cs:97-99 | with a positive total, the figure at the end of the answer parses back as the sender's total |
| `Commands.MySalesMatchesLeaderboard` | Program.cs:97-99 | the total `!mysales` reports is the sender's row total on the leaderboard |
| `Fetcher.Usable` | Program.cs:241-244 | messages with null or white-space text are dropped, and at most the input's messages are kept |
| `Fetcher.UsableMembers` | Program.cs:241-244 | the messages kept are exactly the raw messages with some non-white-space text |
| `Fetcher.UsableAppend` | Program.cs:241-244 | the filter keeps the order: filtering a concatenation concatenates the results |
| `Fetcher.Received` | Program.cs:233-244 | a page as received never holds a message whose text is white space only |
| `Fetcher.BlankPageIsEmpty` | Program.cs:241-244 | a page whose messages all have null or white-space text is received empty |
| `Fetcher.BlankPageEndsPaging` | Program.cs:201-202 | such a page ends the paging with nothing more collected, since the loop counts messages after the filter |
| `Fetcher.NullsReadAsEmpty` | Program.cs:233-244 | a 304, a null body, a null response member and a null list give an empty page |
| `Fetcher.TodayOnly` | Program.cs:205-207 | the day filter keeps only today's messages and no more of them than the batch holds |
| `Fetcher.TodayOnlyMembers` | Program.cs:205-207 | the day filter keeps exactly the batch's messages from today |
| `Fetcher.TodayOnlyAppend` | Program.cs:205-207 | the day filter keeps the order: filtering a concatenation concatenates the results |
| `Fetcher.TodayOnlyKeepsAll` | Program.cs:205-213 | the filter drops nothing exactly when the whole batch is from today, and then it is the batch itself |
| `Fetcher.FullPages` | Program.cs:198-217 | the loop moves on after each batch before the stopping one, each non-empty and all from today, and stops at the first that is not |
| `Fetcher.CollectIsConcatenation` | Program.cs:198-219 | the result is the in-order concatenation of the day-filtered batches of every request made, the last one included |
| `Fetcher.CollectOnlyToday` | Program.cs:204-209 | every returned message is from today |
| `Fetcher.CollectComplete` | Program.cs:198-217 | every message from today in a batch the loop received is returned |
| `Fetcher.ContinueStep` | Program.cs:209-216 | a batch that is all from today is appended and the loop asks for the next one |
| `Fetcher.StopStep` | Program.cs:201-213 | an empty batch, or one holding older messages, is the last request, and its kept messages complete the list |
| `Fetcher.FetchAllToday` | Program.cs:192-220 | the paging loop returns exactly `CollectToday`, the day's messages described above, makes one request more than the batches it moved on after, and sends no `before_id` first and then the last id of the batch before |
| `Bot.FindIndex` | Program.cs:67 | the index is -1 exactly when no message has the id, and otherwise the first index holding it |
| `Bot.NewMessages` | Program.cs:64-74 | the new messages are a prefix of the window: the whole window with no watermark, and otherwise the messages before the watermark's first position when that position is above 0, none of which carries the watermark |
| `Bot.NothingNewCases` | Program.cs:65-70 | a watermark at the head of the window, or one missing from it, makes nothing new |
| `Bot.PostedSinceAreNew` | Program.cs:64-74 | with the watermark on the newest message seen, the messages posted since are exactly the new ones |
| `Bot.LostWatermarkIsFixed` | Program.cs:65-70 | a watermark missing from the window makes nothing new with the code as written, so the watermark never moves from it, while the intended detection takes the whole window |
| `Bot.LostWatermarkExample` | Program.cs:65-70 | a command posted after the watermark left the window is not taken as new |
| `Bot.IntendedNewMessagesMeaning` | Program.cs:64-74 | the intended new messages are the longest prefix of the window without the watermark, none exactly when the window is empty or starts with the watermark, and the same as the code's whenever the window holds the watermark |
| `Bot.Take` | Program.cs:130 | `Take(n)` is the prefix of length n, or the whole list when it is shorter |
| `Bot.Bot.constructor` | Program.cs:18 | the bot starts with no sales and no watermark |
| `Bot.Bot.StartListening` | Program.cs:55-57 | the watermark becomes null when the startup fetch is empty and otherwise its newest message's id, and the sales stay as they were |
| `Bot.Bot.RebuildSales` | Program.cs:79-85 | after `Clear` and one `Add` per parsed message, the sales are exactly the sales of the messages, in order |
| `Bot.Bot.DispatchCommands` | Program.cs:88-103 | the command loop posts exactly `Replies` of the messages, one per command and in order, against the current sales |
| `Bot.Bot.PollStep` | Program.cs:61-107 | with nothing new, state and replies are unchanged and empty; otherwise the sales are rebuilt from today's messages, the new commands are answered against them, and the watermark moves to the window's newest id |
| `Bot.Bot.FetchSnapshot` | Program.cs:113-151 | the one-shot fetch rebuilds the sales from all fetched messages, answers the commands among the first ten, and ends with the leaderboard |
| `Bot.SnapshotReplyShape` | Program.cs:129-150 | the one-shot fetch posts at most eleven messages, and the last is the leaderboard |

## Left out

- HTTP requests and responses (`HttpClient`, headers, URLs, `PostAsJsonAsync`) are left out because they are network I/O. A posted message is the string the call would send.
- `EnsureSuccessStatusCode` and every exception are left out. Only a 304 and a successful response are modelled, as the two cases of `Fetcher.HttpResult`.
- JSON deserialization is left out because it is library code. The model starts from the deserialized objects, with a null response, message list or text as `None`.
- A null `name` or `id` on a message is left out: both are plain strings. A null `id` on the newest message at startup would give a null watermark, which the model does not capture.
- The console REPL in `Main` and `Console.WriteLine` are left out because they are console I/O.
- The endless listen loop and `Task.Delay` are left out because they are timing. One iteration is `Bot.Bot.PollStep`.
- `DateTimeOffset.UtcNow` is left out because it is a clock. It becomes the parameter `today`.
- The out-of-range exception of `FromUnixTimeSeconds` is left out: every `created_at` gets a day.
- `async`/`await` is left out because the code awaits each call in turn. Each await is a plain call.
- The fetched window of 20 and the pages of 100 are inputs. The model does not bound their length.
- The current culture's effect on `decimal.TryParse` and `:N2` is left out. The invariant culture is assumed.
- Unicode digits in `\d`, and case folding of non-ASCII letters, are left out. Only their ASCII parts are modelled.
- `decimal`'s range is left out. Amounts and their sums are unbounded, so overflow near 7.9e28 is not modelled.

## Findings

| source | as written | input that shows it | evidently intended | confidence | as-written member | corrected member |
|---|---|---|---|---|---|---|
| Program.cs:65-70 | the new messages are taken only when `FindIndex` returns an index above 0, so -1 (watermark not in the window) gives none, and the watermark then never moves | watermark `m1`, window `[{text "!leaderboard", id "m2"}]`: no reply, and every later poll stays silent while `m1` is out of the window | a watermark missing from the window makes every fetched message new | medium, not executed | `Bot.LostWatermarkExample`, `Bot.LostWatermarkIsFixed` | `Bot.IntendedNewMessages`, `Bot.IntendedNewMessagesMeaning` |

`Bot.Bot.PollStep` keeps the detection as written, `Bot.NewMessages`, because that is what one
iteration of the listen loop does.

