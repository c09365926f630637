# Reaction polls: a Dafny model of the `vote` cog

This project models the decision logic of the `vote` command of the
strawberry-py vote module (`vote/module.py`). A moderator starts a poll with
an end time and a block of option lines. Each line holds an emoji and a
description. The bot then:

- checks every line;
- posts an announcement listing the options;
- adds one legend reaction per option;
- at the end time, counts the reactions on the message again;
- writes a summary line to the guild log;
- posts the results, sorted by votes, with every entry tied for first place in bold.

The model keeps all of this as pure functions over sequences:

| module | file | what it holds |
|---|---|---|
| `Wrappers` | `wrappers.dfy` | `Option` and `Result` |
| `PyStr` | `pystr.dfy` | The Python `str` behaviour the cog relies on: `isspace`, `splitlines()`, `split(maxsplit=1)`, `split(":")`, `join`, `str(int)`, and the `text += "\n" + line` idiom |
| `OrderedDict` | `ordered_dict.dfy` | A Python `dict` with string keys, as an insertion-ordered sequence of pairs. `d[k] = v` overwrites a present key in place and appends a new key |
| `Emoji` | `emoji.dfy` | `EMOJI_REGEX` as a character-level parser, and `check_emoji` |
| `OptionParser` | `option_parser.dfy` | The parsing loop of `Vote.vote`, and a reference definition it is proved against |
| `Tally` | `tally.dfy` | The count taken in `VoteObject.start` and the log line |
| `Ranking` | `ranking.dfy` | The stable descending sort and the results text |
| `Poll` | `poll.dfy` | The command outcome, the announcement, the legend reactions, and how a poll closes |
| `Scenarios` | `scenarios.dfy` | Worked examples on concrete polls |

Things outside the cog become parameters:

- `emoji.is_emoji` and the names in `bot.emojis` become the two sets of an `EmojiTable`.
- The parsed end time is an `Option<string>`: its display form, or `None` when the time text could not be read.
- The reactions of the message fetched again at the end time are an `Option<seq<Reaction>>`, which is `None` when the fetch fails.
- Translation (`_`) is the identity, so every user-visible string is the English text of the source.

## Model

| member | source | states |
|---|---|---|
| Emoji.MatchRef | vote/module.py:14 | A string the pattern accepts is `<prefix:name:id>` for a reference with alphanumeric prefix, non-empty alphanumeric name and digit-only id, and it renders back to exactly that string |
| Emoji.RefRoundTrip | vote/module.py:14 | Every reference of that shape is accepted by the pattern, with its own three fields |
| Emoji.MatchEmojiRegex | vote/module.py:41 | `re.match` with the anchored pattern accepts a rendered reference, optionally followed by one final newline, because Python's `$` also matches before a trailing newline |
| Emoji.NameField | vote/module.py:43 | For an accepted token, `emoji_str.split(":")[1]` is the name field of the reference |
| Emoji.CheckEmoji | vote/module.py:38-48 | A standard emoji is always accepted. Any other accepted token matches the pattern, the matched reference names a known custom emoji, and the token has exactly three colon-separated fields. `Emoji.CheckEmojiSpec` states the full characterisation |
| Emoji.CheckEmojiSpec | vote/module.py:38-48 | `check_emoji` is true exactly for a standard emoji, or for a token of the custom shape whose name is a known custom emoji. The prefix and the id are never looked up |
| Emoji.UnderscoreNeedsStandard | vote/module.py:14 | A token containing `_` never has the custom shape, so only the standard-emoji table can accept it |
| PyStr.SplitLines | vote/module.py:84 | No line of `splitlines()` holds a line boundary, and a text has no lines exactly when it is empty |
| PyStr.SplitLinesShape | vote/module.py:84 | The lines are exactly the segments of the text between its terminators: each line followed by its terminator, concatenated, gives the text back. Every line but the last ends in `\r\n` or one boundary character. The last one ends in a terminator, or at the end of the text and is then not empty, so a final terminator opens no extra line. A lone `\r` is never followed by `\n`, so `\r\n` is one boundary |
| PyStr.SplitLinesUnique | vote/module.py:84 | Conversely, any cutting of a text into boundary-free lines and terminators of that kind is the one `splitlines()` makes, so the segmentation is unique |
| PyStr.SplitLinesTerm | vote/module.py:84 | A line followed by any terminator (`\r\n`, or one boundary character, with a lone `\r` not followed by `\n`) is split off, and the rest of the text is split on its own |
| PyStr.SplitLinesJoin | vote/module.py:84 | Joining boundary-free lines with `\n` and splitting again gives the same lines back, when the last line is not empty |
| PyStr.SplitOnce | vote/module.py:86 | `split(maxsplit=1)` gives at most two parts, and none exactly when the line is all white space. Every part is non-empty and starts with a non-space; the first part holds no white space |
| PyStr.SplitOnceShape | vote/module.py:86 | The parts put back together with the dropped white space give the line again |
| PyStr.SplitOnceTwo | vote/module.py:86 | Every line of the shape white space, word, non-empty white space, rest splits into the word and the rest |
| PyStr.SplitOnceOne | vote/module.py:86 | A line holding one word between white space splits into that word alone, so the two-part unpacking fails |
| PyStr.SplitOn | vote/module.py:43 | `split(":")` gives at least one part, no part holds a colon, and joining the parts with colons gives the string back |
| PyStr.SplitOnJoin | vote/module.py:43 | Splitting a colon-join of colon-free parts gives the parts back |
| PyStr.JoinShape | vote/module.py:189 | `sep.join(parts)` is empty for no parts; otherwise it holds every part and one separator between each pair, so its length is the parts' total plus the separators, and it opens with the first part |
| PyStr.JoinAppend | vote/module.py:189 | Joining one more part adds the separator and that part at the end of the join |
| PyStr.AppendLines | vote/module.py:140-149 | Starting from a head line and appending `"\n" + line` for each line gives `"\n".join` of the head and the lines |
| PyStr.AppendLinesSplit | vote/module.py:140-149 | Text built that way from non-empty, boundary-free lines reads back line by line as the head followed by the lines |
| PyStr.IntToString | vote/module.py:189 | `str(v)` is non-empty and starts with `-` exactly when `v` is negative. Every other character is a digit, and there are no leading zeros. `PyStr.IntToStringRoundTrip` reads it back |
| PyStr.IntToStringRoundTrip | vote/module.py:189 | `str(v)` of an integer reads back as the same integer |
| OrderedDict.Get | vote/module.py:95 | A lookup finds a value exactly when the key is among the dictionary's keys |
| OrderedDict.Put | vote/module.py:102 | `d[k] = v` keeps the keys and their order when `k` is present, and appends `(k, v)` otherwise. Afterwards `k` maps to `v` and every other key keeps its value |
| OrderedDict.PutDistinct | vote/module.py:102 | Assignment never makes a key appear twice |
| OrderedDict.GetAt | vote/module.py:203 | In a dictionary without repeated keys, looking up the key of any entry gives that entry's value |
| OptionParser.ParseLine | vote/module.py:85-109 | A line passes exactly when it splits into two parts, its token is an emoji, and the token is not yet a key; it then yields the token and the rest of the line |
| OptionParser.ParseLines | vote/module.py:84-109 | When the loop gets through, every line was good and the result is the earlier options followed by one entry per line, in line order, with no repeated key |
| OptionParser.ParseOptions | vote/module.py:82-109 | A successful parse has one option per line, in line order, mapping each line's token to the rest of its line, with pairwise distinct tokens. No token or label holds a line boundary |
| OptionParser.ParseOptionsCorrect | vote/module.py:84-109 | The loop accepts a block exactly when every line is good and no token repeats, and then its result is the reference list of entries |
| OptionParser.ParseLinesComplete | vote/module.py:84-109 | A block of good lines whose tokens do not clash with each other or with the collected options is accepted, with its entries appended |
| OptionParser.ParseLinesSplit | vote/module.py:84-109 | Running the loop over a successful prefix and then over the rest is the same as running it over all lines |
| OptionParser.ParseLinesFirstError | vote/module.py:84-109 | A refused block is refused with the error of its first failing line: every line before it passed, and that line's own check gives the error |
| OptionParser.DecidedAt | vote/module.py:84-109 | Once the lines before line `j` are acceptable, a failure of line `j` against their tokens is the outcome of the whole block |
| OptionParser.MalformedLineRefused | vote/module.py:86-93 | A line that does not split into exactly two parts, a blank line included, refuses the block and echoes the line |
| OptionParser.UnknownTokenRefused | vote/module.py:94-109 | A token that is not an emoji refuses the block with that token. Such a token never equals an earlier line's token, since every earlier token passed the emoji check, so checking validity before repetition changes no reply |
| OptionParser.DuplicateTokenRefused | vote/module.py:95-101 | A valid token equal to an earlier line's token refuses the block with that token |
| Tally.Record | vote/module.py:182-186 | One pass of the counting loop sets an option's entry to its count less one, leaves every other entry alone, and adds no key that is not an option |
| Tally.TallyVotes | vote/module.py:180-186 | The tally has no repeated key, and every key is an option |
| Tally.TallyStep | vote/module.py:182-186 | One more reaction changes the tally by exactly one pass of the loop body |
| Tally.TallyAbsent | vote/module.py:184-185 | An emoji gets no entry when it is not an option or when no reaction carries it, so an option nobody reacted with is absent rather than zero |
| Tally.TallyLast | vote/module.py:186 | An option's entry is the count of the last reaction carrying it, less one |
| Tally.TallyEmpty | vote/module.py:180-186 | The tally is empty exactly when no reaction carries an option's emoji |
| Tally.TallyDistinctReactions | vote/module.py:182-186 | When each emoji occurs once among the reactions, the tally is the filtered list `[(e, c - 1) for (e, c) in reactions if e in options]`, in reaction order |
| Tally.LogLine | vote/module.py:188-190 | The log line starts with `Vote ended: ` and ends with `.`. It is just those 13 characters exactly when the tally is empty. `Tally.LogLineAppend` states how each entry adds to it |
| Tally.LogLineAppend | vote/module.py:188-190 | One more tally entry inserts `, vx k` just before the log line's closing full stop |
| Tally.LogLineEmpty | vote/module.py:188-190 | An empty tally logs `Vote ended: .` |
| Tally.LogLineSingle | vote/module.py:188-190 | A one-entry tally logs `Vote ended: vx k.` |
| Tally.EntryTextInjective | vote/module.py:189 | An entry `f"{v}x {k}"` of the log line determines both its count and its emoji, because the first `x` in it is the one after the count |
| Ranking.Insert | vote/module.py:196-198 | Inserting gives one more entry, and the entries are the old ones plus the new one, as a multiset |
| Ranking.InsertSorted | vote/module.py:196-198 | Inserting into a list sorted by descending count keeps it sorted |
| Ranking.SortDesc | vote/module.py:196-198 | The sorted tally is a permutation of the tally, ordered by non-increasing count |
| Ranking.InsertWithCount | vote/module.py:196-198 | Inserting an entry puts it in front of every entry with the same count, and leaves the order of the other counts alone |
| Ranking.SortStable | vote/module.py:196-198 | Entries with equal counts keep their tally order, as `sorted(..., reverse=True)` does |
| Ranking.SortDescCharacterised | vote/module.py:196-198 | Any order that is sorted by count and keeps tied entries in tally order is exactly the sort's result |
| Ranking.SortedHeadIsMax | vote/module.py:200 | `sorted_votes[0][1]` is the highest count of the tally, and some entry has it |
| Ranking.PermutationOptions | vote/module.py:203 | Every sorted entry is an option, so `self.options[emoji_str]` always finds its description |
| Ranking.ResultLine | vote/module.py:202-211 | A result line opens with the `**` bold marker exactly when its count equals the top count it is compared with. The plain form opens with the count, which never starts with `*` |
| Ranking.Results | vote/module.py:194-211 | Every sorted entry is an option. When no emoji or label holds a line boundary, the results read line by line as `Vote ended!`, `**Results:**` and then one line per sorted entry, each compared against the first entry's count |
| Ranking.BoldIffMax | vote/module.py:200-211 | A result line is bold exactly when its count is the highest of the tally, so every entry tied for first place is bold, even at zero |
| Ranking.ResultsMessageSplitLines | vote/module.py:194-211 | Read line by line, a results message is `Vote ended!`, `**Results:**` and then one line per entry |
| Poll.Announcement | vote/module.py:140-149 | When neither the end time nor any option holds a line boundary, the announcement reads line by line as `Vote started!`, the end time, `**Options:**` and then one `emoji - description` line per option, in option order |
| Poll.AddReactions | vote/module.py:152-162 | Nothing is added when there is no message. Otherwise every option's emoji is added, in option order |
| Poll.LegendReactionsMatchAnnouncement | vote/module.py:111-161 | An acceptable block opens a poll. Its announcement reads as the three header lines and one line per option, and the i-th legend reaction is the emoji that opens the i-th option line |
| Poll.LegendReactionsDistinct | vote/module.py:160-161 | No legend reaction is added twice |
| Poll.LegendLineInjective | vote/module.py:146-149 | A legend line `emoji - option` determines its emoji and its description when the emoji holds no white space, as every accepted option token does |
| Poll.LegendMatches | vote/module.py:140-149 | When neither the end time nor any option holds a line boundary, the announcement reads as the three header lines and then one `emoji - option` line per option, in option order, with line 3+i naming the i-th legend reaction |
| Poll.VoteCommand | vote/module.py:71-114 | An unreadable end time is answered first. A poll opens exactly when the time was read and the block is acceptable; it then holds the block's entries, the announcement and the legend added to that announcement. A refused block is answered with the reply for the parse error |
| Poll.DeadlineReplyDistinct | vote/module.py:74-78 | The reply to an unreadable end time quotes that text, so different texts get different replies. It is never one of the option-error replies |
| Poll.ErrorReplyInjective | vote/module.py:88-108 | The three refusal replies never coincide: equal replies come from the same error with the same line or token |
| Poll.MalformedLineReply | vote/module.py:86-93 | The first malformed line is quoted in the reply, and no poll opens |
| Poll.UnknownEmojiReply | vote/module.py:103-109 | The first unrecognised token is named in the reply, and no poll opens |
| Poll.DuplicateEmojiReply | vote/module.py:95-101 | The first repeated token is named in the reply, and no poll opens |
| Poll.CloseVote | vote/module.py:168-213 | `Vote started!` is always logged first. A lost message logs a warning and ends the poll. Otherwise the tally's log line is written; an empty tally stops there; else the results of the tally are sent |
| Scenarios.BlankLineRefused | vote/module.py:84-93 | A blank line between two options refuses the whole block, echoing the empty line |
| Scenarios.RepeatedEmojiRefused | vote/module.py:95-101 | The same emoji on two lines refuses the block, naming the emoji |
| Scenarios.ClearWinnerTally | vote/module.py:180-186 | Raw counts 2 and 4, with a non-option reaction between them, tally to 1 and 3 in reaction order |
| Scenarios.ClearWinnerResults | vote/module.py:194-211 | That tally is announced with the winner first and bold, although its reaction came last |
| Scenarios.TieResults | vote/module.py:196-211 | Two options tied at the top are both bold, and keep their tally order |

## Left out

- Reading the end time (`utils.time.parse_datetime`, vote/module.py:72-80): a foreign library. The model receives the outcome as `Option<string>`, the formatted time or `None`, and models only the reply on failure.
- Formatting the end time (`utils.time.format_datetime`, vote/module.py:142): also foreign. The formatted string is part of the `Poll` value.
- The wait until the end time (`asyncio.sleep`, vote/module.py:169): timing, concurrency and floating point.
- Discord I/O (`ctx.reply`, `ctx.send`, `add_reaction`, `fetch_message`): replies, texts and reactions are values of the outcome types. A fetch that raises is the `None` case of the fetched reactions.
- `emoji.is_emoji` and `bot.emojis`: sets in `EmojiTable`. No claim is made about which strings the emoji package knows.
- Translation (`_`): the identity. The English strings of the source are used as they are.
- `guild_log`: entries are `LogEntry` values, with the author and channel left out.
- The access-control and guild-only decorators and the cog `setup` function.
- How the command framework delivers `options_str` (keyword-only rest-of-message argument): the model starts from the text as received.
- Poll.Announcement: its line-by-line reading assumes that `format_datetime` returns a single line, which is the `NoLineBreak` condition on the end time. The same assumption is a requirement of `Poll.LegendReactionsMatchAnnouncement`.
- Poll.AddReactions: the source tests the message for truthiness. The model treats a message as present or absent.
- Ranking.Results: an empty tally makes `sorted_votes[0]` raise an index error after the log line is written. `Results` requires a non-empty tally, and `Poll.CloseVote` returns `NoVotes` with the log written instead of raising.
- Reaction counts are unbounded integers; the source's `reaction.count - 1` is plain Python integer arithmetic.

## Behaviour worth noting

The code, and so the model, behaves as follows in these cases:

- An option that received no reaction at all gets no tally entry, so it does not appear in the results.
- Because of that, an empty tally is possible, for example when every legend reaction was removed. The code then fails at `sorted_votes[0]` with an index error, after the log line is written.
- A blank line inside the options block is refused as malformed, because `"".split(maxsplit=1)` yields no parts.
- No minimum number of options is enforced: a block parses to one option per line, however few lines it has.
- Shortcode tokens such as `:one:` are accepted only if `emoji.is_emoji` accepts them, and they never have the custom-emoji shape. The worked examples therefore use emoji from the standard table.
