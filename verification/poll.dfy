/**
 * The life of one poll as `Vote.vote` and `VoteObject` drive it: the command
 * is answered with an error reply or opens a poll; an open poll is announced
 * with one legend line per option and one legend reaction per option; at the
 * deadline the message is fetched again, counted, logged and the results are
 * sent.
 */
module Poll {
  import opened Wrappers
  import opened PyStr
  import opened OrderedDict
  import opened Emoji
  import opened OptionParser
  import opened Tally
  import opened Ranking

  /** A `VoteObject`: the end time, already formatted for display, and the
      options in input order. */
  datatype Poll = Poll(endTime: string, options: Options)

  // ---------------------------------------------------------------------------
  // send_message and add_reactions
  // ---------------------------------------------------------------------------

  /** `"{emoji_str} - {option}"`: the emoji, a dash set in spaces, then the
      description. */
  function LegendLine(emoji: string, description: string): string
  {
    emoji + " - " + description
  }

  /** A legend line names its option unambiguously when the emoji holds no
      white space, as every accepted option token does. */
  lemma LegendLineInjective(e1: string, d1: string, e2: string, d2: string)
    requires NoSpace(e1) && NoSpace(e2)
    ensures LegendLine(e1, d1) == LegendLine(e2, d2) ==> e1 == e2 && d1 == d2
  {
    var l1, l2 := LegendLine(e1, d1), LegendLine(e2, d2);
    if l1 == l2 {
      assert l1[|e1|] == ' ' && l2[|e2|] == ' ';
      assert forall j :: 0 <= j < |e1| ==> l1[j] == e1[j];
      assert forall j :: 0 <= j < |e2| ==> l2[j] == e2[j];
      assert |e1| == |e2|;
      TailAfter(e1, " - ", d1);
      TailAfter(e2, " - ", d2);
    }
  }

  function LegendLines(options: Options): (lines: seq<string>)
    ensures |lines| == |options|
    ensures forall i :: 0 <= i < |options| ==> lines[i] == LegendLine(options[i].0, options[i].1)
  {
    seq(|options|, i requires 0 <= i < |options| => LegendLine(options[i].0, options[i].1))
  }

  /** The three lines in front of the legend. */
  function AnnouncementHeader(endTime: string): seq<string> {
    ["Vote started!", "**End time:** " + endTime, "**Options:**"]
  }

  /** The text `send_message` posts. When neither the end time nor any
      option holds a line boundary, it reads line by line as the header
      followed by one `emoji - description` line per option, in option
      order. */
  function Announcement(poll: Poll): (text: string)
    ensures NoLineBreak(poll.endTime) && SingleLine(poll.options) ==>
      SplitLines(text) == AnnouncementHeader(poll.endTime) + LegendLines(poll.options)
  {
    AnnouncementLines(poll.endTime, poll.options);
    AppendLines("Vote started!", ["**End time:** " + poll.endTime, "**Options:**"] + LegendLines(poll.options))
  }

  lemma LegendLineNoLineBreak(emoji: string, description: string)
    requires NoLineBreak(emoji) && NoLineBreak(description)
    ensures NoLineBreak(LegendLine(emoji, description)) && LegendLine(emoji, description) != []
  {
    NoLineBreakConcat(emoji, " - ");
    NoLineBreakConcat(emoji + " - ", description);
  }

  lemma AnnouncementLines(endTime: string, options: Options)
    ensures NoLineBreak(endTime) && SingleLine(options) ==>
      SplitLines(AppendLines("Vote started!", ["**End time:** " + endTime, "**Options:**"] + LegendLines(options)))
        == AnnouncementHeader(endTime) + LegendLines(options)
  {
    if NoLineBreak(endTime) && SingleLine(options) {
      var legend := LegendLines(options);
      var all := ["Vote started!"] + (["**End time:** " + endTime, "**Options:**"] + legend);
      assert all == AnnouncementHeader(endTime) + legend;
      forall i | 0 <= i < |all|
        ensures NoLineBreak(all[i]) && all[i] != []
      {
        if i == 0 {
          PrintableNoLineBreak("Vote started!");
        } else if i == 1 {
          PrintableNoLineBreak("**End time:** ");
          NoLineBreakConcat("**End time:** ", endTime);
        } else if i == 2 {
          PrintableNoLineBreak("**Options:**");
        } else {
          assert all[i] == legend[i - 3];
          LegendLineNoLineBreak(options[i - 3].0, options[i - 3].1);
        }
      }
      SplitLinesJoin(all);
    }
  }

  /** `add_reactions`: nothing happens without a message; otherwise every
      option's emoji is added, in option order. Returns whether the message
      existed and the reactions added. */
  function AddReactions<M>(message: Option<M>, options: Options): (r: (bool, seq<string>))
    ensures r.0 <==> message.Some?
    ensures !r.0 ==> r.1 == []
    ensures r.0 ==> |r.1| == |options| && forall i :: 0 <= i < |options| ==> r.1[i] == options[i].0
  {
    if message.None? then (false, []) else (true, Keys(options))
  }

  /** A poll's legend never holds the same reaction twice. */
  lemma LegendReactionsDistinct<M>(poll: Poll, message: M)
    requires Distinct(Keys(poll.options))
    ensures Distinct(AddReactions(Some(message), poll.options).1)
  {
  }

  // ---------------------------------------------------------------------------
  // The command
  // ---------------------------------------------------------------------------

  /** What the command leaves behind: an error reply, or an open poll with its
      announcement and the legend reactions added to it. */
  datatype CommandOutcome =
    | Rejected(reply: string)
    | Opened(poll: Poll, announcement: string, legend: seq<string>)

  function DeadlineReply(endtimeText: string): string {
    "I don't know how to parse `" + endtimeText + "`, please try again."
  }

  function ErrorReply(e: ParseError): string {
    match e
    case MalformedOption(line) => "Option `" + line + "` is in incorrect format."
    case DuplicateEmoji(token) => "Emoji " + token + " was used more than once!"
    case UnknownEmoji(token) => "Emoji " + token + " was not recognized as emoji!"
  }

  /** `Vote.vote` up to `add_reactions`. The end time is read first, outside
      this model: `endTime` is its formatted value, or `None` when the text
      could not be read as a time. */
  function VoteCommand(table: EmojiTable, endtimeText: string, endTime: Option<string>, optionsText: string)
    : (r: CommandOutcome)
    ensures endTime.None? ==> r == Rejected(DeadlineReply(endtimeText))
    ensures r.Opened? <==> endTime.Some? && Acceptable(table, SplitLines(optionsText))
    ensures r.Opened? ==>
      && AllGood(table, SplitLines(optionsText))
      && r.poll == Poll(endTime.value, Entries(table, SplitLines(optionsText)))
      && r.announcement == Announcement(r.poll)
      && r.legend == Keys(r.poll.options)
    ensures endTime.Some? && ParseOptions(table, optionsText).Failure? ==>
      r == Rejected(ErrorReply(ParseOptions(table, optionsText).error))
  {
    match endTime
    case None => Rejected(DeadlineReply(endtimeText))
    case Some(t) =>
      ParseOptionsCorrect(table, optionsText);
      match ParseOptions(table, optionsText)
      case Failure(e) => Rejected(ErrorReply(e))
      case Success(options) =>
        var poll := Poll(t, options);
        // `self.message`, the message `ctx.send` returned, stands here as
        // the text it carries.
        var message := Announcement(poll);
        Opened(poll, message, AddReactions(Some(message), options).1)
  }

  /** An acceptable block opens a poll. With the end time shown on one line,
      its announcement reads as the header and one line per option, and the i-th
      legend reaction is the emoji that opens the i-th option line. */
  lemma LegendReactionsMatchAnnouncement(table: EmojiTable, endtimeText: string, t: string, optionsText: string)
    requires NoLineBreak(t)
    requires Acceptable(table, SplitLines(optionsText))
    ensures VoteCommand(table, endtimeText, Some(t), optionsText).Opened?
    ensures var r := VoteCommand(table, endtimeText, Some(t), optionsText);
      var lines := SplitLines(r.announcement);
      && lines == AnnouncementHeader(t) + LegendLines(r.poll.options)
      && |lines| == 3 + |r.legend|
      && forall i :: 0 <= i < |r.legend| ==> lines[3 + i] == r.legend[i] + " - " + r.poll.options[i].1
  {
    ParseOptionsCorrect(table, optionsText);
    var poll := Poll(t, Entries(table, SplitLines(optionsText)));
    assert VoteCommand(table, endtimeText, Some(t), optionsText)
      == Opened(poll, Announcement(poll), Keys(poll.options));
    LegendMatches(poll);
  }

  lemma LegendMatches(poll: Poll)
    requires NoLineBreak(poll.endTime) && SingleLine(poll.options)
    ensures var lines := SplitLines(Announcement(poll));
      var legend := Keys(poll.options);
      && lines == AnnouncementHeader(poll.endTime) + LegendLines(poll.options)
      && |lines| == 3 + |legend|
      && forall i :: 0 <= i < |legend| ==> lines[3 + i] == legend[i] + " - " + poll.options[i].1
  {
  }

  /** A reply to an unreadable end time quotes that text, so different texts
      get different replies, and it is never one of the option errors. */
  lemma DeadlineReplyDistinct(t1: string, t2: string, e: ParseError)
    ensures DeadlineReply(t1) == DeadlineReply(t2) ==> t1 == t2
    ensures DeadlineReply(t1) != ErrorReply(e)
  {
    assert DeadlineReply(t1)[0] == 'I';
    if DeadlineReply(t1) == DeadlineReply(t2) {
      MiddleEqual("I don't know how to parse `", t1, t2, "`, please try again.");
    }
  }

  /** Different refusals give different replies: the reply names the
      failing line or token and the kind of failure. */
  lemma ErrorReplyInjective(e1: ParseError, e2: ParseError)
    requires ErrorReply(e1) == ErrorReply(e2)
    ensures e1 == e2
  {
    match (e1, e2)
    case (MalformedOption(l1), MalformedOption(l2)) =>
      MiddleEqual("Option `", l1, l2, "` is in incorrect format.");
    case (DuplicateEmoji(t1), DuplicateEmoji(t2)) =>
      MiddleEqual("Emoji ", t1, t2, " was used more than once!");
    case (UnknownEmoji(t1), UnknownEmoji(t2)) =>
      MiddleEqual("Emoji ", t1, t2, " was not recognized as emoji!");
    case (DuplicateEmoji(t1), UnknownEmoji(t2)) =>
      ClosingDiffers(t1, t2);
    case (UnknownEmoji(t1), DuplicateEmoji(t2)) =>
      ClosingDiffers(t2, t1);
    case (MalformedOption(l1), DuplicateEmoji(_)) =>
      OpeningDiffers(l1, e2);
    case (MalformedOption(l1), UnknownEmoji(_)) =>
      OpeningDiffers(l1, e2);
    case (DuplicateEmoji(_), MalformedOption(l2)) =>
      OpeningDiffers(l2, e1);
    case (UnknownEmoji(_), MalformedOption(l2)) =>
      OpeningDiffers(l2, e1);
  }

  /** A malformed line is reported with a different opening word than a
      bad emoji. */
  lemma OpeningDiffers(line: string, e: ParseError)
    requires !e.MalformedOption?
    ensures ErrorReply(MalformedOption(line)) != ErrorReply(e)
  {
    assert ErrorReply(MalformedOption(line))[0] == 'O';
    assert ErrorReply(e)[0] == 'E';
  }

  /** The two emoji errors end differently. */
  lemma ClosingDiffers(t1: string, t2: string)
    ensures ErrorReply(DuplicateEmoji(t1)) != ErrorReply(UnknownEmoji(t2))
  {
    var d := ErrorReply(DuplicateEmoji(t1));
    var u := ErrorReply(UnknownEmoji(t2));
    assert d[|d| - 2] == 'e';
    assert u[|u| - 2] == 'i';
  }

  lemma MiddleEqual(a: string, x: string, y: string, b: string)
    requires a + x + b == a + y + b
    ensures x == y
  {
    assert |x| == |y|;
    assert x == (a + x + b)[|a|..|a| + |x|];
  }

  lemma RefusedReply(table: EmojiTable, endtimeText: string, t: string, optionsText: string, e: ParseError)
    requires ParseOptions(table, optionsText) == Failure(e)
    ensures VoteCommand(table, endtimeText, Some(t), optionsText) == Rejected(ErrorReply(e))
  {
  }

  /** The first line that does not split into an emoji and a description is
      echoed back, and no poll is opened. */
  lemma MalformedLineReply(table: EmojiTable, endtimeText: string, t: string, optionsText: string, j: nat)
    requires j < |SplitLines(optionsText)|
    requires Acceptable(table, SplitLines(optionsText)[..j])
    requires |SplitOnce(SplitLines(optionsText)[j])| != 2
    ensures VoteCommand(table, endtimeText, Some(t), optionsText)
      == Rejected("Option `" + SplitLines(optionsText)[j] + "` is in incorrect format.")
  {
    MalformedLineRefused(table, optionsText, j);
    RefusedReply(table, endtimeText, t, optionsText, MalformedOption(SplitLines(optionsText)[j]));
  }

  /** The first line whose emoji is not recognised names that emoji. */
  lemma UnknownEmojiReply(table: EmojiTable, endtimeText: string, t: string, optionsText: string, j: nat)
    requires j < |SplitLines(optionsText)|
    requires Acceptable(table, SplitLines(optionsText)[..j])
    requires |SplitOnce(SplitLines(optionsText)[j])| == 2
    requires !CheckEmoji(table, SplitOnce(SplitLines(optionsText)[j])[0])
    ensures VoteCommand(table, endtimeText, Some(t), optionsText)
      == Rejected("Emoji " + SplitOnce(SplitLines(optionsText)[j])[0] + " was not recognized as emoji!")
  {
    UnknownTokenRefused(table, optionsText, j);
    RefusedReply(table, endtimeText, t, optionsText, UnknownEmoji(SplitOnce(SplitLines(optionsText)[j])[0]));
  }

  /** The first line that repeats an earlier line's emoji names that emoji. */
  lemma DuplicateEmojiReply(table: EmojiTable, endtimeText: string, t: string, optionsText: string, i: nat, j: nat)
    requires i < j < |SplitLines(optionsText)|
    requires Acceptable(table, SplitLines(optionsText)[..j])
    requires GoodLine(table, SplitLines(optionsText)[i]) && GoodLine(table, SplitLines(optionsText)[j])
    requires Entry(table, SplitLines(optionsText)[j]).0 == Entry(table, SplitLines(optionsText)[i]).0
    ensures VoteCommand(table, endtimeText, Some(t), optionsText)
      == Rejected("Emoji " + Entry(table, SplitLines(optionsText)[j]).0 + " was used more than once!")
  {
    DuplicateTokenRefused(table, optionsText, i, j);
    DuplicateReplyOf(table, endtimeText, t, optionsText, Entry(table, SplitLines(optionsText)[j]).0);
  }

  lemma DuplicateReplyOf(table: EmojiTable, endtimeText: string, t: string, optionsText: string, token: string)
    requires ParseOptions(table, optionsText) == Failure(DuplicateEmoji(token))
    ensures VoteCommand(table, endtimeText, Some(t), optionsText)
      == Rejected("Emoji " + token + " was used more than once!")
  {
    RefusedReply(table, endtimeText, t, optionsText, DuplicateEmoji(token));
  }

  // ---------------------------------------------------------------------------
  // Closing
  // ---------------------------------------------------------------------------

  datatype LogEntry = Info(text: string) | Warning(text: string)

  /** How `start` ends: the message was gone when fetched again; the tally
      was empty, so the results could not be ranked (the source raises an
      index error after writing the log line); or the results were sent. */
  datatype CloseOutcome =
    | MessageLost(log: seq<LogEntry>)
    | NoVotes(log: seq<LogEntry>)
    | Closed(log: seq<LogEntry>, results: string)

  /** `VoteObject.start` after the wait. `fetched` is the reactions of the
      message fetched again at the deadline, or `None` when it could not be
      fetched. */
  function CloseVote(poll: Poll, fetched: Option<seq<Reaction>>): (r: CloseOutcome)
    ensures |r.log| == 2 && r.log[0] == Info("Vote started!")
    ensures r.MessageLost? <==> fetched.None?
    ensures r.MessageLost? ==> r.log[1] == Warning("Vote ended but the message was not found!")
    ensures fetched.Some? ==> r.log[1] == Info(LogLine(TallyVotes(poll.options, fetched.value)))
    ensures r.NoVotes? <==> fetched.Some? && forall i :: 0 <= i < |fetched.value| ==> fetched.value[i].emoji !in Keys(poll.options)
    ensures r.Closed? ==> fetched.Some? && TallyVotes(poll.options, fetched.value) != []
    ensures r.Closed? ==> r.results == Results(poll.options, TallyVotes(poll.options, fetched.value))
  {
    var started := Info("Vote started!");
    match fetched
    case None => MessageLost([started, Warning("Vote ended but the message was not found!")])
    case Some(reactions) =>
      var votes := TallyVotes(poll.options, reactions);
      TallyEmpty(poll.options, reactions);
      var logged := [started, Info(LogLine(votes))];
      if votes == [] then NoVotes(logged) else Closed(logged, Results(poll.options, votes))
  }
}
