/**
 * The count taken when a poll closes (`VoteObject.start`): the reactions on
 * the fetched message are read in order, reactions whose emoji is not an
 * option are skipped, and each remaining one records its count less the
 * bot's own reaction. The result is then written to the guild log as
 * `Vote ended: 3x A, 1x B.`.
 */
module Tally {
  import opened Wrappers
  import opened PyStr
  import opened OrderedDict

  /** One entry of `message.reactions`: the emoji in its string form
      (`str(reaction.emoji)`) and how many users reacted with it, the bot
      included. */
  datatype Reaction = Reaction(emoji: string, count: int)

  /** The `votes` dictionary: emoji to number of votes, in insertion order. */
  type Votes = Dict<int>

  /** One pass of the loop that fills `votes`: `votes[emoji] = count - 1`
      when the reaction's emoji is an option. */
  function Record(options: Dict<string>, votes: Votes, r: Reaction): (after: Votes)
    requires Distinct(Keys(votes))
    ensures Distinct(Keys(after))
    ensures r.emoji in Keys(options) ==> Get(after, r.emoji) == Some(r.count - 1)
    ensures forall k :: k != r.emoji || r.emoji !in Keys(options) ==> Get(after, k) == Get(votes, k)
    ensures forall k :: k in Keys(after) ==> k in Keys(votes) || (k == r.emoji && k in Keys(options))
  {
    if r.emoji in Keys(options) then
      PutDistinct(votes, r.emoji, r.count - 1);
      Put(votes, r.emoji, r.count - 1)
    else
      votes
  }

  /** The loop that fills `votes`, over all reactions in order. */
  function TallyVotes(options: Dict<string>, reactions: seq<Reaction>): (votes: Votes)
    ensures Distinct(Keys(votes))
    ensures forall k :: k in Keys(votes) ==> k in Keys(options)
    decreases |reactions|
  {
    if reactions == [] then
      []
    else
      Record(options, TallyVotes(options, reactions[..|reactions| - 1]), reactions[|reactions| - 1])
  }

  lemma TallyStep(options: Dict<string>, reactions: seq<Reaction>, r: Reaction)
    ensures TallyVotes(options, reactions + [r]) == Record(options, TallyVotes(options, reactions), r)
  {
    var rs := reactions + [r];
    assert rs[..|rs| - 1] == reactions by {
      TakeConcat(reactions, [r]);
    }
    assert rs[|rs| - 1] == r;
  }

  /** An emoji gets an entry only when it is an option and some reaction
      carries it. */
  lemma {:induction false} TallyAbsent(options: Dict<string>, reactions: seq<Reaction>, k: string)
    requires k !in Keys(options) || forall i :: 0 <= i < |reactions| ==> reactions[i].emoji != k
    ensures Get(TallyVotes(options, reactions), k) == None
    decreases |reactions|
  {
    if reactions != [] {
      var init := reactions[..|reactions| - 1];
      TallyStep(options, init, reactions[|reactions| - 1]);
      assert init + [reactions[|reactions| - 1]] == reactions;
      TallyAbsent(options, init, k);
    }
  }

  /** An option's entry holds the count of the LAST reaction carrying it,
      less one: a later reaction with the same emoji overwrites an earlier
      one. */
  lemma {:induction false} TallyLast(options: Dict<string>, reactions: seq<Reaction>, i: nat)
    requires i < |reactions| && reactions[i].emoji in Keys(options)
    requires forall j :: i < j < |reactions| ==> reactions[j].emoji != reactions[i].emoji
    ensures Get(TallyVotes(options, reactions), reactions[i].emoji) == Some(reactions[i].count - 1)
    decreases |reactions|
  {
    var n := |reactions| - 1;
    var init := reactions[..n];
    var last := reactions[n];
    assert init + [last] == reactions;
    if i == n {
      TallyStep(options, init, last);
    } else {
      LastInInit(reactions, i);
      TallyLast(options, init, i);
      TallyKeeps(options, init, last, reactions[i].emoji, reactions[i].count - 1);
    }
  }

  /** A reaction with another emoji leaves an entry as it was. */
  lemma TallyKeeps(options: Dict<string>, init: seq<Reaction>, last: Reaction, k: string, v: int)
    requires Get(TallyVotes(options, init), k) == Some(v) && last.emoji != k
    ensures Get(TallyVotes(options, init + [last]), k) == Some(v)
  {
    TallyStep(options, init, last);
  }

  /** Dropping the final reaction keeps reaction `i` and the reactions after
      it, none of which repeats its emoji. */
  lemma LastInInit(reactions: seq<Reaction>, i: nat)
    requires i < |reactions| - 1
    requires forall j :: i < j < |reactions| ==> reactions[j].emoji != reactions[i].emoji
    ensures var init := reactions[..|reactions| - 1];
      && init[i] == reactions[i]
      && reactions[|reactions| - 1].emoji != reactions[i].emoji
      && forall j :: i < j < |init| ==> init[j].emoji != init[i].emoji
  {
  }

  /** The tally is empty exactly when no reaction on the message carries an
      option's emoji. */
  lemma {:induction false} TallyEmpty(options: Dict<string>, reactions: seq<Reaction>)
    ensures TallyVotes(options, reactions) == [] <==>
      forall i :: 0 <= i < |reactions| ==> reactions[i].emoji !in Keys(options)
    decreases |reactions|
  {
    if reactions != [] {
      var init := reactions[..|reactions| - 1];
      var last := reactions[|reactions| - 1];
      TallyStep(options, init, last);
      assert init + [last] == reactions;
      TallyEmpty(options, init);
      assert forall i :: 0 <= i < |init| ==> init[i] == reactions[i];
      if last.emoji in Keys(options) {
        var votes := TallyVotes(options, init);
        assert |Keys(Put(votes, last.emoji, last.count - 1))| >= 1;
      }
    }
  }

  /** The count as a list comprehension:
      `[(e, c - 1) for (e, c) in reactions if e in options]`. */
  function Counted(options: Dict<string>, reactions: seq<Reaction>): (votes: Votes)
    ensures |votes| <= |reactions|
    decreases |reactions|
  {
    if reactions == [] then []
    else
      var r := reactions[0];
      (if r.emoji in Keys(options) then [(r.emoji, r.count - 1)] else [])
        + Counted(options, reactions[1..])
  }

  function Emojis(reactions: seq<Reaction>): (es: seq<string>)
    ensures |es| == |reactions|
    ensures forall i :: 0 <= i < |reactions| ==> es[i] == reactions[i].emoji
  {
    seq(|reactions|, i requires 0 <= i < |reactions| => reactions[i].emoji)
  }

  lemma {:induction false} CountedAppend(options: Dict<string>, reactions: seq<Reaction>, r: Reaction)
    ensures Counted(options, reactions + [r])
      == Counted(options, reactions) + (if r.emoji in Keys(options) then [(r.emoji, r.count - 1)] else [])
    decreases |reactions|
  {
    if reactions == [] {
      assert [r][1..] == [];
    } else {
      assert (reactions + [r])[1..] == reactions[1..] + [r];
      CountedAppend(options, reactions[1..], r);
    }
  }

  lemma {:induction false} CountedAbsent(options: Dict<string>, reactions: seq<Reaction>, k: string)
    requires forall i :: 0 <= i < |reactions| ==> reactions[i].emoji != k
    ensures k !in Keys(Counted(options, reactions))
    decreases |reactions|
  {
    if reactions != [] {
      var r := reactions[0];
      var head: Votes := if r.emoji in Keys(options) then [(r.emoji, r.count - 1)] else [];
      KeysConcat(head, Counted(options, reactions[1..]));
      assert forall i :: 0 <= i < |reactions[1..]| ==> reactions[1..][i].emoji == reactions[i + 1].emoji;
      CountedAbsent(options, reactions[1..], k);
    }
  }

  /** Dropping the last reaction keeps the emoji distinct, and the last
      emoji appears nowhere before it. */
  lemma DistinctEmojisInit(reactions: seq<Reaction>)
    requires reactions != [] && Distinct(Emojis(reactions))
    ensures var init := reactions[..|reactions| - 1];
      && Distinct(Emojis(init))
      && forall i :: 0 <= i < |init| ==> init[i].emoji != reactions[|reactions| - 1].emoji
  {
    var n := |reactions| - 1;
    var init := reactions[..n];
    var es := Emojis(reactions);
    assert forall i :: 0 <= i < n ==> Emojis(init)[i] == es[i];
    forall i | 0 <= i < n
      ensures init[i].emoji != reactions[n].emoji
    {
      assert es[i] == init[i].emoji && es[n] == reactions[n].emoji;
    }
  }

  /** Discord lists each emoji at most once on a message; then the count is
      exactly the comprehension: one entry per option reaction, in reaction
      order. */
  lemma {:induction false} TallyDistinctReactions(options: Dict<string>, reactions: seq<Reaction>)
    requires Distinct(Emojis(reactions))
    ensures TallyVotes(options, reactions) == Counted(options, reactions)
    decreases |reactions|
  {
    if reactions != [] {
      var init := reactions[..|reactions| - 1];
      var last := reactions[|reactions| - 1];
      assert init + [last] == reactions;
      DistinctEmojisInit(reactions);
      TallyDistinctReactions(options, init);
      TallyStep(options, init, last);
      CountedAppend(options, init, last);
      if last.emoji in Keys(options) {
        CountedAbsent(options, init, last.emoji);
      }
    }
  }

  // ---------------------------------------------------------------------------
  // The log line
  // ---------------------------------------------------------------------------

  /** `f"{v}x {k}"`: the count, `x`, a space, then the emoji. */
  function EntryText(k: string, v: int): string
  {
    IntToString(v) + "x " + k
  }

  /** A log entry names its count and its emoji unambiguously: the first `x`
      of the entry is the one after the count. */
  lemma EntryTextInjective(k1: string, v1: int, k2: string, v2: int)
    ensures EntryText(k1, v1) == EntryText(k2, v2) ==> k1 == k2 && v1 == v2
  {
    var a1, a2 := IntToString(v1), IntToString(v2);
    var t1, t2 := EntryText(k1, v1), EntryText(k2, v2);
    if t1 == t2 {
      assert |a1| == |a2| by {
        NoXBefore(a1, k1, a2, k2);
        NoXBefore(a2, k2, a1, k1);
      }
      assert a1 == a2 by {
        assert a1 == t1[..|a1|] && a2 == t2[..|a2|];
      }
      IntToStringRoundTrip(v1);
      IntToStringRoundTrip(v2);
      assert k1 == k2 by {
        TailAfter(a1, "x ", k1);
        TailAfter(a2, "x ", k2);
      }
    }
  }

  /** The count in one entry cannot run past the `x` of another equal one. */
  lemma NoXBefore(a1: string, k1: string, a2: string, k2: string)
    requires forall k :: 0 < k < |a2| ==> IsDigit(a2[k])
    requires a2 != [] && (a2[0] == '-' || IsDigit(a2[0]))
    requires a1 + "x " + k1 == a2 + "x " + k2
    ensures |a1| >= |a2|
  {
    var t := a1 + "x " + k1;
    assert t[|a1|] == 'x';
    assert forall j :: 0 <= j < |a2| ==> t[j] == a2[j] && a2[j] != 'x';
  }

  function EntryTexts(votes: Votes): (texts: seq<string>)
    ensures |texts| == |votes|
    ensures forall i :: 0 <= i < |votes| ==> texts[i] == EntryText(votes[i].0, votes[i].1)
  {
    seq(|votes|, i requires 0 <= i < |votes| => EntryText(votes[i].0, votes[i].1))
  }

  /** `"Vote ended: " + ", ".join(f"{v}x {k}" for k, v in votes.items()) + "."`. */
  function LogLine(votes: Votes): (line: string)
    ensures |line| >= 13 && line[..12] == "Vote ended: " && line[|line| - 1] == '.'
    ensures |line| == 13 <==> votes == []
  {
    JoinShape(", ", EntryTexts(votes));
    "Vote ended: " + Join(", ", EntryTexts(votes)) + "."
  }

  /** The log line grows entry by entry: one more vote entry inserts `, vx k`
      just before the closing full stop. */
  lemma LogLineAppend(votes: Votes, k: string, v: int)
    requires votes != []
    ensures LogLine(votes + [(k, v)])
      == LogLine(votes)[..|LogLine(votes)| - 1] + ", " + EntryText(k, v) + "."
  {
    var texts := EntryTexts(votes);
    var e := EntryText(k, v);
    var j := Join(", ", texts);
    var opening := "Vote ended: ";
    EntryTextsAppend(votes, k, v);
    JoinAppend(", ", texts, e);
    assert LogLine(votes)[..|LogLine(votes)| - 1] == opening + j by {
      TakeConcat(opening + j, ".");
    }
    assert opening + (j + ", " + e) == opening + j + ", " + e by {
      ConcatAssoc(opening, j + ", ", e);
      ConcatAssoc(opening, j, ", ");
    }
  }

  lemma EntryTextsAppend(votes: Votes, k: string, v: int)
    ensures EntryTexts(votes + [(k, v)]) == EntryTexts(votes) + [EntryText(k, v)]
  {
  }

  lemma LogLineEmpty()
    ensures LogLine([]) == "Vote ended: ."
  {
  }

  lemma LogLineSingle(k: string, v: int)
    ensures LogLine([(k, v)]) == "Vote ended: " + EntryText(k, v) + "."
  {
    assert EntryTexts([(k, v)]) == [EntryText(k, v)];
  }
}
