/**
 * Worked examples: a small poll with two standard emoji, `A` and `B`, taken
 * through option parsing and through closing.
 */
module Scenarios {
  import opened Wrappers
  import opened PyStr
  import opened OrderedDict
  import opened Emoji
  import opened OptionParser
  import opened Tally
  import opened Ranking

  /** The emoji table of the examples: `A` and `B` are standard emoji. */
  const Table := EmojiTable({"A", "B"}, {})

  /** An option line in its plainest shape: the emoji, one space, the
      description. */
  lemma OneSpace(emoji: string, description: string)
    requires emoji != [] && NoSpace(emoji)
    requires description != [] && !IsSpace(description[0])
    ensures SplitOnce(emoji + " " + description) == [emoji, description]
  {
    assert AllSpace(" ");
    SplitOnceTwo("", emoji, " ", description);
    assert "" + emoji == emoji;
  }

  lemma CatsLine()
    ensures SplitOnce("A Cats") == ["A", "Cats"]
    ensures GoodLine(Table, "A Cats") && Entry(Table, "A Cats") == ("A", "Cats")
  {
    OneSpace("A", "Cats");
    assert "A" + " " + "Cats" == "A Cats";
  }

  lemma DogsLine()
    ensures SplitOnce("A Dogs") == ["A", "Dogs"]
    ensures GoodLine(Table, "A Dogs") && Entry(Table, "A Dogs") == ("A", "Dogs")
  {
    OneSpace("A", "Dogs");
    assert "A" + " " + "Dogs" == "A Dogs";
  }

  lemma CatsAcceptable()
    ensures Acceptable(Table, ["A Cats"])
  {
    CatsLine();
    assert ["A Cats"][1..] == [];
  }

  lemma DogsOnly()
    ensures NoLineBreak("A Cats") && SplitLines("A Dogs") == ["A Dogs"]
  {
    PrintableNoLineBreak("A Cats");
    PrintableNoLineBreak("A Dogs");
    SplitLinesSingle("A Dogs");
  }

  lemma BlankThenDogs()
    ensures SplitLines("\nA Dogs") == ["", "A Dogs"]
  {
    DogsOnly();
    SplitLinesCons("", "A Dogs");
    assert "" + "\n" + "A Dogs" == "\nA Dogs";
  }

  /** The two option blocks of the examples, as the concatenations that
      `SplitLinesCons` takes apart. */
  lemma ExampleTexts()
    ensures "A Cats" + "\n" + "\nA Dogs" == "A Cats\n\nA Dogs"
    ensures "A Cats" + "\n" + "A Dogs" == "A Cats\nA Dogs"
  {
    assert "\n" + "\nA Dogs" == "\n\nA Dogs";
  }

  lemma BlankLineText()
    ensures SplitLines("A Cats\n\nA Dogs") == ["A Cats", "", "A Dogs"]
  {
    ExampleTexts();
    DogsOnly();
    SplitLinesCons("A Cats", "\nA Dogs");
    BlankThenDogs();
  }

  /** A blank line between two options refuses the whole block, echoing the
      empty line. */
  lemma BlankLineRefused()
    ensures ParseOptions(Table, "A Cats\n\nA Dogs") == Failure(MalformedOption(""))
  {
    BlankLineText();
    assert ["A Cats", "", "A Dogs"][..1] == ["A Cats"];
    CatsAcceptable();
    MalformedLineRefused(Table, "A Cats\n\nA Dogs", 1);
  }

  lemma RepeatedEmojiText()
    ensures SplitLines("A Cats\nA Dogs") == ["A Cats", "A Dogs"]
  {
    DogsOnly();
    SplitLinesCons("A Cats", "A Dogs");
    ExampleTexts();
  }

  /** The same emoji on two lines refuses the block, naming the emoji. */
  lemma RepeatedEmojiRefused()
    ensures ParseOptions(Table, "A Cats\nA Dogs") == Failure(DuplicateEmoji("A"))
  {
    RepeatedEmojiText();
    assert ["A Cats", "A Dogs"][..1] == ["A Cats"];
    CatsAcceptable();
    CatsLine();
    DogsLine();
    DuplicateTokenRefused(Table, "A Cats\nA Dogs", 0, 1);
  }

  /** The options of the examples: `A` stands for cats, `B` for dogs. */
  const Pets: Options := [("A", "Cats"), ("B", "Dogs")]

  lemma PetsKeys()
    ensures Keys(Pets) == ["A", "B"]
    ensures "A" in Keys(Pets) && "B" in Keys(Pets) && "X" !in Keys(Pets)
  {
    assert Keys(Pets) == ["A", "B"];
  }

  lemma FirstReaction()
    ensures TallyVotes(Pets, [Reaction("B", 2)]) == [("B", 1)]
  {
    PetsKeys();
    TallyStep(Pets, [], Reaction("B", 2));
    assert [] + [Reaction("B", 2)] == [Reaction("B", 2)];
  }

  lemma SecondReaction()
    ensures TallyVotes(Pets, [Reaction("B", 2), Reaction("X", 7)]) == [("B", 1)]
  {
    PetsKeys();
    FirstReaction();
    TallyStep(Pets, [Reaction("B", 2)], Reaction("X", 7));
    assert [Reaction("B", 2)] + [Reaction("X", 7)] == [Reaction("B", 2), Reaction("X", 7)];
  }

  /** Raw counts 4 and 2, the bot's own reaction included, with a reaction
      that is not an option between them. */
  lemma ClearWinnerTally()
    ensures TallyVotes(Pets, [Reaction("B", 2), Reaction("X", 7), Reaction("A", 4)])
      == [("B", 1), ("A", 3)]
  {
    var before := [Reaction("B", 2), Reaction("X", 7)];
    PetsKeys();
    SecondReaction();
    TallyStep(Pets, before, Reaction("A", 4));
    assert before + [Reaction("A", 4)] == [Reaction("B", 2), Reaction("X", 7), Reaction("A", 4)];
    assert "A" !in Keys([("B", 1)]) by {
      assert Keys([("B", 1)]) == ["B"];
    }
  }

  lemma ClearWinnerSorted()
    ensures SortDesc([("B", 1), ("A", 3)]) == [("A", 3), ("B", 1)]
  {
    assert [("B", 1), ("A", 3)][1..] == [("A", 3)];
    assert SortDesc([("A", 3)]) == [("A", 3)];
    assert Insert(("B", 1), [("A", 3)]) == [("A", 3), ("B", 1)];
  }

  lemma ClearWinnerLines()
    ensures AllOptions(Pets, [("A", 3), ("B", 1)])
    ensures ResultLines(Pets, [("A", 3), ("B", 1)], 3)
      == ["**3x A - Cats**", "1x B - Dogs"]
  {
    var options := Pets;
    assert Keys(options) == ["A", "B"];
    assert ResultLine(options, ("A", 3), 3) == "**3x A - Cats**" by {
      assert IntToString(3) == "3";
      assert Get(options, "A") == Some("Cats");
    }
    assert ResultLine(options, ("B", 1), 3) == "1x B - Dogs" by {
      assert IntToString(1) == "1";
      assert Get(options, "B") == Some("Dogs");
    }
  }

  /** The tally above ranked: A wins with 3 votes and is listed first, in
      bold, although its reaction came last. */
  lemma ClearWinnerResults()
    ensures AllOptions(Pets, [("B", 1), ("A", 3)])
    ensures Results(Pets, [("B", 1), ("A", 3)])
      == "Vote ended!" + "\n" + "**Results:**" + "\n" + "**3x A - Cats**" + "\n" + "1x B - Dogs"
  {
    var head := "Vote ended!";
    var l1 := ["**Results:**"];
    var l2 := l1 + ["**3x A - Cats**"];
    var l3 := l2 + ["1x B - Dogs"];
    ClearWinnerSorted();
    ClearWinnerLines();
    assert Results(Pets, [("B", 1), ("A", 3)]) == AppendLines(head, l3) by {
      assert ["**Results:**"] + ["**3x A - Cats**", "1x B - Dogs"] == l3;
    }
    assert AppendLines(head, l1) == head + "\n" + "**Results:**" by {
      AppendLinesStep(head, [], "**Results:**");
      assert [] + ["**Results:**"] == l1;
    }
    AppendLinesStep(head, l1, "**3x A - Cats**");
    AppendLinesStep(head, l2, "1x B - Dogs");
  }

  lemma TieSorted()
    ensures SortDesc([("B", 2), ("A", 2)]) == [("B", 2), ("A", 2)]
  {
    assert [("B", 2), ("A", 2)][1..] == [("A", 2)];
    assert SortDesc([("A", 2)]) == [("A", 2)];
  }

  lemma TieLines()
    ensures AllOptions(Pets, [("B", 2), ("A", 2)])
    ensures ResultLines(Pets, [("B", 2), ("A", 2)], 2)
      == ["**2x B - Dogs**", "**2x A - Cats**"]
  {
    var options := Pets;
    assert Keys(options) == ["A", "B"];
    assert IntToString(2) == "2";
    assert ResultLine(options, ("B", 2), 2) == "**2x B - Dogs**" by {
      assert Get(options, "B") == Some("Dogs");
    }
    assert ResultLine(options, ("A", 2), 2) == "**2x A - Cats**" by {
      assert Get(options, "A") == Some("Cats");
    }
  }

  lemma PetsSingleLine()
    ensures SingleLine(Pets)
  {
    PrintableNoLineBreak("A");
    PrintableNoLineBreak("B");
    PrintableNoLineBreak("Cats");
    PrintableNoLineBreak("Dogs");
  }

  /** Two options tied at the top are both bold, and keep the order in which
      their reactions were tallied. */
  lemma TieResults()
    ensures AllOptions(Pets, [("B", 2), ("A", 2)])
    ensures var lines := SplitLines(Results(Pets, [("B", 2), ("A", 2)]));
      lines == ["Vote ended!", "**Results:**", "**2x B - Dogs**", "**2x A - Cats**"]
  {
    var options := Pets;
    TieSorted();
    TieLines();
    PetsSingleLine();
  }
}
