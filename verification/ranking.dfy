/**
 * The results message of a closed poll (`VoteObject.start`): the vote
 * entries sorted by count, highest first, with `sorted(..., reverse=True)`'s
 * stability (entries with equal counts keep their tally order), one line per
 * entry, and every entry whose count equals the first entry's count in bold.
 */
module Ranking {
  import opened Wrappers
  import opened PyStr
  import opened OrderedDict
  import opened OptionParser
  import opened Tally

  type VoteEntry = (string, int)

  /** Non-increasing by count. */
  predicate SortedDesc(s: seq<VoteEntry>) {
    forall i, j :: 0 <= i < j < |s| ==> s[i].1 >= s[j].1
  }

  /** Places `e` in front of the first entry whose count does not exceed its
      own, so that `e` precedes every entry it ties with. */
  function Insert(e: VoteEntry, s: seq<VoteEntry>): (r: seq<VoteEntry>)
    ensures |r| == |s| + 1
    ensures multiset(r) == multiset(s) + multiset{e}
    decreases |s|
  {
    if s == [] || s[0].1 <= e.1 then
      [e] + s
    else
      assert s == [s[0]] + s[1..];
      [s[0]] + Insert(e, s[1..])
  }

  lemma {:induction false} InsertSorted(e: VoteEntry, s: seq<VoteEntry>)
    requires SortedDesc(s)
    ensures SortedDesc(Insert(e, s))
    decreases |s|
  {
    if s != [] && s[0].1 > e.1 {
      var rest := s[1..];
      InsertSorted(e, rest);
      assert forall j :: 0 <= j < |rest| ==> rest[j].1 <= s[0].1 by {
        assert forall j :: 0 <= j < |rest| ==> rest[j] == s[j + 1];
      }
      InsertBounded(e, rest, s[0].1);
      SortedCons(s[0], Insert(e, rest));
    }
  }

  /** Inserting keeps every count at or below a common bound. */
  lemma InsertBounded(e: VoteEntry, s: seq<VoteEntry>, m: int)
    requires e.1 <= m && forall j :: 0 <= j < |s| ==> s[j].1 <= m
    ensures forall j :: 0 <= j < |Insert(e, s)| ==> Insert(e, s)[j].1 <= m
  {
    var r := Insert(e, s);
    forall j | 0 <= j < |r|
      ensures r[j].1 <= m
    {
      assert r[j] in multiset(s) + multiset{e};
      if r[j] != e {
        assert r[j] in s;
      }
    }
  }

  lemma SortedCons(x: VoteEntry, s: seq<VoteEntry>)
    requires SortedDesc(s) && forall j :: 0 <= j < |s| ==> s[j].1 <= x.1
    ensures SortedDesc([x] + s)
  {
    var r := [x] + s;
    forall i, j | 0 <= i < j < |r|
      ensures r[i].1 >= r[j].1
    {
      assert r[j] == s[j - 1];
      if i > 0 {
        assert r[i] == s[i - 1];
      }
    }
  }

  /** `sorted(entries, key=count, reverse=True)`: insertion sort, each entry
      inserted in front of the later ones it ties with. */
  function SortDesc(xs: seq<VoteEntry>): (r: seq<VoteEntry>)
    ensures |r| == |xs|
    ensures multiset(r) == multiset(xs)
    ensures SortedDesc(r)
    decreases |xs|
  {
    if xs == [] then
      []
    else
      assert xs == [xs[0]] + xs[1..];
      InsertSorted(xs[0], SortDesc(xs[1..]));
      Insert(xs[0], SortDesc(xs[1..]))
  }

  /** The entries with count `c`, in their order in `s`. */
  function WithCount(s: seq<VoteEntry>, c: int): (r: seq<VoteEntry>)
    ensures |r| <= |s|
    decreases |s|
  {
    if s == [] then []
    else (if s[0].1 == c then [s[0]] else []) + WithCount(s[1..], c)
  }

  lemma WithCountCons(x: VoteEntry, s: seq<VoteEntry>, c: int)
    ensures WithCount([x] + s, c) == (if x.1 == c then [x] else []) + WithCount(s, c)
  {
    assert ([x] + s)[1..] == s;
  }

  lemma {:induction false} InsertWithCount(e: VoteEntry, s: seq<VoteEntry>, c: int)
    ensures WithCount(Insert(e, s), c) == (if e.1 == c then [e] else []) + WithCount(s, c)
    decreases |s|
  {
    if s == [] || s[0].1 <= e.1 {
      WithCountCons(e, s, c);
    } else {
      var x, rest := s[0], s[1..];
      var tail := Insert(e, rest);
      assert Insert(e, s) == [x] + tail;
      assert s == [x] + rest;
      WithCountCons(x, tail, c);
      WithCountCons(x, rest, c);
      InsertWithCount(e, rest, c);
      if x.1 == c {
        assert e.1 != c;
        assert WithCount(tail, c) == WithCount(rest, c);
      } else {
        assert WithCount(Insert(e, s), c) == WithCount(tail, c);
        assert WithCount(s, c) == WithCount(rest, c);
      }
    }
  }

  /** Stability: among the entries of any one count the sort keeps the
      original order. */
  lemma {:induction false} SortStable(xs: seq<VoteEntry>, c: int)
    ensures WithCount(SortDesc(xs), c) == WithCount(xs, c)
    decreases |xs|
  {
    if xs != [] {
      InsertWithCount(xs[0], SortDesc(xs[1..]), c);
      SortStable(xs[1..], c);
    }
  }

  lemma {:induction false} WithCountMember(s: seq<VoteEntry>, i: nat)
    requires i < |s|
    ensures WithCount(s, s[i].1) != []
    decreases |s|
  {
    if i > 0 {
      WithCountMember(s[1..], i - 1);
    }
  }

  lemma {:induction false} WithCountWitness(s: seq<VoteEntry>, c: int)
    requires WithCount(s, c) != []
    ensures exists i :: 0 <= i < |s| && s[i].1 == c
    decreases |s|
  {
    if s[0].1 != c {
      WithCountWitness(s[1..], c);
      var i :| 0 <= i < |s[1..]| && s[1..][i].1 == c;
      assert s[i + 1].1 == c;
    }
  }

  /** Equal first entries leave the rest of the two sequences agreeing on
      every count as well. */
  lemma TailsAgree(a: seq<VoteEntry>, b: seq<VoteEntry>)
    requires a != [] && b != [] && a[0] == b[0]
    requires forall c :: WithCount(a, c) == WithCount(b, c)
    ensures forall c :: WithCount(a[1..], c) == WithCount(b[1..], c)
  {
    var m := a[0].1;
    assert a == [a[0]] + a[1..] && b == [b[0]] + b[1..];
    forall c
      ensures WithCount(a[1..], c) == WithCount(b[1..], c)
    {
      WithCountCons(a[0], a[1..], c);
      WithCountCons(b[0], b[1..], c);
      assert WithCount(a, c) == WithCount(b, c);
      if c == m {
        assert WithCount(a, c) == [a[0]] + WithCount(a[1..], c);
        assert WithCount(b, c) == [b[0]] + WithCount(b[1..], c);
        assert WithCount(a, c)[1..] == WithCount(a[1..], c);
        assert WithCount(b, c)[1..] == WithCount(b[1..], c);
      } else {
        assert WithCount(a, c) == WithCount(a[1..], c);
        assert WithCount(b, c) == WithCount(b[1..], c);
      }
    }
  }

  /** Two sequences sorted by count that agree on the entries of every count
      are the same sequence. */
  lemma {:induction false} SortedUnique(a: seq<VoteEntry>, b: seq<VoteEntry>)
    requires SortedDesc(a) && SortedDesc(b)
    requires forall c :: WithCount(a, c) == WithCount(b, c)
    ensures a == b
    decreases |a|
  {
    if a != [] && b != [] {
      var m := a[0].1;
      WithCountMember(a, 0);
      WithCountWitness(b, m);
      WithCountMember(b, 0);
      WithCountWitness(a, b[0].1);
      assert b[0].1 == m;
      assert a[0] == WithCount(a, m)[0] == WithCount(b, m)[0] == b[0];
      TailsAgree(a, b);
      SortedUnique(a[1..], b[1..]);
    } else if a != [] {
      WithCountMember(a, 0);
    } else if b != [] {
      WithCountMember(b, 0);
    }
  }

  /** `SortDesc` is the one stable descending sort: any ordering of the
      entries that is sorted by count and keeps tied entries in their original
      order is exactly its result. */
  lemma SortDescCharacterised(xs: seq<VoteEntry>, r: seq<VoteEntry>)
    requires SortedDesc(r)
    requires forall c :: WithCount(r, c) == WithCount(xs, c)
    ensures r == SortDesc(xs)
  {
    forall c
      ensures WithCount(r, c) == WithCount(SortDesc(xs), c)
    {
      SortStable(xs, c);
    }
    SortedUnique(r, SortDesc(xs));
  }

  /** `m` is the largest count of `votes`, and some entry has it. */
  predicate IsMax(votes: seq<VoteEntry>, m: int) {
    && (exists i :: 0 <= i < |votes| && votes[i].1 == m)
    && (forall i :: 0 <= i < |votes| ==> votes[i].1 <= m)
  }

  lemma PermutationMember(a: seq<VoteEntry>, b: seq<VoteEntry>, i: nat)
    requires multiset(a) == multiset(b) && i < |a|
    ensures exists j :: 0 <= j < |b| && b[j] == a[i]
  {
    assert a[i] in multiset(b);
  }

  /** `sorted_votes[0][1]`, the count the results compare against, is the
      highest count of the tally. */
  lemma SortedHeadIsMax(votes: seq<VoteEntry>)
    requires votes != []
    ensures IsMax(votes, SortDesc(votes)[0].1)
  {
    var r := SortDesc(votes);
    PermutationMember(r, votes, 0);
    forall i | 0 <= i < |votes|
      ensures votes[i].1 <= r[0].1
    {
      PermutationMember(votes, r, i);
    }
  }

  // ---------------------------------------------------------------------------
  // The results message
  // ---------------------------------------------------------------------------

  /** Every tallied emoji is an option. */
  predicate AllOptions(options: Dict<string>, s: seq<VoteEntry>) {
    forall m :: 0 <= m < |s| ==> s[m].0 in Keys(options)
  }

  /** `"{vote_count}x {emoji} - {option}"`, wrapped in `**` when the count
      equals `top`. */
  function ResultLine(options: Dict<string>, e: VoteEntry, top: int): (line: string)
    requires e.0 in Keys(options)
    ensures IsBold(line) <==> e.1 == top
  {
    var plain := EntryText(e.0, e.1) + " - " + Get(options, e.0).value;
    assert plain[0] == IntToString(e.1)[0];
    if e.1 == top then "**" + plain + "**" else plain
  }

  /** A line printed in bold opens with the `**` marker; an unmarked line
      opens with its count, which never starts with `*`. */
  predicate IsBold(line: string) {
    |line| >= 2 && line[..2] == "**"
  }

  function ResultLines(options: Dict<string>, s: seq<VoteEntry>, top: int): (lines: seq<string>)
    requires AllOptions(options, s)
    ensures |lines| == |s|
    ensures forall i :: 0 <= i < |s| ==> lines[i] == ResultLine(options, s[i], top)
  {
    seq(|s|, i requires 0 <= i < |s| => ResultLine(options, s[i], top))
  }

  lemma PermutationOptions(options: Dict<string>, a: seq<VoteEntry>, b: seq<VoteEntry>)
    requires multiset(a) == multiset(b) && AllOptions(options, a)
    ensures AllOptions(options, b)
  {
    forall i | 0 <= i < |b|
      ensures b[i].0 in Keys(options)
    {
      PermutationMember(b, a, i);
    }
  }

  /** The sorted tally and the text sent for it. An empty tally has no first
      entry to compare against, so the source fails there with an index
      error; callers handle that case before rendering. When no emoji or
      label holds a line boundary, the text reads line by line as the
      `Vote ended!` and `**Results:**` headers and then one line per entry of
      the sorted tally, each compared against the first entry's count. */
  function Results(options: Dict<string>, votes: Votes): (text: string)
    requires votes != [] && AllOptions(options, votes)
    ensures AllOptions(options, SortDesc(votes))
    ensures SingleLine(options) ==>
      SplitLines(text) == ["Vote ended!", "**Results:**"] + ResultLines(options, SortDesc(votes), SortDesc(votes)[0].1)
  {
    var sorted := SortDesc(votes);
    PermutationOptions(options, votes, sorted);
    ResultsMessageSplitLines(options, sorted, sorted[0].1);
    ResultsMessage(options, sorted, sorted[0].1)
  }

  /** The results message for entries already in display order. */
  function ResultsMessage(options: Dict<string>, sorted: seq<VoteEntry>, top: int): string
    requires AllOptions(options, sorted)
  {
    AppendLines("Vote ended!", ["**Results:**"] + ResultLines(options, sorted, top))
  }

  /** A result line is bold exactly when its count is the highest of the
      whole tally, so every entry tied for first place is bold. */
  lemma {:induction false} BoldIffMax(options: Dict<string>, votes: Votes, i: nat)
    requires votes != [] && AllOptions(options, votes)
    requires i < |votes|
    ensures var sorted := SortDesc(votes);
      && AllOptions(options, sorted)
      && var plain := EntryText(sorted[i].0, sorted[i].1) + " - " + Get(options, sorted[i].0).value;
      && ResultLines(options, sorted, sorted[0].1)[i]
        == if IsMax(votes, sorted[i].1) then "**" + plain + "**" else plain
  {
    var sorted := SortDesc(votes);
    PermutationOptions(options, votes, sorted);
    SortedHeadIsMax(votes);
    if IsMax(votes, sorted[i].1) {
      PermutationMember(sorted, votes, 0);
      PermutationMember(sorted, votes, i);
    }
  }

  lemma {:induction false} NoLineBreakConcat(a: string, b: string)
    requires NoLineBreak(a) && NoLineBreak(b)
    ensures NoLineBreak(a + b)
  {
    assert forall i :: 0 <= i < |a| ==> (a + b)[i] == a[i];
    assert forall i :: |a| <= i < |a + b| ==> (a + b)[i] == b[i - |a|];
  }

  lemma EntryTextNoLineBreak(k: string, v: int)
    requires NoLineBreak(k)
    ensures NoLineBreak(EntryText(k, v))
  {
    var n := IntToString(v);
    assert NoLineBreak(n) by {
      assert forall i :: 0 < i < |n| ==> IsDigit(n[i]);
    }
    NoLineBreakConcat(n, "x ");
    NoLineBreakConcat(n + "x ", k);
  }

  lemma ResultLineNoLineBreak(options: Dict<string>, e: VoteEntry, top: int)
    requires e.0 in Keys(options)
    requires NoLineBreak(e.0) && NoLineBreak(Get(options, e.0).value)
    ensures NoLineBreak(ResultLine(options, e, top)) && ResultLine(options, e, top) != []
  {
    var plain := EntryText(e.0, e.1) + " - " + Get(options, e.0).value;
    PlainNoLineBreak(e.0, e.1, Get(options, e.0).value);
    BoldNoLineBreak(plain);
  }

  lemma PlainNoLineBreak(k: string, v: int, description: string)
    requires NoLineBreak(k) && NoLineBreak(description)
    ensures NoLineBreak(EntryText(k, v) + " - " + description)
    ensures EntryText(k, v) + " - " + description != []
  {
    EntryTextNoLineBreak(k, v);
    NoLineBreakConcat(EntryText(k, v), " - ");
    NoLineBreakConcat(EntryText(k, v) + " - ", description);
  }

  lemma BoldNoLineBreak(plain: string)
    requires NoLineBreak(plain)
    ensures NoLineBreak("**" + plain + "**")
  {
    NoLineBreakConcat("**", plain);
    NoLineBreakConcat("**" + plain, "**");
  }

  lemma ResultLinesSingle(options: Dict<string>, s: seq<VoteEntry>, top: int)
    requires AllOptions(options, s) && SingleLine(options)
    ensures forall i :: 0 <= i < |s| ==>
      NoLineBreak(ResultLines(options, s, top)[i]) && ResultLines(options, s, top)[i] != []
  {
    forall i | 0 <= i < |s|
      ensures NoLineBreak(ResultLine(options, s[i], top)) && ResultLine(options, s[i], top) != []
    {
      var k := FirstIndex(Keys(options), s[i].0);
      assert options[k].0 == s[i].0;
      ResultLineNoLineBreak(options, s[i], top);
    }
  }

  /** Read line by line, a results message is the two header lines followed
      by one line per entry. */
  lemma ResultsMessageSplitLines(options: Dict<string>, sorted: seq<VoteEntry>, top: int)
    requires AllOptions(options, sorted)
    ensures SingleLine(options) ==>
      SplitLines(ResultsMessage(options, sorted, top))
        == ["Vote ended!", "**Results:**"] + ResultLines(options, sorted, top)
  {
    if SingleLine(options) {
      ResultLinesSingle(options, sorted, top);
      PrintableNoLineBreak("Vote ended!");
      PrintableNoLineBreak("**Results:**");
      AppendLinesSplit2("Vote ended!", "**Results:**", ResultLines(options, sorted, top));
    }
  }
}
