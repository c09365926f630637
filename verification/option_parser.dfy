/**
 * The option-block loop of `Vote.vote`: every line of the block must be an
 * emoji token followed by a label; the first line that is not, or whose token
 * is not an emoji, or whose token was used by an earlier line, refuses the
 * whole command with that line or token echoed back.
 */
module OptionParser {
  import opened Wrappers
  import opened PyStr
  import opened OrderedDict
  import opened Emoji

  /** Why an options block is refused, with the text the reply echoes. */
  datatype ParseError =
    | MalformedOption(line: string)
    | UnknownEmoji(token: string)
    | DuplicateEmoji(token: string)

  /** The poll's options: emoji token to label, in input order. */
  type Options = Dict<string>

  /** The line unpacks as `(emoji_str, description) = line.split(maxsplit=1)`
      and its token passes the emoji check. */
  predicate GoodLine(table: EmojiTable, line: string) {
    |SplitOnce(line)| == 2 && CheckEmoji(table, SplitOnce(line)[0])
  }

  /** The option a good line contributes: its token and the rest of the line. */
  function Entry(table: EmojiTable, line: string): (string, string)
    requires GoodLine(table, line)
  {
    (SplitOnce(line)[0], SplitOnce(line)[1])
  }

  /** Every line of the block is good. */
  predicate AllGood(table: EmojiTable, lines: seq<string>)
    decreases |lines|
  {
    lines == [] || (GoodLine(table, lines[0]) && AllGood(table, lines[1..]))
  }

  lemma {:induction false} AllGoodAt(table: EmojiTable, lines: seq<string>)
    ensures AllGood(table, lines) <==> forall i :: 0 <= i < |lines| ==> GoodLine(table, lines[i])
    decreases |lines|
  {
    if lines != [] {
      AllGoodAt(table, lines[1..]);
      assert forall i :: 0 < i < |lines| ==> lines[i] == lines[1..][i - 1];
    }
  }

  /** The options a block of good lines yields, one per line, in line order. */
  function Entries(table: EmojiTable, lines: seq<string>): (es: Options)
    requires AllGood(table, lines)
    decreases |lines|
  {
    if lines == [] then [] else [Entry(table, lines[0])] + Entries(table, lines[1..])
  }

  lemma {:induction false} EntriesAt(table: EmojiTable, lines: seq<string>)
    requires AllGood(table, lines)
    ensures |Entries(table, lines)| == |lines|
    ensures forall i :: 0 <= i < |lines| ==> GoodLine(table, lines[i]) && Entries(table, lines)[i] == Entry(table, lines[i])
    decreases |lines|
  {
    AllGoodAt(table, lines);
    if lines != [] {
      EntriesAt(table, lines[1..]);
      assert forall i :: 0 < i < |lines| ==> lines[i] == lines[1..][i - 1];
    }
  }

  /** The reference the loop is measured against: every line is good and no
      two lines use the same token. */
  predicate Acceptable(table: EmojiTable, lines: seq<string>) {
    AllGood(table, lines) && Distinct(Keys(Entries(table, lines)))
  }

  /** One pass of the loop body over `line`, given the options collected from
      the lines before it: the split is checked first, then the emoji, then
      the repetition. */
  function ParseLine(table: EmojiTable, options: Options, line: string): (r: Result<(string, string), ParseError>)
    ensures r.Success? <==> GoodLine(table, line) && Entry(table, line).0 !in Keys(options)
    ensures r.Success? ==> r.value == Entry(table, line)
  {
    var parts := SplitOnce(line);
    if |parts| != 2 then
      Failure(MalformedOption(line))
    else if !CheckEmoji(table, parts[0]) then
      Failure(UnknownEmoji(parts[0]))
    else if parts[0] in Keys(options) then
      Failure(DuplicateEmoji(parts[0]))
    else
      Success((parts[0], parts[1]))
  }

  /** The loop from a given line on, with the options collected so far: on
      success every remaining line was good and added its own entry, in
      order, after the collected ones, without repeating a key. */
  function ParseLines(table: EmojiTable, options: Options, lines: seq<string>): (r: Result<Options, ParseError>)
    requires Distinct(Keys(options))
    ensures r.Success? ==> AllGood(table, lines) && r.value == options + Entries(table, lines)
    ensures r.Success? ==> Distinct(Keys(r.value))
    decreases |lines|
  {
    if lines == [] then
      Success(options)
    else
      match ParseLine(table, options, lines[0])
      case Failure(e) => Failure(e)
      case Success(entry) =>
        var next := Put(options, entry.0, entry.1);
        PutDistinct(options, entry.0, entry.1);
        var r := ParseLines(table, next, lines[1..]);
        if r.Success? then
          AcceptedLine(table, options, lines, entry);
          ConcatAssoc(options, [entry], Entries(table, lines[1..]));
          r
        else
          r
  }

  /** A line the loop accepts is good, contributes its own entry, and is
      appended as a new key. */
  lemma AcceptedLine(table: EmojiTable, options: Options, lines: seq<string>, entry: (string, string))
    requires lines != [] && ParseLine(table, options, lines[0]) == Success(entry)
    requires AllGood(table, lines[1..])
    ensures AllGood(table, lines) && Entries(table, lines) == [entry] + Entries(table, lines[1..])
    ensures Put(options, entry.0, entry.1) == options + [entry]
  {
  }

  /** Neither an emoji nor a label holds a line boundary. */
  predicate SingleLine(options: Options) {
    forall m :: 0 <= m < |options| ==> NoLineBreak(options[m].0) && NoLineBreak(options[m].1)
  }

  /** `Vote.vote`'s parse of the options block: all of it or nothing. On
      success there is one option per line, in line order, mapping the line's
      token to the rest of the line, no token twice, and no line boundary
      in any token or label. */
  function ParseOptions(table: EmojiTable, text: string): (r: Result<Options, ParseError>)
    ensures r.Success? ==> |r.value| == |SplitLines(text)| && Distinct(Keys(r.value))
    ensures r.Success? ==> forall i :: 0 <= i < |r.value| ==>
      GoodLine(table, SplitLines(text)[i]) && r.value[i] == Entry(table, SplitLines(text)[i])
    ensures r.Success? && text != [] ==> |r.value| > 0
    ensures r.Success? ==> SingleLine(r.value)
  {
    var lines := SplitLines(text);
    var r := ParseLines(table, [], lines);
    if r.Success? then
      EntriesAt(table, lines);
      assert r.value == Entries(table, lines);
      EntriesSingleLine(table, lines);
      r
    else
      r
  }

  /** Every token and label is a piece of a line that `splitlines()` gave,
      so none of them holds a line boundary. */
  lemma EntriesSingleLine(table: EmojiTable, lines: seq<string>)
    requires AllGood(table, lines)
    requires forall i :: 0 <= i < |lines| ==> NoLineBreak(lines[i])
    ensures SingleLine(Entries(table, lines))
  {
    EntriesAt(table, lines);
    forall m | 0 <= m < |lines|
      ensures NoLineBreak(Entries(table, lines)[m].0) && NoLineBreak(Entries(table, lines)[m].1)
    {
      SplitOnceNoLineBreak(lines[m]);
    }
  }

  // ---------------------------------------------------------------------------
  // The loop against its reference
  // ---------------------------------------------------------------------------

  /** One turn of the loop, for a line that passes. */
  lemma ParseLinesStep(table: EmojiTable, options: Options, lines: seq<string>)
    requires Distinct(Keys(options))
    requires lines != [] && ParseLine(table, options, lines[0]).Success?
    ensures var entry := ParseLine(table, options, lines[0]).value;
      && Distinct(Keys(Put(options, entry.0, entry.1)))
      && ParseLines(table, options, lines) == ParseLines(table, Put(options, entry.0, entry.1), lines[1..])
  {
    var entry := ParseLine(table, options, lines[0]).value;
    PutDistinct(options, entry.0, entry.1);
  }

  /** A block of good lines is parsed to its entries, starting from any
      options, when no key is repeated among the options and the entries. */
  lemma {:induction false} ParseLinesComplete(table: EmojiTable, options: Options, lines: seq<string>)
    requires Distinct(Keys(options))
    requires AllGood(table, lines)
    requires Distinct(Keys(options + Entries(table, lines)))
    ensures ParseLines(table, options, lines) == Success(options + Entries(table, lines))
    decreases |lines|
  {
    if lines != [] {
      var entry := Entry(table, lines[0]);
      var rest := Entries(table, lines[1..]);
      assert Entries(table, lines) == [entry] + rest;
      var next := options + [entry];
      assert options + Entries(table, lines) == next + rest;
      assert entry.0 !in Keys(options) && Distinct(Keys(next + rest)) by {
        KeysConcat(options, [entry] + rest);
        KeysConcat([entry], rest);
        DistinctConcat(Keys(options), Keys([entry] + rest));
        assert Keys([entry] + rest)[0] == entry.0;
      }
      assert Distinct(Keys(next)) by {
        KeysConcat(next, rest);
        DistinctConcat(Keys(next), Keys(rest));
      }
      ParseLinesStep(table, options, lines);
      assert Put(options, entry.0, entry.1) == next;
      ParseLinesComplete(table, next, lines[1..]);
    }
  }

  /** The loop accepts a block exactly when the block is acceptable, and then
      yields one entry per line, in line order. */
  lemma ParseOptionsCorrect(table: EmojiTable, text: string)
    ensures ParseOptions(table, text).Success? <==> Acceptable(table, SplitLines(text))
    ensures Acceptable(table, SplitLines(text)) ==>
      ParseOptions(table, text) == Success(Entries(table, SplitLines(text)))
  {
    var lines := SplitLines(text);
    if Acceptable(table, lines) {
      assert [] + Entries(table, lines) == Entries(table, lines);
      ParseLinesComplete(table, [], lines);
    }
  }

  /** Parsing a prefix of the lines and then the rest is parsing them all. */
  lemma {:induction false} ParseLinesSplit(table: EmojiTable, options: Options, lines: seq<string>, k: nat)
    requires Distinct(Keys(options))
    requires k <= |lines|
    requires ParseLines(table, options, lines[..k]).Success?
    ensures ParseLines(table, options, lines) == ParseLines(table, ParseLines(table, options, lines[..k]).value, lines[k..])
    decreases k
  {
    if k > 0 {
      var prefix := lines[..k];
      assert prefix[0] == lines[0];
      ParseLinesHead(table, options, prefix);
      var entry := ParseLine(table, options, lines[0]).value;
      var next := Put(options, entry.0, entry.1);
      ParseLinesStep(table, options, prefix);
      ParseLinesStep(table, options, lines);
      assert prefix[1..] == lines[1..][..k - 1];
      ParseLinesSplit(table, next, lines[1..], k - 1);
      assert lines[1..][k - 1..] == lines[k..];
    } else {
      assert lines[..0] == [];
      assert lines[0..] == lines;
    }
  }

  /** The loop gets through a block only if it gets through its first line. */
  lemma ParseLinesHead(table: EmojiTable, options: Options, lines: seq<string>)
    requires Distinct(Keys(options))
    requires lines != [] && ParseLines(table, options, lines).Success?
    ensures ParseLine(table, options, lines[0]).Success?
  {
  }

  /** Errors are atomic and ordered: a refused block is refused with the error
      of its first failing line `k`, all lines before it having parsed. */
  lemma {:induction false} ParseLinesFirstError(table: EmojiTable, options: Options, lines: seq<string>) returns (k: nat)
    requires Distinct(Keys(options))
    requires ParseLines(table, options, lines).Failure?
    ensures k < |lines| && ParseLines(table, options, lines[..k]).Success?
    ensures ParseLine(table, ParseLines(table, options, lines[..k]).value, lines[k])
      == Failure(ParseLines(table, options, lines).error)
    decreases |lines|
  {
    var e := ParseLines(table, options, lines).error;
    if ParseLine(table, options, lines[0]).Failure? {
      k := 0;
      assert lines[..0] == [];
    } else {
      var entry := ParseLine(table, options, lines[0]).value;
      var next := Put(options, entry.0, entry.1);
      ParseLinesStep(table, options, lines);
      var rest := lines[1..];
      var k' := ParseLinesFirstError(table, next, rest);
      k := k' + 1;
      PrefixStep(table, options, lines, k');
      assert lines[k] == rest[k'];
    }
  }

  lemma PrefixStep(table: EmojiTable, options: Options, lines: seq<string>, k: nat)
    requires Distinct(Keys(options))
    requires k < |lines| && ParseLine(table, options, lines[0]).Success?
    ensures var entry := ParseLine(table, options, lines[0]).value;
      && Distinct(Keys(Put(options, entry.0, entry.1)))
      && ParseLines(table, options, lines[..k + 1]) == ParseLines(table, Put(options, entry.0, entry.1), lines[1..][..k])
  {
    var prefix := lines[..k + 1];
    assert prefix[0] == lines[0] && prefix[1..] == lines[1..][..k];
    ParseLinesStep(table, options, prefix);
  }

  /** The block's outcome is decided by its first failing line: once the lines
      before line `j` are acceptable, line `j` is checked against their tokens
      and its error, if any, is the command's. */
  lemma DecidedAt(table: EmojiTable, text: string, j: nat)
    requires j < |SplitLines(text)|
    requires Acceptable(table, SplitLines(text)[..j])
    ensures var lines := SplitLines(text);
      var r := ParseLine(table, Entries(table, lines[..j]), lines[j]);
      r.Failure? ==> ParseOptions(table, text) == Failure(r.error)
  {
    var lines := SplitLines(text);
    assert [] + Entries(table, lines[..j]) == Entries(table, lines[..j]);
    ParseLinesComplete(table, [], lines[..j]);
    ParseLinesSplit(table, [], lines, j);
    assert lines[j..][0] == lines[j];
  }

  /** A line that does not split into a token and a label, a blank line
      included, refuses the block with that line when the lines before it
      are acceptable. */
  lemma MalformedLineRefused(table: EmojiTable, text: string, j: nat)
    requires j < |SplitLines(text)|
    requires Acceptable(table, SplitLines(text)[..j])
    requires |SplitOnce(SplitLines(text)[j])| != 2
    ensures ParseOptions(table, text) == Failure(MalformedOption(SplitLines(text)[j]))
  {
    DecidedAt(table, text, j);
  }

  /** A token that is not an emoji refuses the block with that token. Every
      earlier token passed the emoji check, so such a token never repeats one
      of them, and checking validity before repetition changes no reply. */
  lemma UnknownTokenRefused(table: EmojiTable, text: string, j: nat)
    requires j < |SplitLines(text)|
    requires Acceptable(table, SplitLines(text)[..j])
    requires |SplitOnce(SplitLines(text)[j])| == 2
    requires !CheckEmoji(table, SplitOnce(SplitLines(text)[j])[0])
    ensures ParseOptions(table, text) == Failure(UnknownEmoji(SplitOnce(SplitLines(text)[j])[0]))
    ensures SplitOnce(SplitLines(text)[j])[0] !in Keys(Entries(table, SplitLines(text)[..j]))
  {
    var lines := SplitLines(text);
    var token := SplitOnce(lines[j])[0];
    DecidedAt(table, text, j);
    EntriesAt(table, lines[..j]);
    var ks := Keys(Entries(table, lines[..j]));
    forall m | 0 <= m < |ks|
      ensures ks[m] != token
    {
      assert GoodLine(table, lines[..j][m]);
    }
  }

  /** A valid token already used by an earlier line refuses the block with
      that token, whatever the labels. */
  lemma DuplicateTokenRefused(table: EmojiTable, text: string, i: nat, j: nat)
    requires i < j < |SplitLines(text)|
    requires Acceptable(table, SplitLines(text)[..j])
    requires GoodLine(table, SplitLines(text)[i]) && GoodLine(table, SplitLines(text)[j])
    requires Entry(table, SplitLines(text)[j]).0 == Entry(table, SplitLines(text)[i]).0
    ensures ParseOptions(table, text) == Failure(DuplicateEmoji(Entry(table, SplitLines(text)[j]).0))
  {
    var lines := SplitLines(text);
    DecidedAt(table, text, j);
    EntriesAt(table, lines[..j]);
    assert lines[..j][i] == lines[i];
    assert Keys(Entries(table, lines[..j]))[i] == Entry(table, lines[j]).0;
  }
}
