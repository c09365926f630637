/**
 * `Vote.check_emoji`: an option token is an emoji when the emoji table knows
 * it as a standard emoji, or when it has the shape of a custom-emoji
 * reference `<prefix:name:id>` whose name is one of the custom emoji the bot
 * can see.
 */
module Emoji {
  import opened Wrappers
  import opened PyStr

  /** What the check consults outside the token itself: the `emoji` package's
      table of standard emoji (`emoji.is_emoji` is membership in it) and the
      names of the custom emoji in `bot.emojis`. */
  datatype EmojiTable = EmojiTable(standard: set<string>, custom: set<string>)

  /** `[a-zA-Z0-9]`: the explicit ranges of the pattern are ASCII only. */
  predicate IsAsciiAlnum(c: char) {
    ('a' <= c <= 'z') || ('A' <= c <= 'Z') || ('0' <= c <= '9')
  }

  predicate AllAlnum(s: string) {
    forall i :: 0 <= i < |s| ==> IsAsciiAlnum(s[i])
  }

  /** The three fields of a custom-emoji reference `<prefix:name:id>`. */
  datatype CustomRef = CustomRef(prefix: string, name: string, id: string)

  /** The field grammar of `^<[a-zA-Z0-9]*:[a-zA-Z0-9]+:[0-9]*>$`: the prefix
      and the id may be empty, the name may not. */
  predicate WellFormed(r: CustomRef) {
    AllAlnum(r.prefix) && r.name != [] && AllAlnum(r.name) && AllDigits(r.id)
  }

  function Render(r: CustomRef): string {
    "<" + r.prefix + ":" + r.name + ":" + r.id + ">"
  }

  /** Recognises exactly the strings `<prefix:name:id>` of the pattern, reading
      the fields between the angle brackets off at the colons. */
  function MatchRef(s: string): (r: Option<CustomRef>)
    ensures r.Some? ==> WellFormed(r.value) && Render(r.value) == s
  {
    if |s| < 2 || s[0] != '<' || s[|s| - 1] != '>' then
      None
    else
      var inner := s[1..|s| - 1];
      var fields := SplitOn(inner, ':');
      if |fields| != 3 then
        None
      else
        var r := CustomRef(fields[0], fields[1], fields[2]);
        if WellFormed(r) then
          RenderFields(s, fields);
          Some(r)
        else
          None
  }

  /** Three fields read off between the angle brackets render back to the
      string they came from. */
  lemma RenderFields(s: string, fields: seq<string>)
    requires |s| >= 2 && s[0] == '<' && s[|s| - 1] == '>'
    requires |fields| == 3 && Join([':'], fields) == s[1..|s| - 1]
    ensures Render(CustomRef(fields[0], fields[1], fields[2])) == s
  {
    var inner := s[1..|s| - 1];
    assert fields == [fields[0], fields[1], fields[2]];
    Join3([':'], fields[0], fields[1], fields[2]);
    assert s == "<" + inner + ">";
    RenderInner(CustomRef(fields[0], fields[1], fields[2]));
  }

  lemma RenderInner(r: CustomRef)
    ensures Render(r) == "<" + (r.prefix + ":" + r.name + ":" + r.id) + ">"
  {
  }

  /** `re.match(EMOJI_REGEX, s)`: without the MULTILINE flag Python's `$` also
      matches just before a newline that ends the string. */
  function MatchEmojiRegex(s: string): (r: Option<CustomRef>)
    ensures r.Some? ==> WellFormed(r.value)
    ensures r.Some? ==> s == Render(r.value) || s == Render(r.value) + "\n"
  {
    if |s| > 0 && s[|s| - 1] == '\n' then
      var r := MatchRef(s[..|s| - 1]);
      assert r.Some? ==> s == s[..|s| - 1] + "\n";
      r
    else
      MatchRef(s)
  }

  lemma {:induction false} Join3(sep: string, a: string, b: string, c: string)
    ensures Join(sep, [a, b, c]) == a + sep + b + sep + c
  {
    assert [a, b, c][1..] == [b, c];
    assert [b, c][1..] == [c];
    assert Join(sep, [b, c]) == b + sep + c;
    assert Join(sep, [a, b, c]) == a + sep + (b + sep + c);
  }

  lemma AlnumExcludes(s: string, c: char)
    requires AllAlnum(s) && !IsAsciiAlnum(c)
    ensures Excludes(s, c)
  {
  }

  /** Every well-formed reference is recognised, with its own fields. */
  lemma RefRoundTrip(r: CustomRef)
    requires WellFormed(r)
    ensures MatchRef(Render(r)) == Some(r)
  {
    var fields := [r.prefix, r.name, r.id];
    RenderInner(r);
    Join3([':'], r.prefix, r.name, r.id);
    Bracketed(Join([':'], fields));
    AlnumExcludes(r.prefix, ':');
    AlnumExcludes(r.name, ':');
    SplitOnJoin(fields, ':');
  }

  lemma Bracketed(inner: string)
    ensures var s := "<" + inner + ">";
      |s| >= 2 && s[0] == '<' && s[|s| - 1] == '>' && s[1..|s| - 1] == inner
  {
    var s := "<" + inner + ">";
    assert s[1..|s| - 1] == inner;
  }

  /** `s.split(":")[1]` of a matched token is the name field of the reference. */
  lemma NameField(s: string, r: CustomRef)
    requires WellFormed(r)
    requires s == Render(r) || s == Render(r) + "\n"
    ensures |SplitOn(s, ':')| == 3 && SplitOn(s, ':')[1] == r.name
  {
    var tail := if s == Render(r) then r.id + ">" else r.id + ">\n";
    var parts := ["<" + r.prefix, r.name, tail];
    Join3([':'], parts[0], parts[1], parts[2]);
    assert s == Join([':'], parts);
    assert Excludes(parts[0], ':') by {
      assert forall i :: 0 < i < |parts[0]| ==> parts[0][i] == r.prefix[i - 1];
    }
    AlnumExcludes(r.name, ':');
    SplitOnJoin(parts, ':');
  }

  /** `Vote.check_emoji`: a standard emoji, or a token of the custom-emoji
      shape whose second colon-separated field names a custom emoji the bot
      knows. The id and the prefix are not looked at. */
  function CheckEmoji(table: EmojiTable, s: string): (known: bool)
    ensures s in table.standard ==> known
    ensures known && s !in table.standard ==>
      && MatchEmojiRegex(s).Some? && MatchEmojiRegex(s).value.name in table.custom
      && |SplitOn(s, ':')| == 3
  {
    if s in table.standard then
      true
    else
      match MatchEmojiRegex(s)
      case None => false
      case Some(r) =>
        NameField(s, r);
        SplitOn(s, ':')[1] in table.custom
  }

  /** The check accepts exactly the standard emoji and the references, of the
      pattern's shape, to a known custom emoji by name. */
  lemma CheckEmojiSpec(table: EmojiTable, s: string)
    ensures CheckEmoji(table, s) <==>
      || s in table.standard
      || exists r :: WellFormed(r) && r.name in table.custom && (s == Render(r) || s == Render(r) + "\n")
  {
    if s !in table.standard {
      var m := MatchEmojiRegex(s);
      if m.Some? {
        NameField(s, m.value);
      }
      if r :| WellFormed(r) && r.name in table.custom && (s == Render(r) || s == Render(r) + "\n") {
        RefRoundTrip(r);
        assert Render(r)[|Render(r)| - 1] == '>';
        if s == Render(r) + "\n" {
          assert s[..|s| - 1] == Render(r);
        }
        assert m == Some(r);
        NameField(s, r);
      }
    }
  }

  lemma RenderExcludes(r: CustomRef, c: char)
    requires WellFormed(r)
    requires c != '<' && c != '>' && c != ':' && c != '\n' && !IsAsciiAlnum(c)
    ensures Excludes(Render(r), c) && Excludes(Render(r) + "\n", c)
  {
  }

  /** A token that holds an underscore is never a custom-emoji reference, so
      it is only accepted when the table of standard emoji has it. */
  lemma UnderscoreNeedsStandard(table: EmojiTable, s: string, i: nat)
    requires i < |s| && s[i] == '_'
    requires s !in table.standard
    ensures !CheckEmoji(table, s)
  {
    var m := MatchEmojiRegex(s);
    if m.Some? {
      RenderExcludes(m.value, '_');
    }
  }
}
