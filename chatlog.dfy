/**
 * `ChatParser`: an exported chat log read line by line into message records and the
 * sorted list of the people who wrote them.
 *
 * A line is kept when, once stripped, it reads `<timestamp> - <user>:<text>` with a
 * timestamp `parse_timestamp` accepts and a text that is not empty once `<...>` markup
 * is removed; every other line (system notices, continuation lines of multi-line
 * messages, media placeholders) is dropped.
 */
module ChatLog {
  import opened Wrappers
  import opened Text
  import opened Time
  import opened Timestamp
  import opened Sorting

  /** One record of `ChatParser.chat`: the `time`, `user` and `message` keys. */
  datatype Message = Message(time: DateTime, user: string, message: string)

  // ---------------------------------------------------------------------------
  // Reading the export: `StringIO.readlines`

  /** The length of the first line of `s`, its newline included. */
  function LineLength(s: string): (n: nat)
    requires s != []
    ensures 1 <= n <= |s|
    ensures forall k :: 0 <= k < n - 1 ==> s[k] != '\n'
    ensures n < |s| ==> s[n - 1] == '\n'
    decreases |s|
  {
    if s[0] == '\n' || |s| == 1 then 1 else 1 + LineLength(s[1..])
  }

  /** A line as `readlines` returns it: not empty, and `\n` at most at its end. */
  predicate IsLine(line: string) {
    line != [] && forall k :: 0 <= k < |line| - 1 ==> line[k] != '\n'
  }

  /** `readlines()` of the text `s`: each line keeps its `\n`; the last one may lack it. */
  function SplitLines(s: string): (lines: seq<string>)
    ensures forall i :: 0 <= i < |lines| ==> IsLine(lines[i])
    ensures forall i :: 0 <= i < |lines| - 1 ==> lines[i] != [] && lines[i][|lines[i]| - 1] == '\n'
    decreases |s|
  {
    if s == [] then []
    else
      var n := LineLength(s);
      var rest := SplitLines(s[n..]);
      assert n < |s| ==> rest != [];
      [s[..n]] + rest
  }

  function Concat(lines: seq<string>): string
    decreases |lines|
  {
    if lines == [] then [] else lines[0] + Concat(lines[1..])
  }

  /** The lines put back together are the text. */
  lemma {:induction false} SplitLinesConcat(s: string)
    ensures Concat(SplitLines(s)) == s
    decreases |s|
  {
    if s != [] {
      var n := LineLength(s);
      var rest := SplitLines(s[n..]);
      SplitLinesConcat(s[n..]);
      assert SplitLines(s) == [s[..n]] + rest;
      assert SplitLines(s)[1..] == rest;
      assert s == s[..n] + s[n..];
    }
  }

  /** An in-memory text file: its contents and the current read position. */
  class TextStream {
    var content: string
    var pos: nat

    predicate Valid()
      reads this
    {
      pos <= |content|
    }

    /** `StringIO(initial)`: positioned at the start. */
    constructor(initial: string)
      ensures Valid() && content == initial && pos == 0
    {
      content := initial;
      pos := 0;
    }

    /** `readlines()`: the lines from the current position on, which leaves it at the end. */
    method ReadLines() returns (lines: seq<string>)
      requires Valid()
      modifies this
      ensures Valid() && content == old(content) && pos == |content|
      ensures lines == SplitLines(old(content)[old(pos)..])
    {
      lines := SplitLines(content[pos..]);
      pos := |content|;
    }
  }

  // ---------------------------------------------------------------------------
  // Markup: `re.sub(r'<[^>]+>', '', text)`

  /** The first `>` in `s` at or after `k`. */
  function CloseFrom(s: string, k: nat): (r: Option<nat>)
    ensures r.Some? ==> k <= r.value < |s| && s[r.value] == '>' && forall m :: k <= m < r.value ==> s[m] != '>'
    ensures r.None? ==> forall m :: k <= m < |s| ==> s[m] != '>'
    decreases |s| - k
  {
    if k >= |s| then None else if s[k] == '>' then Some(k) else CloseFrom(s, k + 1)
  }

  /** `<`, then one or more characters other than `>`, then `>`. */
  predicate IsTag(t: string) {
    |t| >= 3 && t[0] == '<' && t[|t| - 1] == '>' && forall k :: 0 < k < |t| - 1 ==> t[k] != '>'
  }

  /** The length of the match of `<[^>]+>` at the start of `s`, if there is one. */
  function TagLength(s: string): (r: Option<nat>)
    ensures r.Some? ==> r.value <= |s| && IsTag(s[..r.value])
    ensures r.None? ==> forall n :: 0 <= n <= |s| ==> !IsTag(s[..n])
  {
    if s != [] && s[0] == '<' then
      match CloseFrom(s, 1)
      case Some(j) => if j >= 2 then Some(j + 1) else NoTagBefore(s, j); None
      case None => NoTagBefore(s, |s|); None
    else None
  }

  /** Where the first `>` after a `<` stands at `close` (or there is none), no longer prefix is a tag. */
  lemma NoTagBefore(s: string, close: nat)
    requires s != [] && 1 <= close <= |s| && forall m :: 1 <= m < close ==> s[m] != '>'
    requires close < |s| ==> s[close] == '>' && close < 2
    ensures forall n :: 0 <= n <= |s| ==> !IsTag(s[..n])
  {
    forall n | 0 <= n <= |s| ensures !IsTag(s[..n]) {
      if n >= 3 {
        var t := s[..n];
        if n - 1 < close {
          assert t[n - 1] == s[n - 1] != '>';
        } else {
          assert t[close] == s[close] == '>' && 0 < close < n - 1;
        }
      }
    }
  }

  /** `re.sub(r'<[^>]+>', '', s)`: the tags found scanning from the left, removed. */
  function RemoveTags(s: string): (r: string)
    ensures |r| <= |s|
    decreases |s|
  {
    if s == [] then []
    else match TagLength(s)
      case Some(n) => RemoveTags(s[n..])
      case None => [s[0]] + RemoveTags(s[1..])
  }

  /** No tag starts anywhere in `s`. */
  predicate NoTags(s: string) {
    forall i :: 0 <= i < |s| ==> TagLength(s[i..]).None?
  }

  lemma NoTagsCons(c: char, x: string)
    requires TagLength([c] + x).None? && NoTags(x)
    ensures NoTags([c] + x)
  {
    var s := [c] + x;
    forall i | 1 <= i < |s| ensures TagLength(s[i..]).None? {
      assert s[i..] == x[i - 1..];
    }
  }

  lemma NoTagsTail(s: string)
    requires s != [] && NoTags(s)
    ensures NoTags(s[1..])
  {
    forall i | 0 <= i < |s[1..]| ensures TagLength(s[1..][i..]).None? {
      assert s[1..][i..] == s[i + 1..];
    }
  }

  /** Characters that `RemoveTags` keeps come from its input. */
  lemma {:induction false} RemoveTagsKeeps(s: string, c: char)
    requires c !in s
    ensures c !in RemoveTags(s)
    decreases |s|
  {
    if s != [] {
      match TagLength(s)
      case Some(n) =>
        assert forall k :: 0 <= k < |s[n..]| ==> s[n..][k] == s[n + k];
        RemoveTagsKeeps(s[n..], c);
      case None =>
        assert forall k :: 0 <= k < |s[1..]| ==> s[1..][k] == s[k + 1];
        RemoveTagsKeeps(s[1..], c);
    }
  }

  /** A `<` that does not open a tag is followed by no `>` at all, or by `>` at once. */
  lemma NotTagCases(s: string)
    requires s != [] && s[0] == '<' && TagLength(s).None?
    ensures '>' !in s[1..] || (|s| >= 2 && s[1] == '>')
  {
    match CloseFrom(s, 1)
    case None =>
      forall k | 0 <= k < |s[1..]| ensures s[1..][k] != '>' {
        assert s[1..][k] == s[k + 1];
      }
    case Some(j) =>
  }

  /** After `RemoveTags`, no tag is left: the scan never puts one together. */
  lemma {:induction false} RemoveTagsNoTags(s: string)
    ensures NoTags(RemoveTags(s))
    decreases |s|
  {
    if s != [] {
      match TagLength(s)
      case Some(n) =>
        RemoveTagsNoTags(s[n..]);
      case None =>
        var x := RemoveTags(s[1..]);
        RemoveTagsNoTags(s[1..]);
        assert RemoveTags(s) == [s[0]] + x;
        FirstNotTag(s, x);
        NoTagsCons(s[0], x);
    }
  }

  /** What `RemoveTags` keeps of a `<` that opens no tag does not open one either. */
  lemma FirstNotTag(s: string, x: string)
    requires s != [] && TagLength(s).None? && x == RemoveTags(s[1..])
    ensures TagLength([s[0]] + x).None?
  {
    var r := [s[0]] + x;
    if s[0] == '<' {
      NotTagCases(s);
      if '>' !in s[1..] {
        RemoveTagsKeeps(s[1..], '>');
        forall m | 1 <= m < |r| ensures r[m] != '>' {
          assert r[m] == x[m - 1];
        }
        assert CloseFrom(r, 1).None?;
      } else {
        var t := s[1..];
        assert t[0] == '>';
        assert TagLength(t).None?;
        assert RemoveTags(t) == [t[0]] + RemoveTags(t[1..]);
        assert r[1] == '>';
        assert CloseFrom(r, 1) == Some(1);
      }
    }
  }

  /** Text without tags passes through `RemoveTags` unchanged. */
  lemma {:induction false} NoTagsFixed(s: string)
    requires NoTags(s)
    ensures RemoveTags(s) == s
    decreases |s|
  {
    if s != [] {
      assert s[0..] == s;
      NoTagsTail(s);
      NoTagsFixed(s[1..]);
      assert s == [s[0]] + s[1..];
    }
  }

  /** Removing markup twice removes nothing more. */
  lemma RemoveTagsIdempotent(s: string)
    ensures RemoveTags(RemoveTags(s)) == RemoveTags(s)
  {
    RemoveTagsNoTags(s);
    NoTagsFixed(RemoveTags(s));
  }

  /** A tag in front of the text is dropped whole. */
  lemma RemoveLeadingTag(t: string, rest: string)
    requires IsTag(t)
    ensures RemoveTags(t + rest) == RemoveTags(rest)
  {
    var s := t + rest;
    assert s[..|t|] == t;
    var close := |t| - 1;
    assert forall m :: 1 <= m < close ==> s[m] != '>';
    assert CloseFrom(s, 1) == Some(close) by {
      CloseAt(s, 1, close);
    }
    assert s[|t|..] == rest;
  }

  lemma {:induction false} CloseAt(s: string, k: nat, j: nat)
    requires k <= j < |s| && s[j] == '>' && forall m :: k <= m < j ==> s[m] != '>'
    ensures CloseFrom(s, k) == Some(j)
    decreases j - k
  {
    if k < j {
      CloseAt(s, k + 1, j);
    }
  }

  /** A tag-free stretch of a tag-free string: tags are found only where they lie whole. */
  lemma {:induction false} CloseInPrefix(p: string, q: string, k: nat)
    requires CloseFrom(p, k).Some?
    ensures CloseFrom(p + q, k) == CloseFrom(p, k)
    decreases |p| - k
  {
    var s := p + q;
    if p[k] != '>' {
      CloseInPrefix(p, q, k + 1);
    }
  }

  lemma TagInPrefix(p: string, q: string)
    requires TagLength(p).Some?
    ensures TagLength(p + q) == TagLength(p)
  {
    CloseInPrefix(p, q, 1);
  }

  lemma TagKept(p: string, q: string)
    ensures TagLength(p).Some? ==> TagLength(p + q) == TagLength(p)
  {
    if TagLength(p).Some? {
      TagInPrefix(p, q);
    }
  }

  /** A slice of a string without tags has none either. */
  lemma NoTagsSlice(s: string, a: nat, b: nat)
    requires a <= b <= |s| && NoTags(s)
    ensures NoTags(s[a..b])
  {
    var t := s[a..b];
    forall i | 0 <= i < |t| ensures TagLength(t[i..]).None? {
      assert s[a + i..] == t[i..] + s[b..];
      TagKept(t[i..], s[b..]);
    }
  }

  lemma NoTagsStrip(s: string)
    requires NoTags(s)
    ensures NoTags(Strip(s))
  {
    StripSlice(s);
    NoTagsSlice(s, |Leading(s)|, |Leading(s)| + |Strip(s)|);
  }

  // ---------------------------------------------------------------------------
  // One line of the export

  /** The message text of a line: stripped, markup removed, stripped again. */
  function CleanMessage(text: string): (m: string)
    ensures Trimmed(m) && NoTags(m)
  {
    RemoveTagsNoTags(Strip(text));
    NoTagsStrip(RemoveTags(Strip(text)));
    Strip(RemoveTags(Strip(text)))
  }

  /**
   * The body of `parse_chat`'s loop for one line: the record it appends, or `None` where
   * the line is skipped (`split` unpacking or `parse_timestamp` raising `ValueError`,
   * or an empty message).
   */
  function ParseLine(raw: string): (r: Option<Message>)
    ensures r.Some? ==> Valid(r.value.time)
    ensures r.Some? ==> r.value.message != [] && Trimmed(r.value.message) && NoTags(r.value.message)
    ensures r.Some? ==> Trimmed(r.value.user) && ':' !in r.value.user
  {
    var line := Strip(raw);
    match SplitOnce(line, " - ")
    case None => None
    case Some((stamp, rest)) =>
      match ParseTimestamp(stamp)
      case Err(_) => None
      case Ok(time) =>
        match SplitOnce(rest, ":")
        case None => None
        case Some((user, text)) =>
          UserHasNoColon(rest, user, text);
          var message := CleanMessage(text);
          if message == [] then None else Some(Message(time, Strip(user), message))
  }

  /** The user is cut at the first `:`, so neither it nor its stripped form holds one. */
  lemma UserHasNoColon(rest: string, user: string, text: string)
    requires SplitOnce(rest, ":") == Some((user, text))
    ensures ':' !in Strip(user)
  {
    forall k | 0 <= k < |user| ensures user[k] != ':' {
      IsAtChar(rest, ':', k);
    }
    NotInStrip(':', user);
  }

  /**
   * The lines that yield no record: those without ` - `, those whose text before the
   * first ` - ` is no timestamp, and those with no `:` after it.
   */
  lemma LineDropped(raw: string, i: nat)
    ensures var line := Strip(raw);
            Absent(line, " - ") ==> ParseLine(raw).None?
    ensures var line := Strip(raw);
            FirstAt(line, " - ", i) && ParseTimestamp(line[..i]).Err? ==> ParseLine(raw).None?
    ensures var line := Strip(raw);
            FirstAt(line, " - ", i) && Absent(line[i + 3..], ":") ==> ParseLine(raw).None?
  {
    var line := Strip(raw);
    if FirstAt(line, " - ", i) {
      SplitAtFirst(line, " - ", i);
    }
  }

  /**
   * A line written as `<stamp> - <user>:<text>`, with any whitespace around it: where the
   * stamp holds no `-`, the split falls right after it and right after the user, so the
   * line yields the record the stamp, the user and the cleaned text make, if the text
   * is not empty after cleaning.
   */
  lemma ParseFramedLine(pre: string, stamp: string, user: string, text: string, post: string)
    requires AllSpace(pre) && AllSpace(post)
    requires '-' !in stamp && ':' !in user
    requires Trimmed(stamp + " - " + user + ":" + text)
    ensures ParseLine(pre + (stamp + " - " + user + ":" + text) + post)
            == match ParseTimestamp(stamp)
               case Err(_) => None
               case Ok(t) =>
                 var m := CleanMessage(text);
                 if m == [] then None else Some(Message(t, Strip(user), m))
  {
    FramedSplit(pre, stamp, user, text, post);
  }

  /** Where the line of `ParseFramedLine` is cut: after the stamp, then after the user. */
  lemma FramedSplit(pre: string, stamp: string, user: string, text: string, post: string)
    requires AllSpace(pre) && AllSpace(post)
    requires '-' !in stamp && ':' !in user
    requires Trimmed(stamp + " - " + user + ":" + text)
    ensures Strip(pre + (stamp + " - " + user + ":" + text) + post) == stamp + " - " + user + ":" + text
    ensures SplitOnce(stamp + " - " + user + ":" + text, " - ") == Some((stamp, user + ":" + text))
    ensures SplitOnce(user + ":" + text, ":") == Some((user, text))
  {
    StripUnique(pre, stamp + " - " + user + ":" + text, post);
    FramedCuts(stamp, user, text);
  }

  lemma FramedCuts(stamp: string, user: string, text: string)
    requires '-' !in stamp && ':' !in user
    ensures SplitOnce(stamp + " - " + user + ":" + text, " - ") == Some((stamp, user + ":" + text))
    ensures SplitOnce(user + ":" + text, ":") == Some((user, text))
  {
    assert stamp + " - " + user + ":" + text == stamp + " - " + (user + ":" + text);
    SeparatorCut(stamp, user + ":" + text);
    SplitOnceChar(user, ':', text);
    assert user + [':'] + text == user + ":" + text;
  }

  /** A line `<stamp> - <rest>` is cut right after a stamp that holds no `-`. */
  lemma SeparatorCut(stamp: string, rest: string)
    requires '-' !in stamp
    ensures SplitOnce(stamp + " - " + rest, " - ") == Some((stamp, rest))
  {
    var line := stamp + " - " + rest;
    FirstSeparator(stamp, rest);
    SplitAtFirst(line, " - ", |stamp|);
    assert line[..|stamp|] == stamp && line[|stamp| + 3..] == rest;
  }

  /** ` - ` first stands right after a stamp that holds no `-`. */
  lemma FirstSeparator(stamp: string, rest: string)
    requires '-' !in stamp
    ensures FirstAt(stamp + " - " + rest, " - ", |stamp|)
  {
    var line := stamp + " - " + rest;
    assert line[|stamp|..|stamp| + 3] == " - ";
    forall k | 0 <= k < |stamp| ensures !IsAt(line, " - ", k) {
      assert line[k..k + 3][1] == line[k + 1];
      if k + 1 < |stamp| {
        assert line[k + 1] == stamp[k + 1];
      } else {
        assert line[k + 1] == ' ';
      }
    }
  }

  /** Clean text, put after `: `, comes back as it was. */
  lemma CleanTidy(message: string)
    requires message != [] && Trimmed(message) && NoTags(message)
    ensures CleanMessage(" " + message) == message
  {
    assert " " + message + [] == " " + message;
    StripUnique(" ", message, []);
    NoTagsFixed(message);
    StripIdempotent(message);
  }

  /**
   * Round trip: a line the export writes for a record, `<stamp> - <user>: <message>`
   * with its line ending, is read back as that record, whatever stamp is used for a time
   * `parse_timestamp` reads from it, provided it holds no `-`.
   */
  lemma ParseExportLine(stamp: string, t: DateTime, user: string, message: string, ending: string)
    requires ParseTimestamp(stamp) == Ok(t) && '-' !in stamp && stamp != [] && !IsSpace(stamp[0])
    requires Trimmed(user) && ':' !in user
    requires message != [] && Trimmed(message) && NoTags(message)
    requires AllSpace(ending)
    ensures ParseLine(stamp + " - " + user + ": " + message + ending) == Some(Message(t, user, message))
  {
    ExportFraming(stamp, user, message, ending);
    ParseFramedLine([], stamp, user, " " + message, ending);
    CleanTidy(message);
    StripTrimmed(user);
  }

  /** The written line is the trimmed line `<stamp> - <user>:<text>` with the line ending after it. */
  lemma ExportFraming(stamp: string, user: string, message: string, ending: string)
    requires stamp != [] && !IsSpace(stamp[0]) && message != [] && Trimmed(message)
    ensures Trimmed(stamp + " - " + user + ":" + (" " + message))
    ensures [] + (stamp + " - " + user + ":" + (" " + message)) + ending == stamp + " - " + user + ": " + message + ending
  {
    var line := stamp + " - " + user + ":" + (" " + message);
    assert line[0] == stamp[0];
    assert line[|line| - 1] == message[|message| - 1];
  }

  /** The same for the stamps the export writes. */
  lemma ParseRenderedLine(t: DateTime, r: Rendering, user: string, message: string, ending: string)
    requires Renderable(t, r) && r.sep != '-' && ParseTimestamp(Stamp(t, r)) == Ok(t)
    requires Trimmed(user) && ':' !in user
    requires message != [] && Trimmed(message) && NoTags(message)
    requires AllSpace(ending)
    ensures ParseLine(Stamp(t, r) + " - " + user + ": " + message + ending) == Some(Message(t, user, message))
  {
    StampHasNoDash(t, r);
    StampTrimmed(t, r);
    ParseExportLine(Stamp(t, r), t, user, message, ending);
  }

  /** A line whose text is only markup, such as `<Media omitted>`, yields no record. */
  lemma MarkupOnlyDropped(pre: string, stamp: string, user: string, tag: string, post: string)
    requires AllSpace(pre) && AllSpace(post)
    requires '-' !in stamp && ':' !in user && IsTag(tag)
    requires Trimmed(stamp + " - " + user + ":" + tag)
    ensures ParseLine(pre + (stamp + " - " + user + ":" + tag) + post) == None
  {
    ParseFramedLine(pre, stamp, user, tag, post);
    MarkupCleansAway(tag);
  }

  /** Text that is one tag cleans to nothing. */
  lemma MarkupCleansAway(tag: string)
    requires IsTag(tag)
    ensures CleanMessage(tag) == []
  {
    assert [] + tag + [] == tag;
    assert Trimmed(tag);
    StripUnique([], tag, []);
    RemoveLeadingTag(tag, []);
    assert tag + [] == tag;
  }

  // ---------------------------------------------------------------------------
  // The whole log

  /** The records `parse` makes of the lines, in order: at most one per line. */
  function Collect(parse: string -> Option<Message>, lines: seq<string>): (chat: seq<Message>)
    ensures |chat| <= |lines|
    decreases |lines|
  {
    if lines == [] then [] else Kept(parse(lines[0])) + Collect(parse, lines[1..])
  }

  /** The record a line yields, as a list of none or one. */
  function Kept(r: Option<Message>): seq<Message> {
    match r
    case Some(m) => [m]
    case None => []
  }

  /** The records `parse_chat` collects from the lines. */
  function Parsed(lines: seq<string>): seq<Message> {
    Collect(ParseLine, lines)
  }

  /** Reading two runs of lines one after the other yields their records one after the other. */
  lemma {:induction false} CollectAppend(parse: string -> Option<Message>, a: seq<string>, b: seq<string>)
    ensures Collect(parse, a + b) == Collect(parse, a) + Collect(parse, b)
    decreases |a|
  {
    if a != [] {
      assert (a + b)[0] == a[0] && (a + b)[1..] == a[1..] + b;
      CollectAppend(parse, a[1..], b);
    } else {
      assert a + b == b;
    }
  }

  lemma CollectSnoc(parse: string -> Option<Message>, lines: seq<string>, i: nat)
    requires i < |lines|
    ensures Collect(parse, lines[..i + 1]) == Collect(parse, lines[..i]) + Kept(parse(lines[i]))
  {
    assert lines[..i + 1] == lines[..i] + [lines[i]];
    CollectAppend(parse, lines[..i], [lines[i]]);
  }

  /** What every record that survives has: a valid time and a clean, non-empty message. */
  predicate WellFormed(m: Message) {
    Valid(m.time) && m.message != [] && Trimmed(m.message) && NoTags(m.message) && Trimmed(m.user) && ':' !in m.user
  }

  lemma {:induction false} ParsedRecords(lines: seq<string>)
    ensures forall m :: m in Parsed(lines) ==> WellFormed(m)
  {
    forall line ensures forall m :: m in Kept(ParseLine(line)) ==> WellFormed(m) {
      KeptWellFormed(line);
    }
    CollectKeeps(ParseLine, WellFormed, lines);
  }

  lemma KeptWellFormed(line: string)
    ensures forall m :: m in Kept(ParseLine(line)) ==> WellFormed(m)
  {
  }

  /** A property every record `parse` makes has, every record it collects has. */
  lemma {:induction false} CollectKeeps(parse: string -> Option<Message>, good: Message -> bool, lines: seq<string>)
    requires forall line :: forall m :: m in Kept(parse(line)) ==> good(m)
    ensures forall m :: m in Collect(parse, lines) ==> good(m)
    decreases |lines|
  {
    if lines != [] {
      CollectKeeps(parse, good, lines[1..]);
    }
  }

  /** The users the records name. */
  ghost function UsersOf(chat: seq<Message>): set<string> {
    set i | 0 <= i < |chat| :: chat[i].user
  }

  lemma UsersSnoc(chat: seq<Message>, extra: seq<Message>)
    requires |extra| <= 1
    ensures UsersOf(chat + extra) == UsersOf(chat) + (if extra == [] then {} else {extra[0].user})
  {
    var c := chat + extra;
    if extra != [] {
      assert c[|chat|] == extra[0];
      forall u | u in UsersOf(c) ensures u in UsersOf(chat) || u == extra[0].user {
        var i :| 0 <= i < |c| && c[i].user == u;
        if i < |chat| {
          assert c[i] == chat[i];
        }
      }
      forall u | u in UsersOf(chat) ensures u in UsersOf(c) {
        var i :| 0 <= i < |chat| && chat[i].user == u;
        assert c[i] == chat[i];
      }
    } else {
      assert c == chat;
    }
  }

  /** One turn of `parse_chat`'s loop keeps the records and the users in step with the lines read. */
  lemma CollectStep(parse: string -> Option<Message>, start: seq<Message>, lines: seq<string>, i: nat,
                    chat: seq<Message>, seen: set<string>, record: Option<Message>)
    requires i < |lines| && record == parse(lines[i])
    requires chat == start + Collect(parse, lines[..i]) && seen == UsersOf(Collect(parse, lines[..i]))
    ensures record.None? ==> chat == start + Collect(parse, lines[..i + 1])
    ensures record.None? ==> seen == UsersOf(Collect(parse, lines[..i + 1]))
    ensures record.Some? ==> chat + [record.value] == start + Collect(parse, lines[..i + 1])
    ensures record.Some? ==> seen + {record.value.user} == UsersOf(Collect(parse, lines[..i + 1]))
  {
    CollectSnoc(parse, lines, i);
    UsersSnoc(Collect(parse, lines[..i]), Kept(record));
  }

  /**
   * The loop of `parse_chat` over the lines read, for a given line parser: the records
   * it appends, in order, and the set of their users it accumulates.
   */
  method CollectLines(parse: string -> Option<Message>, lines: seq<string>) returns (records: seq<Message>, seen: set<string>)
    ensures records == Collect(parse, lines) && seen == UsersOf(records)
  {
    records, seen := [], {};
    for i := 0 to |lines|
      invariant records == Collect(parse, lines[..i])
      invariant seen == UsersOf(records)
    {
      var record := parse(lines[i]);
      CollectStep(parse, [], lines, i, records, seen, record);
      match record {
        case Some(m) =>
          seen := seen + {m.user};
          records := records + [m];
        case None =>
      }
    }
    assert lines[..|lines|] == lines;
  }

  /** `ChatParser`: the stream it reads, the records it has collected and the sorted users. */
  class ChatParser {
    var chatFile: TextStream
    var app: Option<string>
    var chat: seq<Message>
    var users: seq<string>

    /** `ChatParser(chat_file, app)`: starts empty and parses the stream at once. */
    constructor(chatFile: TextStream, app: Option<string>)
      requires chatFile.Valid()
      modifies chatFile
      ensures this.chatFile == chatFile && this.app == app
      ensures chatFile.Valid() && chatFile.content == old(chatFile.content)
      ensures chatFile.pos == |chatFile.content|
      ensures chat == Parsed(SplitLines(old(chatFile.content)[old(chatFile.pos)..]))
      ensures StrictlySorted(users) && SameElements(users, UsersOf(chat))
    {
      this.chatFile := chatFile;
      this.app := app;
      chat := [];
      users := [];
      new;
      ParseChat();
    }

    /**
     * `parse_chat`: appends the records of the stream's remaining lines to `chat` and
     * sets `users` to the sorted distinct users of the records this call added.
     */
    method ParseChat()
      requires chatFile.Valid()
      modifies this, chatFile
      ensures chatFile == old(chatFile) && app == old(app)
      ensures chatFile.Valid() && chatFile.content == old(chatFile.content)
      ensures chatFile.pos == |chatFile.content|
      ensures var added := Parsed(SplitLines(old(chatFile.content)[old(chatFile.pos)..]));
              chat == old(chat) + added && StrictlySorted(users) && SameElements(users, UsersOf(added))
    {
      var lines := chatFile.ReadLines();
      var records, seen := CollectLines(ParseLine, lines);
      chat := chat + records;
      users := SortedList(seen);
    }
  }

  /**
   * Building a parser reads its stream to the end, so calling `parse_chat` on it again
   * adds no record and leaves `users` empty.
   */
  method ParseTwice(chatFile: TextStream, app: Option<string>) returns (p: ChatParser)
    requires chatFile.Valid()
    modifies chatFile
    ensures p.chatFile == chatFile && chatFile.pos == |chatFile.content|
    ensures p.chat == Parsed(SplitLines(old(chatFile.content)[old(chatFile.pos)..]))
    ensures p.users == []
  {
    p := new ChatParser(chatFile, app);
    ghost var first := p.chat;
    p.ParseChat();
    assert chatFile.content[|chatFile.content|..] == [];
    assert p.chat == first;
    assert UsersOf([]) == {};
    NoUsers(p.users);
  }

  lemma NoUsers(users: seq<string>)
    ensures SameElements(users, {}) ==> users == []
  {
    if users != [] {
      assert users[0] in users;
    }
  }

  /** Nothing requires a user name: a line with nothing before the colon keeps an empty one. */
  lemma EmptyUserKept(stamp: string, t: DateTime, message: string)
    requires ParseTimestamp(stamp) == Ok(t) && '-' !in stamp && stamp != [] && !IsSpace(stamp[0])
    requires message != [] && Trimmed(message) && NoTags(message)
    ensures ParseLine(stamp + " - : " + message) == Some(Message(t, "", message))
  {
    EmptyUserLine(stamp, message);
    ParseExportLine(stamp, t, "", message, "");
  }

  lemma EmptyUserLine(stamp: string, message: string)
    ensures stamp + " - : " + message == stamp + " - " + "" + ": " + message + ""
  {
    assert " - " + "" + ": " == " - : ";
  }

  // ---------------------------------------------------------------------------
  // Line breaks

  /** A record holds no line break, in its user or in its message. */
  predicate Unbroken(m: Message) {
    '\n' !in m.user && '\n' !in m.message
  }

  lemma NotInCut(c: char, s: string, i: nat)
    requires c !in s && i <= |s|
    ensures c !in s[..i] && c !in s[i..]
  {
    forall k | 0 <= k < i ensures s[..i][k] != c {
      assert s[..i][k] == s[k];
    }
    forall k | 0 <= k < |s| - i ensures s[i..][k] != c {
      assert s[i..][k] == s[i + k];
    }
  }

  /** Stripping a line as `readlines` returns it removes its only possible break. */
  lemma LineStripUnbroken(line: string)
    requires IsLine(line)
    ensures '\n' !in Strip(line)
  {
    var n := |line|;
    var body := line[..n - 1];
    forall k | 0 <= k < |body| ensures body[k] != '\n' {
      assert body[k] == line[k];
    }
    if line[n - 1] == '\n' {
      assert line == [] + body + "\n";
      StripAround([], body, "\n");
      NotInStrip('\n', body);
    } else {
      assert line == body + [line[n - 1]];
      NotInStrip('\n', line);
    }
  }

  /** The user and the message are cut from the stripped line, so they hold no break it lacks. */
  lemma ParseLineUnbroken(raw: string)
    requires '\n' !in Strip(raw)
    ensures ParseLine(raw).Some? ==> Unbroken(ParseLine(raw).value)
  {
    var line := Strip(raw);
    match SplitOnce(line, " - ")
    case None =>
    case Some((stamp, rest)) =>
      NotInCut('\n', line, |stamp| + 3);
      match SplitOnce(rest, ":")
      case None =>
      case Some((user, text)) =>
        NotInCut('\n', rest, |user|);
        NotInCut('\n', rest, |user| + 1);
        assert '\n' !in user && '\n' !in text;
        NotInStrip('\n', user);
        NotInStrip('\n', text);
        RemoveTagsKeeps(Strip(text), '\n');
        NotInStrip('\n', RemoveTags(Strip(text)));
  }

  /** A property the records of each listed line have, all the records collected have. */
  lemma {:induction false} CollectKeepsEach(parse: string -> Option<Message>, good: Message -> bool, lines: seq<string>)
    requires forall i :: 0 <= i < |lines| ==> forall m :: m in Kept(parse(lines[i])) ==> good(m)
    ensures forall m :: m in Collect(parse, lines) ==> good(m)
    decreases |lines|
  {
    if lines != [] {
      assert forall i :: 1 <= i < |lines| ==> lines[1..][i - 1] == lines[i];
      CollectKeepsEach(parse, good, lines[1..]);
    }
  }

  /** No record read from an export holds a line break. */
  lemma ParsedUnbroken(content: string)
    ensures forall m :: m in Parsed(SplitLines(content)) ==> Unbroken(m)
  {
    var lines := SplitLines(content);
    forall i | 0 <= i < |lines| ensures forall m :: m in Kept(ParseLine(lines[i])) ==> Unbroken(m) {
      LineStripUnbroken(lines[i]);
      ParseLineUnbroken(lines[i]);
    }
    CollectKeepsEach(ParseLine, Unbroken, lines);
  }
}
