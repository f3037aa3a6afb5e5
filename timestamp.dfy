/**
 * `parse_timestamp`: the export's timestamp prefix read by trying three `strptime`
 * formats in a fixed order.
 *
 * `strptime` is modelled as CPython's `_strptime` does it: the format string becomes a
 * pattern in which each directive is a regular expression with ordered alternatives,
 * a run of whitespace is `\s+` and every other character stands for itself; the pattern
 * is matched from the start of the text with backtracking, the match must end at the
 * end of the text ("unconverted data remains" otherwise), and the captured fields must
 * form a date `datetime` accepts.
 */
module Timestamp {
  import opened Wrappers
  import opened Text
  import opened Time

  /** `_TIMESTAMP_FORMATS`, in the order they are tried. */
  const TimestampFormats: seq<string> := ["%d.%m.%Y, %H:%M", "%d/%m/%Y, %H:%M", "%d/%m/%y, %H:%M"]

  /** The `strptime` directives the formats use. */
  datatype Directive = Day | Month | Year4 | Year2 | Hour | Minute

  /** One element of a compiled format. */
  datatype Item = Field(directive: Directive) | Lit(c: char) | Blank

  /** A character class `[lo-hi]` of a directive's pattern. */
  datatype Range = Range(lo: char, hi: char)

  /** The captured text of each field and the index where the match ended. */
  datatype Match = Match(groups: map<Directive, string>, end: nat)

  function DirectiveNamed(c: char): Option<Directive> {
    if c == 'd' then Some(Day)
    else if c == 'm' then Some(Month)
    else if c == 'Y' then Some(Year4)
    else if c == 'y' then Some(Year2)
    else if c == 'H' then Some(Hour)
    else if c == 'M' then Some(Minute)
    else None
  }

  /**
   * The pattern of a format string: `%x` becomes its directive, a run of whitespace
   * one `Blank`, anything else a literal. A directive outside the six above is
   * reported as `None` (CPython knows more of them; these formats use only these).
   */
  function Compile(fmt: string): Option<seq<Item>>
    decreases |fmt|
  {
    if fmt == [] then Some([])
    else if fmt[0] == '%' then
      if |fmt| >= 2 && DirectiveNamed(fmt[1]).Some? then
        match Compile(fmt[2..])
        case None => None
        case Some(rest) => Some([Field(DirectiveNamed(fmt[1]).value)] + rest)
      else None
    else if IsSpace(fmt[0]) then
      var tail := LStrip(fmt);
      assert |tail| < |fmt|;
      match Compile(tail)
      case None => None
      case Some(rest) => Some([Blank] + rest)
    else
      match Compile(fmt[1..])
      case None => None
      case Some(rest) => Some([Lit(fmt[0])] + rest)
  }

  /**
   * The alternatives of each directive's regular expression in CPython's `TimeRE`, in
   * the order the regular-expression engine tries them:
   * `%d` is `3[01]|[12]\d|0[1-9]|[1-9]| [1-9]`, `%m` is `1[0-2]|0[1-9]|[1-9]`,
   * `%Y` is `\d\d\d\d`, `%y` is `\d\d`, `%H` is `2[0-3]|[0-1]\d|\d` and
   * `%M` is `[0-5]\d|\d`.
   */
  function Alternatives(d: Directive): seq<seq<Range>> {
    var digit := Range('0', '9');
    match d
    case Day => [[Range('3', '3'), Range('0', '1')], [Range('1', '2'), digit],
                 [Range('0', '0'), Range('1', '9')], [Range('1', '9')],
                 [Range(' ', ' '), Range('1', '9')]]
    case Month => [[Range('1', '1'), Range('0', '2')], [Range('0', '0'), Range('1', '9')],
                   [Range('1', '9')]]
    case Year4 => [[digit, digit, digit, digit]]
    case Year2 => [[digit, digit]]
    case Hour => [[Range('2', '2'), Range('0', '3')], [Range('0', '1'), digit], [digit]]
    case Minute => [[Range('0', '5'), digit], [digit]]
  }

  /** The class admits the character. */
  predicate Admits(r: Range, c: char) {
    r.lo <= c <= r.hi
  }

  /** The alternative's classes match the characters of `s` from `pos` on, one each. */
  predicate AltMatches(alt: seq<Range>, s: string, pos: nat) {
    pos + |alt| <= |s| && forall i :: 0 <= i < |alt| ==> Admits(alt[i], s[pos + i])
  }

  /** The length of the whitespace run starting at `pos` (what a greedy `\s+` takes first). */
  function SpaceRun(s: string, pos: nat): (n: nat)
    ensures pos + n <= |s| || (pos > |s| && n == 0)
    ensures forall k :: pos <= k < pos + n ==> IsSpace(s[k])
    ensures pos + n < |s| ==> !IsSpace(s[pos + n])
    decreases |s| - pos
  {
    if pos < |s| && IsSpace(s[pos]) then 1 + SpaceRun(s, pos + 1) else 0
  }

  /** Records the text a field captured in a successful match of what follows it. */
  function Capture(d: Directive, text: string, r: Option<Match>): Option<Match> {
    match r
    case None => None
    case Some(m) => Some(m.(groups := m.groups[d := text]))
  }

  /**
   * `re.match` of the pattern `items` against `s` from `pos`: the first match in the
   * engine's backtracking order, which need not reach the end of `s`.
   */
  function MatchAt(items: seq<Item>, s: string, pos: nat): (r: Option<Match>)
    requires pos <= |s|
    ensures r.Some? ==> pos <= r.value.end <= |s|
    decreases |items|, 1, 0
  {
    if items == [] then Some(Match(map[], pos))
    else match items[0]
      case Lit(c) => if pos < |s| && s[pos] == c then MatchAt(items[1..], s, pos + 1) else None
      case Blank => TryBlank(items[1..], s, pos, SpaceRun(s, pos))
      case Field(d) => TryFrom(d, Alternatives(d), 0, items[1..], s, pos)
  }

  /** `\s+` followed by `rest`: the longest whitespace run first, then shorter ones. */
  function TryBlank(rest: seq<Item>, s: string, pos: nat, n: nat): (r: Option<Match>)
    requires pos + n <= |s|
    ensures r.Some? ==> pos <= r.value.end <= |s|
    decreases |rest| + 1, 0, n
  {
    if n == 0 then None
    else match MatchAt(rest, s, pos + n)
      case Some(m) => Some(m)
      case None => TryBlank(rest, s, pos, n - 1)
  }

  /**
   * A directive with alternatives `alts` followed by `rest`: the alternatives from the
   * `k`-th on, in order, moving to the next one whenever what follows fails.
   */
  function TryFrom(d: Directive, alts: seq<seq<Range>>, k: nat, rest: seq<Item>, s: string, pos: nat)
    : (r: Option<Match>)
    requires pos <= |s|
    ensures r.Some? ==> pos <= r.value.end <= |s|
    decreases |rest| + 1, 0, |alts| - k
  {
    if k >= |alts| then None
    else
      var n := |alts[k]|;
      if AltMatches(alts[k], s, pos) then
        match MatchAt(rest, s, pos + n)
        case Some(m) => Capture(d, s[pos..pos + n], Some(m))
        case None => TryFrom(d, alts, k + 1, rest, s, pos)
      else TryFrom(d, alts, k + 1, rest, s, pos)
  }

  /** `int(text)` for a field's captured text: its digits read in decimal (a leading blank is ignored). */
  function NumberValue(text: string): nat
    decreases |text|
  {
    if text == [] then 0
    else if IsDigit(text[|text| - 1]) then NumberValue(text[..|text| - 1]) * 10 + DigitValue(text[|text| - 1])
    else NumberValue(text[..|text| - 1])
  }

  /** `%y`: 00-68 are years of the 2000s, 69-99 of the 1900s. */
  function Pivot(yy: int): int {
    if yy <= 68 then yy + 2000 else yy + 1900
  }

  /** The captured fields as a `datetime`, with `_strptime`'s defaults for absent ones. */
  function Convert(g: map<Directive, string>): (r: Option<DateTime>)
    ensures r.Some? ==> Valid(r.value)
  {
    var year := if Year4 in g then NumberValue(g[Year4])
                else if Year2 in g then Pivot(NumberValue(g[Year2]))
                else 1900;
    var month := if Month in g then NumberValue(g[Month]) else 1;
    var day := if Day in g then NumberValue(g[Day]) else 1;
    var hour := if Hour in g then NumberValue(g[Hour]) else 0;
    var minute := if Minute in g then NumberValue(g[Minute]) else 0;
    var t := DateTime(year, month, day, hour, minute);
    if Valid(t) then Some(t) else None
  }

  /** `datetime.strptime(s, fmt)`, with `None` where it raises `ValueError`. */
  function Strptime(s: string, fmt: string): (r: Option<DateTime>)
    ensures r.Some? ==> Valid(r.value)
  {
    match Compile(fmt)
    case None => None
    case Some(items) =>
      match MatchAt(items, s, 0)
      case None => None
      case Some(m) => if m.end != |s| then None else Convert(m.groups)
  }

  /** The first of `formats` that `s` parses with. */
  function FirstParse(s: string, formats: seq<string>): (r: Option<DateTime>)
    decreases |formats|
  {
    if formats == [] then None
    else match Strptime(s, formats[0])
      case Some(t) => Some(t)
      case None => FirstParse(s, formats[1..])
  }

  /** `parse_timestamp`: the stripped text read with the first format that fits, else `ValueError`. */
  function ParseTimestamp(text: string): (r: Result<DateTime, string>)
    ensures r.Ok? ==> Valid(r.value)
    ensures r.Err? ==> r.error == "Unrecognized timestamp format: " + text
  {
    match FirstParse(Strip(text), TimestampFormats)
    case Some(t) => Ok(t)
    case None => Err("Unrecognized timestamp format: " + text)
  }

  // ---------------------------------------------------------------------------
  // How one element of a pattern consumes text

  /** A class of digits only. */
  predicate DigitClass(r: Range) {
    '0' <= r.lo && r.hi <= '9'
  }

  /** Not empty, and every class after the first is a digit class. */
  predicate Shaped(alt: seq<Range>) {
    alt != [] && forall i :: 1 <= i < |alt| ==> DigitClass(alt[i])
  }

  lemma AlternativesShaped(d: Directive)
    ensures forall k :: 0 <= k < |Alternatives(d)| ==> Shaped(Alternatives(d)[k])
  {
  }

  /** Past its first class, a matching alternative only covers digits. */
  lemma CoveredDigit(alt: seq<Range>, s: string, pos: nat, i: nat)
    requires Shaped(alt) && AltMatches(alt, s, pos) && 1 <= i < |alt|
    ensures pos + i < |s| && IsDigit(s[pos + i])
  {
    assert Admits(alt[i], s[pos + i]) && DigitClass(alt[i]);
  }

  /** A matching alternative cannot reach past a non-digit that ends a run of digits. */
  lemma MatchedWithin(alt: seq<Range>, s: string, pos: nat, w: nat)
    requires Shaped(alt) && AltMatches(alt, s, pos) && 1 <= w
    requires pos + w == |s| || (pos + w < |s| && !IsDigit(s[pos + w]))
    ensures |alt| <= w
  {
    if |alt| > w {
      CoveredDigit(alt, s, pos, w);
    }
  }

  /** A pattern element that never matches a digit. */
  predicate NoDigitStart(items: seq<Item>) {
    items == [] || items[0].Blank? || (items[0].Lit? && !IsDigit(items[0].c))
  }

  lemma NoMatchOnDigit(items: seq<Item>, s: string, p: nat)
    requires items != [] && NoDigitStart(items)
    requires p < |s| && IsDigit(s[p])
    ensures MatchAt(items, s, p) == None
  {
  }

  /**
   * With `w` digits at `pos` followed by a non-digit, a directive fails when what
   * follows fails after those `w` digits: a shorter alternative leaves a digit for
   * `rest`, which cannot take it, and no alternative is longer.
   */
  lemma {:induction false} FieldFails(d: Directive, alts: seq<seq<Range>>, k: nat, rest: seq<Item>,
                                      s: string, pos: nat, w: nat)
    requires forall i :: 0 <= i < |alts| ==> Shaped(alts[i])
    requires 1 <= w && pos + w <= |s| && AllDigits(s[pos..pos + w])
    requires pos + w == |s| || !IsDigit(s[pos + w])
    requires rest != [] && NoDigitStart(rest)
    requires MatchAt(rest, s, pos + w) == None
    ensures TryFrom(d, alts, k, rest, s, pos) == None
    decreases |alts| - k
  {
    if k < |alts| {
      var alt := alts[k];
      if AltMatches(alt, s, pos) {
        MatchedWithin(alt, s, pos, w);
        if |alt| < w {
          assert s[pos + |alt|] == s[pos..pos + w][|alt|];
          NoMatchOnDigit(rest, s, pos + |alt|);
        }
      }
      FieldFails(d, alts, k + 1, rest, s, pos, w);
    }
  }

  /**
   * When alternative `j` covers the `w` characters before a non-digit and no
   * alternative tried before it is shorter, a directive followed by a `rest` that
   * succeeds there captures exactly those characters.
   */
  lemma {:induction false} FieldCaptures(d: Directive, alts: seq<seq<Range>>, k: nat, j: nat,
                                         rest: seq<Item>, s: string, pos: nat, w: nat, m: Match)
    requires forall i :: 0 <= i < |alts| ==> Shaped(alts[i])
    requires k <= j < |alts| && 1 <= w
    requires AltMatches(alts[j], s, pos) && |alts[j]| == w
    requires pos + w == |s| || !IsDigit(s[pos + w])
    requires forall i :: k <= i < j ==> |alts[i]| >= w
    requires MatchAt(rest, s, pos + w) == Some(m)
    ensures TryFrom(d, alts, k, rest, s, pos) == Capture(d, s[pos..pos + w], Some(m))
    decreases j - k
  {
    if k < j {
      if AltMatches(alts[k], s, pos) {
        MatchedWithin(alts[k], s, pos, w);
      } else {
        FieldCaptures(d, alts, k + 1, j, rest, s, pos, w, m);
      }
    }
  }

  /**
   * A directive over `w` digits followed by a non-digit, where alternative `j` covers
   * them and no earlier alternative is shorter, captures those digits whatever follows.
   */
  lemma FieldStep(d: Directive, j: nat, items: seq<Item>, s: string, pos: nat, w: nat)
    requires items != [] && items[0] == Field(d) && NoDigitStart(items[1..])
    requires j < |Alternatives(d)| && 1 <= w
    requires AltMatches(Alternatives(d)[j], s, pos) && |Alternatives(d)[j]| == w
    requires LongerBefore(d, j, w)
    requires AllDigits(s[pos..pos + w])
    requires pos + w == |s| || !IsDigit(s[pos + w])
    ensures MatchAt(items, s, pos) == Capture(d, s[pos..pos + w], MatchAt(items[1..], s, pos + w))
  {
    var alts := Alternatives(d);
    AlternativesShaped(d);
    match MatchAt(items[1..], s, pos + w)
    case None => FieldFails(d, alts, 0, items[1..], s, pos, w);
    case Some(m) => FieldCaptures(d, alts, 0, j, items[1..], s, pos, w, m);
  }

  /**
   * `%Y` needs four digits: when any of the four places from `pos` holds a non-digit or
   * lies past the end of the text, it does not match.
   */
  lemma YearTooShort(items: seq<Item>, s: string, pos: nat, d: nat)
    requires items != [] && items[0] == Field(Year4) && pos <= |s|
    requires pos <= d < pos + 4 && (d >= |s| || !IsDigit(s[d]))
    ensures MatchAt(items, s, pos) == None
  {
    var alt := Alternatives(Year4)[0];
    if d < |s| {
      assert !Admits(alt[d - pos], s[pos + (d - pos)]);
    }
    assert !AltMatches(alt, s, pos);
    assert TryFrom(Year4, Alternatives(Year4), 1, items[1..], s, pos) == None;
  }

  /** `%y` takes two digits, so a third digit is left for an element that cannot take it. */
  lemma YearTooLong(items: seq<Item>, s: string, pos: nat)
    requires items != [] && items[0] == Field(Year2) && items[1..] != [] && NoDigitStart(items[1..])
    requires pos + 2 < |s| && IsDigit(s[pos + 2])
    ensures MatchAt(items, s, pos) == None
  {
    if AltMatches(Alternatives(Year2)[0], s, pos) {
      NoMatchOnDigit(items[1..], s, pos + 2);
    }
    assert TryFrom(Year2, Alternatives(Year2), 1, items[1..], s, pos) == None;
  }

  /** A single blank before a non-blank: `\s+` takes it and nothing else. */
  lemma BlankStep(items: seq<Item>, s: string, pos: nat)
    requires items != [] && items[0] == Blank
    requires pos + 1 < |s| && IsSpace(s[pos]) && !IsSpace(s[pos + 1])
    ensures MatchAt(items, s, pos) == MatchAt(items[1..], s, pos + 1)
  {
    assert SpaceRun(s, pos) == 1;
    assert TryBlank(items[1..], s, pos, 0) == None;
  }

  // ---------------------------------------------------------------------------
  // Rendered timestamps

  /** The values each directive's pattern accepts when written in `w` digits. */
  predicate Writable(d: Directive, v: int, w: nat) {
    match d
    case Day => 1 <= v <= 31 && (w == 2 || (w == 1 && v <= 9))
    case Month => 1 <= v <= 12 && (w == 2 || (w == 1 && v <= 9))
    case Hour => 0 <= v <= 23 && (w == 2 || (w == 1 && v <= 9))
    case Minute => 0 <= v <= 59 && (w == 2 || (w == 1 && v <= 9))
    case Year2 => 0 <= v <= 99 && w == 2
    case Year4 => 0 <= v <= 9999 && w == 4
  }

  lemma WritableFits(d: Directive, v: int, w: nat)
    requires Writable(d, v, w)
    ensures 0 <= v < Pow10(w)
  {
    assert Pow10(1) == 10 && Pow10(2) == 100 && Pow10(4) == 10000;
  }

  /** The alternative the engine settles on for a value written in `w` digits. */
  function Chosen(d: Directive, v: int, w: nat): nat {
    match d
    case Day => if w == 1 then 3 else if v >= 30 then 0 else if v >= 10 then 1 else 2
    case Month => if w == 1 then 2 else if v >= 10 then 0 else 1
    case Hour => if w == 1 then 2 else if v >= 20 then 0 else 1
    case Minute => if w == 1 then 1 else 0
    case Year2 => 0
    case Year4 => 0
  }

  lemma Pad1(v: nat)
    requires v < 10
    ensures Pad(v, 1) == [DigitChar(v)]
  {
    assert Pow10(1) == 10;
    var c := DigitChar(v % 10);
    assert Pad(v, 1) == Pad(v / 10, 0) + [c];
    assert Pad(v / 10, 0) == [];
    assert [] + [c] == [c];
    assert v % 10 == v;
  }

  lemma Pad2(v: nat)
    requires v < 100
    ensures Pad(v, 2) == [DigitChar(v / 10), DigitChar(v % 10)]
  {
    assert Pow10(2) == 100;
    Pad1(v / 10);
    assert Pad(v, 2) == Pad(v / 10, 1) + [DigitChar(v % 10)];
  }

  lemma Pad4(v: nat)
    requires v < 10000
    ensures Pad(v, 4) == [DigitChar(v / 1000), DigitChar(v / 100 % 10), DigitChar(v / 10 % 10), DigitChar(v % 10)]
  {
    assert Pow10(4) == 10000;
    var a := v / 10;
    assert a < 1000;
    Pad2(a / 10);
    assert Pad(a, 3) == Pad(a / 10, 2) + [DigitChar(a % 10)];
    assert Pad(v, 4) == Pad(a, 3) + [DigitChar(v % 10)];
    assert a / 10 == v / 100;
    assert a / 10 / 10 == v / 1000;
  }

  /** The alternatives tried before `k` are at least `w` characters long. */
  predicate LongerBefore(d: Directive, k: nat, w: nat) {
    forall i :: 0 <= i < k && i < |Alternatives(d)| ==> |Alternatives(d)[i]| >= w
  }

  /** A one-digit value is covered by the directive's first one-character alternative. */
  lemma ChosenOne(d: Directive, v: nat, s: string, pos: nat)
    requires Writable(d, v, 1) && v < Pow10(1) && pos + 1 <= |s| && s[pos..pos + 1] == Pad(v, 1)
    ensures Chosen(d, v, 1) < |Alternatives(d)|
    ensures AltMatches(Alternatives(d)[Chosen(d, v, 1)], s, pos)
    ensures |Alternatives(d)[Chosen(d, v, 1)]| == 1 && LongerBefore(d, Chosen(d, v, 1), 1)
  {
    Pad1(v);
    assert s[pos] == s[pos..pos + 1][0];
    var alt := Alternatives(d)[Chosen(d, v, 1)];
    assert Admits(alt[0], s[pos]);
  }

  /** A two-digit value is covered by the first two-character alternative admitting both digits. */
  lemma ChosenTwo(d: Directive, v: nat, s: string, pos: nat)
    requires Writable(d, v, 2) && v < Pow10(2) && pos + 2 <= |s| && s[pos..pos + 2] == Pad(v, 2)
    ensures Chosen(d, v, 2) < |Alternatives(d)|
    ensures AltMatches(Alternatives(d)[Chosen(d, v, 2)], s, pos)
    ensures |Alternatives(d)[Chosen(d, v, 2)]| == 2 && LongerBefore(d, Chosen(d, v, 2), 2)
  {
    Pad2(v);
    assert s[pos] == s[pos..pos + 2][0] && s[pos + 1] == s[pos..pos + 2][1];
    var alt := Alternatives(d)[Chosen(d, v, 2)];
    assert Admits(alt[0], s[pos]) && Admits(alt[1], s[pos + 1]);
  }

  /** A four-digit year is covered by `%Y`'s only alternative. */
  lemma ChosenFour(v: nat, s: string, pos: nat)
    requires v < Pow10(4) && pos + 4 <= |s| && s[pos..pos + 4] == Pad(v, 4)
    ensures AltMatches(Alternatives(Year4)[0], s, pos)
  {
    var t := s[pos..pos + 4];
    assert s[pos] == t[0] && s[pos + 1] == t[1];
    assert s[pos + 2] == t[2] && s[pos + 3] == t[3];
    Pad4(v);
    var alt := Alternatives(Year4)[0];
    assert Admits(alt[0], s[pos]) && Admits(alt[1], s[pos + 1]);
    assert Admits(alt[2], s[pos + 2]) && Admits(alt[3], s[pos + 3]);
  }

  /**
   * A value written in `w` digits is covered by the alternative `Chosen` names, and
   * every alternative tried before it is at least as long.
   */
  lemma PadChosen(d: Directive, v: nat, w: nat, s: string, pos: nat)
    requires Writable(d, v, w)
    requires v < Pow10(w) && pos + w <= |s| && s[pos..pos + w] == Pad(v, w)
    ensures Chosen(d, v, w) < |Alternatives(d)|
    ensures AltMatches(Alternatives(d)[Chosen(d, v, w)], s, pos)
    ensures |Alternatives(d)[Chosen(d, v, w)]| == w && LongerBefore(d, Chosen(d, v, w), w)
  {
    if w == 1 {
      ChosenOne(d, v, s, pos);
    } else if w == 2 {
      ChosenTwo(d, v, s, pos);
    } else {
      ChosenFour(v, s, pos);
    }
  }
  // ---------------------------------------------------------------------------
  // The three formats

  /** The pattern `%H:%M` compiles to. */
  const Clock: seq<Item> := [Field(Hour), Lit(':'), Field(Minute)]

  /** The pattern after the date, `<year>, %H:%M`. */
  function YearPart(year: Directive): seq<Item> {
    [Field(year)] + ([Lit(',')] + ([Blank] + Clock))
  }

  /** The pattern from the month on, `%m<sep><year>, %H:%M`. */
  function MonthPart(sep: char, year: Directive): seq<Item> {
    [Field(Month)] + ([Lit(sep)] + YearPart(year))
  }

  /** The pattern of `%d<sep>%m<sep><year>, %H:%M`. */
  function Layout(sep: char, year: Directive): seq<Item> {
    [Field(Day)] + ([Lit(sep)] + MonthPart(sep, year))
  }

  lemma CompileDirective(c: char, rest: string, items: seq<Item>)
    requires DirectiveNamed(c).Some? && Compile(rest) == Some(items)
    ensures Compile(['%', c] + rest) == Some([Field(DirectiveNamed(c).value)] + items)
  {
    assert (['%', c] + rest)[2..] == rest;
  }

  lemma CompileLiteral(c: char, rest: string, items: seq<Item>)
    requires c != '%' && !IsSpace(c) && Compile(rest) == Some(items)
    ensures Compile([c] + rest) == Some([Lit(c)] + items)
  {
    assert ([c] + rest)[1..] == rest;
  }

  lemma CompileBlank(rest: string, items: seq<Item>)
    requires (rest == [] || !IsSpace(rest[0])) && Compile(rest) == Some(items)
    ensures Compile([' '] + rest) == Some([Blank] + items)
  {
    assert ([' '] + rest)[1..] == rest;
    assert LStrip([' '] + rest) == rest;
  }

  /** `, %H:%M` spelled out one format element at a time. */
  const ClockFormat: string := [','] + ([' '] + (['%', 'H'] + ([':'] + ['%', 'M'])))

  /** `%d<sep>%m<sep>%<y>, %H:%M` spelled out one format element at a time. */
  function FormatText(sep: char, y: char): string {
    ['%', 'd'] + ([sep] + (['%', 'm'] + ([sep] + (['%', y] + ClockFormat))))
  }

  lemma CompileClockFormat()
    ensures Compile(ClockFormat) == Some([Lit(','), Blank] + Clock)
  {
    var f0: string, i0: seq<Item> := [], [];
    CompileDirective('M', f0, i0);
    var f1, i1 := ['%', 'M'] + f0, [Field(Minute)] + i0;
    CompileLiteral(':', f1, i1);
    var f2, i2 := [':'] + f1, [Lit(':')] + i1;
    CompileDirective('H', f2, i2);
    var f3, i3 := ['%', 'H'] + f2, [Field(Hour)] + i2;
    CompileBlank(f3, i3);
    var f4, i4 := [' '] + f3, [Blank] + i3;
    CompileLiteral(',', f4, i4);
    assert f1 == ['%', 'M'];
    assert [Lit(',')] + i4 == [Lit(','), Blank] + Clock;
  }

  lemma CompileFormatText(sep: char, y: char, year: Directive)
    requires sep != '%' && !IsSpace(sep) && DirectiveNamed(y) == Some(year)
    ensures Compile(FormatText(sep, y)) == Some(Layout(sep, year))
  {
    CompileClockFormat();
    var f5, i5 := ClockFormat, [Lit(','), Blank] + Clock;
    CompileDirective(y, f5, i5);
    var f6, i6 := ['%', y] + f5, [Field(year)] + i5;
    CompileLiteral(sep, f6, i6);
    var f7, i7 := [sep] + f6, [Lit(sep)] + i6;
    CompileDirective('m', f7, i7);
    var f8, i8 := ['%', 'm'] + f7, [Field(Month)] + i7;
    CompileLiteral(sep, f8, i8);
    var f9, i9 := [sep] + f8, [Lit(sep)] + i8;
    CompileDirective('d', f9, i9);
    assert [Field(Day)] + i9 == Layout(sep, year);
  }

  lemma CompiledDotted()
    ensures Compile(TimestampFormats[0]) == Some(Layout('.', Year4))
  {
    assert TimestampFormats[0] == FormatText('.', 'Y');
    CompileFormatText('.', 'Y', Year4);
  }

  lemma CompiledSlashed()
    ensures Compile(TimestampFormats[1]) == Some(Layout('/', Year4))
  {
    assert TimestampFormats[1] == FormatText('/', 'Y');
    CompileFormatText('/', 'Y', Year4);
  }

  lemma CompiledShortYear()
    ensures Compile(TimestampFormats[2]) == Some(Layout('/', Year2))
  {
    assert TimestampFormats[2] == FormatText('/', 'y');
    CompileFormatText('/', 'y', Year2);
  }
  // ---------------------------------------------------------------------------
  // Reading a rendered timestamp back

  /** How a timestamp is written out: the date separator and each field's width in digits. */
  datatype Rendering = Rendering(sep: char, dayWidth: nat, monthWidth: nat, yearWidth: nat,
                                 hourWidth: nat, minuteWidth: nat)

  /** The directive that reads a year of this width. */
  function YearDirective(r: Rendering): Directive {
    if r.yearWidth == 2 then Year2 else Year4
  }

  /** The number written for the year: all of it, or its last two digits. */
  function YearShown(t: DateTime, r: Rendering): nat
  {
    if r.yearWidth == 2 then t.year % 100 else t.year
  }

  /**
   * The times a rendering can write: every field fits its width (one-digit fields only
   * for values below ten), the year has four digits or two, and the separator is not a
   * digit.
   */
  predicate Renderable(t: DateTime, r: Rendering) {
    !IsDigit(r.sep)
    && Writable(Day, t.day, r.dayWidth) && Writable(Month, t.month, r.monthWidth)
    && t.year <= 9999 && (r.yearWidth == 2 || r.yearWidth == 4)
    && Writable(Hour, t.hour, r.hourWidth) && Writable(Minute, t.minute, r.minuteWidth)
  }

  lemma RenderableFits(t: DateTime, r: Rendering)
    requires Renderable(t, r)
    ensures Writable(YearDirective(r), YearShown(t, r), r.yearWidth)
    ensures t.day < Pow10(r.dayWidth) && t.month < Pow10(r.monthWidth)
    ensures YearShown(t, r) < Pow10(r.yearWidth)
    ensures t.hour < Pow10(r.hourWidth) && t.minute < Pow10(r.minuteWidth)
  {
    assert Pow10(1) == 10 && Pow10(2) == 100 && Pow10(4) == 10000;
  }

  /** `H:MM`, the clock part. */
  function ClockText(t: DateTime, r: Rendering): string
  {
    Pad(t.hour, r.hourWidth) + ([':'] + Pad(t.minute, r.minuteWidth))
  }

  /** The year, then `, ` and the clock. */
  function YearText(t: DateTime, r: Rendering): string
  {
    Pad(YearShown(t, r), r.yearWidth) + ([','] + ([' '] + ClockText(t, r)))
  }

  /** The month, the separator and the rest. */
  function MonthText(t: DateTime, r: Rendering): string
  {
    Pad(t.month, r.monthWidth) + ([r.sep] + YearText(t, r))
  }

  /** `t` written as an export line's timestamp prefix, e.g. `01/02/20, 10:00`. */
  function Stamp(t: DateTime, r: Rendering): string
  {
    Pad(t.day, r.dayWidth) + ([r.sep] + MonthText(t, r))
  }

  /** The fields a match of the clock part captures. */
  function ClockMatch(t: DateTime, r: Rendering, end: nat): Option<Match>
  {
    Capture(Hour, Pad(t.hour, r.hourWidth),
            Capture(Minute, Pad(t.minute, r.minuteWidth), Some(Match(map[], end))))
  }

  function YearMatch(t: DateTime, r: Rendering, end: nat): Option<Match>
  {
    Capture(YearDirective(r), Pad(YearShown(t, r), r.yearWidth), ClockMatch(t, r, end))
  }

  function StampMatch(t: DateTime, r: Rendering, end: nat): Option<Match>
  {
    Capture(Day, Pad(t.day, r.dayWidth), Capture(Month, Pad(t.month, r.monthWidth), YearMatch(t, r, end)))
  }

  /** A value written by `Pad` at `pos` is a run of digits there. */
  lemma PadAt(s: string, pos: nat, v: nat, w: nat, rest: string)
    requires v < Pow10(w) && pos <= |s| && s[pos..] == Pad(v, w) + rest
    ensures pos + w <= |s| && s[pos..pos + w] == Pad(v, w) && s[pos + w..] == rest
    ensures AllDigits(s[pos..pos + w])
  {
    SuffixSplit(s, pos, Pad(v, w), rest);
    PadValue(v, w);
  }

  /** A literal that the text has at `pos` is matched and nothing else happens. */
  lemma LitStep(items: seq<Item>, c: char, s: string, pos: nat)
    requires items != [] && items[0] == Lit(c) && pos < |s| && s[pos] == c
    ensures MatchAt(items, s, pos) == MatchAt(items[1..], s, pos + 1)
  {
  }

  lemma DropHead(x: Item, rest: seq<Item>)
    ensures ([x] + rest)[1..] == rest && ([x] + rest)[0] == x
  {
  }

  /**
   * A field whose value is written at `pos` with a non-digit (or the end) after it:
   * the directive captures the written digits and matching goes on after them.
   */
  lemma PadField(d: Directive, v: nat, w: nat, items: seq<Item>, s: string, pos: nat, rest: string)
    requires items != [] && items[0] == Field(d) && NoDigitStart(items[1..])
    requires Writable(d, v, w) && v < Pow10(w) && pos <= |s| && s[pos..] == Pad(v, w) + rest
    requires rest == [] || !IsDigit(rest[0])
    ensures pos + w <= |s| && s[pos + w..] == rest
    ensures MatchAt(items, s, pos) == Capture(d, Pad(v, w), MatchAt(items[1..], s, pos + w))
  {
    PadAt(s, pos, v, w, rest);
    if rest != [] {
      assert s[pos + w] == s[pos + w..][0];
    }
    PadChosen(d, v, w, s, pos);
    FieldStep(d, Chosen(d, v, w), items, s, pos, w);
  }

  /** Where the pieces of the year part stand. */
  lemma YearTextShape(t: DateTime, r: Rendering, s: string, pos: nat)
    requires Renderable(t, r) && pos <= |s| && s[pos..] == YearText(t, r)
    ensures var w := r.yearWidth;
            YearShown(t, r) < Pow10(w) && pos + w + 2 <= |s| && s[pos..pos + w] == Pad(YearShown(t, r), w)
            && AllDigits(s[pos..pos + w]) && s[pos + w] == ',' && s[pos + w + 1] == ' '
            && s[pos + w + 2..] == ClockText(t, r) && pos + w + 2 < |s| && IsDigit(s[pos + w + 2])
  {
    RenderableFits(t, r);
    var y, w := YearShown(t, r), r.yearWidth;
    var clock := ClockText(t, r);
    PadAt(s, pos, y, w, [','] + ([' '] + clock));
    var p1 := pos + w;
    SuffixSplit(s, p1, [','], [' '] + clock);
    SuffixSplit(s, p1 + 1, [' '], clock);
    PadAt(s, p1 + 2, t.hour, r.hourWidth, [':'] + Pad(t.minute, r.minuteWidth));
    assert s[p1 + 2] == s[p1 + 2..p1 + 2 + r.hourWidth][0];
  }

  lemma MatchYearMismatch(t: DateTime, r: Rendering, year: Directive, s: string, pos: nat)
    requires Renderable(t, r) && (year == Year2 || year == Year4) && year != YearDirective(r)
    requires pos <= |s| && s[pos..] == YearText(t, r)
    ensures MatchAt(YearPart(year), s, pos) == None
  {
    RenderableFits(t, r);
    YearTextShape(t, r, s, pos);
    var w := r.yearWidth;
    if year == Year4 {
      YearTooShort(YearPart(year), s, pos, pos + 2);
    } else {
      assert s[pos + 2] == s[pos..pos + w][2];
      assert YearPart(year)[1..] == [Lit(',')] + ([Blank] + Clock);
      YearTooLong(YearPart(year), s, pos);
    }
  }
  // ---------------------------------------------------------------------------
  // A rendered timestamp as a sequence of pieces

  /** One piece of rendered text: a field's digits, a separator, or a blank. */
  datatype Piece = Num(d: Directive, v: nat, w: nat) | Sep(c: char) | Space

  function PieceText(p: Piece): string {
    match p
    case Num(_, v, w) => Pad(v, w)
    case Sep(c) => [c]
    case Space => [' ']
  }

  /** The pattern element a piece is read by. */
  function PieceItem(p: Piece): Item {
    match p
    case Num(d, _, _) => Field(d)
    case Sep(c) => Lit(c)
    case Space => Blank
  }

  function Written(ps: seq<Piece>): string
    decreases |ps|
  {
    if ps == [] then [] else PieceText(ps[0]) + Written(ps[1..])
  }

  function ItemsOf(ps: seq<Piece>): seq<Item>
    decreases |ps|
  {
    if ps == [] then [] else [PieceItem(ps[0])] + ItemsOf(ps[1..])
  }

  /** The fields the pieces capture, recorded over the match `m` of what follows. */
  function Captured(ps: seq<Piece>, m: Option<Match>): Option<Match>
    decreases |ps|
  {
    if ps == [] then m
    else if ps[0].Num? then Capture(ps[0].d, Pad(ps[0].v, ps[0].w), Captured(ps[1..], m))
    else Captured(ps[1..], m)
  }

  /**
   * A piece in front of `next` can be read back: a field holds a value its directive
   * accepts and is not followed by a digit; a blank is followed by something that is
   * not whitespace.
   */
  predicate PieceFits(p: Piece, next: seq<Piece>) {
    match p
    case Num(d, v, w) => Writable(d, v, w) && (next == [] || next[0].Space? || (next[0].Sep? && !IsDigit(next[0].c)))
    case Sep(_) => true
    case Space => next != [] && (next[0].Num? || (next[0].Sep? && !IsSpace(next[0].c)))
  }

  predicate Separated(ps: seq<Piece>)
    decreases |ps|
  {
    ps == [] || (PieceFits(ps[0], ps[1..]) && Separated(ps[1..]))
  }

  lemma PiecesCons(p: Piece, ps: seq<Piece>, m: Option<Match>)
    ensures Written([p] + ps) == PieceText(p) + Written(ps)
    ensures ItemsOf([p] + ps) == [PieceItem(p)] + ItemsOf(ps)
    ensures Captured([p] + ps, m) == if p.Num? then Capture(p.d, Pad(p.v, p.w), Captured(ps, m)) else Captured(ps, m)
    ensures Separated([p] + ps) == (PieceFits(p, ps) && Separated(ps))
  {
    assert ([p] + ps)[0] == p && ([p] + ps)[1..] == ps;
  }

  /** Written pieces start with the first piece's text, a digit for a field. */
  lemma WrittenStart(ps: seq<Piece>)
    requires ps != [] && Separated(ps)
    ensures Written(ps) != [] && Written(ps)[0] == PieceText(ps[0])[0]
    ensures ps[0].Num? ==> IsDigit(Written(ps)[0])
  {
    if ps[0].Num? {
      WritableFits(ps[0].d, ps[0].v, ps[0].w);
      PadEnds(ps[0].v, ps[0].w);
    }
  }

  /**
   * What a piece needs from the text `follow` after it and the pattern `more` after
   * its element: a field is not followed by a digit, a blank is followed by something
   * that is not whitespace.
   */
  predicate Readable1(p: Piece, follow: string, more: seq<Item>) {
    match p
    case Num(d, v, w) => Writable(d, v, w) && (follow == [] || !IsDigit(follow[0])) && NoDigitStart(more)
    case Sep(_) => true
    case Space => follow != [] && !IsSpace(follow[0])
  }

  /** One piece of the pattern read against its text. */
  lemma PieceStep(p: Piece, more: seq<Item>, s: string, pos: nat, follow: string)
    requires Readable1(p, follow, more) && pos <= |s| && s[pos..] == PieceText(p) + follow
    ensures pos + |PieceText(p)| <= |s| && s[pos + |PieceText(p)|..] == follow
    ensures MatchAt([PieceItem(p)] + more, s, pos)
            == if p.Num? then Capture(p.d, Pad(p.v, p.w), MatchAt(more, s, pos + |PieceText(p)|))
               else MatchAt(more, s, pos + |PieceText(p)|)
  {
    var items := [PieceItem(p)] + more;
    DropHead(PieceItem(p), more);
    SuffixSplit(s, pos, PieceText(p), follow);
    match p
    case Num(d, v, w) =>
      WritableFits(d, v, w);
      PadField(d, v, w, items, s, pos, follow);
    case Sep(c) =>
      assert s[pos] == s[pos..][0];
      LitStep(items, c, s, pos);
    case Space =>
      assert s[pos] == s[pos..][0] && s[pos + 1] == s[pos + 1..][0];
      BlankStep(items, s, pos);
  }

  /** A separated piece in front of more separated pieces has what it needs. */
  lemma PieceReadable(ps: seq<Piece>, rest: seq<Item>, after: string)
    requires ps != [] && Separated(ps)
    requires after == [] || !IsDigit(after[0])
    requires NoDigitStart(rest)
    ensures Readable1(ps[0], Written(ps[1..]) + after, ItemsOf(ps[1..]) + rest)
  {
    var tail := ps[1..];
    if tail != [] {
      WrittenStart(tail);
      assert (Written(tail) + after)[0] == Written(tail)[0];
      assert (ItemsOf(tail) + rest)[0] == PieceItem(tail[0]);
    } else {
      assert Written(tail) + after == after && ItemsOf(tail) + rest == rest;
    }
  }

  /** Pieces split into the first one and the rest: their text. */
  lemma WrittenHead(ps: seq<Piece>, s: string, pos: nat, after: string)
    requires ps != [] && pos <= |s| && s[pos..] == Written(ps) + after
    ensures s[pos..] == PieceText(ps[0]) + (Written(ps[1..]) + after)
    ensures |Written(ps)| == |PieceText(ps[0])| + |Written(ps[1..])|
  {
    var a, b := PieceText(ps[0]), Written(ps[1..]);
    assert Written(ps) == a + b;
    Associative(a, b, after);
  }

  lemma Associative(a: string, b: string, c: string)
    ensures (a + b) + c == a + (b + c)
  {
  }

  /** Pieces split into the first one and the rest: their pattern and their captures. */
  lemma ItemsHead(ps: seq<Piece>, rest: seq<Item>, m: Option<Match>)
    requires ps != []
    ensures ItemsOf(ps) + rest == [PieceItem(ps[0])] + (ItemsOf(ps[1..]) + rest)
    ensures Captured(ps, m) == if ps[0].Num? then Capture(ps[0].d, Pad(ps[0].v, ps[0].w), Captured(ps[1..], m))
                               else Captured(ps[1..], m)
  {
    assert ItemsOf(ps) == [PieceItem(ps[0])] + ItemsOf(ps[1..]);
  }

  /**
   * Matching the pattern of separated pieces, followed by `rest`, against their written
   * text: each field captures its digits and matching goes on with `rest` at `e`, the
   * end of the text. What follows the text is not a digit and `rest` does not start by
   * taking one.
   */
  lemma {:induction false} MatchPieces(ps: seq<Piece>, rest: seq<Item>, s: string, pos: nat, after: string,
                                       e: nat, m: Option<Match>)
    requires Separated(ps) && pos <= |s| && s[pos..] == Written(ps) + after
    requires after == [] || !IsDigit(after[0])
    requires NoDigitStart(rest)
    requires e == pos + |Written(ps)| <= |s| && MatchAt(rest, s, e) == m
    ensures MatchAt(ItemsOf(ps) + rest, s, pos) == Captured(ps, m)
    decreases |ps|
  {
    if ps == [] {
      assert ItemsOf(ps) + rest == rest;
    } else {
      var p, tail := ps[0], ps[1..];
      WrittenHead(ps, s, pos, after);
      ItemsHead(ps, rest, m);
      PieceReadable(ps, rest, after);
      PieceStep(p, ItemsOf(tail) + rest, s, pos, Written(tail) + after);
      MatchPieces(tail, rest, s, pos + |PieceText(p)|, after, e, m);
    }
  }

  /** The clock part, `H:MM`, as pieces. */
  function ClockPieces(t: DateTime, r: Rendering): seq<Piece> {
    [Num(Hour, t.hour, r.hourWidth)] + ([Sep(':')] + [Num(Minute, t.minute, r.minuteWidth)])
  }

  function YearPieces(t: DateTime, r: Rendering): seq<Piece> {
    [Num(YearDirective(r), YearShown(t, r), r.yearWidth)] + ([Sep(',')] + ([Space] + ClockPieces(t, r)))
  }

  function MonthPieces(t: DateTime, r: Rendering): seq<Piece> {
    [Num(Month, t.month, r.monthWidth)] + ([Sep(r.sep)] + YearPieces(t, r))
  }

  function StampPieces(t: DateTime, r: Rendering): seq<Piece> {
    [Num(Day, t.day, r.dayWidth)] + ([Sep(r.sep)] + MonthPieces(t, r))
  }

  lemma ClockPiecesAre(t: DateTime, r: Rendering, end: nat)
    requires Renderable(t, r)
    ensures Written(ClockPieces(t, r)) == ClockText(t, r) && ItemsOf(ClockPieces(t, r)) == Clock
    ensures Captured(ClockPieces(t, r), Some(Match(map[], end))) == ClockMatch(t, r, end)
    ensures Separated(ClockPieces(t, r))
  {
    var m := Some(Match(map[], end));
    var p2 := Num(Minute, t.minute, r.minuteWidth);
    PiecesCons(p2, [], m);
    assert Written([p2]) == Pad(t.minute, r.minuteWidth);
    PiecesCons(Sep(':'), [p2], m);
    PiecesCons(Num(Hour, t.hour, r.hourWidth), [Sep(':')] + [p2], m);
  }

  lemma YearPiecesAre(t: DateTime, r: Rendering, end: nat)
    requires Renderable(t, r)
    ensures Written(YearPieces(t, r)) == YearText(t, r) && ItemsOf(YearPieces(t, r)) == YearPart(YearDirective(r))
    ensures Captured(YearPieces(t, r), Some(Match(map[], end))) == YearMatch(t, r, end)
    ensures Separated(YearPieces(t, r))
  {
    var m := Some(Match(map[], end));
    var c := ClockPieces(t, r);
    ClockPiecesAre(t, r, end);
    PiecesCons(Space, c, m);
    PiecesCons(Sep(','), [Space] + c, m);
    RenderableFits(t, r);
    PiecesCons(Num(YearDirective(r), YearShown(t, r), r.yearWidth), [Sep(',')] + ([Space] + c), m);
  }

  lemma MonthPiecesAre(t: DateTime, r: Rendering, end: nat)
    requires Renderable(t, r)
    ensures Written(MonthPieces(t, r)) == MonthText(t, r)
    ensures ItemsOf(MonthPieces(t, r)) == MonthPart(r.sep, YearDirective(r))
    ensures Captured(MonthPieces(t, r), Some(Match(map[], end)))
            == Capture(Month, Pad(t.month, r.monthWidth), YearMatch(t, r, end))
    ensures Separated(MonthPieces(t, r))
  {
    var m := Some(Match(map[], end));
    var y := YearPieces(t, r);
    YearPiecesAre(t, r, end);
    PiecesCons(Sep(r.sep), y, m);
    PiecesCons(Num(Month, t.month, r.monthWidth), [Sep(r.sep)] + y, m);
  }

  lemma StampPiecesAre(t: DateTime, r: Rendering, end: nat)
    requires Renderable(t, r)
    ensures Written(StampPieces(t, r)) == Stamp(t, r)
    ensures ItemsOf(StampPieces(t, r)) == Layout(r.sep, YearDirective(r))
    ensures Captured(StampPieces(t, r), Some(Match(map[], end))) == StampMatch(t, r, end)
    ensures Separated(StampPieces(t, r))
  {
    var m := Some(Match(map[], end));
    var mp := MonthPieces(t, r);
    MonthPiecesAre(t, r, end);
    PiecesCons(Sep(r.sep), mp, m);
    PiecesCons(Num(Day, t.day, r.dayWidth), [Sep(r.sep)] + mp, m);
  }

  lemma CapturedNone(ps: seq<Piece>)
    ensures Captured(ps, None) == None
    decreases |ps|
  {
    if ps != [] {
      CapturedNone(ps[1..]);
    }
  }

  /** The day and month, `<d><sep><m>`, as pieces. */
  function DatePieces(t: DateTime, r: Rendering): seq<Piece> {
    [Num(Day, t.day, r.dayWidth)] + ([Sep(r.sep)] + [Num(Month, t.month, r.monthWidth)])
  }

  lemma DatePiecesAre(t: DateTime, r: Rendering)
    requires Renderable(t, r)
    ensures Written(DatePieces(t, r)) == Pad(t.day, r.dayWidth) + ([r.sep] + Pad(t.month, r.monthWidth))
    ensures ItemsOf(DatePieces(t, r)) == [Field(Day)] + ([Lit(r.sep)] + [Field(Month)])
    ensures Separated(DatePieces(t, r))
  {
    var p2 := Num(Month, t.month, r.monthWidth);
    PiecesCons(p2, [], None);
    assert Written([p2]) == Pad(t.month, r.monthWidth);
    PiecesCons(Sep(r.sep), [p2], None);
    PiecesCons(Num(Day, t.day, r.dayWidth), [Sep(r.sep)] + [p2], None);
  }

  /** The rendered timestamp and the layout cut after the month. */
  lemma AfterMonth(t: DateTime, r: Rendering, sep: char, year: Directive)
    ensures Stamp(t, r) == (Pad(t.day, r.dayWidth) + ([r.sep] + Pad(t.month, r.monthWidth))) + ([r.sep] + YearText(t, r))
    ensures Layout(sep, year) == ([Field(Day)] + ([Lit(sep)] + [Field(Month)])) + ([Lit(sep)] + YearPart(year))
  {
  }

  /** Where the first separator stands in a rendered timestamp. */
  lemma DayShape(t: DateTime, r: Rendering)
    ensures var s := Stamp(t, r);
            s[0..] == Written([Num(Day, t.day, r.dayWidth)]) + ([r.sep] + MonthText(t, r))
            && |Written([Num(Day, t.day, r.dayWidth)])| == r.dayWidth && r.dayWidth < |s| && s[r.dayWidth] == r.sep
  {
    var s := Stamp(t, r);
    var pd := Num(Day, t.day, r.dayWidth);
    PiecesCons(pd, [], None);
    assert Written([pd]) == Pad(t.day, r.dayWidth);
    SuffixSplit(s, 0, Written([pd]), [r.sep] + MonthText(t, r));
    assert s[r.dayWidth] == s[r.dayWidth..][0];
  }

  /** Where the second separator and the year stand in a rendered timestamp. */
  lemma MonthShape(t: DateTime, r: Rendering)
    requires Renderable(t, r)
    ensures var s, p := Stamp(t, r), r.dayWidth + 1 + r.monthWidth;
            s[0..] == Written(DatePieces(t, r)) + ([r.sep] + YearText(t, r))
            && |Written(DatePieces(t, r))| == p && p < |s| && s[p] == r.sep && s[p + 1..] == YearText(t, r)
  {
    var s, p := Stamp(t, r), r.dayWidth + 1 + r.monthWidth;
    var w := Written(DatePieces(t, r));
    DatePiecesAre(t, r);
    AfterMonth(t, r, r.sep, Year4);
    SuffixSplit(s, 0, w, [r.sep] + YearText(t, r));
    SuffixSplit(s, p, [r.sep], YearText(t, r));
  }

  /** Where the pattern and the time differ in separator, matching fails at the first one. */
  lemma MatchSepMismatch(t: DateTime, r: Rendering, sep: char, year: Directive)
    requires Renderable(t, r) && !IsDigit(sep) && sep != r.sep
    ensures MatchAt(Layout(sep, year), Stamp(t, r), 0) == None
  {
    var s := Stamp(t, r);
    var pd := Num(Day, t.day, r.dayWidth);
    var rest := [Lit(sep)] + MonthPart(sep, year);
    PiecesCons(pd, [], None);
    assert ItemsOf([pd]) + rest == Layout(sep, year);
    DayShape(t, r);
    MatchPieces([pd], rest, s, 0, [r.sep] + MonthText(t, r), r.dayWidth, None);
  }

  /** Where they differ in year width, matching fails at the year. */
  lemma MatchYearWidthMismatch(t: DateTime, r: Rendering, year: Directive)
    requires Renderable(t, r) && (year == Year2 || year == Year4) && year != YearDirective(r)
    ensures MatchAt(Layout(r.sep, year), Stamp(t, r), 0) == None
  {
    var s := Stamp(t, r);
    var ps := DatePieces(t, r);
    var rest := [Lit(r.sep)] + YearPart(year);
    var p := r.dayWidth + 1 + r.monthWidth;
    DatePiecesAre(t, r);
    AfterMonth(t, r, r.sep, year);
    MonthShape(t, r);
    DropHead(Lit(r.sep), YearPart(year));
    LitStep(rest, r.sep, s, p);
    MatchYearMismatch(t, r, year, s, p + 1);
    CapturedNone(ps);
    MatchPieces(ps, rest, s, 0, [r.sep] + YearText(t, r), p, None);
  }

  /**
   * Matching a layout against a rendered timestamp: it succeeds, capturing each
   * field's digits, exactly when the layout has the rendering's separator and the
   * directive for its year width.
   */
  lemma MatchStamp(t: DateTime, r: Rendering, sep: char, year: Directive)
    requires Renderable(t, r) && !IsDigit(sep) && (year == Year2 || year == Year4)
    ensures var s := Stamp(t, r);
            MatchAt(Layout(sep, year), s, 0)
            == if sep == r.sep && year == YearDirective(r) then StampMatch(t, r, |s|) else None
  {
    var s := Stamp(t, r);
    if sep != r.sep {
      MatchSepMismatch(t, r, sep, year);
    } else if year != YearDirective(r) {
      MatchYearWidthMismatch(t, r, year);
    } else {
      var ps := StampPieces(t, r);
      StampPiecesAre(t, r, |s|);
      assert s[0..] == Written(ps) + [];
      assert ItemsOf(ps) + [] == Layout(sep, year);
      MatchPieces(ps, [], s, 0, [], |s|, Some(Match(map[], |s|)));
    }
  }

  // ---------------------------------------------------------------------------
  // What `parse_timestamp` returns for a rendered timestamp

  lemma {:induction false} NumberOfDigits(text: string)
    requires AllDigits(text)
    ensures NumberValue(text) == DecimalValue(text)
    decreases |text|
  {
    if text != [] {
      NumberOfDigits(text[..|text| - 1]);
    }
  }

  /** A padded value's captured text converts back to the value. */
  lemma NumberOfPad(v: nat, w: nat)
    requires v < Pow10(w)
    ensures NumberValue(Pad(v, w)) == v
  {
    PadValue(v, w);
    NumberOfDigits(Pad(v, w));
  }

  /**
   * The time a rendering denotes once read back: a two-digit year goes through the
   * `%y` pivot; `None` when `datetime` rejects the fields.
   */
  function Reading(t: DateTime, r: Rendering): (u: Option<DateTime>)
    requires Renderable(t, r)
    ensures u.Some? ==> Valid(u.value)
  {
    var year := if r.yearWidth == 2 then Pivot(t.year % 100) else t.year;
    var u := DateTime(year, t.month, t.day, t.hour, t.minute);
    if Valid(u) then Some(u) else None
  }

  /** The texts a match of a rendered timestamp captures, keyed by directive. */
  function Groups(t: DateTime, r: Rendering): map<Directive, string>
  {
    map[Minute := Pad(t.minute, r.minuteWidth), Hour := Pad(t.hour, r.hourWidth),
        YearDirective(r) := Pad(YearShown(t, r), r.yearWidth),
        Month := Pad(t.month, r.monthWidth), Day := Pad(t.day, r.dayWidth)]
  }

  lemma StampGroups(t: DateTime, r: Rendering, end: nat)
    requires Renderable(t, r)
    ensures StampMatch(t, r, end) == Some(Match(Groups(t, r), end))
  {
    RenderableFits(t, r);
    var g0: map<Directive, string> := map[];
    var g1 := g0[Minute := Pad(t.minute, r.minuteWidth)];
    var g2 := g1[Hour := Pad(t.hour, r.hourWidth)];
    var g3 := g2[YearDirective(r) := Pad(YearShown(t, r), r.yearWidth)];
    var g4 := g3[Month := Pad(t.month, r.monthWidth)];
    var g5 := g4[Day := Pad(t.day, r.dayWidth)];
    assert ClockMatch(t, r, end) == Some(Match(g2, end));
    assert YearMatch(t, r, end) == Some(Match(g3, end));
    assert StampMatch(t, r, end) == Some(Match(g5, end));
  }

  /** `Convert` of a match that captured all five fields reads each one. */
  lemma ConvertFields(d: string, m: string, yd: Directive, y: string, h: string, n: string)
    requires yd == Year2 || yd == Year4
    ensures var year := if yd == Year2 then Pivot(NumberValue(y)) else NumberValue(y);
            var u := DateTime(year, NumberValue(m), NumberValue(d), NumberValue(h), NumberValue(n));
            Convert(map[Minute := n, Hour := h, yd := y, Month := m, Day := d])
            == if Valid(u) then Some(u) else None
  {
    var g := map[Minute := n, Hour := h, yd := y, Month := m, Day := d];
    assert Year4 in g <==> yd == Year4;
    assert Year2 in g <==> yd == Year2;
    assert g[yd] == y && g[Month] == m && g[Day] == d && g[Hour] == h && g[Minute] == n;
  }

  lemma ConvertStamp(t: DateTime, r: Rendering, end: nat)
    requires Renderable(t, r)
    ensures StampMatch(t, r, end).Some? && StampMatch(t, r, end).value.end == end
    ensures Convert(StampMatch(t, r, end).value.groups) == Reading(t, r)
  {
    RenderableFits(t, r);
    StampGroups(t, r, end);
    NumberOfPad(t.day, r.dayWidth);
    NumberOfPad(t.month, r.monthWidth);
    NumberOfPad(YearShown(t, r), r.yearWidth);
    NumberOfPad(t.hour, r.hourWidth);
    NumberOfPad(t.minute, r.minuteWidth);
    ConvertFields(Pad(t.day, r.dayWidth), Pad(t.month, r.monthWidth), YearDirective(r),
                  Pad(YearShown(t, r), r.yearWidth), Pad(t.hour, r.hourWidth), Pad(t.minute, r.minuteWidth));
  }

  /** The separator and year directive of `_TIMESTAMP_FORMATS[i]`. */
  function FormatLayout(i: nat): (char, Directive)
    requires i < 3
  {
    if i == 0 then ('.', Year4) else if i == 1 then ('/', Year4) else ('/', Year2)
  }

  lemma CompiledFormat(i: nat)
    requires i < 3
    ensures Compile(TimestampFormats[i]) == Some(Layout(FormatLayout(i).0, FormatLayout(i).1))
  {
    if i == 0 { CompiledDotted(); } else if i == 1 { CompiledSlashed(); } else { CompiledShortYear(); }
  }

  /**
   * `strptime` of a rendered timestamp with one of the three formats: the time it
   * denotes when the format has the rendering's separator and year width, else nothing.
   */
  lemma StrptimeStamp(t: DateTime, r: Rendering, i: nat)
    requires Renderable(t, r) && i < 3
    ensures Strptime(Stamp(t, r), TimestampFormats[i])
            == if FormatLayout(i) == (r.sep, YearDirective(r)) then Reading(t, r) else None
  {
    var (sep, year) := FormatLayout(i);
    CompiledFormat(i);
    MatchStamp(t, r, sep, year);
    ConvertStamp(t, r, |Stamp(t, r)|);
  }

  /** `parse_timestamp` gives up exactly when no format parses the text. */
  lemma {:induction false} FirstParseNone(s: string, formats: seq<string>)
    ensures FirstParse(s, formats) == None <==> forall i :: 0 <= i < |formats| ==> Strptime(s, formats[i]) == None
    decreases |formats|
  {
    if formats != [] {
      FirstParseNone(s, formats[1..]);
      assert forall i :: 1 <= i < |formats| ==> formats[1..][i - 1] == formats[i];
    }
  }

  /** The first format that parses decides the result; later ones are never consulted. */
  lemma {:induction false} FirstParseFirst(s: string, formats: seq<string>, i: nat)
    requires i < |formats| && Strptime(s, formats[i]).Some?
    requires forall j :: 0 <= j < i ==> Strptime(s, formats[j]) == None
    ensures FirstParse(s, formats) == Strptime(s, formats[i])
    decreases i
  {
    if i > 0 {
      assert forall j :: 0 <= j < i - 1 ==> formats[1..][j] == formats[j + 1];
      FirstParseFirst(s, formats[1..], i - 1);
    }
  }

  /** `s` ends with a digit. */
  predicate EndsInDigit(s: string) {
    s != [] && IsDigit(s[|s| - 1])
  }

  lemma EndsInDigitAfter(a: string, b: string)
    requires EndsInDigit(b)
    ensures EndsInDigit(a + b)
  {
    assert (a + b)[|a + b| - 1] == b[|b| - 1];
  }

  lemma PadEnds(v: nat, w: nat)
    requires v < Pow10(w) && 1 <= w
    ensures |Pad(v, w)| == w && IsDigit(Pad(v, w)[0]) && EndsInDigit(Pad(v, w))
  {
    PadValue(v, w);
  }

  lemma ClockTextLast(t: DateTime, r: Rendering)
    requires Renderable(t, r)
    ensures EndsInDigit(ClockText(t, r))
  {
    RenderableFits(t, r);
    var n := Pad(t.minute, r.minuteWidth);
    PadEnds(t.minute, r.minuteWidth);
    EndsInDigitAfter([':'], n);
    EndsInDigitAfter(Pad(t.hour, r.hourWidth), [':'] + n);
  }

  lemma YearTextLast(t: DateTime, r: Rendering)
    requires Renderable(t, r)
    ensures EndsInDigit(YearText(t, r))
  {
    var c := ClockText(t, r);
    ClockTextLast(t, r);
    EndsInDigitAfter([' '], c);
    EndsInDigitAfter([','], [' '] + c);
    EndsInDigitAfter(Pad(YearShown(t, r), r.yearWidth), [','] + ([' '] + c));
  }

  lemma MonthTextLast(t: DateTime, r: Rendering)
    requires Renderable(t, r)
    ensures EndsInDigit(MonthText(t, r))
  {
    var y := YearText(t, r);
    YearTextLast(t, r);
    EndsInDigitAfter([r.sep], y);
    EndsInDigitAfter(Pad(t.month, r.monthWidth), [r.sep] + y);
  }

  lemma StampLast(t: DateTime, r: Rendering)
    requires Renderable(t, r)
    ensures EndsInDigit(Stamp(t, r))
  {
    var m := MonthText(t, r);
    MonthTextLast(t, r);
    EndsInDigitAfter([r.sep], m);
    EndsInDigitAfter(Pad(t.day, r.dayWidth), [r.sep] + m);
  }

  lemma PadHasNoDash(v: nat, w: nat)
    requires v < Pow10(w)
    ensures '-' !in Pad(v, w)
  {
    PadValue(v, w);
  }

  /** A rendered timestamp holds no `-` (unless that is its separator). */
  lemma StampHasNoDash(t: DateTime, r: Rendering)
    requires Renderable(t, r) && r.sep != '-'
    ensures '-' !in Stamp(t, r)
  {
    RenderableFits(t, r);
    PadHasNoDash(t.hour, r.hourWidth);
    PadHasNoDash(t.minute, r.minuteWidth);
    assert '-' !in ClockText(t, r);
    PadHasNoDash(YearShown(t, r), r.yearWidth);
    assert '-' !in YearText(t, r);
    PadHasNoDash(t.month, r.monthWidth);
    assert '-' !in MonthText(t, r);
    PadHasNoDash(t.day, r.dayWidth);
  }

  /** A rendered timestamp starts and ends with a digit, so `strip` leaves it alone. */
  lemma StampTrimmed(t: DateTime, r: Rendering)
    requires Renderable(t, r)
    ensures Strip(Stamp(t, r)) == Stamp(t, r)
  {
    RenderableFits(t, r);
    var s := Stamp(t, r);
    PadEnds(t.day, r.dayWidth);
    assert s[0] == Pad(t.day, r.dayWidth)[0];
    StampLast(t, r);
    assert Trimmed(s);
    assert [] + s + [] == s;
    StripUnique([], s, []);
  }

  /** A rendering some format reads: slashes with either year width, or dots with four digits. */
  predicate Readable(r: Rendering) {
    r.sep == '/' || (r.sep == '.' && r.yearWidth == 4)
  }

  /** The three formats tried in order on a rendered timestamp. */
  lemma FirstParseStamp(t: DateTime, r: Rendering)
    requires Renderable(t, r)
    ensures FirstParse(Stamp(t, r), TimestampFormats)
            == if Readable(r) then Reading(t, r) else None
  {
    var s := Stamp(t, r);
    StrptimeStamp(t, r, 0);
    StrptimeStamp(t, r, 1);
    StrptimeStamp(t, r, 2);
    var fits := if r.sep == '.' && r.yearWidth == 4 then 0 else if r.yearWidth == 4 then 1 else 2;
    if Readable(r) && Reading(t, r).Some? {
      FirstParseFirst(s, TimestampFormats, fits);
    } else {
      FirstParseNone(s, TimestampFormats);
    }
  }

  /**
   * `parse_timestamp` of a rendered timestamp: the time it denotes when some format
   * reads the rendering and `datetime` accepts the fields, and otherwise the
   * `ValueError` naming the text.
   */
  lemma ParseStamp(t: DateTime, r: Rendering)
    requires Renderable(t, r)
    ensures ParseTimestamp(Stamp(t, r))
            == if Readable(r) && Reading(t, r).Some? then Ok(Reading(t, r).value)
               else Err("Unrecognized timestamp format: " + Stamp(t, r))
  {
    StampTrimmed(t, r);
    FirstParseStamp(t, r);
  }

  /** A four-digit year with dots or slashes reads back as the very time written. */
  lemma FourDigitYearRoundTrip(t: DateTime, r: Rendering)
    requires Renderable(t, r) && Valid(t) && r.yearWidth == 4 && (r.sep == '.' || r.sep == '/')
    ensures ParseTimestamp(Stamp(t, r)) == Ok(t)
  {
    ParseStamp(t, r);
  }

  /** The pivot gives back a year from its last two digits exactly for 1969 to 2068. */
  lemma PivotExact(y: int)
    requires 0 <= y
    ensures Pivot(y % 100) == y <==> 1969 <= y <= 2068
  {
    var yy := y % 100;
    assert 1969 <= Pivot(yy) <= 2068;
    if 1969 <= y < 2000 {
      assert yy == y - 1900;
    } else if 2000 <= y <= 2068 {
      assert yy == y - 2000;
    }
  }

  /** A two-digit year reads back as the time written exactly for the years 1969 to 2068. */
  lemma TwoDigitYearRoundTrip(t: DateTime, r: Rendering)
    requires Renderable(t, r) && Valid(t) && r.yearWidth == 2 && r.sep == '/'
    ensures ParseTimestamp(Stamp(t, r)) == Ok(t) <==> 1969 <= t.year <= 2068
  {
    ParseStamp(t, r);
    PivotExact(t.year);
    if 1969 <= t.year <= 2068 {
      assert Reading(t, r) == Some(t);
    }
  }

  /** Dots with a two-digit year match no format. */
  lemma DottedTwoDigitYearRejected(t: DateTime, r: Rendering)
    requires Renderable(t, r) && r.sep == '.' && r.yearWidth == 2
    ensures ParseTimestamp(Stamp(t, r)).Err?
  {
    ParseStamp(t, r);
  }

  /** Whitespace around the text never changes what `parse_timestamp` reads. */
  lemma ParseIgnoresSurroundingSpace(a: string, text: string, b: string)
    requires AllSpace(a) && AllSpace(b)
    ensures ParseTimestamp(a + text + b).Ok? == ParseTimestamp(text).Ok?
    ensures ParseTimestamp(text).Ok? ==> ParseTimestamp(a + text + b) == ParseTimestamp(text)
  {
    StripAround(a, text, b);
  }

  /** A rendered timestamp assembled from the texts of its fields. */
  lemma StampSpelled(t: DateTime, r: Rendering, d: string, m: string, y: string, h: string, n: string)
    requires Renderable(t, r)
    requires Pad(t.day, r.dayWidth) == d && Pad(t.month, r.monthWidth) == m
    requires Pad(YearShown(t, r), r.yearWidth) == y
    requires Pad(t.hour, r.hourWidth) == h && Pad(t.minute, r.minuteWidth) == n
    ensures Stamp(t, r) == d + ([r.sep] + (m + ([r.sep] + (y + ([','] + ([' '] + (h + ([':'] + n))))))))
  {
  }

  lemma TextShortYear(t: DateTime, r: Rendering)
    requires t == DateTime(2020, 2, 1, 10, 0) && r == Rendering('/', 2, 2, 2, 2, 2)
    ensures Renderable(t, r) && Stamp(t, r) == "01/02/20, 10:00"
  {
    Pad2(1);
    Pad2(2);
    Pad2(20);
    Pad2(10);
    Pad2(0);
    StampSpelled(t, r, "01", "02", "20", "10", "00");
    SpelledShortYear();
  }

  lemma SpelledShortYear()
    ensures "01" + (['/'] + ("02" + (['/'] + ("20" + ([','] + ([' '] + ("10" + ([':'] + "00")))))))) == "01/02/20, 10:00"
  {
  }

  lemma TextUnpadded(t: DateTime, r: Rendering)
    requires t == DateTime(2021, 3, 5, 7, 8) && r == Rendering('.', 1, 1, 4, 1, 2)
    ensures Renderable(t, r) && Stamp(t, r) == "5.3.2021, 7:08"
  {
    Pad1(5);
    Pad1(3);
    Pad4(2021);
    Pad1(7);
    Pad2(8);
    StampSpelled(t, r, "5", "3", "2021", "7", "08");
    SpelledUnpadded();
  }

  lemma SpelledUnpadded()
    ensures "5" + (['.'] + ("3" + (['.'] + ("2021" + ([','] + ([' '] + ("7" + ([':'] + "08")))))))) == "5.3.2021, 7:08"
  {
  }

  lemma TextImpossibleDate(t: DateTime, r: Rendering)
    requires t == DateTime(2020, 2, 31, 10, 0) && r == Rendering('/', 2, 2, 4, 2, 2)
    ensures Renderable(t, r) && Stamp(t, r) == "31/02/2020, 10:00"
  {
    Pad2(31);
    Pad2(2);
    Pad4(2020);
    Pad2(10);
    Pad2(0);
    StampSpelled(t, r, "31", "02", "2020", "10", "00");
    SpelledImpossibleDate();
  }

  lemma SpelledImpossibleDate()
    ensures "31" + (['/'] + ("02" + (['/'] + ("2020" + ([','] + ([' '] + ("10" + ([':'] + "00")))))))) == "31/02/2020, 10:00"
  {
  }

  lemma ParseExampleShortYear(text: string)
    requires text == "01/02/20, 10:00"
    ensures ParseTimestamp(text) == Ok(DateTime(2020, 2, 1, 10, 0))
  {
    var t, r := DateTime(2020, 2, 1, 10, 0), Rendering('/', 2, 2, 2, 2, 2);
    TextShortYear(t, r);
    assert Reading(t, r) == Some(t);
    ParseStamp(t, r);
  }

  lemma ParseExampleUnpadded(text: string)
    requires text == "5.3.2021, 7:08"
    ensures ParseTimestamp(text) == Ok(DateTime(2021, 3, 5, 7, 8))
  {
    var t, r := DateTime(2021, 3, 5, 7, 8), Rendering('.', 1, 1, 4, 1, 2);
    TextUnpadded(t, r);
    assert Valid(t);
    FourDigitYearRoundTrip(t, r);
  }

  lemma ParseExampleImpossibleDate(text: string)
    requires text == "31/02/2020, 10:00"
    ensures ParseTimestamp(text).Err?
  {
    var t, r := DateTime(2020, 2, 31, 10, 0), Rendering('/', 2, 2, 4, 2, 2);
    TextImpossibleDate(t, r);
    assert Reading(t, r) == None;
    ParseStamp(t, r);
  }
}
