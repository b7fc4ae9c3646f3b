/**
 * `datetime.strptime(text, "%Y%m%d%H%M%S")` as Python's `_strptime` carries
 * it out. The format becomes one regular expression, a concatenation of one
 * group per directive; each group is an ordered alternation of fixed-width
 * character patterns. The expression is matched from the start of the text
 * with backtracking and no end anchor, so the first match in depth-first,
 * left-to-right alternative order wins. Text left after that match is an
 * error ("unconverted data remains"), and so is a date `datetime` refuses
 * (year 0, 30 February, second 60 or 61).
 */
module Strptime {
  import opened Wrappers
  import opened Calendar

  /** One character position of a pattern: a literal or an inclusive range. */
  datatype CharClass = Exactly(c: char) | Between(lo: char, hi: char)

  /** One alternative of a directive: a fixed sequence of character classes. */
  type Alternative = seq<CharClass>

  /** A directive is its alternatives, tried in order. */
  type Directive = seq<Alternative>

  const Digit: CharClass := Between('0', '9')

  /** `%Y`: `\d\d\d\d` */
  const YearDirective: Directive := [[Digit, Digit, Digit, Digit]]
  /** `%m`: `1[0-2]|0[1-9]|[1-9]` */
  const MonthDirective: Directive :=
    [[Exactly('1'), Between('0', '2')], [Exactly('0'), Between('1', '9')], [Between('1', '9')]]
  /** `%d`: `3[0-1]|[1-2]\d|0[1-9]|[1-9]| [1-9]` */
  const DayDirective: Directive :=
    [[Exactly('3'), Between('0', '1')], [Between('1', '2'), Digit], [Exactly('0'), Between('1', '9')],
     [Between('1', '9')], [Exactly(' '), Between('1', '9')]]
  /** `%H`: `2[0-3]|[0-1]\d|\d` */
  const HourDirective: Directive := [[Exactly('2'), Between('0', '3')], [Between('0', '1'), Digit], [Digit]]
  /** `%M`: `[0-5]\d|\d` */
  const MinuteDirective: Directive := [[Between('0', '5'), Digit], [Digit]]
  /** `%S`: `6[0-1]|[0-5]\d|\d` */
  const SecondDirective: Directive := [[Exactly('6'), Between('0', '1')], [Between('0', '5'), Digit], [Digit]]

  /** The format `%Y%m%d%H%M%S`, directive by directive. */
  const CreationFormat: seq<Directive> :=
    [YearDirective, MonthDirective, DayDirective, HourDirective, MinuteDirective, SecondDirective]

  predicate ClassMatches(k: CharClass, c: char) {
    match k
    case Exactly(x) => c == x
    case Between(lo, hi) => lo <= c <= hi
  }

  /** Does `alt` match the text at `pos`? */
  predicate AlternativeMatchesAt(alt: Alternative, s: string, pos: nat) {
    pos + |alt| <= |s| && forall j :: 0 <= j < |alt| ==> ClassMatches(alt[j], s[pos + j])
  }

  function DigitValue(c: char): nat {
    if '0' <= c <= '9' then (c - '0') as nat else 0
  }

  /** `int()` of a matched group; the only non-digit a group can hold is the leading blank of `%d`. */
  function GroupValue(t: string): nat {
    if |t| == 0 then 0 else GroupValue(t[..|t| - 1]) * 10 + DigitValue(t[|t| - 1])
  }

  /** A successful match: one value per directive, and where the match ended. */
  datatype Match = Match(values: seq<nat>, end: nat)

  /** Match the directives `ds` in sequence from `pos`; the first match in backtracking order. */
  function MatchDirectives(ds: seq<Directive>, s: string, pos: nat): (r: Option<Match>)
    requires pos <= |s|
    ensures r.Some? ==> |r.value.values| == |ds| && pos <= r.value.end <= |s|
    decreases |ds|, 1, 0
  {
    if |ds| == 0 then Some(Match([], pos)) else TryAlternatives(ds, 0, s, pos)
  }

  /** Try the alternatives of `ds[0]` from the `k`-th on, backtracking into the next one when the rest fails. */
  function TryAlternatives(ds: seq<Directive>, k: nat, s: string, pos: nat): (r: Option<Match>)
    requires |ds| > 0 && pos <= |s|
    ensures r.Some? ==> |r.value.values| == |ds| && pos <= r.value.end <= |s|
    decreases |ds|, 0, |ds[0]| - k
  {
    if k >= |ds[0]| then None
    else
      var alt := ds[0][k];
      if AlternativeMatchesAt(alt, s, pos) then
        match MatchDirectives(ds[1..], s, pos + |alt|)
        case Some(rest) => Some(Match([GroupValue(s[pos..pos + |alt|])] + rest.values, rest.end))
        case None => TryAlternatives(ds, k + 1, s, pos)
      else TryAlternatives(ds, k + 1, s, pos)
  }

  /**
   * `datetime.strptime(s, "%Y%m%d%H%M%S")`: `None` wherever Python raises
   * `ValueError` (no match, unconverted data, a date `datetime` refuses).
   */
  function ParseDateTime(s: string): (r: Option<DateTime>)
    ensures r.Some? ==> ValidDateTime(r.value)
  {
    match MatchDirectives(CreationFormat, s, 0)
    case None => None
    case Some(m) =>
      if m.end != |s| then None
      else
        var v := m.values;
        var t := DateTime(v[0], v[1], v[2], v[3], v[4], v[5]);
        if ValidDateTime(t) then Some(t) else None
  }

  function DigitChar(n: nat): (c: char)
    requires n < 10
    ensures '0' <= c <= '9' && DigitValue(c) == n
  {
    ('0' as int + n) as char
  }

  function Pow10(w: nat): (p: nat)
    ensures p >= 1
  {
    if w == 0 then 1 else 10 * Pow10(w - 1)
  }

  /** The `w` least significant decimal digits of `n`, zero padded. */
  function Digits(n: nat, w: nat): (r: string)
    ensures |r| == w
    ensures forall j :: 0 <= j < w ==> '0' <= r[j] <= '9'
  {
    if w == 0 then [] else Digits(n / 10, w - 1) + [DigitChar(n % 10)]
  }

  /** The `yyyymmddHHMMSS` text WMI writes ahead of the fractional part of a CreationDate. */
  function FormatDateTime(t: DateTime): (r: string)
    requires ValidDateTime(t)
    ensures |r| == 14
    ensures forall j :: 0 <= j < |r| ==> '0' <= r[j] <= '9'
  {
    Digits(t.year, 4) + Digits(t.month, 2) + Digits(t.day, 2)
      + Digits(t.hour, 2) + Digits(t.minute, 2) + Digits(t.second, 2)
  }

  /** Reading back `w` padded digits gives the number, when it fits in `w` digits. */
  lemma {:induction false} DigitsValue(n: nat, w: nat)
    requires n < Pow10(w)
    ensures GroupValue(Digits(n, w)) == n
  {
    if w > 0 {
      DigitsValue(n / 10, w - 1);
      var d := Digits(n, w);
      assert d[..|d| - 1] == Digits(n / 10, w - 1);
    }
  }

  /**
   * When the alternatives before the `k`-th do not match at `pos`, the `k`-th
   * does, and the remaining directives match after it, that is the match.
   */
  lemma {:induction false} FirstMatchingAlternative(ds: seq<Directive>, k: nat, s: string, pos: nat, rest: Match)
    requires |ds| > 0 && k < |ds[0]| && pos <= |s|
    requires forall j :: 0 <= j < k ==> !AlternativeMatchesAt(ds[0][j], s, pos)
    requires AlternativeMatchesAt(ds[0][k], s, pos)
    requires MatchDirectives(ds[1..], s, pos + |ds[0][k]|) == Some(rest)
    ensures TryAlternatives(ds, 0, s, pos)
         == Some(Match([GroupValue(s[pos..pos + |ds[0][k]|])] + rest.values, rest.end))
  {
    var j := k;
    while j > 0
      invariant 0 <= j <= k
      invariant TryAlternatives(ds, j, s, pos) == TryAlternatives(ds, k, s, pos)
    {
      j := j - 1;
    }
  }

  /** Width of the zero-padded text WMI writes for the `i`-th field. */
  function FieldWidth(i: nat): nat {
    if i == 0 then 4 else 2
  }

  /** The range of the `i`-th field of a valid date and time. */
  predicate FieldInRange(i: nat, v: nat) {
    if i == 0 then 1 <= v <= 9999
    else if i == 1 then 1 <= v <= 12
    else if i == 2 then 1 <= v <= 31
    else if i == 3 then v <= 23
    else 4 <= i <= 5 && v <= 59
  }

  lemma {:induction false} TwoDigits(v: nat)
    requires v < 100
    ensures Digits(v, 2) == [DigitChar(v / 10), DigitChar(v % 10)]
  {
    var hi := v / 10;
    assert hi < 10 && hi % 10 == hi && hi / 10 == 0;
    assert Digits(hi, 1) == Digits(0, 0) + [DigitChar(hi)];
    assert Digits(v, 2) == Digits(hi, 1) + [DigitChar(v % 10)];
  }


  /** The two characters at `pos` that spell `v`. */
  lemma {:induction false} TwoDigitsAt(v: nat, s: string, pos: nat)
    requires v < 100 && pos + 2 <= |s| && s[pos..pos + 2] == Digits(v, 2)
    ensures s[pos] == DigitChar(v / 10) && s[pos + 1] == DigitChar(v % 10)
  {
    TwoDigits(v);
    assert s[pos] == s[pos..pos + 2][0];
    assert s[pos + 1] == s[pos..pos + 2][1];
  }

  /** Alternative `k` of `d` matches two characters at `pos`, and every earlier one fails on the first. */
  lemma PickAlternative(d: Directive, k: nat, s: string, pos: nat)
    requires pos + 2 <= |s| && k < |d| && |d[k]| == 2
    requires ClassMatches(d[k][0], s[pos]) && ClassMatches(d[k][1], s[pos + 1])
    requires forall j :: 0 <= j < k ==> |d[j]| > 0 && !ClassMatches(d[j][0], s[pos])
    ensures AlternativeMatchesAt(d[k], s, pos)
    ensures forall j :: 0 <= j < k ==> !AlternativeMatchesAt(d[j], s, pos)
  {
  }

  /**
   * The zero-padded text of an in-range field is matched first by a
   * full-width alternative of its directive: no shorter alternative is
   * tried, so the next directive starts right after the field.
   */
  lemma {:induction false} CanonicalAlternative(i: nat, v: nat, s: string, pos: nat) returns (k: nat)
    requires i < 6 && FieldInRange(i, v)
    requires pos + FieldWidth(i) <= |s| && s[pos..pos + FieldWidth(i)] == Digits(v, FieldWidth(i))
    ensures k < |CreationFormat[i]| && |CreationFormat[i][k]| == FieldWidth(i)
    ensures AlternativeMatchesAt(CreationFormat[i][k], s, pos)
    ensures forall j :: 0 <= j < k ==> !AlternativeMatchesAt(CreationFormat[i][j], s, pos)
  {
    if i == 0 {
      k := 0;
      var t := Digits(v, 4);
      assert forall j :: 0 <= j < 4 ==> s[pos + j] == t[j];
      assert AlternativeMatchesAt(YearDirective[0], s, pos);
    } else if i <= 2 {
      k := DateAlternative(i, v, s, pos);
    } else {
      k := TimeAlternative(i, v, s, pos);
    }
  }

  /** The alternative that reads a two-digit month or day. */
  lemma {:induction false} DateAlternative(i: nat, v: nat, s: string, pos: nat) returns (k: nat)
    requires 1 <= i <= 2 && FieldInRange(i, v)
    requires pos + 2 <= |s| && s[pos..pos + 2] == Digits(v, 2)
    ensures k < |CreationFormat[i]| && |CreationFormat[i][k]| == 2
    ensures AlternativeMatchesAt(CreationFormat[i][k], s, pos)
    ensures forall j :: 0 <= j < k ==> !AlternativeMatchesAt(CreationFormat[i][j], s, pos)
  {
    TwoDigitsAt(v, s, pos);
    if i == 1 {
      k := if v >= 10 then 0 else 1;
      PickAlternative(MonthDirective, k, s, pos);
    } else {
      k := if v >= 30 then 0 else if v >= 10 then 1 else 2;
      PickAlternative(DayDirective, k, s, pos);
    }
  }

  /** The alternative that reads a two-digit hour, minute or second. */
  lemma {:induction false} TimeAlternative(i: nat, v: nat, s: string, pos: nat) returns (k: nat)
    requires 3 <= i <= 5 && FieldInRange(i, v)
    requires pos + 2 <= |s| && s[pos..pos + 2] == Digits(v, 2)
    ensures k < |CreationFormat[i]| && |CreationFormat[i][k]| == 2
    ensures AlternativeMatchesAt(CreationFormat[i][k], s, pos)
    ensures forall j :: 0 <= j < k ==> !AlternativeMatchesAt(CreationFormat[i][j], s, pos)
  {
    TwoDigitsAt(v, s, pos);
    if i == 3 {
      k := if v >= 20 then 0 else 1;
      PickAlternative(HourDirective, k, s, pos);
    } else if i == 4 {
      k := 0;
      PickAlternative(MinuteDirective, k, s, pos);
    } else {
      k := 1;
      PickAlternative(SecondDirective, k, s, pos);
    }
  }


  /** One directive reads an in-range zero-padded field and hands the rest of the text on. */
  lemma {:induction false} ReadField(i: nat, v: nat, s: string, pos: nat, rest: Match)
    requires i < 6 && FieldInRange(i, v)
    requires pos + FieldWidth(i) <= |s| && s[pos..pos + FieldWidth(i)] == Digits(v, FieldWidth(i))
    requires MatchDirectives(CreationFormat[i + 1..], s, pos + FieldWidth(i)) == Some(rest)
    ensures MatchDirectives(CreationFormat[i..], s, pos) == Some(Match([v] + rest.values, rest.end))
  {
    var ds := CreationFormat[i..];
    var k := CanonicalAlternative(i, v, s, pos);
    assert ds[0] == CreationFormat[i] && ds[1..] == CreationFormat[i + 1..];
    FirstMatchingAlternative(ds, k, s, pos, rest);
    assert Pow10(4) == 10000;
    DigitsValue(v, FieldWidth(i));
  }

  /** Where each field sits in the formatted text. */
  lemma FormattedFields(t: DateTime)
    requires ValidDateTime(t)
    ensures var s := FormatDateTime(t);
      && s[0..4] == Digits(t.year, 4) && s[4..6] == Digits(t.month, 2) && s[6..8] == Digits(t.day, 2)
      && s[8..10] == Digits(t.hour, 2) && s[10..12] == Digits(t.minute, 2) && s[12..14] == Digits(t.second, 2)
  {
    var y, mo, d, h, mi, se := Digits(t.year, 4), Digits(t.month, 2), Digits(t.day, 2),
      Digits(t.hour, 2), Digits(t.minute, 2), Digits(t.second, 2);
    var s := FormatDateTime(t);
    assert s == y + mo + d + h + mi + se;
    assert (y + mo + d + h + mi + se)[12..14] == se;
    assert (y + mo + d + h + mi + se)[..12] == y + mo + d + h + mi;
    assert (y + mo + d + h + mi)[10..12] == mi;
    assert (y + mo + d + h + mi)[..10] == y + mo + d + h;
    assert (y + mo + d + h)[8..10] == h;
    assert (y + mo + d + h)[..8] == y + mo + d;
    assert (y + mo + d)[6..8] == d;
    assert (y + mo + d)[..6] == y + mo;
    assert (y + mo)[4..6] == mo;
    assert (y + mo)[0..4] == y;
  }

  /** The fields of a date and time in format order. */
  function Fields(t: DateTime): seq<nat>
    requires ValidDateTime(t)
  {
    [t.year, t.month, t.day, t.hour, t.minute, t.second]
  }

  /** Where the `i`-th field starts in the formatted text. */
  function FieldOffset(i: nat): nat {
    if i == 0 then 0 else 2 + 2 * i
  }

  /** `s` spells the six fields `fs` in the creation format, each in range. */
  predicate SpellsFields(s: string, fs: seq<nat>) {
    && |fs| == 6 && |s| == 14
    && forall j :: 0 <= j < 6 ==>
         FieldInRange(j, fs[j]) && s[FieldOffset(j)..FieldOffset(j) + FieldWidth(j)] == Digits(fs[j], FieldWidth(j))
  }

  /** The formatted text of a valid date and time spells its fields. */
  lemma {:induction false} FormattedSpellsFields(t: DateTime)
    requires ValidDateTime(t)
    ensures SpellsFields(FormatDateTime(t), Fields(t))
  {
    var s, fs := FormatDateTime(t), Fields(t);
    FormattedFields(t);
    forall j | 0 <= j < 6
      ensures FieldInRange(j, fs[j]) && s[FieldOffset(j)..FieldOffset(j) + FieldWidth(j)] == Digits(fs[j], FieldWidth(j))
    {
      if j == 0 {
        assert s[0..4] == Digits(t.year, 4);
      } else if j == 1 {
        assert s[4..6] == Digits(t.month, 2);
      } else if j == 2 {
        assert s[6..8] == Digits(t.day, 2);
      } else if j == 3 {
        assert s[8..10] == Digits(t.hour, 2);
      } else if j == 4 {
        assert s[10..12] == Digits(t.minute, 2);
      } else {
        assert s[12..14] == Digits(t.second, 2);
      }
    }
  }

  /** The directives from the `i`-th on read the fields from the `i`-th on. */
  lemma {:induction false} MatchFieldsFrom(s: string, fs: seq<nat>, i: nat)
    requires SpellsFields(s, fs) && i <= 6
    ensures MatchDirectives(CreationFormat[i..], s, FieldOffset(i)) == Some(Match(fs[i..], 14))
    decreases 6 - i
  {
    if i == 6 {
      assert CreationFormat[6..] == [];
      assert fs[6..] == [];
    } else {
      MatchFieldsFrom(s, fs, i + 1);
      MatchFieldStep(s, fs, i);
    }
  }

  /** One field more: the `i`-th directive reads the `i`-th field, and the rest reads on from there. */
  lemma {:induction false} MatchFieldStep(s: string, fs: seq<nat>, i: nat)
    requires SpellsFields(s, fs) && i < 6
    requires MatchDirectives(CreationFormat[i + 1..], s, FieldOffset(i + 1)) == Some(Match(fs[i + 1..], 14))
    ensures MatchDirectives(CreationFormat[i..], s, FieldOffset(i)) == Some(Match(fs[i..], 14))
  {
    assert FieldOffset(i + 1) == FieldOffset(i) + FieldWidth(i);
    assert FieldInRange(i, fs[i]) && s[FieldOffset(i)..FieldOffset(i) + FieldWidth(i)] == Digits(fs[i], FieldWidth(i));
    ReadField(i, fs[i], s, FieldOffset(i), Match(fs[i + 1..], 14));
    ConsSlice(fs, i);
  }

  lemma {:induction false} ConsSlice(fs: seq<nat>, i: nat)
    requires i < |fs|
    ensures [fs[i]] + fs[i + 1..] == fs[i..]
  {
    assert fs[i..][0] == fs[i] && fs[i..][1..] == fs[i + 1..];
  }

  /**
   * Round trip: the 14-digit text of a valid date and time parses back to
   * that date and time.
   */
  lemma {:induction false} ParseFormatted(t: DateTime)
    requires ValidDateTime(t)
    ensures ParseDateTime(FormatDateTime(t)) == Some(t)
  {
    FormattedSpellsFields(t);
    MatchFieldsFrom(FormatDateTime(t), Fields(t), 0);
    assert CreationFormat[0..] == CreationFormat;
  }

  /** Every alternative of the `i`-th directive is one to `FieldWidth(i)` characters wide. */
  lemma AlternativeWidths(i: nat, k: nat)
    requires i < 6 && k < |CreationFormat[i]|
    ensures 1 <= |CreationFormat[i][k]| <= FieldWidth(i)
  {
  }

  /** The alternative a successful `TryAlternatives` took, and the match of the directives after it. */
  lemma {:induction false} ChosenAlternative(ds: seq<Directive>, k: nat, s: string, pos: nat) returns (k': nat, rest: Match)
    requires |ds| > 0 && pos <= |s| && TryAlternatives(ds, k, s, pos).Some?
    ensures k <= k' < |ds[0]| && AlternativeMatchesAt(ds[0][k'], s, pos)
    ensures MatchDirectives(ds[1..], s, pos + |ds[0][k']|) == Some(rest)
    ensures TryAlternatives(ds, k, s, pos) == Some(Match([GroupValue(s[pos..pos + |ds[0][k']|])] + rest.values, rest.end))
    decreases |ds[0]| - k
  {
    var alt := ds[0][k];
    if AlternativeMatchesAt(alt, s, pos) && MatchDirectives(ds[1..], s, pos + |alt|).Some? {
      k', rest := k, MatchDirectives(ds[1..], s, pos + |alt|).value;
    } else {
      k', rest := ChosenAlternative(ds, k + 1, s, pos);
    }
  }

  /** A successful match reads its first group with some alternative and matches the rest after it. */
  lemma {:induction false} FirstGroup(ds: seq<Directive>, s: string, pos: nat) returns (k: nat, w: nat, rest: Match)
    requires |ds| > 0 && pos <= |s| && MatchDirectives(ds, s, pos).Some?
    ensures k < |ds[0]| && |ds[0][k]| == w
    ensures pos + w <= |s| && MatchDirectives(ds[1..], s, pos + w) == Some(rest)
    ensures MatchDirectives(ds, s, pos) == Some(Match([GroupValue(s[pos..pos + w])] + rest.values, rest.end))
  {
    k, rest := ChosenAlternative(ds, 0, s, pos);
    w := |ds[0][k]|;
  }

  /** No alternative of the `i`-th directive is wider than `ws[i]`. */
  predicate WidthsBound(ds: seq<Directive>, ws: seq<nat>) {
    |ds| == |ws| && forall i, k :: 0 <= i < |ds| && 0 <= k < |ds[i]| ==> |ds[i][k]| <= ws[i]
  }

  /** The bound on the first directive, and the bounds on the rest. */
  lemma WidthsBoundCons(ds: seq<Directive>, ws: seq<nat>, k: nat)
    requires WidthsBound(ds, ws) && |ds| > 0 && k < |ds[0]|
    ensures |ds[0][k]| <= ws[0] && WidthsBound(ds[1..], ws[1..])
  {
    forall i, k' | 0 <= i < |ds| - 1 && 0 <= k' < |ds[1..][i]| ensures |ds[1..][i][k']| <= ws[1..][i] {
      assert ds[1..][i] == ds[i + 1];
    }
  }

  function SumWidths(ws: seq<nat>): nat {
    if |ws| == 0 then 0 else ws[0] + SumWidths(ws[1..])
  }

  /** The values of consecutive groups of widths `ws` from `pos`. */
  function Groups(s: string, pos: nat, ws: seq<nat>): (r: seq<nat>)
    requires pos + SumWidths(ws) <= |s|
    ensures |r| == |ws|
    decreases |ws|
  {
    if |ws| == 0 then [] else [GroupValue(s[pos..pos + ws[0]])] + Groups(s, pos + ws[0], ws[1..])
  }

  /** The zero-padded width of each field of the creation format. */
  const FieldWidths: seq<nat> := [4, 2, 2, 2, 2, 2]

  lemma CreationFormatWidths()
    ensures WidthsBound(CreationFormat, FieldWidths) && SumWidths(FieldWidths) == 14
  {
    forall i, k | 0 <= i < 6 && 0 <= k < |CreationFormat[i]| ensures |CreationFormat[i][k]| <= FieldWidths[i] {
      AlternativeWidths(i, k);
    }
  }

  /** A match spans at most the widths that bound its directives. */
  lemma {:induction false} MatchWithinWidths(ds: seq<Directive>, ws: seq<nat>, s: string, pos: nat)
    requires WidthsBound(ds, ws) && pos <= |s| && MatchDirectives(ds, s, pos).Some?
    ensures MatchDirectives(ds, s, pos).value.end <= pos + SumWidths(ws)
  {
    if |ds| > 0 {
      var k, w, rest := FirstGroup(ds, s, pos);
      WidthsBoundCons(ds, ws, k);
      MatchWithinWidths(ds[1..], ws[1..], s, pos + w);
    }
  }

  /**
   * A match that spans the full widths took a full-width alternative at every
   * directive, so it reads exactly the groups of those widths.
   */
  lemma {:induction false} FullWidthMatch(ds: seq<Directive>, ws: seq<nat>, s: string, pos: nat)
    requires WidthsBound(ds, ws) && pos <= |s| && MatchDirectives(ds, s, pos).Some?
    requires MatchDirectives(ds, s, pos).value.end == pos + SumWidths(ws)
    ensures MatchDirectives(ds, s, pos).value.values == Groups(s, pos, ws)
  {
    if |ds| > 0 {
      var k, w, rest := FirstGroup(ds, s, pos);
      WidthsBoundCons(ds, ws, k);
      assert w == ws[0] by {
        MatchWithinWidths(ds[1..], ws[1..], s, pos + w);
      }
      assert SumWidths(ws) == w + SumWidths(ws[1..]);
      FullWidthMatch(ds[1..], ws[1..], s, pos + w);
      assert rest.values == Groups(s, pos + w, ws[1..]);
      assert Groups(s, pos, ws) == [GroupValue(s[pos..pos + w])] + Groups(s, pos + w, ws[1..]);
    }
  }

  predicate AsciiDigits(s: string) {
    forall j :: 0 <= j < |s| ==> '0' <= s[j] <= '9'
  }

  lemma LastDigit(q: nat, r: nat)
    requires r < 10
    ensures (q * 10 + r) / 10 == q && (q * 10 + r) % 10 == r
  {
  }

  lemma GroupValueSnoc(p: string, c: char)
    ensures GroupValue(p + [c]) == GroupValue(p) * 10 + DigitValue(c)
  {
    assert (p + [c])[..|p|] == p;
  }

  /** The last digit of a padded number comes after the padded rest. */
  lemma DigitsSnoc(n: nat, w: nat)
    ensures Digits(n, w + 1) == Digits(n / 10, w) + [DigitChar(n % 10)]
  {
  }

  lemma DigitCharOfValue(c: char)
    requires '0' <= c <= '9'
    ensures DigitValue(c) < 10 && DigitChar(DigitValue(c)) == c
  {
  }

  /** Padding the value of a digit string to its own width gives the string back. */
  lemma {:induction false} DigitsOfGroupValue(d: string)
    requires AsciiDigits(d)
    ensures Digits(GroupValue(d), |d|) == d
  {
    if |d| > 0 {
      var p, c := d[..|d| - 1], d[|d| - 1];
      assert d == p + [c];
      assert AsciiDigits(p) by {
        forall j | 0 <= j < |p| ensures '0' <= p[j] <= '9' {
          assert p[j] == d[j];
        }
      }
      var n, q, r := GroupValue(d), GroupValue(p), DigitValue(c);
      GroupValueSnoc(p, c);
      DigitCharOfValue(c);
      LastDigit(q, r);
      assert n / 10 == q && n % 10 == r;
      DigitsSnoc(n, |p|);
      DigitsOfGroupValue(p);
    }
  }

  /**
   * Converse of the round trip: a 14-digit text that parses is the
   * zero-padded text of the date and time it parses to; every field is read
   * from its own digits.
   */
  lemma {:induction false} ParsedDigitsAreFormatted(s: string)
    requires |s| == 14 && AsciiDigits(s)
    ensures ParseDateTime(s).Some? ==> FormatDateTime(ParseDateTime(s).value) == s
  {
    if ParseDateTime(s).Some? {
      ParsedFields(s);
      FormatOfFields(s, ParseDateTime(s).value);
    }
  }

  /** The `j`-th field of a 14-character text. */
  function FieldText(s: string, j: nat): string
    requires |s| == 14 && j < 6
  {
    s[FieldOffset(j)..FieldOffset(j) + FieldWidth(j)]
  }

  /** Each field of a parse of a 14-character text is read from the field's own characters. */
  lemma ParsedFields(s: string)
    requires |s| == 14 && ParseDateTime(s).Some?
    ensures var t := ParseDateTime(s).value;
      && t.year == GroupValue(FieldText(s, 0)) && t.month == GroupValue(FieldText(s, 1))
      && t.day == GroupValue(FieldText(s, 2)) && t.hour == GroupValue(FieldText(s, 3))
      && t.minute == GroupValue(FieldText(s, 4)) && t.second == GroupValue(FieldText(s, 5))
  {
    var m := MatchDirectives(CreationFormat, s, 0).value;
    CreationFormatWidths();
    FullWidthMatch(CreationFormat, FieldWidths, s, 0);
    forall j | 0 <= j < 6 ensures m.values[j] == GroupValue(FieldText(s, j)) {
      GroupAt(s, 0, FieldWidths, j);
      FieldWidthsPrefix(j);
    }
  }

  /** A date and time whose fields are the values of the fields of a digit text formats back to the text. */
  lemma FormatOfFields(s: string, t: DateTime)
    requires |s| == 14 && AsciiDigits(s) && ValidDateTime(t)
    requires t.year == GroupValue(FieldText(s, 0)) && t.month == GroupValue(FieldText(s, 1))
    requires t.day == GroupValue(FieldText(s, 2)) && t.hour == GroupValue(FieldText(s, 3))
    requires t.minute == GroupValue(FieldText(s, 4)) && t.second == GroupValue(FieldText(s, 5))
    ensures FormatDateTime(t) == s
  {
    var f := FormatDateTime(t);
    FormattedFields(t);
    FieldDigits(s, 0, 4);
    FieldDigits(s, 4, 6);
    FieldDigits(s, 6, 8);
    FieldDigits(s, 8, 10);
    FieldDigits(s, 10, 12);
    FieldDigits(s, 12, 14);
    SameFields(f, s);
  }

  /** Two 14-character texts with the same six fields are equal. */
  lemma SameFields(f: string, s: string)
    requires |f| == 14 && |s| == 14
    requires f[0..4] == s[0..4] && f[4..6] == s[4..6] && f[6..8] == s[6..8]
    requires f[8..10] == s[8..10] && f[10..12] == s[10..12] && f[12..14] == s[12..14]
    ensures f == s
  {
    forall k | 0 <= k < 14 ensures f[k] == s[k] {
      if k < 4 {
        assert f[k] == f[0..4][k] && s[k] == s[0..4][k];
      } else if k < 6 {
        assert f[k] == f[4..6][k - 4] && s[k] == s[4..6][k - 4];
      } else if k < 8 {
        assert f[k] == f[6..8][k - 6] && s[k] == s[6..8][k - 6];
      } else if k < 10 {
        assert f[k] == f[8..10][k - 8] && s[k] == s[8..10][k - 8];
      } else if k < 12 {
        assert f[k] == f[10..12][k - 10] && s[k] == s[10..12][k - 10];
      } else {
        assert f[k] == f[12..14][k - 12] && s[k] == s[12..14][k - 12];
      }
    }
  }

  /** A slice of a digit string reads back as itself when padded to its width. */
  lemma FieldDigits(s: string, a: nat, b: nat)
    requires AsciiDigits(s) && a <= b <= |s|
    ensures Digits(GroupValue(s[a..b]), b - a) == s[a..b]
  {
    DigitsOfGroupValue(s[a..b]);
  }

  /** The `j`-th group starts after the widths before it. */
  lemma {:induction false} GroupAt(s: string, pos: nat, ws: seq<nat>, j: nat)
    requires pos + SumWidths(ws) <= |s| && j < |ws|
    ensures pos + SumWidths(ws[..j]) + ws[j] <= |s|
    ensures Groups(s, pos, ws)[j] == GroupValue(s[pos + SumWidths(ws[..j])..pos + SumWidths(ws[..j]) + ws[j]])
    decreases j
  {
    PrefixWithin(ws, j);
    if j == 0 {
      assert ws[..0] == [];
    } else {
      var tail := ws[1..];
      GroupAt(s, pos + ws[0], tail, j - 1);
      SumWidthsCons(ws, j);
      assert tail[j - 1] == ws[j];
      assert Groups(s, pos, ws)[j] == Groups(s, pos + ws[0], tail)[j - 1];
    }
  }

  lemma {:induction false} PrefixWithin(ws: seq<nat>, j: nat)
    requires j < |ws|
    ensures SumWidths(ws[..j]) + ws[j] <= SumWidths(ws)
    decreases j
  {
    if j > 0 {
      PrefixWithin(ws[1..], j - 1);
      SumWidthsCons(ws, j);
    } else {
      assert ws[..0] == [];
    }
  }

  lemma SumWidthsCons(ws: seq<nat>, j: nat)
    requires 0 < j <= |ws|
    ensures SumWidths(ws[..j]) == ws[0] + SumWidths(ws[1..][..j - 1])
  {
    assert ws[..j][1..] == ws[1..][..j - 1];
  }

  /** The widths before the `j`-th field add up to its offset. */
  lemma {:induction false} FieldWidthsPrefix(j: nat)
    requires j <= 6
    ensures SumWidths(FieldWidths[..j]) == FieldOffset(j)
  {
    if j > 0 {
      FieldWidthsPrefix(j - 1);
      SumWidthsSnoc(FieldWidths[..j - 1], FieldWidths[j - 1]);
      assert FieldWidths[..j] == FieldWidths[..j - 1] + [FieldWidths[j - 1]];
    }
  }

  lemma {:induction false} SumWidthsSnoc(ws: seq<nat>, w: nat)
    ensures SumWidths(ws + [w]) == SumWidths(ws) + w
  {
    if |ws| > 0 {
      SumWidthsSnoc(ws[1..], w);
      assert (ws + [w])[1..] == ws[1..] + [w];
    }
  }

  /**
   * A 14-digit text parses iff it spells a valid date and time, and it then
   * parses to exactly that date and time: an impossible date (month 13,
   * 30 February, second 60) is refused.
   */
  lemma {:induction false} DigitTextParsesIffValid(s: string)
    requires |s| == 14 && AsciiDigits(s)
    ensures ParseDateTime(s).Some? <==> exists t :: ValidDateTime(t) && FormatDateTime(t) == s
    ensures forall t :: ValidDateTime(t) && FormatDateTime(t) == s ==> ParseDateTime(s) == Some(t)
  {
    ParsedDigitsAreFormatted(s);
    forall t | ValidDateTime(t) && FormatDateTime(t) == s ensures ParseDateTime(s) == Some(t) {
      ParseFormatted(t);
    }
  }

  /** The value of a two-character group. */
  lemma TwoCharGroup(a: char, b: char)
    ensures GroupValue([a, b]) == DigitValue(a) * 10 + DigitValue(b)
  {
    var t: string := [a, b];
    assert t[..|t| - 1] == [a] && [a][..0] == [];
    assert GroupValue([a]) == DigitValue(a);
    assert GroupValue(t) == GroupValue([a]) * 10 + DigitValue(b);
  }

  /** Month 13 is refused: `"20241301000000"` does not parse. */
  lemma MonthThirteenRefused()
    ensures ParseDateTime("20241301000000") == None
  {
    var s := "20241301000000";
    forall t | ValidDateTime(t) ensures FormatDateTime(t) != s {
      FormattedFields(t);
      DigitsValue(t.month, 2);
      assert s[4..6] == ['1', '3'];
      TwoCharGroup('1', '3');
    }
    DigitTextParsesIffValid(s);
  }

  /** 30 February is refused: `"20240230000000"` does not parse. */
  lemma ThirtiethFebruaryRefused()
    ensures ParseDateTime("20240230000000") == None
  {
    var s := "20240230000000";
    forall t | ValidDateTime(t) ensures FormatDateTime(t) != s {
      FormattedFields(t);
      DigitsValue(t.month, 2);
      DigitsValue(t.day, 2);
      assert s[4..6] == ['0', '2'] && s[6..8] == ['3', '0'];
      TwoCharGroup('0', '2');
      TwoCharGroup('3', '0');
    }
    DigitTextParsesIffValid(s);
  }
}
