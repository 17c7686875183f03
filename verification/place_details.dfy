/** The place-to-marker transformer of the root component: the category label,
    the weekday remap and the working-hours line shown in a marker's info window.

    Two inputs the component reads from its environment are parameters here:
    today's weekday (`new Date().getDay()`, 0 = Sunday .. 6 = Saturday) and the
    `days` name table (the values of the `Day` enum, whose order is not fixed
    by this model).
 */
module PlaceDetails {
  import opened Wrappers
  import opened JsStrings
  import opened PlaceDto

  const FieldSeparator: string := ": "
  const WorkingHoursPrefix: string := "Working hours: "
  const OpenSoonPrefix: string := "Open soon: "

  // ---------------------------------------------------------------------------
  // Weekday remap

  /** Turns a JavaScript weekday into the index the component uses for
      `days`, `periods` and the descriptions, which it takes to be
      Monday-first: Sunday and Saturday keep their number, every other day
      moves down by one. */
  function CustomDayOfWeek(weekday: int): (idx: nat)
    requires 0 <= weekday <= 6
    ensures idx <= 6 && idx != 5
    ensures idx <= weekday <= idx + 1
  {
    if weekday == 0 || weekday == 6 then weekday else weekday - 1
  }

  /** The remap hits every index in 0..6 except 5, and Sunday and Monday
      collide at 0. */
  lemma CustomDayOfWeekImage(k: int)
    ensures (exists d :: 0 <= d <= 6 && CustomDayOfWeek(d) == k) <==> 0 <= k <= 6 && k != 5
    ensures CustomDayOfWeek(0) == CustomDayOfWeek(1) == 0
  {
    if 0 <= k <= 6 && k != 5 {
      var d := if k == 0 || k == 6 then k else k + 1;
      assert CustomDayOfWeek(d) == k;
    }
  }

  // ---------------------------------------------------------------------------
  // Category

  /** The string `s` with every occurrence of `from` replaced by `to`. */
  function ReplaceChar(s: string, from: char, to: char): (r: string)
    ensures |r| == |s|
    ensures from != to ==> from !in r
  {
    seq(|s|, k requires 0 <= k < |s| => if s[k] == from then to else s[k])
  }

  /** `category.split("_").join(" ")`. */
  function UnderscoresToSpaces(category: string): (r: string)
    ensures r == ReplaceChar(category, '_', ' ')
  {
    SplitJoinReplacesChar(category, '_', ' ');
    Join(Split(category, "_"), " ")
  }

  function ToUpper(c: char): char {
    if 'a' <= c <= 'z' then (c as int - 32) as char else c
  }

  /** Upper-cases the first character of a word. */
  function UpperFirst(w: string): (r: string)
    ensures |r| == |w|
    ensures |w| > 0 ==> r[0] == ToUpper(w[0]) && r[1..] == w[1..]
  {
    if |w| == 0 then w else [ToUpper(w[0])] + w[1..]
  }

  function MapUpperFirst(words: seq<string>): (r: seq<string>)
    ensures |r| == |words|
    ensures forall k :: 0 <= k < |r| ==> r[k] == UpperFirst(words[k])
  {
    if |words| == 0 then [] else [UpperFirst(words[0])] + MapUpperFirst(words[1..])
  }

  /** Drops the empty pieces left by runs of separators. */
  function NonEmpty(parts: seq<string>): (r: seq<string>)
    ensures |r| <= |parts|
    ensures forall k :: 0 <= k < |r| ==> |r[k]| > 0
  {
    if |parts| == 0 then []
    else if |parts[0]| == 0 then NonEmpty(parts[1..])
    else [parts[0]] + NonEmpty(parts[1..])
  }

  /** A start-cased word: non-empty, without spaces, and not starting with a
      lower-case letter. */
  predicate StartCased(w: string) {
    |w| > 0 && ' ' !in w && !('a' <= w[0] <= 'z')
  }

  /** `_.startCase` on space-separated words: each word gets an upper-case
      first letter, and the words are joined by single spaces. Splitting the
      result on spaces gives those words back. */
  function StartCase(s: string): (r: string)
    ensures var words := NonEmpty(Split(s, " "));
            |words| > 0 ==> Split(r, " ") == MapUpperFirst(words)
    ensures |r| > 0 ==> forall k :: 0 <= k < |Split(r, " ")| ==> StartCased(Split(r, " ")[k])
    ensures '_' !in s ==> '_' !in r
    ensures |NonEmpty(Split(s, " "))| == 0 ==> r == ""
    ensures r == "" <==> forall k :: 0 <= k < |s| ==> s[k] == ' '
  {
    var parts := Split(s, " ");
    StartCaseWords(parts);
    StartCaseFree(s, '_');
    BlankSplit(s);
    NonEmptyNone(parts);
    JoinNonEmpty(MapUpperFirst(NonEmpty(parts)), " ");
    Join(MapUpperFirst(NonEmpty(parts)), " ")
  }

  /** A character that is neither a space nor an upper-case letter stays out
      of the start-cased text when it is absent from the input. */
  lemma StartCaseFree(s: string, c: char)
    requires c != ' ' && !('A' <= c <= 'Z')
    ensures c !in s ==> c !in Join(MapUpperFirst(NonEmpty(Split(s, " "))), " ")
  {
    if c !in s {
      var parts := Split(s, " ");
      SplitPartsFree(s, " ", c);
      NonEmptyFree(parts, c);
      MapUpperFirstFree(NonEmpty(parts), c);
      JoinFree(MapUpperFirst(NonEmpty(parts)), " ", c);
    }
  }

  /** `normalizeCategory`: underscores become spaces, then start case. No
      underscore survives, and the label is start-cased words separated by
      single spaces. */
  function NormalizeCategory(category: string): (r: string)
    ensures '_' !in r
    ensures |r| > 0 ==> forall k :: 0 <= k < |Split(r, " ")| ==> StartCased(Split(r, " ")[k])
    ensures r == "" <==> forall k :: 0 <= k < |category| ==> category[k] == '_' || category[k] == ' '
  {
    var spaced := UnderscoresToSpaces(category);
    assert forall k :: 0 <= k < |category| ==>
             (spaced[k] == ' ' <==> category[k] == '_' || category[k] == ' ');
    StartCase(spaced)
  }

  /** A string splits on spaces into empty pieces only exactly when it is
      all spaces. */
  lemma BlankSplit(s: string)
    ensures (forall k :: 0 <= k < |Split(s, " ")| ==> |Split(s, " ")[k]| == 0)
            <==> forall k :: 0 <= k < |s| ==> s[k] == ' '
  {
    var parts := Split(s, " ");
    if forall k :: 0 <= k < |s| ==> s[k] == ' ' {
      SpacesSplitEmpty(s);
    } else {
      if forall k :: 0 <= k < |parts| ==> |parts[k]| == 0 {
        JoinSplit(s, " ");
        JoinEmptyParts(parts);
        assert false;
      }
    }
  }

  /** An all-space string splits into empty pieces only. */
  lemma {:induction false} SpacesSplitEmpty(s: string)
    requires forall k :: 0 <= k < |s| ==> s[k] == ' '
    ensures forall k :: 0 <= k < |Split(s, " ")| ==> |Split(s, " ")[k]| == 0
    decreases |s|
  {
    if |s| > 0 {
      assert s[0..1] == " ";
      assert OccursAt(s, " ", 0);
      var rest := s[1..];
      assert forall k :: 0 <= k < |rest| ==> rest[k] == s[k + 1];
      SpacesSplitEmpty(rest);
      assert Split(s, " ") == [s[..0]] + Split(rest, " ");
    }
  }

  /** Joining empty pieces with a space gives spaces only. */
  lemma {:induction false} JoinEmptyParts(parts: seq<string>)
    requires forall k :: 0 <= k < |parts| ==> |parts[k]| == 0
    ensures forall k :: 0 <= k < |Join(parts, " ")| ==> Join(parts, " ")[k] == ' '
  {
    if |parts| > 1 {
      var rest := parts[1..];
      assert forall k :: 0 <= k < |rest| ==> rest[k] == parts[k + 1];
      JoinEmptyParts(rest);
      assert Join(parts, " ") == " " + Join(rest, " ");
    }
  }

  /** Dropping empty pieces leaves nothing exactly when every piece is empty. */
  lemma {:induction false} NonEmptyNone(parts: seq<string>)
    ensures |NonEmpty(parts)| == 0 <==> forall k :: 0 <= k < |parts| ==> |parts[k]| == 0
  {
    if |parts| > 0 {
      var rest := parts[1..];
      assert forall k :: 0 <= k < |rest| ==> rest[k] == parts[k + 1];
      NonEmptyNone(rest);
    }
  }

  /** Joining at least one non-empty word gives a non-empty string. */
  lemma JoinNonEmpty(words: seq<string>, sep: string)
    ensures |words| > 0 && |words[0]| > 0 ==> |Join(words, sep)| > 0
  {
  }

  /** The words `StartCase` joins are start-cased, and splitting their join
      gives them back. */
  lemma StartCaseWords(parts: seq<string>)
    requires forall k :: 0 <= k < |parts| ==> !Contains(parts[k], " ")
    ensures var words := MapUpperFirst(NonEmpty(parts));
            && (forall k :: 0 <= k < |words| ==> StartCased(words[k]))
            && (|words| > 0 ==> Split(Join(words, " "), " ") == words)
            && (|Join(words, " ")| > 0 ==> |words| > 0)
  {
    var ne := NonEmpty(parts);
    var words := MapUpperFirst(ne);
    forall k | 0 <= k < |parts| ensures ' ' !in parts[k] {
      NotContainsChar(parts[k], ' ');
    }
    NonEmptyFree(parts, ' ');
    MapUpperFirstFree(ne, ' ');
    if |words| > 0 {
      SplitJoin(words, " ");
    }
  }

  /** Dropping empty pieces keeps a character out of every remaining piece. */
  lemma {:induction false} NonEmptyFree(parts: seq<string>, c: char)
    requires forall k :: 0 <= k < |parts| ==> c !in parts[k]
    ensures forall k :: 0 <= k < |NonEmpty(parts)| ==> c !in NonEmpty(parts)[k]
  {
    if |parts| > 0 {
      var rest := parts[1..];
      assert forall k :: 0 <= k < |rest| ==> rest[k] == parts[k + 1];
      NonEmptyFree(rest, c);
    }
  }

  /** Upper-casing first letters adds no character other than an upper-case letter. */
  lemma MapUpperFirstFree(words: seq<string>, c: char)
    requires !('A' <= c <= 'Z')
    requires forall k :: 0 <= k < |words| ==> c !in words[k]
    ensures forall k :: 0 <= k < |words| ==> c !in MapUpperFirst(words)[k]
  {
    forall k | 0 <= k < |words| ensures c !in MapUpperFirst(words)[k] {
      var w := words[k];
      if |w| > 0 {
        assert UpperFirst(w) == [ToUpper(w[0])] + w[1..];
      }
    }
  }

  predicate IsLowerWord(w: string) {
    |w| > 0 && forall k :: 0 <= k < |w| ==> 'a' <= w[k] <= 'z'
  }

  /** For lower-case snake_case input, each word is capitalised and the words
      are joined by single spaces. */
  lemma NormalizeSnakeCase(words: seq<string>)
    requires |words| >= 1
    requires forall k :: 0 <= k < |words| ==> IsLowerWord(words[k])
    ensures NormalizeCategory(Join(words, "_")) == Join(MapUpperFirst(words), " ")
  {
    forall k | 0 <= k < |words|
      ensures '_' !in words[k] && ' ' !in words[k]
    {
      assert forall j :: 0 <= j < |words[k]| ==> 'a' <= words[k][j] <= 'z';
    }
    SplitJoin(words, "_");
    assert UnderscoresToSpaces(Join(words, "_")) == Join(words, " ");
    SplitJoin(words, " ");
    NonEmptyKeepsWords(words);
  }

  // ---------------------------------------------------------------------------
  // Working hours

  /** `description.split(": ")[0]`. */
  function DayLabel(description: string): string {
    Split(description, FieldSeparator)[0]
  }

  /** `description.split(": ")[1]` as it appears in a template string: a
      missing second field prints as "undefined". */
  function HoursField(description: string): string {
    var fields := Split(description, FieldSeparator);
    if |fields| > 1 then fields[1] else "undefined"
  }

  /** `this.days[index]`; an index past the table is `undefined`. */
  function DayName(days: seq<string>, idx: nat): Option<string> {
    if idx < |days| then Some(days[idx]) else None
  }

  /** The description is labelled with the day name (never true of `undefined`). */
  predicate LabelledWith(description: string, name: Option<string>) {
    name == Some(DayLabel(description))
  }

  /** The `filter` step: descriptions labelled with `name`, in order. */
  function MatchingDescriptions(descriptions: seq<string>, name: Option<string>): (r: seq<string>)
    ensures forall k :: 0 <= k < |r| ==> r[k] in descriptions && LabelledWith(r[k], name)
  {
    if |descriptions| == 0 then []
    else if LabelledWith(descriptions[0], name) then
      [descriptions[0]] + MatchingDescriptions(descriptions[1..], name)
    else MatchingDescriptions(descriptions[1..], name)
  }

  /** The `map` step: "Working hours: " before each second field. */
  function WorkingHoursLines(descriptions: seq<string>): (r: seq<string>)
    ensures |r| == |descriptions|
    ensures forall k :: 0 <= k < |r| ==> r[k] == WorkingHoursPrefix + HoursField(descriptions[k])
  {
    if |descriptions| == 0 then []
    else [WorkingHoursPrefix + HoursField(descriptions[0])] + WorkingHoursLines(descriptions[1..])
  }

  /** The `[0]` step: the first element, or `undefined` for an empty array. */
  function First(xs: seq<string>): Option<string> {
    if |xs| == 0 then None else Some(xs[0])
  }

  /** The open-now branch: filter, map, take the first. A line is always the
      line of some description labelled with `name`, so an undefined name
      gives none. */
  function OpenNowHours(descriptions: seq<string>, name: Option<string>): (r: Option<string>)
    ensures name.None? ==> r.None?
    ensures r.Some? ==> exists k :: 0 <= k < |descriptions| && LabelledWith(descriptions[k], name)
                                    && r.value == WorkingHoursPrefix + HoursField(descriptions[k])
  {
    var matching := MatchingDescriptions(descriptions, name);
    assert |matching| > 0 ==> matching[0] in descriptions;
    First(WorkingHoursLines(matching))
  }

  /** `k` is the position of the first description labelled with `name`. */
  predicate FirstLabelled(descriptions: seq<string>, name: Option<string>, k: nat) {
    k < |descriptions| && LabelledWith(descriptions[k], name)
    && forall j :: 0 <= j < k ==> !LabelledWith(descriptions[j], name)
  }

  /** The open-now branch is first-match-or-none: present exactly when some
      description carries today's label, and then built from the first one. */
  lemma {:induction false} OpenNowHoursFirstMatch(descriptions: seq<string>, name: Option<string>)
    ensures OpenNowHours(descriptions, name).Some? <==>
            exists k :: 0 <= k < |descriptions| && LabelledWith(descriptions[k], name)
    ensures forall k: nat :: FirstLabelled(descriptions, name, k) ==>
            OpenNowHours(descriptions, name) == Some(WorkingHoursPrefix + HoursField(descriptions[k]))
  {
    if |descriptions| > 0 {
      var rest := descriptions[1..];
      OpenNowHoursFirstMatch(rest, name);
      if LabelledWith(descriptions[0], name) {
        assert FirstLabelled(descriptions, name, 0);
      } else {
        assert MatchingDescriptions(descriptions, name) == MatchingDescriptions(rest, name);
        forall k: nat | FirstLabelled(descriptions, name, k)
          ensures FirstLabelled(rest, name, k - 1)
        {
          assert k > 0;
          assert forall j :: 0 <= j < k - 1 ==> rest[j] == descriptions[j + 1];
        }
        if exists k :: 0 <= k < |descriptions| && LabelledWith(descriptions[k], name) {
          var k :| 0 <= k < |descriptions| && LabelledWith(descriptions[k], name);
          assert rest[k - 1] == descriptions[k];
        }
      }
    }
  }

  /** A description "L: H", whose label has no colon and whose hours have no
      ": ", splits back into its label and hours. */
  lemma DescriptionFields(name: string, hours: string)
    requires ':' !in name && !Contains(hours, FieldSeparator)
    ensures DayLabel(name + FieldSeparator + hours) == name
    ensures HoursField(name + FieldSeparator + hours) == hours
  {
    SplitAfterFree(name, FieldSeparator, hours);
  }

  /** "AM" before noon, "PM" from noon on, with no 12-hour conversion. */
  function DayPeriod(hour: nat): string {
    if hour < 12 then "AM" else "PM"
  }

  /** A minute as `padStart(2, '0')` leaves it: two digits, or more digits
      without a leading zero. */
  predicate IsMinuteField(m: string) {
    |m| >= 2 && IsDigits(m) && (|m| == 2 || m[0] != '0')
  }

  /** The minute as printed: decimal, left-padded with '0' to two characters. */
  function MinuteText(minute: nat): (r: string)
    ensures IsMinuteField(r) && ParseDecimal(r) == minute
    ensures minute < 10 ==> r == ['0', DigitChar(minute)]
    ensures minute >= 10 ==> r == NatToString(minute)
  {
    var digits := NatToString(minute);
    ParseNatToString(minute);
    ParseLeadingZero(digits);
    var padded := PadStart(digits, 2, '0');
    assert minute < 10 ==> padded == "0" + digits;
    padded
  }

  /** `Open soon: ${hour}:${minute padded} ${AM|PM}`. */
  function FormatOpenSoon(hour: nat, minute: nat): (r: string)
    ensures |r| > |OpenSoonPrefix| && r[..|OpenSoonPrefix|] == OpenSoonPrefix
    ensures r[|r| - 2..] == "AM" <==> hour < 12
  {
    var front := OpenSoonPrefix + NatToString(hour) + ":" + MinuteText(minute) + " ";
    var period := DayPeriod(hour);
    assert (front + period)[|front + period| - 2..] == period;
    front + period
  }

  /** What an "Open soon" line says: hour, minute and whether it said "PM". */
  datatype OpenTime = OpenTime(hour: nat, minute: nat, pm: bool)

  /** Every minute field is the padded rendering of the minute it reads as. */
  lemma MinuteTextParse(m: string)
    requires IsMinuteField(m)
    ensures MinuteText(ParseDecimal(m)) == m
  {
    if m[0] == '0' {
      assert |m| == 2;
      assert ParseDecimal(m[..1]) == 0;
      assert "0123456789"[ParseDecimal(m)] == m[1];
    } else {
      NatToStringParse(m);
    }
  }

  /** Reads an "Open soon: H:MM AM|PM" line back; the partner of `FormatOpenSoon`.
      Only the form the template produces is accepted: an hour without a
      leading zero and a minute padded to exactly two digits when below 10. */
  function ParseOpenSoon(s: string): Option<OpenTime> {
    if |s| < |OpenSoonPrefix| || s[..|OpenSoonPrefix|] != OpenSoonPrefix then None
    else
      var clock := Split(s[|OpenSoonPrefix|..], ":");
      if |clock| != 2 then None
      else
        var tail := Split(clock[1], " ");
        if |tail| != 2 || !IsCanonicalDecimal(clock[0]) || !IsMinuteField(tail[0]) then None
        else if tail[1] == "AM" then Some(OpenTime(ParseDecimal(clock[0]), ParseDecimal(tail[0]), false))
        else if tail[1] == "PM" then Some(OpenTime(ParseDecimal(clock[0]), ParseDecimal(tail[0]), true))
        else None
  }

  lemma DigitsFree(s: string, c: char)
    requires IsDigits(s) && !IsDigit(c)
    ensures c !in s
  {
  }

  /** Reading an "Open soon" line back gives the raw hour, the minute, and
      "PM" exactly when the hour is 12 or more. */
  lemma ParseFormatOpenSoon(hour: nat, minute: nat)
    ensures ParseOpenSoon(FormatOpenSoon(hour, minute)) == Some(OpenTime(hour, minute, hour >= 12))
  {
    var h := NatToString(hour);
    ParseNatToString(hour);
    ParseClockLine(h, MinuteText(minute), DayPeriod(hour));
  }

  /** Any line "Open soon: H:MM AM|PM" in the template's form reads back. */
  lemma ParseClockLine(h: string, m: string, period: string)
    requires IsCanonicalDecimal(h) && IsMinuteField(m) && (period == "AM" || period == "PM")
    ensures ParseOpenSoon(OpenSoonPrefix + h + ":" + m + " " + period)
            == Some(OpenTime(ParseDecimal(h), ParseDecimal(m), period == "PM"))
  {
    var body := h + ":" + (m + " " + period);
    var s := OpenSoonPrefix + h + ":" + m + " " + period;
    assert s == OpenSoonPrefix + body;
    assert s[..|OpenSoonPrefix|] == OpenSoonPrefix;
    assert s[|OpenSoonPrefix|..] == body;
    ClockFields(h, m, period);
  }

  lemma ClockFields(h: string, m: string, period: string)
    requires IsDigits(h) && IsDigits(m) && (period == "AM" || period == "PM")
    ensures Split(h + ":" + (m + " " + period), ":") == [h, m + " " + period]
    ensures Split(m + " " + period, " ") == [m, period]
  {
    HourField(h, m + " " + period);
    MinuteField(m, period);
  }

  lemma HourField(h: string, rest: string)
    requires IsDigits(h) && ':' !in rest
    ensures Split(h + ":" + rest, ":") == [h, rest]
  {
    DigitsFree(h, ':');
    SplitAfterFree(h, ":", rest);
    SplitWithout(rest, ":");
  }

  lemma MinuteField(m: string, period: string)
    requires IsDigits(m) && (period == "AM" || period == "PM")
    ensures ':' !in m + " " + period
    ensures Split(m + " " + period, " ") == [m, period]
  {
    DigitsFree(m, ':');
    DigitsFree(m, ' ');
    SplitAfterFree(m, " ", period);
    SplitWithout(period, " ");
  }

  /** The converse of `ParseFormatOpenSoon`: a line that reads back as an
      hour, a minute and the matching AM/PM is exactly the line the template
      prints for them, so the read-back pins down the text. */
  lemma FormatParseOpenSoon(s: string, hour: nat, minute: nat)
    requires ParseOpenSoon(s) == Some(OpenTime(hour, minute, hour >= 12))
    ensures s == FormatOpenSoon(hour, minute)
  {
    OpenSoonShape(s);
    assert DayPeriod(hour) == if hour >= 12 then "PM" else "AM";
  }

  /** Any line that reads back is the template applied to what it read. */
  lemma OpenSoonShape(s: string)
    requires ParseOpenSoon(s).Some?
    ensures var t := ParseOpenSoon(s).value;
            s == OpenSoonPrefix + NatToString(t.hour) + ":" + MinuteText(t.minute) + " "
                 + (if t.pm then "PM" else "AM")
  {
    var h, m, period := OpenSoonFields(s);
    NatToStringParse(h);
    MinuteTextParse(m);
  }

  /** The three fields of a line that reads back, and how they reassemble. */
  lemma OpenSoonFields(s: string) returns (h: string, m: string, period: string)
    requires ParseOpenSoon(s).Some?
    ensures IsCanonicalDecimal(h) && IsMinuteField(m) && (period == "AM" || period == "PM")
    ensures ParseOpenSoon(s) == Some(OpenTime(ParseDecimal(h), ParseDecimal(m), period == "PM"))
    ensures s == OpenSoonPrefix + h + ":" + m + " " + period
  {
    var rest := s[|OpenSoonPrefix|..];
    var clock := Split(rest, ":");
    var tail := Split(clock[1], " ");
    h, m, period := clock[0], tail[0], tail[1];
    JoinTwo(rest, ":");
    JoinTwo(clock[1], " ");
    Reassemble(s, rest, h, clock[1], m, period);
  }

  lemma Reassemble(s: string, rest: string, h: string, minutes: string, m: string, period: string)
    requires |s| >= |OpenSoonPrefix| && s[..|OpenSoonPrefix|] == OpenSoonPrefix
    requires rest == s[|OpenSoonPrefix|..]
    requires rest == h + ":" + minutes && minutes == m + " " + period
    ensures s == OpenSoonPrefix + h + ":" + m + " " + period
  {
    assert s == s[..|OpenSoonPrefix|] + rest;
  }

  /** A split into exactly two pieces joins back around the separator. */
  lemma JoinTwo(s: string, sep: string)
    requires |sep| > 0 && |Split(s, sep)| == 2
    ensures s == Split(s, sep)[0] + sep + Split(s, sep)[1]
  {
    var parts := Split(s, sep);
    JoinSplit(s, sep);
    assert parts[1..] == [parts[1]];
  }

  lemma OpenSoonExamples()
    ensures FormatOpenSoon(9, 5) == "Open soon: 9:05 AM"
    ensures FormatOpenSoon(14, 0) == "Open soon: 14:00 PM"
  {
  }

  /** `normalizeWorkingHours`: absent hours give nothing; when open now, the
      hours of today's first labelled description; otherwise the opening time
      of today's period, if there is one. */
  function NormalizeWorkingHours(hours: Option<OpeningHours>, weekday: int, days: seq<string>): (r: Option<string>)
    requires 0 <= weekday <= 6
    ensures hours.None? ==> r.None?
    ensures hours.Some? && hours.value.openNow && r.Some? ==>
              |r.value| >= |WorkingHoursPrefix| && r.value[..|WorkingHoursPrefix|] == WorkingHoursPrefix
    ensures hours.Some? && !hours.value.openNow ==>
              (r.Some? <==> CustomDayOfWeek(weekday) < |hours.value.periods|)
    ensures hours.Some? && !hours.value.openNow && r.Some? ==>
              var open := hours.value.periods[CustomDayOfWeek(weekday)].open;
              ParseOpenSoon(r.value) == Some(OpenTime(open.hour, open.minute, open.hour >= 12))
  {
    var idx := CustomDayOfWeek(weekday);
    match hours
    case None => None
    case Some(h) =>
      if h.openNow then
        OpenNowHours(h.weekdayDescriptions, DayName(days, idx))
      else if idx < |h.periods| then
        var open := h.periods[idx].open;
        ParseFormatOpenSoon(open.hour, open.minute);
        Some(FormatOpenSoon(open.hour, open.minute))
      else None
  }

  /** The open-now case in full: the line for the first description labelled
      with today's name from `days`, and nothing when none is. */
  lemma WorkingHoursWhenOpen(h: OpeningHours, weekday: int, days: seq<string>)
    requires 0 <= weekday <= 6 && h.openNow
    ensures var name := DayName(days, CustomDayOfWeek(weekday));
            var r := NormalizeWorkingHours(Some(h), weekday, days);
            && (r.Some? <==> exists k :: 0 <= k < |h.weekdayDescriptions| && LabelledWith(h.weekdayDescriptions[k], name))
            && forall k: nat :: FirstLabelled(h.weekdayDescriptions, name, k) ==>
                 r == Some(WorkingHoursPrefix + HoursField(h.weekdayDescriptions[k]))
  {
    OpenNowHoursFirstMatch(h.weekdayDescriptions, DayName(days, CustomDayOfWeek(weekday)));
  }

  /** Open now, with today's description "<today>: <hours>" first: the line is
      "Working hours: <hours>", whatever follows. */
  lemma WorkingHoursFromFirstDescription(name: string, hours: string, others: seq<string>,
                                         periods: seq<Period>, weekday: int, days: seq<string>)
    requires 0 <= weekday <= 6 && DayName(days, CustomDayOfWeek(weekday)) == Some(name)
    requires ':' !in name && !Contains(hours, FieldSeparator)
    ensures NormalizeWorkingHours(Some(OpeningHours(true, periods, [name + FieldSeparator + hours] + others)), weekday, days)
            == Some(WorkingHoursPrefix + hours)
  {
    var descriptions := [name + FieldSeparator + hours] + others;
    DescriptionFields(name, hours);
    assert FirstLabelled(descriptions, Some(name), 0);
    OpenNowHoursFirstMatch(descriptions, Some(name));
  }

  /** A description that is just today's name has no second field, and the
      template string prints it as "undefined". */
  lemma WorkingHoursUndefinedField(name: string, others: seq<string>,
                                   periods: seq<Period>, weekday: int, days: seq<string>)
    requires 0 <= weekday <= 6 && DayName(days, CustomDayOfWeek(weekday)) == Some(name)
    requires !Contains(name, FieldSeparator)
    ensures NormalizeWorkingHours(Some(OpeningHours(true, periods, [name] + others)), weekday, days)
            == Some("Working hours: undefined")
  {
    var descriptions := [name] + others;
    assert Split(name, FieldSeparator) == [name];
    assert HoursField(name) == "undefined";
    assert FirstLabelled(descriptions, Some(name), 0);
    OpenNowHoursFirstMatch(descriptions, Some(name));
    assert WorkingHoursPrefix + "undefined" == "Working hours: undefined";
  }

  // ---------------------------------------------------------------------------
  // Marker

  /** The info-window payload of one marker. */
  datatype MarkerDetails = MarkerDetails(
    title: string,
    rating: real,
    ratingCount: nat,
    category: string,
    workingHours: Option<string>)

  datatype Marker = Marker(position: LatLng, details: MarkerDetails)

  /** `generateIMarker`: None stands for the TypeError raised when `types` is
      empty (`types[0]` is `undefined` and has no `split`). */
  function GenerateMarker(place: Place, weekday: int, days: seq<string>): (r: Option<Marker>)
    requires 0 <= weekday <= 6
    ensures r.Some? <==> |place.types| > 0
    ensures r.Some? ==> r.value.position == place.location
    ensures r.Some? ==> r.value.details.title == place.displayName.text
    ensures r.Some? ==> r.value.details.rating == place.rating
    ensures r.Some? ==> r.value.details.ratingCount == place.userRatingCount
    ensures r.Some? ==> r.value.details.category == NormalizeCategory(place.types[0])
    ensures r.Some? ==> r.value.details.workingHours == NormalizeWorkingHours(place.regularOpeningHours, weekday, days)
  {
    if |place.types| == 0 then None
    else
      Some(Marker(
        place.location,
        MarkerDetails(
          place.displayName.text,
          place.rating,
          place.userRatingCount,
          NormalizeCategory(place.types[0]),
          NormalizeWorkingHours(place.regularOpeningHours, weekday, days))))
  }

  // ---------------------------------------------------------------------------
  // Helper lemmas

  /** A one-character pattern occurs exactly where that character stands. */
  lemma OccursAtChar(s: string, c: char, k: nat)
    ensures OccursAt(s, [c], k) <==> k < |s| && s[k] == c
  {
  }

  lemma ReplaceCharFree(s: string, from: char, to: char)
    requires forall k :: 0 <= k < |s| ==> s[k] != from
    ensures ReplaceChar(s, from, to) == s
  {
  }

  /** Splitting on a one-character separator and joining with another
      replaces that character everywhere. */
  lemma {:induction false} SplitJoinReplacesChar(s: string, from: char, to: char)
    ensures Join(Split(s, [from]), [to]) == ReplaceChar(s, from, to)
    decreases |s|
  {
    var found := IndexOf(s, [from]);
    if found.None? {
      SplitJoinReplacesCharAbsent(s, from, to);
    } else {
      SplitJoinReplacesChar(s[found.value + 1..], from, to);
      SplitJoinReplacesCharStep(s, from, to, found.value);
    }
  }

  lemma SplitJoinReplacesCharAbsent(s: string, from: char, to: char)
    requires IndexOf(s, [from]).None?
    ensures Join(Split(s, [from]), [to]) == ReplaceChar(s, from, to)
  {
    forall k | 0 <= k < |s| ensures s[k] != from {
      OccursAtChar(s, from, k);
    }
    ReplaceCharFree(s, from, to);
  }

  lemma SplitJoinReplacesCharStep(s: string, from: char, to: char, i: nat)
    requires IndexOf(s, [from]) == Some(i)
    requires Join(Split(s[i + 1..], [from]), [to]) == ReplaceChar(s[i + 1..], from, to)
    ensures Join(Split(s, [from]), [to]) == ReplaceChar(s, from, to)
  {
    SplitJoinAtChar(s, from, to, i);
    FirstCharOccurrence(s, from, i);
    ReplaceCharAround(s[..i], s[i + 1..], from, to);
  }

  /** The leftmost occurrence of a character splits the string around it. */
  lemma FirstCharOccurrence(s: string, from: char, i: nat)
    requires IndexOf(s, [from]) == Some(i)
    ensures i < |s| && s == s[..i] + [from] + s[i + 1..]
    ensures forall k :: 0 <= k < i ==> s[..i][k] != from
  {
    OccursAtChar(s, from, i);
    forall k | 0 <= k < i ensures s[..i][k] != from {
      OccursAtChar(s, from, k);
    }
  }

  lemma SplitJoinAtChar(s: string, from: char, to: char, i: nat)
    requires IndexOf(s, [from]) == Some(i)
    ensures Join(Split(s, [from]), [to]) == s[..i] + [to] + Join(Split(s[i + 1..], [from]), [to])
  {
  }

  lemma ReplaceCharAround(prefix: string, rest: string, from: char, to: char)
    requires forall k :: 0 <= k < |prefix| ==> prefix[k] != from
    ensures ReplaceChar(prefix + [from] + rest, from, to) == prefix + [to] + ReplaceChar(rest, from, to)
  {
  }

  /** Dropping empty pieces keeps a list of non-empty words as it is. */
  lemma {:induction false} NonEmptyKeepsWords(words: seq<string>)
    requires forall k :: 0 <= k < |words| ==> |words[k]| > 0
    ensures NonEmpty(words) == words
  {
    if |words| > 0 {
      var rest := words[1..];
      assert forall k :: 0 <= k < |rest| ==> |rest[k]| > 0 by {
        forall k | 0 <= k < |rest| ensures |rest[k]| > 0 {
          assert rest[k] == words[k + 1];
        }
      }
      NonEmptyKeepsWords(rest);
      assert |words[0]| > 0;
      assert words == [words[0]] + rest;
    }
  }

}
