/**
 * The iCalendar export (src/utils/icsGenerator.ts): TEXT escaping (section
 * 3.3.11 of RFC 5545), the DATE-TIME stamp (section 3.3.5), the VEVENT
 * content lines with the UID of section 3.8.4.7, and the two documents, each
 * a list of lines joined with CRLF (section 3.1).  As in the source, lines
 * are not folded at 75 octets, the stamp is the local wall-clock time with a
 * literal 'Z', and attendee values are not escaped.  The clock reading used
 * for DTSTAMP and the host's offset `zone` are parameters.
 */
module IcsGenerator {
  import opened Wrappers
  import opened Time
  import opened Civil
  import opened Decimal
  import opened CalendarTypes

  const CRLF: string := "\r\n"

  // ---------------------------------------------------------------------------
  // TEXT escaping

  predicate IsSeparator(c: char) {
    c == ',' || c == ';' || c == '\\'
  }

  /** `text.replace(/[,;\\]/g, '\\$&')` */
  function QuoteSeparators(s: string): string {
    if s == [] then [] else (if IsSeparator(s[0]) then ['\\', s[0]] else [s[0]]) + QuoteSeparators(s[1..])
  }

  /** `.replace(/\n/g, '\\n')` */
  function ReplaceNewlines(s: string): (r: string)
    ensures '\n' !in r
  {
    if s == [] then [] else (if s[0] == '\n' then ['\\', 'n'] else [s[0]]) + ReplaceNewlines(s[1..])
  }

  /** `escapeText(text)`: the separators first, then line feeds. */
  function EscapeText(text: string): (r: string)
    ensures '\n' !in r
  {
    ReplaceNewlines(QuoteSeparators(text))
  }

  /** What one character becomes. */
  function EscapeChar(c: char): string {
    if IsSeparator(c) then ['\\', c] else if c == '\n' then ['\\', 'n'] else [c]
  }

  lemma {:induction false} ReplaceNewlinesConcat(a: string, b: string)
    ensures ReplaceNewlines(a + b) == ReplaceNewlines(a) + ReplaceNewlines(b)
  {
    if a == [] {
      assert a + b == b;
    } else {
      assert (a + b)[1..] == a[1..] + b;
      ReplaceNewlinesConcat(a[1..], b);
    }
  }

  /**
   * Escaping works character by character: ',', ';' and '\' get a '\' in
   * front, a line feed becomes '\' 'n', and every other character is kept.
   */
  lemma EscapeTextCons(c: char, s: string)
    ensures EscapeText([c] + s) == EscapeChar(c) + EscapeText(s)
  {
    assert ([c] + s)[1..] == s;
    var quoted := if IsSeparator(c) then ['\\', c] else [c];
    assert QuoteSeparators([c] + s) == quoted + QuoteSeparators(s);
    ReplaceNewlinesConcat(quoted, QuoteSeparators(s));
    if IsSeparator(c) {
      assert ReplaceNewlines(quoted) == ['\\'] + ReplaceNewlines([c]) by {
        assert quoted[1..] == [c];
      }
    }
  }

  /** Reading escaped TEXT back: a '\' takes the next character literally, except that '\' 'n' is a line feed. */
  function Unescape(t: string): string
    decreases |t|
  {
    if t == [] then []
    else if t[0] == '\\' && |t| >= 2 then (if t[1] == 'n' then ['\n'] else [t[1]]) + Unescape(t[2..])
    else [t[0]] + Unescape(t[1..])
  }

  lemma UnescapeEscapeChar(c: char, rest: string)
    ensures Unescape(EscapeChar(c) + rest) == [c] + Unescape(rest)
  {
    var t := EscapeChar(c) + rest;
    if IsSeparator(c) || c == '\n' {
      assert t[2..] == rest;
    } else {
      assert t[1..] == rest;
    }
  }

  /** Unescaping recovers the text. */
  lemma {:induction false} UnescapeEscapeText(s: string)
    ensures Unescape(EscapeText(s)) == s
  {
    if s != [] {
      assert s == [s[0]] + s[1..];
      EscapeTextCons(s[0], s[1..]);
      UnescapeEscapeChar(s[0], EscapeText(s[1..]));
      UnescapeEscapeText(s[1..]);
    }
  }

  /** Text with no separator and no line feed is left as it is. */
  lemma {:induction false} EscapePlainText(s: string)
    requires forall i :: 0 <= i < |s| ==> !IsSeparator(s[i]) && s[i] != '\n'
    ensures EscapeText(s) == s
  {
    if s != [] {
      assert s == [s[0]] + s[1..];
      EscapeTextCons(s[0], s[1..]);
      EscapePlainText(s[1..]);
    }
  }

  // ---------------------------------------------------------------------------
  // DATE-TIME

  /** The year as the `y` pattern writes it: the year of the era (1 BC is 1). */
  function EraYear(year: int): nat {
    if year > 0 then year else 1 - year
  }

  /**
   * `format(date, "yyyyMMdd'T'HHmmss'Z'")`: the local date and time, each
   * field zero-padded, with a literal 'T' and 'Z'.
   */
  function FormatICSDate(t: int, zone: int): string {
    StampText(CivilFromDays(LocalDay(t, zone)), HourOf(t, zone), MinuteOf(t, zone), SubMinute(t, zone) / SecondMs)
  }

  /** The stamp of a local date and time of day. */
  function StampText(d: Date, hour: nat, minute: nat, second: nat): string
    requires ValidDate(d)
  {
    DateDigits(d) + "T" + TimeDigits(hour, minute, second) + "Z"
  }

  /** `yyyyMMdd` of a civil date. */
  function DateDigits(d: Date): string
    requires ValidDate(d)
  {
    Padded(EraYear(d.year), 4) + Padded(d.month, 2) + Padded(d.day, 2)
  }

  /** `HHmmss` of a time of day. */
  function TimeDigits(hour: nat, minute: nat, second: nat): string {
    Padded(hour, 2) + Padded(minute, 2) + Padded(second, 2)
  }

  /** The six numeric fields a stamp shows. */
  datatype StampFields = StampFields(year: nat, month: nat, day: nat, hour: nat, minute: nat, second: nat)

  /**
   * Reads a `yyyyMMdd'T'HHmmss'Z'` stamp back into its fields; None for any
   * text of another shape.
   */
  function ParseStamp(r: string): Option<StampFields> {
    if |r| == 16 && r[8] == 'T' && r[15] == 'Z' && AllDigits(r[..8]) && AllDigits(r[9..15]) then
      Some(ReadFields(r[..8], r[9..15]))
    else
      None
  }

  /** The fields of the eight date digits and the six time digits of a stamp. */
  function ReadFields(date: string, time: string): StampFields
    requires |date| == 8 && |time| == 6 && AllDigits(date) && AllDigits(time)
  {
    StampFields(ValueOf(date[..4]), ValueOf(date[4..6]), ValueOf(date[6..]),
                ValueOf(time[..2]), ValueOf(time[2..4]), ValueOf(time[4..]))
  }

  /** Date digits of widths 4, 2 and 2 joined read back as the values of the pieces. */
  lemma DatePieces(y: string, mo: string, da: string)
    requires |y| == 4 && |mo| == 2 && |da| == 2
    requires AllDigits(y) && AllDigits(mo) && AllDigits(da)
    ensures var s := y + mo + da;
      && AllDigits(s) && ValueOf(s[..4]) == ValueOf(y) && ValueOf(s[4..6]) == ValueOf(mo) && ValueOf(s[6..]) == ValueOf(da)
  {
    var s := y + mo + da;
    forall i | 0 <= i < 8 ensures IsDigit(s[i]) {
      if i < 4 { assert s[i] == y[i]; } else if i < 6 { assert s[i] == mo[i - 4]; } else { assert s[i] == da[i - 6]; }
    }
    assert s[..4] == y && s[4..6] == mo && s[6..] == da;
  }

  /** Time digits of widths 2, 2 and 2 joined read back as the values of the pieces. */
  lemma TimePieces(hh: string, mi: string, ss: string)
    requires |hh| == 2 && |mi| == 2 && |ss| == 2
    requires AllDigits(hh) && AllDigits(mi) && AllDigits(ss)
    ensures var s := hh + mi + ss;
      && AllDigits(s) && ValueOf(s[..2]) == ValueOf(hh) && ValueOf(s[2..4]) == ValueOf(mi) && ValueOf(s[4..]) == ValueOf(ss)
  {
    var s := hh + mi + ss;
    forall i | 0 <= i < 6 ensures IsDigit(s[i]) {
      if i < 2 { assert s[i] == hh[i]; } else if i < 4 { assert s[i] == mi[i - 2]; } else { assert s[i] == ss[i - 4]; }
    }
    assert s[..2] == hh && s[2..4] == mi && s[4..] == ss;
  }

  /** Digit pieces of widths 4, 2, 2 and 2, 2, 2 read back as the values of the pieces. */
  lemma ReadFieldsPieces(y: string, mo: string, da: string, hh: string, mi: string, ss: string)
    requires |y| == 4 && |mo| == 2 && |da| == 2 && |hh| == 2 && |mi| == 2 && |ss| == 2
    requires AllDigits(y) && AllDigits(mo) && AllDigits(da) && AllDigits(hh) && AllDigits(mi) && AllDigits(ss)
    ensures AllDigits(y + mo + da) && AllDigits(hh + mi + ss)
    ensures ReadFields(y + mo + da, hh + mi + ss)
            == StampFields(ValueOf(y), ValueOf(mo), ValueOf(da), ValueOf(hh), ValueOf(mi), ValueOf(ss))
  {
    DatePieces(y, mo, da);
    TimePieces(hh, mi, ss);
  }

  /** The stamp frame around date and time digits reads back as the fields of those digits. */
  lemma ParseStampFrame(date: string, time: string)
    requires |date| == 8 && |time| == 6 && AllDigits(date) && AllDigits(time)
    ensures ParseStamp(date + "T" + time + "Z") == Some(ReadFields(date, time))
  {
    var r := date + "T" + time + "Z";
    assert r[..8] == date;
    assert r[9..15] == time;
  }

  /** A number below `10^width` pads to exactly `width` digits that read back as the number. */
  lemma PaddedField(n: nat, width: nat)
    requires width >= 1 && n < Pow10(width)
    ensures |Padded(n, width)| == width && AllDigits(Padded(n, width)) && ValueOf(Padded(n, width)) == n
  {
    PaddedLength(n, width);
    ValueOfPadded(n, width);
  }

  /** For a year of the era up to 9999 the stamp reads back as the date and time it was made from. */
  lemma ParseStampText(d: Date, hour: nat, minute: nat, second: nat)
    requires ValidDate(d) && EraYear(d.year) <= 9999 && hour < 24 && minute < 60 && second < 60
    ensures ParseStamp(StampText(d, hour, minute, second))
            == Some(StampFields(EraYear(d.year), d.month, d.day, hour, minute, second))
  {
    assert Pow10(2) == 100 && Pow10(4) == 10000;
    var y, mo, da := Padded(EraYear(d.year), 4), Padded(d.month, 2), Padded(d.day, 2);
    var hh, mi, ss := Padded(hour, 2), Padded(minute, 2), Padded(second, 2);
    PaddedField(EraYear(d.year), 4);
    PaddedField(d.month, 2);
    PaddedField(d.day, 2);
    PaddedField(hour, 2);
    PaddedField(minute, 2);
    PaddedField(second, 2);
    ReadFieldsPieces(y, mo, da, hh, mi, ss);
    ParseStampFrame(y + mo + da, hh + mi + ss);
  }

  /**
   * For years of the era 1..9999 the stamp of `t` reads back as the local
   * year, month, day, hour, minute and second of `t`.
   */
  lemma ParseFormatICSDate(t: int, zone: int)
    requires EraYear(CivilFromDays(LocalDay(t, zone)).year) <= 9999
    ensures var d := CivilFromDays(LocalDay(t, zone));
      ParseStamp(FormatICSDate(t, zone))
      == Some(StampFields(EraYear(d.year), d.month, d.day, HourOf(t, zone), MinuteOf(t, zone), SubMinute(t, zone) / SecondMs))
  {
    ParseStampText(CivilFromDays(LocalDay(t, zone)), HourOf(t, zone), MinuteOf(t, zone), SubMinute(t, zone) / SecondMs);
  }

  /** The stamp shows the wall-clock time of the zone but labels it UTC: it is the UTC stamp of `t + zone`. */
  lemma LocalTimeLabelledUtc(t: int, zone: int)
    ensures FormatICSDate(t, zone) == FormatICSDate(t + zone, 0)
  {
  }

  // ---------------------------------------------------------------------------
  // Content lines

  /** `lines.join(sep)` */
  function Join(lines: seq<string>, sep: string): string {
    if lines == [] then ""
    else if |lines| == 1 then lines[0]
    else lines[0] + sep + Join(lines[1..], sep)
  }

  lemma {:induction false} JoinConcat(a: seq<string>, b: seq<string>, sep: string)
    requires a != [] && b != []
    ensures Join(a + b, sep) == Join(a, sep) + sep + Join(b, sep)
  {
    if |a| == 1 {
      assert (a + b)[1..] == b;
    } else {
      assert (a + b)[1..] == a[1..] + b;
      JoinConcat(a[1..], b, sep);
    }
  }

  /** `.filter(Boolean)`: the empty strings dropped. */
  function NonEmpty(lines: seq<string>): seq<string> {
    if lines == [] then [] else (if |lines[0]| == 0 then [] else [lines[0]]) + NonEmpty(lines[1..])
  }

  lemma {:induction false} NonEmptyConcat(a: seq<string>, b: seq<string>)
    ensures NonEmpty(a + b) == NonEmpty(a) + NonEmpty(b)
  {
    if a == [] {
      assert a + b == b;
    } else {
      assert (a + b)[1..] == a[1..] + b;
      NonEmptyConcat(a[1..], b);
    }
  }

  const UidDomain: string := "@calendar.aetechsolutions.net"

  /** `event.description ? ... : ''` and the same for the location: absent or empty gives no line. */
  function TextLine(name: string, value: Option<string>): string {
    if value.Some? && value.value != "" then name + ":" + EscapeText(value.value) else ""
  }

  /** `event.attendees?.length ? ... : ''`: attendees joined with ',', unescaped. */
  function AttendeeLine(attendees: Option<seq<string>>): string {
    if attendees.Some? && |attendees.value| > 0 then "ATTENDEE:" + Join(attendees.value, ",") else ""
  }

  /** The VEVENT array before filtering, with '' where an optional line is left out. */
  function RawVEvent(e: Event, stamp: string, zone: int): seq<string> {
    VEventArray(e.id, stamp, FormatICSDate(e.start, zone), FormatICSDate(e.end, zone), EscapeText(e.title),
                TextLine("DESCRIPTION", e.description), TextLine("LOCATION", e.location), AttendeeLine(e.attendees))
  }

  /** The ten entries of the VEVENT array, given the texts that go into them. */
  function VEventArray(id: string, stamp: string, start: string, end: string, summary: string,
                       description: string, location: string, attendee: string): seq<string> {
    [ "BEGIN:VEVENT",
      "UID:" + id + UidDomain,
      "DTSTAMP:" + stamp,
      "DTSTART:" + start,
      "DTEND:" + end,
      "SUMMARY:" + summary,
      description,
      location,
      attendee,
      "END:VEVENT" ]
  }

  /** The lines of one VEVENT block. */
  function VEventLines(e: Event, stamp: string, zone: int): seq<string> {
    NonEmpty(RawVEvent(e, stamp, zone))
  }

  function Optional(line: string): seq<string> {
    if |line| == 0 then [] else [line]
  }

  lemma {:induction false} NonEmptyKeepsAll(lines: seq<string>)
    requires forall i :: 0 <= i < |lines| ==> |lines[i]| > 0
    ensures NonEmpty(lines) == lines
  {
    if lines != [] {
      NonEmptyKeepsAll(lines[1..]);
    }
  }

  lemma NonEmptyCons(line: string, rest: seq<string>)
    ensures NonEmpty([line] + rest) == Optional(line) + NonEmpty(rest)
  {
    assert ([line] + rest)[1..] == rest;
  }

  /** Filtering four lines of which the last is not empty. */
  lemma NonEmptyFour(a: string, b: string, c: string, d: string)
    requires |d| > 0
    ensures NonEmpty([a, b, c, d]) == Optional(a) + Optional(b) + Optional(c) + [d]
  {
    assert [a, b, c, d] == [a] + [b, c, d] && [b, c, d] == [b] + [c, d] && [c, d] == [c] + [d];
    NonEmptyCons(a, [b, c, d]);
    NonEmptyCons(b, [c, d]);
    NonEmptyCons(c, [d]);
    NonEmptyKeepsAll([d]);
  }

  /** Filtering ten lines of which the first six and the last are not empty. */
  lemma NonEmptyTen(lines: seq<string>)
    requires |lines| == 10
    requires forall i :: 0 <= i < 6 ==> |lines[i]| > 0
    requires |lines[9]| > 0
    ensures NonEmpty(lines) == lines[..6] + Optional(lines[6]) + Optional(lines[7]) + Optional(lines[8]) + [lines[9]]
  {
    var tail := [lines[6], lines[7], lines[8], lines[9]];
    assert lines == lines[..6] + tail;
    NonEmptyFour(lines[6], lines[7], lines[8], lines[9]);
    NonEmptyConcat(lines[..6], tail);
    NonEmptyKeepsAll(lines[..6]);
  }

  lemma VEventArrayFiltered(id: string, stamp: string, start: string, end: string, summary: string,
                             description: string, location: string, attendee: string)
    ensures NonEmpty(VEventArray(id, stamp, start, end, summary, description, location, attendee))
         == [ "BEGIN:VEVENT", "UID:" + id + UidDomain, "DTSTAMP:" + stamp, "DTSTART:" + start,
              "DTEND:" + end, "SUMMARY:" + summary ]
            + Optional(description) + Optional(location) + Optional(attendee) + ["END:VEVENT"]
  {
    var raw := VEventArray(id, stamp, start, end, summary, description, location, attendee);
    assert |raw[0]| > 0 && |raw[1]| > 0 && |raw[2]| > 0 && |raw[3]| > 0 && |raw[4]| > 0 && |raw[5]| > 0;
    NonEmptyTen(raw);
  }

  /**
   * A VEVENT block is BEGIN, UID, DTSTAMP, DTSTART, DTEND and SUMMARY, then
   * the DESCRIPTION, LOCATION and ATTENDEE lines only when the field is
   * present and not empty, then END.
   */
  lemma VEventLinesShape(e: Event, stamp: string, zone: int)
    ensures VEventLines(e, stamp, zone)
         == [ "BEGIN:VEVENT", "UID:" + e.id + UidDomain, "DTSTAMP:" + stamp,
              "DTSTART:" + FormatICSDate(e.start, zone), "DTEND:" + FormatICSDate(e.end, zone),
              "SUMMARY:" + EscapeText(e.title) ]
            + Optional(TextLine("DESCRIPTION", e.description))
            + Optional(TextLine("LOCATION", e.location))
            + Optional(AttendeeLine(e.attendees))
            + ["END:VEVENT"]
  {
    VEventArrayFiltered(e.id, stamp, FormatICSDate(e.start, zone), FormatICSDate(e.end, zone), EscapeText(e.title),
                        TextLine("DESCRIPTION", e.description), TextLine("LOCATION", e.location), AttendeeLine(e.attendees));
  }

  /** The optional lines are left out exactly when the field is absent or empty. */
  lemma OptionalLinesOmitted(e: Event)
    ensures Optional(TextLine("DESCRIPTION", e.description)) == [] <==> e.description.None? || e.description == Some("")
    ensures Optional(TextLine("LOCATION", e.location)) == [] <==> e.location.None? || e.location == Some("")
    ensures Optional(AttendeeLine(e.attendees)) == [] <==> e.attendees.None? || e.attendees == Some([])
  {
  }

  // ---------------------------------------------------------------------------
  // The documents

  const Prolog: seq<string> := ["BEGIN:VCALENDAR", "VERSION:2.0", "PRODID:-//Calendar App//EN", "METHOD:PUBLISH"]

  const CalendarHeader: seq<string> := Prolog + ["X-WR-CALNAME:My Calendar", "X-WR-TIMEZONE:UTC"]

  /** `generateICS(event)` with the clock reading `now`. */
  function GenerateICS(e: Event, now: int, zone: int): string {
    Join(NonEmpty(Prolog + RawVEvent(e, FormatICSDate(now, zone), zone) + ["END:VCALENDAR"]), CRLF)
  }

  /** The VEVENT block of each event, in input order. */
  function VEventBlocks(events: seq<Event>, stamp: string, zone: int): (r: seq<seq<string>>)
    ensures |r| == |events|
    ensures forall i :: 0 <= i < |events| ==> r[i] == VEventLines(events[i], stamp, zone)
  {
    seq(|events|, i requires 0 <= i < |events| => VEventLines(events[i], stamp, zone))
  }

  /** `blocks.map(block => block.join(sep))` */
  function JoinEach(blocks: seq<seq<string>>, sep: string): seq<string> {
    if blocks == [] then [] else [Join(blocks[0], sep)] + JoinEach(blocks[1..], sep)
  }

  /** `generateCalendarICS(events)` with the clock reading `now`. */
  function GenerateCalendarICS(events: seq<Event>, now: int, zone: int): string {
    Join(CalendarHeader + JoinEach(VEventBlocks(events, FormatICSDate(now, zone), zone), CRLF) + ["END:VCALENDAR"], CRLF)
  }

  /** How many of the lines are exactly `line`. */
  function Count(lines: seq<string>, line: string): nat {
    if lines == [] then 0 else (if lines[0] == line then 1 else 0) + Count(lines[1..], line)
  }

  lemma {:induction false} CountConcat(a: seq<string>, b: seq<string>, line: string)
    ensures Count(a + b, line) == Count(a, line) + Count(b, line)
  {
    if a == [] {
      assert a + b == b;
    } else {
      assert (a + b)[1..] == a[1..] + b;
      CountConcat(a[1..], b, line);
    }
  }

  /** The calendar prolog has no empty line and no BEGIN:VEVENT line. */
  lemma PrologFacts()
    ensures NonEmpty(Prolog) == Prolog && Count(Prolog, "BEGIN:VEVENT") == 0
  {
    NonEmptyKeepsAll(Prolog);
    var b := "BEGIN:VEVENT";
    assert Prolog[3..][1..] == [] && Prolog[3][0] != b[0];
    assert Count(Prolog[3..], b) == 0;
    assert Prolog[2..][1..] == Prolog[3..] && Prolog[2][0] != b[0];
    assert Count(Prolog[2..], b) == 0;
    assert Prolog[1..][1..] == Prolog[2..] && Prolog[1][0] != b[0];
    assert Count(Prolog[1..], b) == 0;
    assert Prolog[0][7] != b[7];
  }

  /** Wrapping lines in the prolog and END:VCALENDAR keeps them as filtered and adds no BEGIN:VEVENT. */
  lemma WrapInCalendar(raw: seq<string>)
    ensures NonEmpty(Prolog + raw + ["END:VCALENDAR"]) == Prolog + NonEmpty(raw) + ["END:VCALENDAR"]
    ensures Count(Prolog + NonEmpty(raw) + ["END:VCALENDAR"], "BEGIN:VEVENT") == Count(NonEmpty(raw), "BEGIN:VEVENT")
  {
    NonEmptyConcat(Prolog + raw, ["END:VCALENDAR"]);
    NonEmptyConcat(Prolog, raw);
    PrologFacts();
    NonEmptyKeepsAll(["END:VCALENDAR"]);
    CountConcat(Prolog + NonEmpty(raw), ["END:VCALENDAR"], "BEGIN:VEVENT");
    CountConcat(Prolog, NonEmpty(raw), "BEGIN:VEVENT");
  }

  /**
   * `generateICS` is the CRLF join of the prolog, the event's VEVENT block and
   * END:VCALENDAR: it opens with BEGIN:VCALENDAR, closes with END:VCALENDAR
   * and holds exactly one BEGIN:VEVENT.
   */
  lemma GenerateICSShape(e: Event, now: int, zone: int)
    ensures var lines := Prolog + VEventLines(e, FormatICSDate(now, zone), zone) + ["END:VCALENDAR"];
      && GenerateICS(e, now, zone) == Join(lines, CRLF)
      && lines[0] == "BEGIN:VCALENDAR" && lines[|lines| - 1] == "END:VCALENDAR"
      && Count(lines, "BEGIN:VEVENT") == 1
  {
    var stamp := FormatICSDate(now, zone);
    WrapInCalendar(RawVEvent(e, stamp, zone));
    VEventBeginCount(e, stamp, zone);
  }

  lemma CountOptional(line: string, target: string)
    requires |target| > 0 && (|line| == 0 || line[0] != target[0])
    ensures Count(Optional(line), target) == 0
  {
  }

  lemma BeginCountInBlock(id: string, stamp: string, start: string, end: string, summary: string,
                          description: string, location: string, attendee: string)
    requires |description| == 0 || description[0] != 'B'
    requires |location| == 0 || location[0] != 'B'
    requires |attendee| == 0 || attendee[0] != 'B'
    ensures Count([ "BEGIN:VEVENT", "UID:" + id + UidDomain, "DTSTAMP:" + stamp, "DTSTART:" + start,
                    "DTEND:" + end, "SUMMARY:" + summary ]
                  + Optional(description) + Optional(location) + Optional(attendee) + ["END:VEVENT"],
                  "BEGIN:VEVENT") == 1
  {
    var b := "BEGIN:VEVENT";
    var fixed := [ "BEGIN:VEVENT", "UID:" + id + UidDomain, "DTSTAMP:" + stamp, "DTSTART:" + start,
                   "DTEND:" + end, "SUMMARY:" + summary ];
    var d, l, a := Optional(description), Optional(location), Optional(attendee);
    CountConcat(fixed + d + l + a, ["END:VEVENT"], b);
    CountConcat(fixed + d + l, a, b);
    CountConcat(fixed + d, l, b);
    CountConcat(fixed, d, b);
    CountOptional(description, b);
    CountOptional(location, b);
    CountOptional(attendee, b);
    assert Count(["END:VEVENT"], b) == 0 by {
      assert "END:VEVENT"[0] != b[0];
    }
    assert Count(fixed, b) == 1 by {
      assert fixed[5..][1..] == [];
      assert fixed[5][0] != b[0];
      assert Count(fixed[5..], b) == 0;
      assert fixed[4..][1..] == fixed[5..] && fixed[4][0] != b[0];
      assert Count(fixed[4..], b) == 0;
      assert fixed[3..][1..] == fixed[4..] && fixed[3][0] != b[0];
      assert Count(fixed[3..], b) == 0;
      assert fixed[2..][1..] == fixed[3..] && fixed[2][0] != b[0];
      assert Count(fixed[2..], b) == 0;
      assert fixed[1..][1..] == fixed[2..] && fixed[1][0] != b[0];
      assert Count(fixed[1..], b) == 0;
    }
  }

  /** A VEVENT block has exactly one BEGIN:VEVENT line. */
  lemma VEventBeginCount(e: Event, stamp: string, zone: int)
    ensures Count(VEventLines(e, stamp, zone), "BEGIN:VEVENT") == 1
  {
    VEventLinesShape(e, stamp, zone);
    BeginCountInBlock(e.id, stamp, FormatICSDate(e.start, zone), FormatICSDate(e.end, zone), EscapeText(e.title),
                      TextLine("DESCRIPTION", e.description), TextLine("LOCATION", e.location), AttendeeLine(e.attendees));
  }

  /** The lines of several blocks, one block after the other. */
  function Flatten(blocks: seq<seq<string>>): seq<string> {
    if blocks == [] then [] else blocks[0] + Flatten(blocks[1..])
  }

  /** Joining each of some non-empty blocks and then the results gives the join of all their lines. */
  lemma {:induction false} JoinEachFlatten(blocks: seq<seq<string>>, sep: string)
    requires blocks != []
    requires forall i :: 0 <= i < |blocks| ==> blocks[i] != []
    ensures JoinEach(blocks, sep) != [] && Flatten(blocks) != []
    ensures Join(JoinEach(blocks, sep), sep) == Join(Flatten(blocks), sep)
    decreases |blocks|
  {
    var rest := blocks[1..];
    if rest == [] {
      assert Flatten(blocks) == blocks[0] + [] == blocks[0];
    } else {
      assert forall i :: 0 <= i < |rest| ==> rest[i] == blocks[i + 1];
      JoinEachFlatten(rest, sep);
      JoinConcat([Join(blocks[0], sep)], JoinEach(rest, sep), sep);
      JoinConcat(blocks[0], Flatten(rest), sep);
    }
  }

  /** Joining each block first and then the whole gives the join of all the blocks' lines. */
  lemma JoinFlatten(head: seq<string>, blocks: seq<seq<string>>, tail: seq<string>, sep: string)
    requires head != [] && tail != []
    requires forall i :: 0 <= i < |blocks| ==> blocks[i] != []
    ensures Join(head + JoinEach(blocks, sep) + tail, sep) == Join(head + Flatten(blocks) + tail, sep)
  {
    if blocks == [] {
      assert head + JoinEach(blocks, sep) + tail == head + tail == head + Flatten(blocks) + tail;
    } else {
      JoinEachFlatten(blocks, sep);
      JoinConcat(head + JoinEach(blocks, sep), tail, sep);
      JoinConcat(head, JoinEach(blocks, sep), sep);
      JoinConcat(head + Flatten(blocks), tail, sep);
      JoinConcat(head, Flatten(blocks), sep);
    }
  }

  /** Blocks that each hold `line` once hold it once per block together. */
  lemma {:induction false} CountFlatten(blocks: seq<seq<string>>, line: string)
    requires forall i :: 0 <= i < |blocks| ==> Count(blocks[i], line) == 1
    ensures Count(Flatten(blocks), line) == |blocks|
  {
    if blocks != [] {
      assert forall i :: 0 <= i < |blocks[1..]| ==> blocks[1..][i] == blocks[i + 1];
      CountFlatten(blocks[1..], line);
      CountConcat(blocks[0], Flatten(blocks[1..]), line);
    }
  }

  /** The calendar header has no BEGIN:VEVENT line. */
  lemma HeaderBeginCount()
    ensures Count(CalendarHeader, "BEGIN:VEVENT") == 0
  {
    var x := ["X-WR-CALNAME:My Calendar", "X-WR-TIMEZONE:UTC"];
    PrologFacts();
    assert x[1..][1..] == [] && x[1][0] != 'B' && x[0][0] != 'B';
    CountConcat(Prolog, x, "BEGIN:VEVENT");
  }

  /** A document of a header, blocks and a closing line, as lines and as counted. */
  lemma DocumentShape(head: seq<string>, blocks: seq<seq<string>>, close: string, line: string)
    requires head != [] && Count(head, line) == 0 && close != line
    requires forall i :: 0 <= i < |blocks| ==> blocks[i] != [] && Count(blocks[i], line) == 1
    ensures Join(head + JoinEach(blocks, CRLF) + [close], CRLF) == Join(head + Flatten(blocks) + [close], CRLF)
    ensures Count(head + Flatten(blocks) + [close], line) == |blocks|
    ensures var lines := head + Flatten(blocks) + [close];
      lines[..|head|] == head && lines[|lines| - 1] == close
  {
    JoinFlatten(head, blocks, [close], CRLF);
    CountFlatten(blocks, line);
    CountConcat(head + Flatten(blocks), [close], line);
    CountConcat(head, Flatten(blocks), line);
  }

  /**
   * `generateCalendarICS` is the CRLF join of the six-line header, the
   * VEVENT lines of every event in input order, and END:VCALENDAR; it holds
   * one BEGIN:VEVENT line per event.
   */
  lemma GenerateCalendarICSShape(events: seq<Event>, now: int, zone: int)
    ensures var lines := CalendarHeader + Flatten(VEventBlocks(events, FormatICSDate(now, zone), zone)) + ["END:VCALENDAR"];
      && GenerateCalendarICS(events, now, zone) == Join(lines, CRLF)
      && lines[..6] == CalendarHeader && lines[|lines| - 1] == "END:VCALENDAR"
      && Count(lines, "BEGIN:VEVENT") == |events|
  {
    var stamp := FormatICSDate(now, zone);
    var blocks := VEventBlocks(events, stamp, zone);
    forall i | 0 <= i < |blocks|
      ensures blocks[i] != [] && Count(blocks[i], "BEGIN:VEVENT") == 1
    {
      VEventBeginCount(events[i], stamp, zone);
    }
    HeaderBeginCount();
    assert |CalendarHeader| == 6;
    DocumentShape(CalendarHeader, blocks, "END:VCALENDAR", "BEGIN:VEVENT");
  }

  /** For a single event the calendar text differs from `generateICS` only by the two X-WR header lines. */
  lemma SingleEventCalendarICS(e: Event, now: int, zone: int)
    ensures GenerateCalendarICS([e], now, zone)
         == Join(CalendarHeader + VEventLines(e, FormatICSDate(now, zone), zone) + ["END:VCALENDAR"], CRLF)
  {
    var stamp := FormatICSDate(now, zone);
    var block := VEventLines(e, stamp, zone);
    VEventBeginCount(e, stamp, zone);
    assert VEventBlocks([e], stamp, zone) == [block];
    FlattenSingle(CalendarHeader, block, ["END:VCALENDAR"], CRLF);
  }

  lemma FlattenSingle(head: seq<string>, block: seq<string>, tail: seq<string>, sep: string)
    requires head != [] && block != [] && tail != []
    ensures Join(head + JoinEach([block], sep) + tail, sep) == Join(head + block + tail, sep)
  {
    JoinFlatten(head, [block], tail, sep);
    assert [block][1..] == [];
    assert Flatten([block]) == block + [] == block;
    assert head + Flatten([block]) + tail == head + block + tail;
  }
}
