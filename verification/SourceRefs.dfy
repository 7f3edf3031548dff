/** The OKR and calendar source references: printers, parsers, and the round trips between them. */
module SourceRefs {
  import opened Wrappers
  import opened Text
  import opened Utf8
  import opened UrlEncoding

  /** Unicode general category Cc, as `char::is_control`. */
  predicate IsControl(c: char) {
    (c as int) < 0x20 || 0x7F <= c as int < 0xA0
  }

  /** Which of two prefixes a string carries, tried in order with `strip_prefix`, and what follows it. */
  datatype Stripped = First(rest: string) | Second(rest: string) | Neither

  function StripEither(s: string, first: string, second: string): Stripped {
    if first <= s then First(s[|first|..])
    else if second <= s then Second(s[|second|..])
    else Neither
  }

  lemma StripFirst(first: string, second: string, rest: string)
    ensures StripEither(first + rest, first, second) == First(rest)
  {
    assert (first + rest)[..|first|] == first;
  }

  /** The second prefix is found when the string differs from the first one at some place. */
  lemma StripSecond(first: string, second: string, rest: string, i: nat)
    requires i < |first| && i < |second + rest| && first[i] != (second + rest)[i]
    ensures StripEither(second + rest, first, second) == Second(rest)
  {
    assert (second + rest)[..|second|] == second;
    assert (second + rest)[i] != first[i];
  }

  lemma {:induction false} JoinCons(a: string, rest: seq<string>, sep: char)
    requires rest != []
    ensures Join([a] + rest, sep) == a + [sep] + Join(rest, sep)
  {
    assert ([a] + rest)[1..] == rest;
  }

  lemma JoinFive(a: string, b: string, c: string, d: string, e: string, sep: char)
    ensures Join([a, b, c, d, e], sep) == a + [sep] + (b + [sep] + (c + [sep] + (d + [sep] + e)))
  {
    assert [a, b, c, d, e] == [a] + ([b] + ([c] + ([d] + [e])));
    JoinCons(d, [e], sep);
    JoinCons(c, [d] + [e], sep);
    JoinCons(b, [c] + ([d] + [e]), sep);
    JoinCons(a, [b] + ([c] + ([d] + [e])), sep);
  }

  lemma JoinThree(a: string, b: string, c: string, sep: char)
    ensures Join([a, b, c], sep) == a + [sep] + (b + [sep] + c)
  {
    assert [a, b, c] == [a] + ([b] + [c]);
    JoinCons(b, [c], sep);
    JoinCons(a, [b] + [c], sep);
  }

  // ---------------------------------------------------------------- OKR key results

  datatype OkrKrSourceRef = OkrKrSourceRef(okrId: string, objectiveId: string, krId: string)

  predicate ValidOkrComponent(s: string) {
    s != [] && |s| <= 100 && forall i :: 0 <= i < |s| ==> !IsControl(s[i])
  }

  predicate ValidOkr(r: OkrKrSourceRef) {
    ValidOkrComponent(r.okrId) && ValidOkrComponent(r.objectiveId) && ValidOkrComponent(r.krId)
  }

  function OkrPath(a: string, b: string, c: string): string {
    "okr://" + a + "/objectives/" + b + "/krs/" + c
  }

  function OkrColon(a: string, b: string, c: string): string {
    "okr:" + a + ":objective:" + b + ":kr:" + c
  }

  function OkrSourceRef(r: OkrKrSourceRef): string {
    OkrPath(Encoded(r.okrId), Encoded(r.objectiveId), Encoded(r.krId))
  }

  function OkrSourceId(r: OkrKrSourceRef): string {
    OkrColon(Encoded(r.okrId), Encoded(r.objectiveId), Encoded(r.krId))
  }

  function DecodeOkr(okrId: string, objectiveId: string, krId: string): Option<OkrKrSourceRef> {
    match (Decoded(okrId, ValidOkrComponent), Decoded(objectiveId, ValidOkrComponent), Decoded(krId, ValidOkrComponent))
    case (Some(a), Some(b), Some(c)) =>
      var r := OkrKrSourceRef(a, b, c);
      if ValidOkr(r) then Some(r) else None
    case _ => None
  }

  function ParseOkrSegments(segments: seq<string>, second: string, fourth: string): Option<OkrKrSourceRef> {
    if |segments| != 5 then None
    else if segments[1] != second || segments[3] != fourth then None
    else DecodeOkr(segments[0], segments[2], segments[4])
  }

  function ParseOkrRest(r: Stripped): Option<OkrKrSourceRef> {
    match r
    case First(rest) => ParseOkrSegments(Split(rest, '/'), "objectives", "krs")
    case Second(rest) => ParseOkrSegments(Split(rest, ':'), "objective", "kr")
    case Neither => None
  }

  function ParseOkrKrSourceRef(sourceRef: string): Option<OkrKrSourceRef> {
    ParseOkrRest(StripEither(Trim(sourceRef), "okr://", "okr:"))
  }

  lemma DecodeOkrOfEncoded(r: OkrKrSourceRef)
    ensures DecodeOkr(Encoded(r.okrId), Encoded(r.objectiveId), Encoded(r.krId))
         == if ValidOkr(r) then Some(r) else None
  {
    DecodedOfEncoded(r.okrId, ValidOkrComponent);
    DecodedOfEncoded(r.objectiveId, ValidOkrComponent);
    DecodedOfEncoded(r.krId, ValidOkrComponent);
  }

  lemma OkrPathIsJoin(a: string, b: string, c: string)
    ensures OkrPath(a, b, c) == "okr://" + Join([a, "objectives", b, "krs", c], '/')
  {
    JoinFive(a, "objectives", b, "krs", c, '/');
    var t := b + ['/'] + ("krs" + ['/'] + c);
    assert t == b + "/krs/" + c;
    assert a + ['/'] + ("objectives" + ['/'] + t) == a + "/objectives/" + t;
    assert "okr://" + (a + "/objectives/" + t) == OkrPath(a, b, c);
  }

  lemma OkrColonIsJoin(a: string, b: string, c: string)
    ensures OkrColon(a, b, c) == "okr:" + Join([a, "objective", b, "kr", c], ':')
  {
    JoinFive(a, "objective", b, "kr", c, ':');
    var t := b + [':'] + ("kr" + [':'] + c);
    assert t == b + ":kr:" + c;
    assert a + [':'] + ("objective" + [':'] + t) == a + ":objective:" + t;
    assert "okr:" + (a + ":objective:" + t) == OkrColon(a, b, c);
  }

  /** Cutting a printed reference at its separator gives back its five segments. */
  lemma FiveSegments(r: OkrKrSourceRef, second: string, fourth: string, sep: char)
    requires sep in {'/', ':'} && !Contains(second, sep) && !Contains(fourth, sep)
    ensures var parts := [Encoded(r.okrId), second, Encoded(r.objectiveId), fourth, Encoded(r.krId)];
            Split(Join(parts, sep), sep) == parts
  {
    EncodedAvoids(r.okrId, sep);
    EncodedAvoids(r.objectiveId, sep);
    EncodedAvoids(r.krId, sep);
    SplitJoin([Encoded(r.okrId), second, Encoded(r.objectiveId), fourth, Encoded(r.krId)], sep);
  }

  /** A printed reference needs no trimming: it starts with a letter and ends in the encoding of its last part. */
  lemma PrintedTrimmed(head: string, last: string)
    requires head != [] && !IsWhitespace(head[0]) && !IsWhitespace(head[|head| - 1])
    ensures Trim(head + Encoded(last)) == head + Encoded(last)
  {
    EncodedTrimmed(last);
    TrimIsIdempotent(head + Encoded(last));
  }

  lemma OkrPathTrimmed(a: string, b: string, last: string)
    ensures Trim(OkrPath(a, b, Encoded(last))) == OkrPath(a, b, Encoded(last))
  {
    PrintedTrimmed("okr://" + a + "/objectives/" + b + "/krs/", last);
  }

  lemma OkrColonTrimmed(a: string, b: string, last: string)
    ensures Trim(OkrColon(a, b, Encoded(last))) == OkrColon(a, b, Encoded(last))
  {
    PrintedTrimmed("okr:" + a + ":objective:" + b + ":kr:", last);
  }

  lemma OkrPathStripped(r: OkrKrSourceRef)
    ensures StripEither(Trim(OkrSourceRef(r)), "okr://", "okr:")
         == First(Join([Encoded(r.okrId), "objectives", Encoded(r.objectiveId), "krs", Encoded(r.krId)], '/'))
  {
    var a, b, c := Encoded(r.okrId), Encoded(r.objectiveId), Encoded(r.krId);
    OkrPathTrimmed(a, b, r.krId);
    OkrPathIsJoin(a, b, c);
    StripFirst("okr://", "okr:", Join([a, "objectives", b, "krs", c], '/'));
  }

  lemma NamesAvoidSeparators()
    ensures !Contains("objectives", '/') && !Contains("krs", '/')
    ensures !Contains("objective", ':') && !Contains("kr", ':')
  {
  }

  lemma OkrPathSegments(r: OkrKrSourceRef)
    ensures var parts := [Encoded(r.okrId), "objectives", Encoded(r.objectiveId), "krs", Encoded(r.krId)];
            Split(Join(parts, '/'), '/') == parts
  {
    NamesAvoidSeparators();
    FiveSegments(r, "objectives", "krs", '/');
  }

  lemma OkrColonSegments(r: OkrKrSourceRef)
    ensures var parts := [Encoded(r.okrId), "objective", Encoded(r.objectiveId), "kr", Encoded(r.krId)];
            Split(Join(parts, ':'), ':') == parts
  {
    NamesAvoidSeparators();
    FiveSegments(r, "objective", "kr", ':');
  }

  /** What remains once the prefix is known and the segments are cut. */
  lemma ParseOfPathSegments(s: string, rest: string, a: string, b: string, c: string)
    requires StripEither(Trim(s), "okr://", "okr:") == First(rest)
    requires Split(rest, '/') == [a, "objectives", b, "krs", c]
    ensures ParseOkrKrSourceRef(s) == DecodeOkr(a, b, c)
  {
    assert ParseOkrRest(First(rest)) == ParseOkrSegments(Split(rest, '/'), "objectives", "krs");
  }

  lemma ParseOfColonSegments(s: string, rest: string, a: string, b: string, c: string)
    requires StripEither(Trim(s), "okr://", "okr:") == Second(rest)
    requires Split(rest, ':') == [a, "objective", b, "kr", c]
    ensures ParseOkrKrSourceRef(s) == DecodeOkr(a, b, c)
  {
    assert ParseOkrRest(Second(rest)) == ParseOkrSegments(Split(rest, ':'), "objective", "kr");
  }

  lemma OkrColonStripped(r: OkrKrSourceRef)
    ensures StripEither(Trim(OkrSourceId(r)), "okr://", "okr:")
         == Second(Join([Encoded(r.okrId), "objective", Encoded(r.objectiveId), "kr", Encoded(r.krId)], ':'))
  {
    var a, b, c := Encoded(r.okrId), Encoded(r.objectiveId), Encoded(r.krId);
    OkrColonTrimmed(a, b, r.krId);
    OkrColonIsJoin(a, b, c);
    EncodedAvoids(r.okrId, '/');
    ColonFormNeedsItsOwnPrefix(a, b, c);
  }

  lemma ColonFormNeedsItsOwnPrefix(a: string, b: string, c: string)
    requires !Contains(a, '/')
    ensures StripEither("okr:" + Join([a, "objective", b, "kr", c], ':'), "okr://", "okr:")
         == Second(Join([a, "objective", b, "kr", c], ':'))
  {
    var joined := Join([a, "objective", b, "kr", c], ':');
    JoinFive(a, "objective", b, "kr", c, ':');
    assert ("okr:" + joined)[4] == joined[0] == (a + [':'])[0] != '/';
    StripSecond("okr://", "okr:", joined, 4);
  }

  /** For every reference, valid or not: its path form parses back exactly when it is valid. */
  lemma OkrSourceRefRoundTrip(r: OkrKrSourceRef)
    ensures ParseOkrKrSourceRef(OkrSourceRef(r)) == if ValidOkr(r) then Some(r) else None
  {
    var a, b, c := Encoded(r.okrId), Encoded(r.objectiveId), Encoded(r.krId);
    OkrPathStripped(r);
    OkrPathSegments(r);
    ParseOfPathSegments(OkrSourceRef(r), Join([a, "objectives", b, "krs", c], '/'), a, b, c);
    DecodeOkrOfEncoded(r);
  }

  /** So does its colon form, which the parser can never take for the path form. */
  lemma OkrSourceIdRoundTrip(r: OkrKrSourceRef)
    ensures ParseOkrKrSourceRef(OkrSourceId(r)) == if ValidOkr(r) then Some(r) else None
  {
    var a, b, c := Encoded(r.okrId), Encoded(r.objectiveId), Encoded(r.krId);
    OkrColonStripped(r);
    OkrColonSegments(r);
    ParseOfColonSegments(OkrSourceId(r), Join([a, "objective", b, "kr", c], ':'), a, b, c);
    DecodeOkrOfEncoded(r);
  }

  /** What the code asks of a component: one to `limit` characters, none of them a control character. */
  predicate ShortAndClean(s: string, limit: nat) {
    && 1 <= |s| <= limit
    && forall i :: 0 <= i < |s| ==> 0x20 <= s[i] as int < 0x7F || 0xA0 <= s[i] as int
  }

  /** Ordinary references, with ids of letters, digits and `-_.~`, parse as they stand in both forms. */
  lemma OrdinaryOkrParses(a: string, b: string, c: string)
    requires AllPlain(a) && AllPlain(b) && AllPlain(c)
    requires 1 <= |a| <= 100 && 1 <= |b| <= 100 && 1 <= |c| <= 100
    ensures ParseOkrKrSourceRef("okr://" + a + "/objectives/" + b + "/krs/" + c) == Some(OkrKrSourceRef(a, b, c))
    ensures ParseOkrKrSourceRef("okr:" + a + ":objective:" + b + ":kr:" + c) == Some(OkrKrSourceRef(a, b, c))
  {
    var r := OkrKrSourceRef(a, b, c);
    PlainIsUnchanged(a);
    PlainIsUnchanged(b);
    PlainIsUnchanged(c);
    PlainIsValid(r);
    OkrSourceRefRoundTrip(r);
    OkrSourceIdRoundTrip(r);
    OrdinaryPrints(r);
  }

  lemma PlainIsValid(r: OkrKrSourceRef)
    requires AllPlain(r.okrId) && AllPlain(r.objectiveId) && AllPlain(r.krId)
    requires 1 <= |r.okrId| <= 100 && 1 <= |r.objectiveId| <= 100 && 1 <= |r.krId| <= 100
    ensures ValidOkr(r)
  {
  }

  lemma OrdinaryPrints(r: OkrKrSourceRef)
    requires Encoded(r.okrId) == r.okrId && Encoded(r.objectiveId) == r.objectiveId && Encoded(r.krId) == r.krId
    ensures OkrSourceRef(r) == "okr://" + r.okrId + "/objectives/" + r.objectiveId + "/krs/" + r.krId
    ensures OkrSourceId(r) == "okr:" + r.okrId + ":objective:" + r.objectiveId + ":kr:" + r.krId
  {
  }

  /** Whatever the parser accepts, in either form, with white space around it or with any legal escapes, is a valid
      reference; and both canonical forms of it parse to the same reference. */
  lemma AcceptedOkrIsCanonical(s: string)
    requires ParseOkrKrSourceRef(s).Some?
    ensures var r := ParseOkrKrSourceRef(s).value;
            && ShortAndClean(r.okrId, 100) && ShortAndClean(r.objectiveId, 100) && ShortAndClean(r.krId, 100)
            && ValidOkr(r)
            && ParseOkrKrSourceRef(OkrSourceRef(r)) == Some(r)
            && ParseOkrKrSourceRef(OkrSourceId(r)) == Some(r)
  {
    var r := ParseOkrKrSourceRef(s).value;
    OkrSourceRefRoundTrip(r);
    OkrSourceIdRoundTrip(r);
  }

  /** No two valid references print alike, within one form or across the two. */
  lemma OkrPrintersInjective(r1: OkrKrSourceRef, r2: OkrKrSourceRef)
    requires ValidOkr(r1) && ValidOkr(r2)
    ensures OkrSourceRef(r1) == OkrSourceRef(r2) ==> r1 == r2
    ensures OkrSourceId(r1) == OkrSourceId(r2) ==> r1 == r2
    ensures OkrSourceRef(r1) == OkrSourceId(r2) ==> r1 == r2
  {
    OkrSourceRefRoundTrip(r1);
    OkrSourceRefRoundTrip(r2);
    OkrSourceIdRoundTrip(r1);
    OkrSourceIdRoundTrip(r2);
  }

  // ---------------------------------------------------------------- calendar events

  datatype CalendarEventSourceRef = CalendarEventSourceRef(calendarId: string, eventId: string)

  predicate ValidCalendarComponent(s: string) {
    s != [] && |s| <= 256 && forall i :: 0 <= i < |s| ==> !IsControl(s[i]) && !IsWhitespace(s[i])
  }

  predicate ValidCalendar(r: CalendarEventSourceRef) {
    ValidCalendarComponent(r.calendarId) && ValidCalendarComponent(r.eventId)
  }

  function CalendarPath(a: string, b: string): string {
    a + "/events/" + b
  }

  function CalendarSourceRef(r: CalendarEventSourceRef): string {
    "calendar://" + CalendarPath(Encoded(r.calendarId), Encoded(r.eventId))
  }

  function ParseCalendarPath(path: string): Option<CalendarEventSourceRef> {
    var segments := Split(path, '/');
    if |segments| != 3 || segments[1] != "events" then None
    else match (Decoded(segments[0], ValidCalendarComponent), Decoded(segments[2], ValidCalendarComponent))
         case (Some(a), Some(b)) =>
           var r := CalendarEventSourceRef(a, b);
           if ValidCalendar(r) then Some(r) else None
         case _ => None
  }

  function ParseCalendarEventSourceRef(sourceRef: string): Option<CalendarEventSourceRef> {
    match StripEither(Trim(sourceRef), "calendar://", "feishu://calendar/")
    case First(path) => ParseCalendarPath(path)
    case Second(path) => ParseCalendarPath(path)
    case Neither => None
  }

  lemma CalendarPathIsJoin(a: string, b: string)
    ensures CalendarPath(a, b) == Join([a, "events", b], '/')
  {
    JoinThree(a, "events", b, '/');
  }

  lemma CalendarPathRoundTrip(r: CalendarEventSourceRef)
    ensures ParseCalendarPath(CalendarPath(Encoded(r.calendarId), Encoded(r.eventId)))
         == if ValidCalendar(r) then Some(r) else None
  {
    var a, b := Encoded(r.calendarId), Encoded(r.eventId);
    EncodedAvoids(r.calendarId, '/');
    EncodedAvoids(r.eventId, '/');
    CalendarPathIsJoin(a, b);
    SplitJoin([a, "events", b], '/');
    DecodedOfEncoded(r.calendarId, ValidCalendarComponent);
    DecodedOfEncoded(r.eventId, ValidCalendarComponent);
  }

  lemma CalendarTrimmed(prefix: string, r: CalendarEventSourceRef)
    requires prefix != [] && !IsWhitespace(prefix[0])
    ensures Trimmed(prefix + CalendarPath(Encoded(r.calendarId), Encoded(r.eventId)))
  {
    var body, tail := Encoded(r.calendarId) + "/events/", Encoded(r.eventId);
    EncodedTrimmed(r.eventId);
    Associative(prefix, body, tail);
    var s := prefix + body + tail;
    assert s[0] == prefix[0];
    assert s[|s| - 1] == if tail == [] then '/' else tail[|tail| - 1];
  }

  lemma CalendarStripped(r: CalendarEventSourceRef)
    ensures var path := CalendarPath(Encoded(r.calendarId), Encoded(r.eventId));
            StripEither(Trim("calendar://" + path), "calendar://", "feishu://calendar/") == First(path)
  {
    var path := CalendarPath(Encoded(r.calendarId), Encoded(r.eventId));
    CalendarTrimmed("calendar://", r);
    TrimIsIdempotent("calendar://" + path);
    StripFirst("calendar://", "feishu://calendar/", path);
  }

  lemma FeishuCalendarStripped(r: CalendarEventSourceRef)
    ensures var path := CalendarPath(Encoded(r.calendarId), Encoded(r.eventId));
            StripEither(Trim("feishu://calendar/" + path), "calendar://", "feishu://calendar/") == Second(path)
  {
    var path := CalendarPath(Encoded(r.calendarId), Encoded(r.eventId));
    CalendarTrimmed("feishu://calendar/", r);
    TrimIsIdempotent("feishu://calendar/" + path);
    StripSecond("calendar://", "feishu://calendar/", path, 0);
  }

  /** Under either prefix, a printed calendar reference parses back exactly when it is valid. */
  lemma CalendarRoundTrip(r: CalendarEventSourceRef)
    ensures ParseCalendarEventSourceRef(CalendarSourceRef(r)) == if ValidCalendar(r) then Some(r) else None
    ensures ParseCalendarEventSourceRef("feishu://calendar/" + CalendarPath(Encoded(r.calendarId), Encoded(r.eventId)))
         == if ValidCalendar(r) then Some(r) else None
  {
    CalendarStripped(r);
    FeishuCalendarStripped(r);
    CalendarPathRoundTrip(r);
  }

  /** Every accepted spelling, the feishu prefix included, names a valid reference whose canonical form parses to it. */
  lemma AcceptedCalendarIsCanonical(s: string)
    requires ParseCalendarEventSourceRef(s).Some?
    ensures var r := ParseCalendarEventSourceRef(s).value;
            && ShortAndClean(r.calendarId, 256) && ShortAndClean(r.eventId, 256)
            && (forall i :: 0 <= i < |r.calendarId| ==> !IsWhitespace(r.calendarId[i]))
            && (forall i :: 0 <= i < |r.eventId| ==> !IsWhitespace(r.eventId[i]))
            && ValidCalendar(r) && ParseCalendarEventSourceRef(CalendarSourceRef(r)) == Some(r)
  {
    CalendarRoundTrip(ParseCalendarEventSourceRef(s).value);
  }

  /** Ordinary calendar references parse as they stand under both prefixes. */
  lemma OrdinaryCalendarParses(a: string, b: string)
    requires AllPlain(a) && AllPlain(b) && 1 <= |a| <= 256 && 1 <= |b| <= 256
    ensures ParseCalendarEventSourceRef("calendar://" + (a + "/events/" + b)) == Some(CalendarEventSourceRef(a, b))
    ensures ParseCalendarEventSourceRef("feishu://calendar/" + (a + "/events/" + b))
         == Some(CalendarEventSourceRef(a, b))
  {
    var r := CalendarEventSourceRef(a, b);
    PlainIsUnchanged(a);
    PlainIsUnchanged(b);
    PlainCalendarIsValid(r);
    CalendarRoundTrip(r);
  }

  lemma PlainCalendarIsValid(r: CalendarEventSourceRef)
    requires AllPlain(r.calendarId) && AllPlain(r.eventId)
    requires 1 <= |r.calendarId| <= 256 && 1 <= |r.eventId| <= 256
    ensures ValidCalendar(r)
  {
  }
}
