/** The cron expression guard of job/cronguard.go. */
module CronGuard {
  import opened Wrappers
  import Text

  datatype Error = SixField | QuartzChar | MissingTz

  const TZ_PREFIX := "CRON_TZ="

  predicate HasQuartz(s: string) {
    '?' in s || 'L' in s || 'W' in s || '#' in s
  }

  function Normalize(raw: string): Result<string, Error> {
    var expr := Text.TrimSpace(raw);
    if Text.HasPrefix(expr, TZ_PREFIX) then
      var rest := expr[|TZ_PREFIX|..];
      var idx := Text.IndexByte(rest, ' ');
      if idx < 0 || Text.TrimSpace(rest[..idx]) == "" then Err(MissingTz)
      else
        match CheckSchedule(rest[idx + 1..])
        case Err(e) => Err(e)
        case Ok(fields) => Ok(expr[..Text.IndexByte(expr, ' ')] + " " + Text.Join(fields, ' '))
    else
      match CheckSchedule(expr)
      case Err(e) => Err(e)
      case Ok(_) => Err(MissingTz)
  }

  // The metacharacter check, then the field count.
  function CheckSchedule(schedule: string): Result<seq<string>, Error> {
    if HasQuartz(schedule) then Err(QuartzChar)
    else if |Text.Fields(schedule)| != 5 then Err(SixField)
    else Ok(Text.Fields(schedule))
  }

  // ---------- The accepted form ----------

  // Some character that only Quartz knows is in the text.
  predicate QuartzOnly(s: string) {
    exists c | c in "?LW#" :: c in s
  }

  predicate GoodFields(fields: seq<string>) {
    |fields| == 5 && forall i | 0 <= i < 5 :: !QuartzOnly(fields[i])
  }

  // After blank text: the prefix, a zone that is not blank, a space and five good fields.
  predicate FormAt(raw: string, zone: string, fields: seq<string>, left: string, schedule: string) {
    && Text.Blank(left) && raw == left + Body(zone, schedule)
    && ' ' !in zone && !Text.Blank(zone)
    && Text.Fields(schedule) == fields && GoodFields(fields)
  }

  ghost predicate Form(raw: string, zone: string, fields: seq<string>) {
    exists left, schedule :: FormAt(raw, zone, fields, left, schedule)
  }

  function Body(zone: string, schedule: string): string {
    "CRON_TZ=" + zone + " " + schedule
  }

  function Canonical(zone: string, fields: seq<string>): string {
    Body(zone, Text.Join(fields, ' '))
  }

  lemma QuartzFound(s: string)
    ensures HasQuartz(s) <==> QuartzOnly(s)
  {
    assert forall c :: c in "?LW#" <==> c == '?' || c == 'L' || c == 'W' || c == '#';
  }

  lemma ScheduleOk(schedule: string)
    ensures CheckSchedule(schedule).Ok? <==> GoodFields(Text.Fields(schedule))
  {
    forall i | 0 <= i < |Text.Fields(schedule)|
      ensures HasQuartz(Text.Fields(schedule)[i]) <==> QuartzOnly(Text.Fields(schedule)[i])
    {
      QuartzFound(Text.Fields(schedule)[i]);
    }
    Text.FieldsCover(schedule, '?');
    Text.FieldsCover(schedule, 'L');
    Text.FieldsCover(schedule, 'W');
    Text.FieldsCover(schedule, '#');
  }

  lemma RestParts(zone: string, schedule: string)
    requires ' ' !in zone
    ensures
      var rest := zone + " " + schedule;
      && Text.IndexByte(rest, ' ') == |zone| && rest[..|zone|] == zone && rest[|zone| + 1..] == schedule
  {
    Text.FirstAt(zone + " " + schedule, zone, ' ');
  }

  lemma BodyParts(zone: string, schedule: string)
    requires ' ' !in zone
    ensures
      var expr := Body(zone, schedule);
      && Text.HasPrefix(expr, TZ_PREFIX) && expr[|TZ_PREFIX|..] == zone + " " + schedule
      && Text.IndexByte(expr, ' ') == |TZ_PREFIX| + |zone|
      && expr[..|TZ_PREFIX| + |zone|] == TZ_PREFIX + zone
  {
    Text.FirstAt(Body(zone, schedule), TZ_PREFIX + zone, ' ');
  }

  // What the guard makes of a trimmed expression of the form.
  lemma NormalizeBody(raw: string, zone: string, schedule: string)
    requires Text.TrimSpace(raw) == Body(zone, schedule) && ' ' !in zone
    ensures Normalize(raw) ==
            if Text.Blank(zone) then Err(MissingTz)
            else if CheckSchedule(schedule).Err? then Err(CheckSchedule(schedule).error)
            else Ok(Canonical(zone, Text.Fields(schedule)))
  {
    BodyParts(zone, schedule);
    RestParts(zone, schedule);
    Text.TrimSpaceBlank(zone);
    assert TZ_PREFIX + zone + " " + Text.Join(Text.Fields(schedule), ' ') == Canonical(zone, Text.Fields(schedule));
  }

  lemma TrimmedForm(left: string, zone: string, schedule: string)
    requires Text.Blank(left) && !Text.Blank(schedule)
    ensures Text.TrimSpace(left + Body(zone, schedule)) == Body(zone, Text.TrimRight(schedule))
    ensures Text.Fields(Text.TrimRight(schedule)) == Text.Fields(schedule)
  {
    var body := Body(zone, schedule);
    assert body[0] == 'C';
    Text.TrimLeftOf(left, body);
    Text.TrimRightAppend(TZ_PREFIX + zone + " ", schedule);
    var t := Text.TrimRight(schedule);
    Text.TrimRightSplits(schedule);
    assert schedule == t + schedule[|t|..];
    Text.FieldsThenBlank(t, schedule[|t|..]);
  }

  lemma FormIsAccepted(raw: string, zone: string, fields: seq<string>)
    requires Form(raw, zone, fields)
    ensures Normalize(raw) == Ok(Canonical(zone, fields))
  {
    var left, schedule :| FormAt(raw, zone, fields, left, schedule);
    Text.FieldsAreWords(schedule);
    TrimmedForm(left, zone, schedule);
    NormalizeBody(raw, zone, Text.TrimRight(schedule));
    ScheduleOk(Text.TrimRight(schedule));
  }

  // An expression with the prefix and a space is a body.
  lemma ReadBody(expr: string) returns (zone: string, schedule: string)
    requires Text.HasPrefix(expr, TZ_PREFIX) && ' ' in expr[|TZ_PREFIX|..]
    ensures ' ' !in zone && expr == Body(zone, schedule)
  {
    var rest := expr[|TZ_PREFIX|..];
    var idx := Text.IndexByte(rest, ' ');
    zone, schedule := rest[..idx], rest[idx + 1..];
    assert rest == zone + " " + schedule;
  }

  lemma AppendToBody(left: string, zone: string, schedule: string, right: string)
    ensures left + Body(zone, schedule) + right == left + Body(zone, schedule + right)
  {
  }

  lemma AcceptedHasForm(raw: string) returns (zone: string, fields: seq<string>)
    requires Normalize(raw).Ok?
    ensures Form(raw, zone, fields)
  {
    var schedule;
    zone, schedule := ReadBody(Text.TrimSpace(raw));
    NormalizeBody(raw, zone, schedule);
    ScheduleOk(schedule);
    fields := Text.Fields(schedule);
    var left, right := Text.TrimSplits(raw);
    Text.FieldsThenBlank(schedule, right);
    AppendToBody(left, zone, schedule, right);
    assert FormAt(raw, zone, fields, left, schedule + right);
  }

  /**
   The guard accepts exactly the expressions of the form, and answers each with the same
   zone text and the same fields, single-spaced.
   */
  lemma AcceptsExactlyTheForm(raw: string, out: string)
    ensures Normalize(raw) == Ok(out) <==>
            exists zone, fields :: Form(raw, zone, fields) && out == Canonical(zone, fields)
  {
    if Normalize(raw) == Ok(out) {
      var zone, fields := AcceptedHasForm(raw);
      FormIsAccepted(raw, zone, fields);
      assert Form(raw, zone, fields) && out == Canonical(zone, fields);
    }
    if zone, fields :| Form(raw, zone, fields) && out == Canonical(zone, fields) {
      FormIsAccepted(raw, zone, fields);
    }
  }

  // ---------- Which error comes ----------

  // The schedule of an expression: what follows the zone, or the whole of one without the prefix.
  ghost predicate ScheduleIs(raw: string, zone: Option<string>, schedule: string) {
    match zone
    case Some(z) => ' ' !in z && Text.TrimSpace(raw) == Body(z, schedule)
    case None => !Text.HasPrefix(schedule, "CRON_TZ=") && Text.TrimSpace(raw) == schedule
  }

  /**
   A blank zone is refused first.  Then a character that only Quartz knows is reported, whatever
   the number of fields, then a number of fields other than five, and only then a missing zone.
   */
  lemma ErrorsInOrder(raw: string, zone: Option<string>, schedule: string)
    requires ScheduleIs(raw, zone, schedule)
    ensures
      var r, words := Normalize(raw), Text.Fields(schedule);
      && (r == Err(QuartzChar) <==> !(zone.Some? && Text.Blank(zone.value)) && QuartzOnly(schedule))
      && (r == Err(SixField) <==>
            !(zone.Some? && Text.Blank(zone.value)) && !QuartzOnly(schedule) && |words| != 5)
      && (r == Err(MissingTz) <==>
            (zone.Some? && Text.Blank(zone.value)) || (zone.None? && !QuartzOnly(schedule) && |words| == 5))
  {
    QuartzFound(schedule);
    if zone.Some? {
      NormalizeBody(raw, zone.value, schedule);
    }
  }

  lemma BodyHasSpace(rest: string, zone: string, schedule: string)
    ensures "CRON_TZ=" + rest == Body(zone, schedule) ==> ' ' in rest
  {
    var expr := "CRON_TZ=" + rest;
    assert rest == expr[8..];
    assert (zone + " " + schedule)[|zone|] == ' ';
    assert Body(zone, schedule)[8..] == zone + " " + schedule;
  }

  /** An expression has a schedule unless nothing follows its zone, and then the zone counts as missing. */
  lemma NoScheduleIff(raw: string)
    ensures (forall zone, schedule :: !ScheduleIs(raw, zone, schedule)) <==>
            exists rest :: Text.TrimSpace(raw) == "CRON_TZ=" + rest && ' ' !in rest
    ensures (forall zone, schedule :: !ScheduleIs(raw, zone, schedule)) ==> Normalize(raw) == Err(MissingTz)
  {
    var expr := Text.TrimSpace(raw);
    if !Text.HasPrefix(expr, TZ_PREFIX) {
      assert ScheduleIs(raw, None, expr);
    } else {
      var rest := expr[|TZ_PREFIX|..];
      assert expr == "CRON_TZ=" + rest;
      assert forall r :: expr == "CRON_TZ=" + r ==> r == rest;
      if ' ' in rest {
        var zone, schedule := ReadBody(expr);
        assert ScheduleIs(raw, Some(zone), schedule);
      } else {
        forall zone, schedule
          ensures !ScheduleIs(raw, zone, schedule)
        {
          if zone.Some? {
            BodyHasSpace(rest, zone.value, schedule);
          }
        }
      }
    }
  }

  lemma GoodWords(raw: string, zone: string, fields: seq<string>)
    requires Form(raw, zone, fields)
    ensures Text.Fields(Text.Join(fields, ' ')) == fields
  {
    var left, schedule :| FormAt(raw, zone, fields, left, schedule);
    Text.FieldsAreWords(schedule);
    Text.FieldsOfJoin(fields);
  }

  lemma CanonicalHasForm(raw: string, zone: string, fields: seq<string>)
    requires Form(raw, zone, fields)
    ensures Form(Canonical(zone, fields), zone, fields)
  {
    var left, schedule :| FormAt(raw, zone, fields, left, schedule);
    GoodWords(raw, zone, fields);
    var joined := Text.Join(fields, ' ');
    assert Canonical(zone, fields) == [] + Body(zone, joined);
    assert FormAt(Canonical(zone, fields), zone, fields, [], joined);
  }

  /** Normalising an accepted expression again changes nothing. */
  lemma NormalizeIsIdempotent(raw: string)
    requires Normalize(raw).Ok?
    ensures Normalize(Normalize(raw).value) == Normalize(raw)
  {
    var zone, fields := AcceptedHasForm(raw);
    FormIsAccepted(raw, zone, fields);
    CanonicalHasForm(raw, zone, fields);
    FormIsAccepted(Canonical(zone, fields), zone, fields);
  }

  /** Zone and fields can be read back from the answer in one way only. */
  lemma AnswerDeterminesParts(z1: string, f1: seq<string>, z2: string, f2: seq<string>, r1: string, r2: string)
    requires Form(r1, z1, f1) && Form(r2, z2, f2)
    ensures Normalize(r1) == Normalize(r2) <==> z1 == z2 && f1 == f2
  {
    FormIsAccepted(r1, z1, f1);
    FormIsAccepted(r2, z2, f2);
    if Canonical(z1, f1) == Canonical(z2, f2) {
      CanonicalHasForm(r1, z1, f1);
      CanonicalHasForm(r2, z2, f2);
      BodyParts(z1, Text.Join(f1, ' '));
      BodyParts(z2, Text.Join(f2, ' '));
      RestParts(z1, Text.Join(f1, ' '));
      RestParts(z2, Text.Join(f2, ' '));
      assert z1 == (TZ_PREFIX + z1)[8..] && z2 == (TZ_PREFIX + z2)[8..];
      GoodWords(r1, z1, f1);
      GoodWords(r2, z2, f2);
    }
  }
}
