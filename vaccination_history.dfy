/**
 * The date logic of frontend/src/components/pets/VaccinationHistory.tsx: the
 * "upcoming in the next 30 days" filter and the trimming of ISO date-times to their
 * date part for the edit form. `new Date(s)` is an injected parser from a date
 * string to epoch milliseconds (`None` for an invalid date, whose time is NaN), and
 * "now" is a parameter.
 */
module VaccinationHistory {
  import opened Wrappers
  import opened Strings
  import opened Sequences

  datatype Vaccination = Vaccination(id: int, name: string, date: string, nextDate: string,
                                     clinic: string, doctor: string)

  /** 30 days in milliseconds: `30 * 24 * 60 * 60 * 1000`. */
  const WindowMs: int := 30 * 24 * 60 * 60 * 1000

  /** `nextDate > today && nextDate <= today + 30 days`; an invalid date compares false. */
  predicate DueSoon(next: Option<int>, now: int)
  {
    next.Some? && now < next.value && next.value <= now + WindowMs
  }

  /** `getUpcomingVaccinations`: the vaccinations due within 30 days, in their original order. */
  function UpcomingVaccinations(vaccinations: seq<Vaccination>, now: int,
                                parseDate: string -> Option<int>): (r: seq<Vaccination>)
    ensures Subsequence(r, vaccinations)
    ensures forall v :: v in r <==> v in vaccinations && DueSoon(parseDate(v.nextDate), now)
    ensures forall v :: multiset(r)[v] ==
              if DueSoon(parseDate(v.nextDate), now) then multiset(vaccinations)[v] else 0
    decreases |vaccinations|
  {
    if vaccinations == [] then []
    else
      var v := vaccinations[0];
      var rest := UpcomingVaccinations(vaccinations[1..], now, parseDate);
      assert vaccinations == [v] + vaccinations[1..];
      if DueSoon(parseDate(v.nextDate), now) then
        var r := [v] + rest;
        assert r[1..] == rest;
        r
      else rest
  }

  /** The warning alert is shown exactly when some vaccination is due within 30 days. */
  function ShowsUpcomingAlert(vaccinations: seq<Vaccination>, now: int,
                              parseDate: string -> Option<int>): (shown: bool)
    ensures shown <==> exists v :: v in vaccinations && DueSoon(parseDate(v.nextDate), now)
  {
    var upcoming := UpcomingVaccinations(vaccinations, now, parseDate);
    assert upcoming != [] ==> upcoming[0] in upcoming;
    |upcoming| > 0
  }

  /** A next date equal to now is not upcoming; one exactly 30 days ahead is; past ones never are. */
  lemma WindowBounds(now: int, t: int)
    ensures !DueSoon(Some(now), now)
    ensures DueSoon(Some(now + WindowMs), now)
    ensures t <= now ==> !DueSoon(Some(t), now)
    ensures !DueSoon(None, now)
  {
  }

  /** `s.split('T')[0]`: the date part of an ISO date-time; a string with no 'T' is kept whole. */
  function DatePart(s: string): (r: string)
    ensures 'T' !in r
    ensures |r| <= |s| && s[..|r|] == r
    ensures |r| < |s| ==> s[|r|] == 'T'
    ensures 'T' !in s ==> r == s
  {
    FirstPiece(s, 'T')
  }

  /** The values the edit dialog is reset to for an existing vaccination. */
  datatype FormValues = FormValues(name: string, date: string, nextDate: string,
                                   clinic: string, doctor: string)

  function EditFormValues(v: Vaccination): (f: FormValues)
    ensures f.name == v.name && f.clinic == v.clinic && f.doctor == v.doctor
    ensures f.date == DatePart(v.date) && f.nextDate == DatePart(v.nextDate)
  {
    FormValues(v.name, DatePart(v.date), DatePart(v.nextDate), v.clinic, v.doctor)
  }

  /** A date followed by 'T' and a time gives back the date. */
  lemma {:induction false} DatePartOfDateTime(date: string, time: string)
    requires 'T' !in date
    ensures DatePart(date + "T" + time) == date
  {
    SplitAfterPiece(date, 'T', time);
  }

  lemma {:induction false} DatePartExample()
    ensures DatePart("2024-03-01T10:00:00Z") == "2024-03-01"
  {
    assert "2024-03-01T10:00:00Z" == "2024-03-01" + "T" + "10:00:00Z";
    DatePartOfDateTime("2024-03-01", "10:00:00Z");
  }
}
