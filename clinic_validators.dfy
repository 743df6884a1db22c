/**
 * The field validators of backend/clinics/validators.py. Each one either returns
 * (`Pass`) or raises `ValidationError` with its message (`Fail`). Regular-expression
 * digits are ASCII digits here; whitespace is Python's `str.isspace`.
 */
module ClinicValidators {
  import opened Wrappers
  import opened Strings
  import opened Sequences

  const PhoneMessage: string := "Номер телефона должен содержать от 10 до 15 цифр"
  const WorkingHoursMessage: string :=
    "Неверный формат часов работы. Используйте формат: Mo-Fr 9-18, Sa 10-14"
  const EmptyServicesMessage: string := "Список услуг не может быть пустым"
  const BlankServiceMessage: string := "Названия услуг не могут быть пустыми"
  const PostalCodeMessage: string := "Почтовый индекс должен содержать от 5 до 10 цифр"

  // ----- validate_phone -----

  /** The digits among the first `n` characters of `value`, in order. */
  function DigitsBefore(value: string, n: nat): (r: string)
    requires n <= |value|
    ensures |r| <= n
  {
    if n == 0 then []
    else DigitsBefore(value, n - 1) + (if IsDigit(value[n - 1]) then [value[n - 1]] else [])
  }

  lemma {:induction false} DigitsBeforeAreDigits(value: string, n: nat)
    requires n <= |value|
    ensures AllDigits(DigitsBefore(value, n))
  {
    if n > 0 {
      DigitsBeforeAreDigits(value, n - 1);
    }
  }

  /** `re.sub(r'\D', '', value)`: what is left once every non-digit is deleted. */
  function PhoneDigits(value: string): (r: string)
    ensures AllDigits(r) && |r| <= |value|
  {
    DigitsBeforeAreDigits(value, |value|);
    DigitsBefore(value, |value|)
  }

  /** Accepts iff 10 to 15 digits remain once everything else is deleted. */
  function ValidatePhone(value: string): (r: Outcome<string>)
    ensures r.Pass? <==> 10 <= |PhoneDigits(value)| <= 15
    ensures r.Fail? ==> r.error == PhoneMessage
  {
    var phone := PhoneDigits(value);
    if |phone| < 10 || |phone| > 15 then Fail(PhoneMessage) else Pass
  }

  /** The digits that remain are those of the value, in their order... */
  lemma {:induction false} DigitsKeepOrder(value: string, n: nat)
    requires n <= |value|
    ensures Subsequence(DigitsBefore(value, n), value[..n])
  {
    if n == 0 {
      assert value[..0] == [];
    } else {
      DigitsKeepOrder(value, n - 1);
      assert value[..n] == value[..n - 1] + [value[n - 1]];
      var d := DigitsBefore(value, n - 1);
      SubsequenceExtend(d, value[..n - 1], value[n - 1]);
      assert d + [] == d;
    }
  }

  lemma PhoneDigitsKeepOrder(value: string)
    ensures Subsequence(PhoneDigits(value), value)
  {
    DigitsKeepOrder(value, |value|);
    assert value[..|value|] == value;
  }

  /** ...and every one of them: each digit occurs as often as in the value. */
  lemma {:induction false} DigitsKeepCount(value: string, n: nat, ch: char)
    requires n <= |value| && IsDigit(ch)
    ensures multiset(DigitsBefore(value, n))[ch] == multiset(value[..n])[ch]
  {
    if n > 0 {
      DigitsKeepCount(value, n - 1, ch);
      assert value[..n] == value[..n - 1] + [value[n - 1]];
    }
  }

  lemma PhoneDigitsKeepEveryDigit(value: string, ch: char)
    requires IsDigit(ch)
    ensures multiset(PhoneDigits(value))[ch] == multiset(value)[ch]
  {
    DigitsKeepCount(value, |value|, ch);
    assert value[..|value|] == value;
  }

  /** Counting digits only looks at the characters counted. */
  lemma {:induction false} DigitsBeforeAgree(s: string, t: string, n: nat)
    requires n <= |s| && n <= |t| && s[..n] == t[..n]
    ensures DigitsBefore(s, n) == DigitsBefore(t, n)
  {
    if n > 0 {
      assert s[n - 1] == s[..n][n - 1] && t[n - 1] == t[..n][n - 1];
      assert s[..n - 1] == s[..n][..n - 1] && t[..n - 1] == t[..n][..n - 1];
      DigitsBeforeAgree(s, t, n - 1);
    }
  }

  lemma {:induction false} DigitsBeforeAppend(a: string, b: string, k: nat)
    requires k <= |b|
    ensures DigitsBefore(a + b, |a| + k) == PhoneDigits(a) + DigitsBefore(b, k)
  {
    if k == 0 {
      assert (a + b)[..|a|] == a[..|a|];
      DigitsBeforeAgree(a + b, a, |a|);
    } else {
      DigitsBeforeAppend(a, b, k - 1);
      assert (a + b)[|a| + k - 1] == b[k - 1];
      var x := if IsDigit(b[k - 1]) then [b[k - 1]] else [];
      assert DigitsBefore(a + b, |a| + k) == DigitsBefore(a + b, |a| + k - 1) + x;
      assert DigitsBefore(b, k) == DigitsBefore(b, k - 1) + x;
      assert PhoneDigits(a) + DigitsBefore(b, k - 1) + x == PhoneDigits(a) + (DigitsBefore(b, k - 1) + x);
    }
  }

  /** Deleting non-digits distributes over concatenation. */
  lemma PhoneDigitsAppend(a: string, b: string)
    ensures PhoneDigits(a + b) == PhoneDigits(a) + PhoneDigits(b)
  {
    DigitsBeforeAppend(a, b, |b|);
  }

  predicate NoDigits(s: string)
  {
    forall i :: 0 <= i < |s| ==> !IsDigit(s[i])
  }

  lemma {:induction false} DigitsKept(s: string, n: nat)
    requires n <= |s| && AllDigits(s)
    ensures DigitsBefore(s, n) == s[..n]
  {
    if n > 0 {
      DigitsKept(s, n - 1);
      assert s[..n] == s[..n - 1] + [s[n - 1]];
    }
  }

  lemma {:induction false} NonDigitsDropped(s: string, n: nat)
    requires n <= |s| && NoDigits(s)
    ensures DigitsBefore(s, n) == []
  {
    if n > 0 {
      NonDigitsDropped(s, n - 1);
    }
  }

  /** A value made of digits alone passes iff it has 10 to 15 of them. */
  lemma DigitsOnlyPhone(value: string)
    requires AllDigits(value)
    ensures ValidatePhone(value).Pass? <==> 10 <= |value| <= 15
  {
    DigitsKept(value, |value|);
    assert value[..|value|] == value;
  }

  /** Punctuation and spaces anywhere in the value are ignored. */
  lemma NonDigitsIgnored(a: string, p: string, b: string)
    requires NoDigits(p)
    ensures ValidatePhone(a + p + b) == ValidatePhone(a + b)
  {
    PhoneDigitsAppend(a + p, b);
    PhoneDigitsAppend(a, p);
    PhoneDigitsAppend(a, b);
    NonDigitsDropped(p, |p|);
  }

  /** '+7 (999) 123-45-67' passes: once its punctuation goes, 11 digits remain. */
  lemma FormattedPhonePasses()
    ensures ValidatePhone("+7 (999) 123-45-67") == Pass
  {
    var s := "+7 (999) 123-45-67";
    assert |DigitsBefore(s, 3)| == 1;
    assert |DigitsBefore(s, 6)| == 3;
    assert |DigitsBefore(s, 9)| == 4;
    assert |DigitsBefore(s, 12)| == 7;
    assert |DigitsBefore(s, 15)| == 9;
    assert |DigitsBefore(s, 18)| == 11;
  }

  // ----- validate_working_hours -----

  predicate IsLetter(ch: char)
  {
    ('A' <= ch <= 'Z') || ('a' <= ch <= 'z')
  }

  /** One `LL-LL D-D` group of the pattern: day letters, a whitespace, opening and closing hours. */
  datatype HoursGroup = HoursGroup(firstDay: string, lastDay: string, gap: char,
                                   open: string, close: string)

  /** A whole value: a first group, then groups each after ',' and one whitespace character. */
  datatype HoursList = HoursList(first: HoursGroup, more: seq<(char, HoursGroup)>)

  predicate TwoLetters(s: string)
  {
    |s| == 2 && IsLetter(s[0]) && IsLetter(s[1])
  }

  predicate OneOrTwoDigits(s: string)
  {
    1 <= |s| <= 2 && AllDigits(s)
  }

  predicate ValidGroup(g: HoursGroup)
  {
    TwoLetters(g.firstDay) && TwoLetters(g.lastDay) && IsSpace(g.gap) &&
    OneOrTwoDigits(g.open) && OneOrTwoDigits(g.close)
  }

  predicate ValidMore(more: seq<(char, HoursGroup)>)
  {
    forall i :: 0 <= i < |more| ==> IsSpace(more[i].0) && ValidGroup(more[i].1)
  }

  predicate ValidList(h: HoursList)
  {
    ValidGroup(h.first) && ValidMore(h.more)
  }

  function GroupText(g: HoursGroup): string
  {
    g.firstDay + "-" + g.lastDay + [g.gap] + g.open + "-" + g.close
  }

  function MoreText(more: seq<(char, HoursGroup)>): string
    decreases |more|
  {
    if more == [] then ""
    else [',', more[0].0] + GroupText(more[0].1) + MoreText(more[1..])
  }

  /** The text a list of groups stands for. */
  function ListText(h: HoursList): string
  {
    GroupText(h.first) + MoreText(h.more)
  }

  /** How many digits, at most two, `s` starts with: what a greedy `\d{1,2}` takes. */
  function LeadingDigits(s: string): (n: nat)
    ensures n <= 2 && n <= |s| && AllDigits(s[..n])
    ensures n < 2 && n < |s| ==> !IsDigit(s[n])
  {
    if |s| >= 2 && IsDigit(s[0]) && IsDigit(s[1]) then 2
    else if |s| >= 1 && IsDigit(s[0]) then 1
    else 0
  }

  /**
   * Reads one group at the start of `s` and says how long it is. A shorter digit run
   * than the greedy one never leads to a match, since a digit would follow it where
   * the pattern wants '-', ',' or the end.
   */
  function ScanGroup(s: string): (r: Option<(HoursGroup, nat)>)
    ensures r.Some? ==> ValidGroup(r.value.0) && r.value.1 == |GroupText(r.value.0)|
    ensures r.Some? ==> r.value.1 <= |s| && s[..r.value.1] == GroupText(r.value.0)
  {
    if |s| < 6 || !IsLetter(s[0]) || !IsLetter(s[1]) || s[2] != '-' ||
       !IsLetter(s[3]) || !IsLetter(s[4]) || !IsSpace(s[5]) then None
    else
      var a := LeadingDigits(s[6..]);
      if a == 0 || 6 + a >= |s| || s[6 + a] != '-' then None
      else
        var b := LeadingDigits(s[7 + a..]);
        if b == 0 then None
        else
          GroupAt(s, a, b);
          Some((HoursGroup(s[..2], s[3..5], s[5], s[6..6 + a], s[7 + a..7 + a + b]), 7 + a + b))
  }

  /** The pieces `ScanGroup` cuts out of `s` form a well-formed group whose text starts `s`. */
  lemma GroupAt(s: string, a: nat, b: nat)
    requires 1 <= a <= 2 && 1 <= b <= 2 && 7 + a + b <= |s|
    requires IsLetter(s[0]) && IsLetter(s[1]) && s[2] == '-'
    requires IsLetter(s[3]) && IsLetter(s[4]) && IsSpace(s[5])
    requires AllDigits(s[6..][..a]) && s[6 + a] == '-' && AllDigits(s[7 + a..][..b])
    ensures var g := HoursGroup(s[..2], s[3..5], s[5], s[6..6 + a], s[7 + a..7 + a + b]);
      ValidGroup(g) && |GroupText(g)| == 7 + a + b && s[..7 + a + b] == GroupText(g)
  {
    var n := 7 + a + b;
    assert s[6..][..a] == s[6..6 + a];
    assert s[7 + a..][..b] == s[7 + a..n];
    assert s[..n] == s[..2] + [s[2]] + s[3..5] + [s[5]] + s[6..6 + a] + [s[6 + a]] + s[7 + a..n];
  }

  /** Reads the `(,\s GROUP)*` repetitions, which must reach the end of `s`. */
  function ScanMore(s: string): Option<seq<(char, HoursGroup)>>
    decreases |s|
  {
    if s == [] then Some([])
    else if |s| >= 2 && s[0] == ',' && IsSpace(s[1]) then
      var group := ScanGroup(s[2..]);
      if group.None? then None
      else
        var tail := ScanMore(s[2 + group.value.1..]);
        if tail.None? then None
        else Some([(s[1], group.value.0)] + tail.value)
    else None
  }

  /** What `ScanMore` reads is a list of well-formed repetitions spelling the whole input. */
  lemma {:induction false} ScanMoreSound(s: string)
    ensures ScanMore(s).Some? ==> ValidMore(ScanMore(s).value) && MoreText(ScanMore(s).value) == s
    decreases |s|
  {
    if |s| >= 2 && s[0] == ',' && IsSpace(s[1]) {
      var group := ScanGroup(s[2..]);
      if group.Some? {
        var g, n := group.value.0, group.value.1;
        ScanMoreSound(s[2 + n..]);
        var tail := ScanMore(s[2 + n..]);
        if tail.Some? {
          ScanMoreUnfold(s, g, n, tail.value);
          MoreStep(s, g, n, tail.value);
        }
      }
    }
  }

  lemma MoreStep(s: string, g: HoursGroup, n: nat, m: seq<(char, HoursGroup)>)
    requires |s| >= 2 && IsSpace(s[1]) && s[0] == ','
    requires ValidGroup(g) && n <= |s| - 2 && s[2..][..n] == GroupText(g)
    requires ValidMore(m) && MoreText(m) == s[2 + n..]
    ensures ValidMore([(s[1], g)] + m) && MoreText([(s[1], g)] + m) == s
  {
    var more := [(s[1], g)] + m;
    assert more[1..] == m;
    assert forall i :: 1 <= i < |more| ==> more[i] == m[i - 1];
    assert s == [',', s[1]] + s[2..][..n] + s[2 + n..];
  }

  function ScanList(s: string): (r: Option<HoursList>)
    ensures r.Some? ==> ValidList(r.value) && ListText(r.value) == s
  {
    match ScanGroup(s)
    case None => None
    case Some((g, n)) =>
      match ScanMore(s[n..])
      case None => None
      case Some(m) =>
        ScanMoreSound(s[n..]);
        ListAt(s, g, n, m);
        Some(HoursList(g, m))
  }

  lemma ListAt(s: string, g: HoursGroup, n: nat, m: seq<(char, HoursGroup)>)
    requires ValidGroup(g) && n <= |s| && s[..n] == GroupText(g)
    requires ValidMore(m) && MoreText(m) == s[n..]
    ensures ValidList(HoursList(g, m)) && ListText(HoursList(g, m)) == s
  {
    assert s == s[..n] + s[n..];
  }

  /** `re.match` with `^...$`: `$` also matches just before one final newline. */
  predicate MatchesHoursPattern(value: string)
  {
    ScanList(value).Some? ||
    (|value| > 0 && value[|value| - 1] == '\n' && ScanList(value[..|value| - 1]).Some?)
  }

  function ValidateWorkingHours(value: string): (r: Outcome<string>)
    ensures r.Fail? ==> r.error == WorkingHoursMessage
  {
    if MatchesHoursPattern(value) then Pass else Fail(WorkingHoursMessage)
  }

  lemma ScanGroupText(g: HoursGroup, rest: string)
    requires ValidGroup(g)
    requires rest == [] || !IsDigit(rest[0])
    ensures ScanGroup(GroupText(g) + rest) == Some((g, |GroupText(g)|))
  {
    var s := GroupText(g) + rest;
    var a, b := |g.open|, |g.close|;
    GroupTextPieces(g, rest);
    DigitRun(s[6..], g.open, '-');
    DigitRun(s[7 + a..], g.close, if rest == [] then '-' else rest[0]);
    ScanGroupAccepts(s, a, b);
  }

  /** The pieces of a group's text, and what follows them, sit where `ScanGroup` looks. */
  lemma GroupTextPieces(g: HoursGroup, rest: string)
    requires ValidGroup(g)
    ensures var s, a, b := GroupText(g) + rest, |g.open|, |g.close|;
      |GroupText(g)| == 7 + a + b &&
      s[..2] == g.firstDay && s[2] == '-' && s[3..5] == g.lastDay && s[5] == g.gap &&
      s[6..] == g.open + ['-'] + (g.close + rest) && s[6 + a] == '-' &&
      s[7 + a..] == g.close + rest && s[6..6 + a] == g.open && s[7 + a..7 + a + b] == g.close
  {
    var s, a, b := GroupText(g) + rest, |g.open|, |g.close|;
    assert s == g.firstDay + ['-'] + g.lastDay + [g.gap] + g.open + ['-'] + g.close + rest;
  }

  /** A greedy `\d{1,2}` takes exactly the digits `d` when a non-digit or the end follows. */
  lemma DigitRun(s: string, d: string, next: char)
    requires OneOrTwoDigits(d)
    requires !IsDigit(next)
    requires |s| == |d| || (|s| > |d| && s[|d|] == next)
    requires s[..|d|] == d
    ensures LeadingDigits(s) == |d|
  {
    assert s[0] == d[0];
    if |d| == 2 {
      assert s[1] == d[1];
    }
  }

  lemma ScanGroupAccepts(s: string, a: nat, b: nat)
    requires 1 <= a <= 2 && 1 <= b <= 2 && 7 + a + b <= |s|
    requires IsLetter(s[0]) && IsLetter(s[1]) && s[2] == '-'
    requires IsLetter(s[3]) && IsLetter(s[4]) && IsSpace(s[5])
    requires LeadingDigits(s[6..]) == a && s[6 + a] == '-' && LeadingDigits(s[7 + a..]) == b
    ensures ScanGroup(s) ==
      Some((HoursGroup(s[..2], s[3..5], s[5], s[6..6 + a], s[7 + a..7 + a + b]), 7 + a + b))
  {
  }

  lemma {:induction false} ScanMoreText(more: seq<(char, HoursGroup)>)
    requires ValidMore(more)
    ensures ScanMore(MoreText(more)) == Some(more)
    decreases |more|
  {
    if more != [] {
      var c, g := more[0].0, more[0].1;
      ValidMoreTail(more);
      ScanMoreText(more[1..]);
      var tail := MoreText(more[1..]);
      MoreTextStart(more[1..]);
      ScanGroupText(g, tail);
      MoreTextStep(c, g, tail, more[1..]);
      MoreTextUnfold(more);
    }
  }

  lemma ValidMoreTail(more: seq<(char, HoursGroup)>)
    requires ValidMore(more) && more != []
    ensures IsSpace(more[0].0) && ValidGroup(more[0].1) && ValidMore(more[1..])
  {
    assert forall i :: 0 <= i < |more[1..]| ==> more[1..][i] == more[i + 1];
  }

  /** The repetitions' text is empty or starts with ','. */
  lemma MoreTextStart(more: seq<(char, HoursGroup)>)
    ensures MoreText(more) == [] || MoreText(more)[0] == ','
  {
  }

  lemma MoreTextUnfold(more: seq<(char, HoursGroup)>)
    requires more != []
    ensures MoreText(more) == [',', more[0].0] + (GroupText(more[0].1) + MoreText(more[1..]))
    ensures [(more[0].0, more[0].1)] + more[1..] == more
  {
  }

  lemma MoreTextStep(c: char, g: HoursGroup, t: string, m: seq<(char, HoursGroup)>)
    requires IsSpace(c)
    requires ScanMore(t) == Some(m)
    requires ScanGroup(GroupText(g) + t) == Some((g, |GroupText(g)|))
    ensures ScanMore([',', c] + (GroupText(g) + t)) == Some([(c, g)] + m)
  {
    var s := [',', c] + (GroupText(g) + t);
    var n := |GroupText(g)|;
    assert s[2..] == GroupText(g) + t;
    assert s[2 + n..] == t;
    ScanMoreUnfold(s, g, n, m);
  }

  lemma ScanMoreUnfold(s: string, g: HoursGroup, n: nat, m: seq<(char, HoursGroup)>)
    requires |s| >= 2 && s[0] == ',' && IsSpace(s[1])
    requires ScanGroup(s[2..]) == Some((g, n))
    requires ScanMore(s[2 + n..]) == Some(m)
    ensures ScanMore(s) == Some([(s[1], g)] + m)
  {
    var rest := s[2..];
    assert ScanGroup(rest).value == (g, n);
  }

  /** Every well-formed list of groups is read back exactly. */
  lemma {:induction false} ScanListText(h: HoursList)
    requires ValidList(h)
    ensures ScanList(ListText(h)) == Some(h)
  {
    var tail := MoreText(h.more);
    ScanMoreText(h.more);
    assert tail == [] || tail[0] == ',';
    ScanGroupText(h.first, tail);
    assert ListText(h)[|GroupText(h.first)|..] == tail;
  }

  /** Every accepted value is the text of well-formed groups, perhaps with one final newline. */
  lemma {:induction false} AcceptedHoursAreWellFormed(value: string)
    requires ValidateWorkingHours(value) == Pass
    ensures exists h :: ValidList(h) && (value == ListText(h) || value == ListText(h) + "\n")
  {
    if ScanList(value).Some? {
      var h := ScanList(value).value;
      assert ValidList(h) && value == ListText(h);
    } else {
      var body := value[..|value| - 1];
      var h := ScanList(body).value;
      assert ValidList(h) && body == ListText(h);
      LastNewline(value);
      assert value == ListText(h) + "\n";
    }
  }

  lemma LastNewline(value: string)
    requires |value| > 0 && value[|value| - 1] == '\n'
    ensures value == value[..|value| - 1] + "\n"
  {
  }

  /** Every such text is accepted. */
  lemma {:induction false} WellFormedHoursAccepted(h: HoursList, value: string)
    requires ValidList(h)
    requires value == ListText(h) || value == ListText(h) + "\n"
    ensures ValidateWorkingHours(value) == Pass
  {
    ScanListText(h);
    if value != ListText(h) {
      assert value[..|value| - 1] == ListText(h);
    }
  }

  /** Hours are not range-checked: 'Mo-Fr 99-0' is accepted. */
  lemma {:induction false} HoursNotRangeChecked()
    ensures ValidateWorkingHours("Mo-Fr 99-0") == Pass
  {
    var h := HoursList(HoursGroup("Mo", "Fr", ' ', "99", "0"), []);
    assert ListText(h) == "Mo-Fr 99-0";
    WellFormedHoursAccepted(h, "Mo-Fr 99-0");
  }

  /** Two groups, as in 'Mo-Fr 9-18, Sa-Su 10-14', are accepted. */
  lemma {:induction false} TwoGroupsAccepted()
    ensures ValidateWorkingHours("Mo-Fr 9-18, Sa-Su 10-14") == Pass
  {
    var g1, g2 := HoursGroup("Mo", "Fr", ' ', "9", "18"), HoursGroup("Sa", "Su", ' ', "10", "14");
    var h := HoursList(g1, [(' ', g2)]);
    assert GroupText(g1) == "Mo-Fr 9-18";
    assert GroupText(g2) == "Sa-Su 10-14";
    assert MoreText(h.more) == ", Sa-Su 10-14";
    assert ListText(h) == "Mo-Fr 9-18, Sa-Su 10-14";
    WellFormedHoursAccepted(h, "Mo-Fr 9-18, Sa-Su 10-14");
  }

  /** A single-day group such as 'Sa 10-14', the message's own example, is rejected. */
  lemma {:induction false} SingleDayRejected()
    ensures ValidateWorkingHours("Sa 10-14") == Fail(WorkingHoursMessage)
  {
    assert "Sa 10-14"[2] == ' ';
  }

  lemma TrailingSingleDayNotScanned()
    ensures ScanMore(", Sa 10-14") == None
  {
    var tail := ", Sa 10-14";
    assert tail[2..] == "Sa 10-14";
    SingleDayRejected();
  }

  /** A valid group followed by a single-day one is rejected too. */
  lemma SingleDayAfterRangeRejected()
    ensures ValidateWorkingHours("Mo-Fr 9-18, Sa 10-14") == Fail(WorkingHoursMessage)
  {
    var s := "Mo-Fr 9-18, Sa 10-14";
    var g := HoursGroup("Mo", "Fr", ' ', "9", "18");
    var tail := ", Sa 10-14";
    assert s == GroupText(g) + tail;
    ScanGroupText(g, tail);
    TrailingSingleDayNotScanned();
    assert s[10..] == tail;
    assert s[|s| - 1] == '4';
  }

  // ----- validate_services -----

  /** `[s.strip() for s in value.split(',')]`. */
  function ServiceNames(value: string): (names: seq<string>)
    ensures |names| == |Split(value, ',')|
    ensures forall i :: 0 <= i < |names| ==> (names[i] == "" <==> AllSpace(Split(value, ',')[i]))
  {
    var items := Split(value, ',');
    seq(|items|, i requires 0 <= i < |items| => Strip(items[i]))
  }

  /** Rejects the empty string, then any comma-separated item that is blank after stripping. */
  function ValidateServices(value: string): (r: Outcome<string>)
    ensures r.Pass? <==> value != "" && NoBlankItem(Split(value, ','))
    ensures value == "" ==> r == Fail(EmptyServicesMessage)
    ensures value != "" && r.Fail? ==> r.error == BlankServiceMessage
  {
    if value == "" then Fail(EmptyServicesMessage)
    else
      var names := ServiceNames(value);
      NoBlankName(Split(value, ','), names);
      if NoneBlank(names) then Pass else Fail(BlankServiceMessage)
  }

  predicate NoneBlank(names: seq<string>)
  {
    forall i :: 0 <= i < |names| ==> names[i] != ""
  }

  /** No item is empty or whitespace only. */
  predicate NoBlankItem(items: seq<string>)
  {
    forall i :: 0 <= i < |items| ==> !AllSpace(items[i])
  }

  lemma NoBlankName(items: seq<string>, names: seq<string>)
    requires |names| == |items|
    requires forall i :: 0 <= i < |names| ==> (names[i] == "" <==> AllSpace(items[i]))
    ensures NoneBlank(names) <==> NoBlankItem(items)
  {
  }

  /** A trailing comma leaves an empty last item, so the list is rejected. */
  lemma {:induction false} TrailingCommaRejected(value: string)
    requires value != "" && value[|value| - 1] == ','
    ensures ValidateServices(value) == Fail(BlankServiceMessage)
  {
    var items := Split(value, ',');
    var last := LastPiece(value, ',');
    assert last == items[|items| - 1];
    assert last == "";
  }

  /** A leading comma leaves an empty first item, so the list is rejected. */
  lemma {:induction false} LeadingCommaRejected(value: string)
    requires value != "" && value[0] == ','
    ensures ValidateServices(value) == Fail(BlankServiceMessage)
  {
    var first := FirstPiece(value, ',');
    assert first == "";
  }

  /** 'a,,b' has an empty middle item and is rejected. */
  lemma {:induction false} EmptyMiddleItemRejected()
    ensures ValidateServices("a,,b") == Fail(BlankServiceMessage)
  {
    assert Join(["a", "", "b"], ',') == "a,,b";
    SplitJoin(["a", "", "b"], ',');
    assert AllSpace(Split("a,,b", ',')[1]);
  }

  /** 'a, b' is accepted: the space after the comma is stripped. */
  lemma {:induction false} SpacedItemsAccepted()
    ensures ValidateServices("a, b") == Pass
  {
    assert Join(["a", " b"], ',') == "a, b";
    SplitJoin(["a", " b"], ',');
    var items := Split("a, b", ',');
    assert items == ["a", " b"];
    assert !AllSpace(items[0]) by { assert !IsSpace(items[0][0]); }
    assert !AllSpace(items[1]) by { assert !IsSpace(items[1][1]); }
    assert forall i :: 0 <= i < |items| ==> !AllSpace(items[i]);
  }

  // ----- validate_postal_code -----

  predicate FiveToTenDigits(s: string)
  {
    AllDigits(s) && 5 <= |s| <= 10
  }

  /** `re.match(r'^\d{5,10}$', value)`: 5 to 10 digits, optionally followed by one newline. */
  function ValidatePostalCode(value: string): (r: Outcome<string>)
    ensures r.Fail? ==> r.error == PostalCodeMessage
  {
    if FiveToTenDigits(value) ||
       (|value| > 0 && value[|value| - 1] == '\n' && FiveToTenDigits(value[..|value| - 1]))
    then Pass
    else Fail(PostalCodeMessage)
  }

  /** Accepted values are 5 to 10 digits and nothing else, bar one final newline. */
  lemma {:induction false} PostalCodeShape(value: string)
    ensures ValidatePostalCode(value) == Pass <==>
            exists d :: FiveToTenDigits(d) && (value == d || value == d + "\n")
    ensures AllDigits(value) ==> (ValidatePostalCode(value) == Pass <==> 5 <= |value| <= 10)
  {
    if FiveToTenDigits(value) {
      assert FiveToTenDigits(value) && value == value;
    } else if |value| > 0 && value[|value| - 1] == '\n' && FiveToTenDigits(value[..|value| - 1]) {
      var d := value[..|value| - 1];
      assert value == d + "\n";
    }
    if d :| FiveToTenDigits(d) && (value == d || value == d + "\n") {
      if value != d {
        assert value[|value| - 1] == '\n' && value[..|value| - 1] == d;
      }
    }
    if AllDigits(value) && |value| > 0 {
      assert !IsDigit('\n');
    }
  }

  /** Python's `$` also matches before a final newline: "12345\n" passes, "1234\n" does not. */
  lemma PostalCodeFinalNewline()
    ensures ValidatePostalCode("12345\n") == Pass
    ensures ValidatePostalCode("1234\n") == Fail(PostalCodeMessage)
  {
    assert "12345\n"[..5] == "12345";
    assert "1234\n"[..4] == "1234";
    assert !IsDigit("1234\n"[4]);
  }
}
