/**
 The due-date badge of a book card (`utils/dateUtils.ts`): the whole-day
 difference between the due date and today is classified as overdue, due
 today, due soon (within five days) or later, and rendered as a short text and
 a style class.
 */
module DueDates {

  import opened Results
  import opened Text
  import Policy

  const OverdueClass: string := "font-bold text-red-600"
  const DueTodayClass: string := "font-bold text-orange-500"
  const DueSoonClass: string := "font-semibold text-yellow-600"
  const LaterClass: string := "text-gray-600"

  /** How many days ahead a due date still counts as "soon". */
  const SoonDays: int := 5

  datatype DueLabel = DueLabel(text: string, className: string)

  /** The plural ending of "day" for a count `n`. */
  function PluralS(n: int): string {
    if n != 1 then "s" else ""
  }

  /** "N day(s) overdue". */
  function OverdueText(n: nat): string {
    NatToString(n) + " day" + PluralS(n) + " overdue"
  }

  /** "Due in N day(s)", or with `alwaysPlural` always "days". */
  function DueInText(n: nat, alwaysPlural: bool): string {
    "Due in " + NatToString(n) + (if alwaysPlural then " days" else " day" + PluralS(n))
  }

  /** The badge for a book due `diff` whole days from today (negative when past due). */
  function Badge(diff: int): DueLabel {
    if diff < 0 then
      DueLabel(OverdueText(-diff), OverdueClass)
    else if diff == 0 then
      DueLabel("Due today", DueTodayClass)
    else if diff <= SoonDays then
      DueLabel(DueInText(diff, false), DueSoonClass)
    else
      DueLabel(DueInText(diff, true), LaterClass)
  }

  /**
   `formatDueDate`: the badge for a book due on day `due` (null while the book
   is on the shelf), seen on day `today`.
   */
  function FormatDueDate(due: Option<int>, today: int): (r: DueLabel)
    ensures due.None? <==> r == DueLabel("", "")
    ensures due.Some? ==> (r.className == OverdueClass <==> due.value < today)
    ensures due.Some? ==> (r.className == DueTodayClass <==> due.value == today)
    ensures due.Some? ==> (r.className == DueSoonClass <==> today < due.value <= today + SoonDays)
    ensures due.Some? ==> (r.className == LaterClass <==> today + SoonDays < due.value)
    ensures due.Some? && due.value < today ==> r.text == OverdueText(today - due.value)
    ensures due.Some? && due.value == today ==> r.text == "Due today"
    ensures due.Some? && today < due.value <= today + SoonDays ==> r.text == DueInText(due.value - today, false)
    ensures due.Some? && today + SoonDays < due.value ==> r.text == DueInText(due.value - today, true)
  {
    match due
    case None => DueLabel("", "")
    case Some(d) => Badge(d - today)
  }

  /**
   Reads the day difference back out of a badge text: "Due today" is 0,
   "Due in N ..." is N, and "N ... overdue" is -N.
   */
  function ParseDueText(text: string): Option<int> {
    if text == "Due today" then Some(0)
    else if "Due in " <= text then
      var ahead := LeadingNat(text[7..]);
      if ahead.None? then None else Some(ahead.value as int)
    else
      var late := LeadingNat(text);
      if late.None? then None else Some(-(late.value as int))
  }

  /** The day word and what follows it in an overdue text: never starts with a digit. */
  lemma OverdueTail(n: nat)
    ensures " day" + PluralS(n) + " overdue" == if n == 1 then " day overdue" else " days overdue"
  {
  }

  /** A text that starts with a digit is read as an overdue count. */
  lemma ParseLeadingDigit(text: string)
    requires |text| > 0 && IsDigit(text[0])
    ensures ParseDueText(text) == if LeadingNat(text).None? then None else Some(-(LeadingNat(text).value as int))
  {
    assert text[0] != 'D';
  }

  /** An overdue text reads back as minus the number of days overdue. */
  lemma ParseOverdueText(n: nat)
    ensures ParseDueText(OverdueText(n)) == Some(-(n as int))
  {
    var digits := NatToString(n);
    var rest := if n == 1 then " day overdue" else " days overdue";
    OverdueTail(n);
    var text := digits + rest;
    assert OverdueText(n) == text;
    assert text[0] == digits[0];
    LeadingNatOf(n, rest);
    ParseLeadingDigit(text);
  }

  /** A "Due in" text reads back as the number of days left. */
  lemma ParseDueInText(n: nat, alwaysPlural: bool)
    ensures ParseDueText(DueInText(n, alwaysPlural)) == Some(n as int)
  {
    var digits := NatToString(n);
    var tail := if alwaysPlural || n != 1 then " days" else " day";
    var text := DueInText(n, alwaysPlural);
    assert text == "Due in " + (digits + tail);
    assert text[4] == 'i';
    assert text[7..] == digits + tail;
    LeadingNatOf(n, tail);
  }

  /** Every badge text reads back as its day difference. */
  lemma BadgeTextRoundTrip(diff: int)
    ensures ParseDueText(Badge(diff).text) == Some(diff)
  {
    if diff < 0 {
      ParseOverdueText(-diff);
    } else if 0 < diff {
      ParseDueInText(diff, diff > SoonDays);
    }
  }

  /**
   The badge text is unambiguous: it states the signed number of days between
   the due date and today, and is empty exactly when there is no due date.
   */
  lemma DueTextRoundTrip(due: Option<int>, today: int)
    ensures ParseDueText(FormatDueDate(due, today).text) ==
            if due.None? then None else Some(due.value - today)
  {
    if due.Some? {
      BadgeTextRoundTrip(due.value - today);
    }
  }

  predicate EndsWith(s: string, suffix: string) {
    |suffix| <= |s| && s[|s| - |suffix|..] == suffix
  }

  /** The badge uses the singular "day". */
  predicate SaysOneDay(text: string) {
    EndsWith(text, " day") || EndsWith(text, " day overdue")
  }

  /** Whether a concatenation ends with a short suffix depends only on its second part. */
  lemma EndsWithConcat(a: string, b: string, suffix: string)
    requires |suffix| <= |b|
    ensures EndsWith(a + b, suffix) <==> EndsWith(b, suffix)
  {
    assert (a + b)[|a + b| - |suffix|..] == b[|b| - |suffix|..];
  }

  /** An overdue text is singular exactly for one day. */
  lemma OverdueTextSingular(n: nat)
    ensures SaysOneDay(OverdueText(n)) <==> n == 1
  {
    var digits := NatToString(n);
    var rest := if n == 1 then " day overdue" else " days overdue";
    OverdueTail(n);
    assert OverdueText(n) == digits + rest;
    EndsWithConcat(digits, rest, " day");
    EndsWithConcat(digits, rest, " day overdue");
  }

  /** A "Due in" text is singular exactly for one day in the soon range. */
  lemma DueInTextSingular(n: nat, alwaysPlural: bool)
    ensures SaysOneDay(DueInText(n, alwaysPlural)) <==> !alwaysPlural && n == 1
  {
    var head := "Due in " + NatToString(n);
    var tail := if alwaysPlural || n != 1 then " days" else " day";
    var text := DueInText(n, alwaysPlural);
    assert text == head + tail;
    EndsWithConcat(head, tail, " day");
    assert !EndsWith(text, " day overdue") by {
      if |" day overdue"| <= |text| {
        assert text[|text| - 1] == tail[|tail| - 1];
      }
    }
  }

  /** "Due today" names no number of days. */
  lemma DueTodayNotSingular()
    ensures !SaysOneDay("Due today")
  {
    var text := "Due today";
    assert text[|text| - 4] == 'o';
    assert text[|text| - 1] == 'y';
  }

  /** A badge is singular exactly for a difference of one day either way. */
  lemma BadgeSingular(diff: int)
    ensures SaysOneDay(Badge(diff).text) <==> (diff == 1 || diff == -1)
  {
    var text := Badge(diff).text;
    if diff < 0 {
      assert text == OverdueText(-diff);
      OverdueTextSingular(-diff);
      assert SaysOneDay(text) <==> diff == -1;
    } else if diff == 0 {
      assert text == "Due today";
      DueTodayNotSingular();
      assert !SaysOneDay(text);
    } else {
      assert text == DueInText(diff, diff > SoonDays);
      DueInTextSingular(diff, diff > SoonDays);
      assert SaysOneDay(text) <==> diff == 1;
    }
  }

  /** The singular "day" appears exactly when the difference is one day either way. */
  lemma SingularExactlyForOneDay(due: int, today: int)
    ensures SaysOneDay(FormatDueDate(Some(due), today).text) <==> (due - today == 1 || today - due == 1)
  {
    BadgeSingular(due - today);
  }

  /** The badge reads "overdue" exactly when returning the book today would be fined. */
  lemma OverdueIffFined(due: int, today: int)
    ensures FormatDueDate(Some(due), today).className == OverdueClass <==> Policy.FineCents(due, today) > 0
  {
  }
}
