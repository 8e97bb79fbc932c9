/**
 The loan rules `App.tsx` applies when lending and taking back a book: loan
 length and borrowing limit by role, and the overdue fine.
 */
module Policy {

  import opened Types

  /** Days a loan runs before it is due. */
  function LoanDays(role: Role): nat
  {
    match role
    case Faculty => 30
    case Student => 14
  }

  /** The most books a user may hold at once. */
  function BorrowLimit(role: Role): nat
  {
    match role
    case Faculty => 10
    case Student => 5
  }

  /** The fine for one overdue day, in cents ($0.50). */
  const FinePerDay: nat := 50

  /**
   The fine for returning on `today` a book due on `due`, both whole day
   numbers on one calendar. The source divides a millisecond difference by a
   day and rounds up; for two day numbers that quotient is their difference.
   */
  function FineCents(due: int, today: int): (fine: nat)
    ensures fine > 0 <==> today > due
  {
    if today > due then FinePerDay * (today - due) else 0
  }

  /** The days that are past `due` up to and including `today`. */
  ghost function OverdueDays(due: int, today: int): (days: set<int>)
    ensures forall d :: d in days <==> due < d <= today
    decreases today - due
  {
    if today <= due then {} else OverdueDays(due, today - 1) + {today}
  }

  lemma {:induction false} OverdueDaysCount(due: int, today: int)
    ensures |OverdueDays(due, today)| == if today > due then today - due else 0
    decreases today - due
  {
    if today > due {
      OverdueDaysCount(due, today - 1);
      assert today !in OverdueDays(due, today - 1);
    }
  }

  /**
   The fine charges 50 cents for every day after the due date up to and
   including the day of return, and nothing else.
   */
  lemma FineChargesEachOverdueDay(due: int, today: int)
    ensures FineCents(due, today) == FinePerDay * |OverdueDays(due, today)|
  {
    OverdueDaysCount(due, today);
  }

  /** Returning a day later never costs less, and past the due date it costs exactly one more day's fine. */
  lemma FineGrowsDaily(due: int, today: int)
    ensures FineCents(due, today) <= FineCents(due, today + 1)
    ensures today >= due ==> FineCents(due, today + 1) == FineCents(due, today) + FinePerDay
  {
  }
}
