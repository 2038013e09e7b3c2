/**
 * The chapter-to-day scheduler of the back end (`create_plan`): spread the chapters of
 * every subject over the days before the exam, `chapters_per_day` at a time, starting
 * tomorrow. Dates are day offsets from today (today is 0); the inputs are the already
 * parsed subject names, chapter counts and number of days left.
 */
module Scheduler {
  import opened Results
  import opened Text

  /** One line of the plan: the day offset, the stripped subject name and the chapter label. */
  datatype Entry = Entry(day: int, subject: string, chapter: string)

  /** The exceptions `create_plan` can raise on parsed input. */
  datatype PlanError =
    | ZeroDivisionError  // `total_chapters // days_left` with no days left
    | IndexError         // `chapters[i]` for a subject without a chapter count

  /** Python's `a // b`: the quotient rounded towards negative infinity. */
  function FloorDiv(a: int, b: int): (q: int)
    requires b != 0
    ensures b > 0 ==> b * q <= a < b * q + b
    ensures b < 0 ==> b * q + b < a <= b * q
  {
    if b > 0 then a / b
    else
      var q := (-a) / (-b);
      assert -a == (-b) * q + (-a) % (-b);
      q
  }

  /** `chapters_per_day = max(1, total_chapters // days_left)`. */
  function ChaptersPerDay(total: int, daysLeft: int): (cpd: int)
    requires daysLeft != 0
    ensures cpd >= 1 && cpd >= FloorDiv(total, daysLeft)
    ensures cpd == 1 || cpd == FloorDiv(total, daysLeft)
  {
    var q := FloorDiv(total, daysLeft);
    if q > 1 then q else 1
  }

  /** Python's `sum(xs)`. */
  function Sum(xs: seq<int>): int {
    if xs == [] then 0 else Sum(xs[..|xs| - 1]) + xs[|xs| - 1]
  }

  /** `len(range(count))`: a negative count gives no iterations. */
  function Iterations(count: int): nat {
    if count > 0 then count else 0
  }

  /** The number of plan entries the first `n` subjects produce. */
  function EntriesBefore(chapters: seq<int>, n: nat): nat
    requires n <= |chapters|
  {
    if n == 0 then 0 else EntriesBefore(chapters, n - 1) + Iterations(chapters[n - 1])
  }

  /** With no negative counts, the entries of the first `n` subjects are `sum(chapters[:n])`. */
  lemma {:induction false} EntriesBeforeIsSum(chapters: seq<int>, n: nat)
    requires n <= |chapters|
    requires forall k :: 0 <= k < n ==> chapters[k] >= 0
    ensures EntriesBefore(chapters, n) == Sum(chapters[..n])
  {
    if n > 0 {
      EntriesBeforeIsSum(chapters, n - 1);
      assert chapters[..n][..n - 1] == chapters[..n - 1];
    }
  }

  /** The subject and chapter number of one plan entry, before its day is known. */
  datatype Slot = Slot(subject: string, number: nat)

  /** The inner loop of one subject: chapters 1 to `count` of `subject`. */
  function SubjectSlots(subject: string, count: int): (r: seq<Slot>)
    ensures |r| == Iterations(count)
  {
    seq(Iterations(count), c requires 0 <= c < Iterations(count) => Slot(subject, c + 1))
  }

  /** The outer loop over the first `n` subjects, in order. */
  function Slots(subjects: seq<string>, chapters: seq<int>, n: nat): (r: seq<Slot>)
    requires n <= |subjects| && n <= |chapters|
    ensures |r| == EntriesBefore(chapters, n)
  {
    if n == 0 then [] else Slots(subjects, chapters, n - 1) + SubjectSlots(PyStrip(subjects[n - 1]), chapters[n - 1])
  }

  /** The f-string `f'Chapter {c+1}'` for chapter number `number`. */
  function ChapterLabel(number: nat): string {
    "Chapter " + Decimal(number)
  }

  /** Different chapter numbers get different labels. */
  lemma ChapterLabelInjective(a: nat, b: nat)
    requires ChapterLabel(a) == ChapterLabel(b)
    ensures a == b
  {
    assert Decimal(a) == ChapterLabel(a)[8..];
    assert Decimal(b) == ChapterLabel(b)[8..];
    DecimalInjective(a, b);
  }

  /** The closed form of the day counter: entry `k` (from 0) falls on day `k / cpd + 1`. */
  function Entries(slots: seq<Slot>, cpd: int): (r: seq<Entry>)
    requires cpd >= 1
    ensures |r| == |slots|
  {
    seq(|slots|, k requires 0 <= k < |slots| => Entry(k / cpd + 1, slots[k].subject, ChapterLabel(slots[k].number)))
  }

  /** The plan `create_plan` returns when it raises nothing. */
  function Plan(subjects: seq<string>, chapters: seq<int>, cpd: int): (r: seq<Entry>)
    requires |subjects| <= |chapters| && cpd >= 1
    ensures |r| == EntriesBefore(chapters, |subjects|)
  {
    Entries(Slots(subjects, chapters, |subjects|), cpd)
  }

  /**
   * `create_plan` on parsed input. No days left raises `ZeroDivisionError` before any
   * entry is made; a subject without a chapter count raises `IndexError`; otherwise the
   * result is `Plan` with `chapters_per_day` computed from the sum of ALL counts.
   */
  method CreatePlan(subjects: seq<string>, chapters: seq<int>, daysLeft: int)
    returns (r: Result<seq<Entry>, PlanError>)
    ensures daysLeft == 0 ==> r == Failure(ZeroDivisionError)
    ensures daysLeft != 0 && |chapters| < |subjects| ==> r == Failure(IndexError)
    ensures daysLeft != 0 && |subjects| <= |chapters| ==>
              r == Success(Plan(subjects, chapters, ChaptersPerDay(Sum(chapters), daysLeft)))
  {
    var totalChapters := Sum(chapters);
    if daysLeft == 0 {
      return Failure(ZeroDivisionError);
    }
    var chaptersPerDay := ChaptersPerDay(totalChapters, daysLeft);
    r := SchedulePlan(subjects, chapters, chaptersPerDay);
  }

  /**
   * The scheduling loop of `create_plan` for a given `chapters_per_day`: subjects in order,
   * each subject's chapters in order, each entry on the day the running counter has reached.
   */
  method SchedulePlan(subjects: seq<string>, chapters: seq<int>, chaptersPerDay: int)
    returns (r: Result<seq<Entry>, PlanError>)
    requires chaptersPerDay >= 1
    ensures |chapters| < |subjects| ==> r == Failure(IndexError)
    ensures |subjects| <= |chapters| ==> r == Success(Plan(subjects, chapters, chaptersPerDay))
  {
    var plan: seq<Entry> := [];
    var day := 0;
    var chapterIndex := 0;
    var i := 0;
    while i < |subjects|
      invariant 0 <= i <= |subjects| && i <= |chapters|
      invariant plan == Entries(Slots(subjects, chapters, i), chaptersPerDay)
      invariant chapterIndex == |plan|
      invariant day == DaysStarted(chapterIndex, chaptersPerDay)
    {
      if i >= |chapters| {
        return Failure(IndexError);
      }
      plan, day, chapterIndex := ScheduleSubject(plan, day, chapterIndex, subjects, chapters, i, chaptersPerDay);
      i := i + 1;
    }
    return Success(plan);
  }

  /**
   * The inner loop of `create_plan`: appends the entries of one subject's `count` chapters,
   * moving to a new day each time `chapters_per_day` entries have filled the current one.
   */
  method ScheduleSubject(plan: seq<Entry>, day: int, chapterIndex: int,
                         subjects: seq<string>, chapters: seq<int>, i: nat, cpd: int)
    returns (plan': seq<Entry>, day': int, chapterIndex': int)
    requires i < |subjects| && i < |chapters| && cpd >= 1
    requires plan == Entries(Slots(subjects, chapters, i), cpd) && chapterIndex == |plan|
    requires day == DaysStarted(chapterIndex, cpd)
    ensures plan' == Entries(Slots(subjects, chapters, i + 1), cpd)
    ensures chapterIndex' == |plan'|
    ensures day' == DaysStarted(chapterIndex', cpd)
  {
    plan', day', chapterIndex' := plan, day, chapterIndex;
    ghost var done := Slots(subjects, chapters, i);
    // `subject.strip()` is the same on every iteration, so it is computed once.
    var subject := PyStrip(subjects[i]);
    var count := chapters[i];
    var c := 0;
    assert done + SubjectSlots(subject, 0) == done;
    while c < count
      invariant 0 <= c <= Iterations(count)
      invariant plan' == Entries(done + SubjectSlots(subject, c), cpd)
      invariant chapterIndex' == |done| + c
      invariant day' == DaysStarted(chapterIndex', cpd)
    {
      var nextDay := day';
      if chapterIndex' % cpd == 0 {
        nextDay := day' + 1;
      }
      LoopStep(plan', done, subject, c, cpd, chapterIndex', day', nextDay);
      day' := nextDay;
      plan' := plan' + [Entry(day', subject, ChapterLabel(c + 1))];
      chapterIndex' := chapterIndex' + 1;
      c := c + 1;
    }
    assert SubjectSlots(subject, c) == SubjectSlots(subject, count);
  }

  /** One inner-loop iteration keeps the loop's closed form for the plan and the day counter. */
  lemma LoopStep(plan: seq<Entry>, done: seq<Slot>, subject: string, c: nat, cpd: int,
                 index: nat, day: int, nextDay: int)
    requires cpd >= 1
    requires plan == Entries(done + SubjectSlots(subject, c), cpd)
    requires index == |done| + c
    requires day == DaysStarted(index, cpd)
    requires nextDay == if index % cpd == 0 then day + 1 else day
    ensures plan + [Entry(nextDay, subject, ChapterLabel(c + 1))]
         == Entries(done + SubjectSlots(subject, c + 1), cpd)
    ensures nextDay == DaysStarted(index + 1, cpd)
  {
    DaysStartedClosed(index, cpd);
    DayStep(index, cpd);
    NextEntry(done, subject, c, cpd);
  }

  /**
   * The loop's `day` counter once `count` entries are made: it moves on whenever the
   * running chapter index is a multiple of `chapters_per_day`.
   */
  function DaysStarted(count: nat, cpd: int): (r: nat)
    requires cpd >= 1
    ensures r <= count && (count > 0 ==> r >= 1)
  {
    if count == 0 then 0
    else if (count - 1) % cpd == 0 then DaysStarted(count - 1, cpd) + 1
    else DaysStarted(count - 1, cpd)
  }

  /** The counter in closed form: the number of days begun, rounding up. */
  lemma {:induction false} DaysStartedClosed(count: nat, cpd: int)
    requires cpd >= 1
    ensures DaysStarted(count, cpd) == (count + cpd - 1) / cpd
  {
    if count == 0 {
      DivUnique(cpd - 1, cpd, 0, cpd - 1);
    } else {
      DaysStartedClosed(count - 1, cpd);
      DayStep(count - 1, cpd);
    }
  }

  /** Multiplying by a non-negative number is monotonic. */
  lemma {:induction false} MulMonotonic(d: int, a: int, b: int)
    requires d >= 0 && a <= b
    ensures d * a <= d * b
    decreases b - a
  {
    if a < b {
      MulMonotonic(d, a, b - 1);
      assert d * b == d * (b - 1) + d;
    }
  }

  /** `n / d == q` when `n == d * q + r` with `0 <= r < d`. */
  lemma DivUnique(n: int, d: int, q: int, r: int)
    requires d >= 1 && n == d * q + r && 0 <= r < d
    ensures n / d == q
  {
    var q', r' := n / d, n % d;
    assert n == d * q' + r';
    if q' < q {
      assert d * (q' + 1) == d * q' + d;
      MulMonotonic(d, q' + 1, q);
    } else if q' > q {
      assert d * (q + 1) == d * q + d;
      MulMonotonic(d, q + 1, q');
    }
  }

  /** One step of the day counter: it moves to `k / d + 1` exactly as the loop does. */
  lemma DayStep(k: nat, d: int)
    requires d >= 1
    ensures k % d == 0 ==> (k + d - 1) / d + 1 == k / d + 1
    ensures k % d != 0 ==> (k + d - 1) / d == k / d + 1
    ensures (k + 1 + d - 1) / d == k / d + 1
  {
    var q, r := k / d, k % d;
    assert k == d * q + r;
    if r == 0 {
      DivUnique(k + d - 1, d, q, d - 1);
    } else {
      DivUnique(k + d - 1, d, q + 1, r - 1);
    }
    DivUnique(k + d, d, q + 1, r);
  }

  /** One inner-loop iteration appends the entry of chapter `c + 1`, numbered `|done| + c`. */
  lemma NextEntry(done: seq<Slot>, subject: string, c: nat, cpd: int)
    requires cpd >= 1
    ensures Entries(done + SubjectSlots(subject, c + 1), cpd)
         == Entries(done + SubjectSlots(subject, c), cpd)
            + [Entry((|done| + c) / cpd + 1, subject, ChapterLabel(c + 1))]
  {
    SubjectSlotsStep(subject, c);
    assert done + SubjectSlots(subject, c + 1) == (done + SubjectSlots(subject, c)) + [Slot(subject, c + 1)];
    EntriesAppend(done + SubjectSlots(subject, c), Slot(subject, c + 1), cpd);
  }

  lemma SubjectSlotsStep(subject: string, c: nat)
    ensures SubjectSlots(subject, c + 1) == SubjectSlots(subject, c) + [Slot(subject, c + 1)]
  {
  }

  lemma EntriesAppend(slots: seq<Slot>, slot: Slot, cpd: int)
    requires cpd >= 1
    ensures Entries(slots + [slot], cpd)
         == Entries(slots, cpd) + [Entry(|slots| / cpd + 1, slot.subject, ChapterLabel(slot.number))]
  {
  }
}
