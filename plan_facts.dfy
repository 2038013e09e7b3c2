/**
 * What the plan produced by `create_plan` looks like: its length, the order of its
 * entries (subjects in input order, each subject's chapters numbered from 1), and how
 * the entries are spread over the days from tomorrow on, `chapters_per_day` per day.
 */
module PlanFacts {
  import opened Text
  import opened Scheduler

  /** With no negative chapter counts, the plan has one entry per chapter of the listed subjects. */
  lemma PlanLength(subjects: seq<string>, chapters: seq<int>, cpd: int)
    requires |subjects| <= |chapters| && cpd >= 1
    requires forall k :: 0 <= k < |subjects| ==> chapters[k] >= 0
    ensures |Plan(subjects, chapters, cpd)| == Sum(chapters[..|subjects|])
  {
    EntriesBeforeIsSum(chapters, |subjects|);
  }

  /** The slots of the first `n` subjects are a prefix of those of the first `m`. */
  lemma {:induction false} SlotsPrefix(subjects: seq<string>, chapters: seq<int>, n: nat, m: nat)
    requires n <= m <= |subjects| && m <= |chapters|
    ensures EntriesBefore(chapters, n) <= EntriesBefore(chapters, m)
    ensures Slots(subjects, chapters, m)[..EntriesBefore(chapters, n)] == Slots(subjects, chapters, n)
    decreases m
  {
    if n < m {
      SlotsPrefix(subjects, chapters, n, m - 1);
      var before := Slots(subjects, chapters, m - 1);
      assert Slots(subjects, chapters, m) == before + SubjectSlots(PyStrip(subjects[m - 1]), chapters[m - 1]);
      assert (before + SubjectSlots(PyStrip(subjects[m - 1]), chapters[m - 1]))[..EntriesBefore(chapters, n)]
          == before[..EntriesBefore(chapters, n)];
    }
  }

  /**
   * Chapter `c + 1` of subject `i` is entry number `EntriesBefore(chapters, i) + c` of the
   * plan: the subject's name stripped of surrounding whitespace, the label `Chapter c+1`,
   * and the day that entry number falls on.
   */
  lemma PlanEntry(subjects: seq<string>, chapters: seq<int>, cpd: int, i: nat, c: nat)
    requires |subjects| <= |chapters| && cpd >= 1
    requires i < |subjects| && c < chapters[i]
    ensures EntriesBefore(chapters, i) + c < |Plan(subjects, chapters, cpd)|
    ensures Plan(subjects, chapters, cpd)[EntriesBefore(chapters, i) + c]
         == Entry((EntriesBefore(chapters, i) + c) / cpd + 1, PyStrip(subjects[i]), ChapterLabel(c + 1))
  {
    var k := EntriesBefore(chapters, i) + c;
    SlotsPrefix(subjects, chapters, i + 1, |subjects|);
    var all := Slots(subjects, chapters, |subjects|);
    var upTo := Slots(subjects, chapters, i + 1);
    assert upTo == Slots(subjects, chapters, i) + SubjectSlots(PyStrip(subjects[i]), chapters[i]);
    assert upTo[k] == Slot(PyStrip(subjects[i]), c + 1);
    assert all[k] == upTo[k];
  }

  /** The slots of the first `n` subjects only read the first `n` chapter counts. */
  lemma {:induction false} SlotsIgnoreExtraCounts(subjects: seq<string>, chapters: seq<int>, extra: seq<int>, n: nat)
    requires n <= |subjects| && n <= |chapters|
    ensures Slots(subjects, chapters + extra, n) == Slots(subjects, chapters, n)
  {
    if n > 0 {
      SlotsIgnoreExtraCounts(subjects, chapters, extra, n - 1);
      assert (chapters + extra)[n - 1] == chapters[n - 1];
    }
  }

  /**
   * Chapter counts beyond the last subject add no entries: for a given `chapters_per_day`
   * the plan is the same with or without them (they only count towards the total).
   */
  lemma PlanIgnoresExtraCounts(subjects: seq<string>, chapters: seq<int>, extra: seq<int>, cpd: int)
    requires |subjects| <= |chapters| && cpd >= 1
    ensures Plan(subjects, chapters + extra, cpd) == Plan(subjects, chapters, cpd)
  {
    SlotsIgnoreExtraCounts(subjects, chapters, extra, |subjects|);
  }

  /** `j <= k` implies `j / d <= k / d`. */
  lemma DivMonotonic(j: nat, k: nat, d: int)
    requires d >= 1 && j <= k
    ensures j / d <= k / d
  {
    var qj, qk := j / d, k / d;
    assert j == d * qj + j % d && k == d * qk + k % d;
    if qj > qk {
      assert d * (qk + 1) == d * qk + d;
      MulMonotonic(d, qk + 1, qj);
    }
  }

  /** Adding one raises the quotient by `d` by at most one. */
  lemma NextQuotient(j: nat, d: int)
    requires d >= 1
    ensures (j + 1) / d <= j / d + 1
  {
    var q, r := j / d, j % d;
    assert j == d * q + r;
    if r + 1 < d {
      DivUnique(j + 1, d, q, r + 1);
    } else {
      DivUnique(j + 1, d, q + 1, 0);
    }
  }

  /** Two indices with the same quotient by `d` are less than `d` apart. */
  lemma SameQuotient(j: nat, k: nat, d: int)
    requires d >= 1 && j <= k && j / d == k / d
    ensures k - j < d
  {
    assert j == d * (j / d) + j % d && k == d * (k / d) + k % d;
  }

  /** The first entry of a non-empty plan is scheduled tomorrow (day 1). */
  lemma FirstDayTomorrow(slots: seq<Slot>, cpd: int)
    requires cpd >= 1 && slots != []
    ensures Entries(slots, cpd)[0].day == 1
  {
    DivUnique(0, cpd, 0, 0);
  }

  /** Later entries are never scheduled earlier, and consecutive entries are at most a day apart. */
  lemma DaysInOrder(slots: seq<Slot>, cpd: int, j: nat, k: nat)
    requires cpd >= 1 && j <= k < |slots|
    ensures Entries(slots, cpd)[j].day <= Entries(slots, cpd)[k].day
    ensures k == j + 1 ==> Entries(slots, cpd)[k].day <= Entries(slots, cpd)[j].day + 1
  {
    DivMonotonic(j, k, cpd);
    if k == j + 1 {
      NextQuotient(j, cpd);
    }
  }

  /** No day holds more than `chapters_per_day` entries. */
  lemma DayCapacity(slots: seq<Slot>, cpd: int, j: nat, k: nat)
    requires cpd >= 1 && j <= k < |slots|
    requires Entries(slots, cpd)[j].day == Entries(slots, cpd)[k].day
    ensures k - j < cpd
  {
    SameQuotient(j, k, cpd);
  }

  /** Every day but the last is filled: the entry `chapters_per_day` places later is on the next day. */
  lemma DaysFilled(slots: seq<Slot>, cpd: int, k: nat)
    requires cpd >= 1 && k + cpd < |slots|
    ensures Entries(slots, cpd)[k + cpd].day == Entries(slots, cpd)[k].day + 1
  {
    assert k == cpd * (k / cpd) + k % cpd;
    DivUnique(k + cpd, cpd, k / cpd + 1, k % cpd);
  }

  /** The last entry falls on the day the loop's counter has reached: `len(plan)` over `chapters_per_day`, rounded up. */
  lemma LastDay(slots: seq<Slot>, cpd: int)
    requires cpd >= 1 && slots != []
    ensures Entries(slots, cpd)[|slots| - 1].day == DaysStarted(|slots|, cpd)
  {
    var k := |slots| - 1;
    DaysStartedClosed(k + 1, cpd);
    DayStep(k, cpd);
    assert Entries(slots, cpd)[k].day == k / cpd + 1;
  }

  /** Counting entries subject by subject never goes down. */
  lemma {:induction false} EntriesBeforeMonotonic(chapters: seq<int>, n: nat, m: nat)
    requires n <= m <= |chapters|
    ensures EntriesBefore(chapters, n) <= EntriesBefore(chapters, m)
    decreases m
  {
    if n < m {
      EntriesBeforeMonotonic(chapters, n, m - 1);
    }
  }

  /** `k < d * q` implies `k / d < q`. */
  lemma DivBelow(k: nat, d: int, q: int)
    requires d >= 1 && k < d * q
    ensures k / d < q
  {
    assert k == d * (k / d) + k % d;
    if k / d >= q {
      MulMonotonic(d, q, k / d);
    }
  }

  /**
   * As written, `max(1, total_chapters // days_left)` rounds down, so the plan can run
   * past the exam: 5 chapters with 3 days left give 1 chapter a day and a fifth entry
   * on day 5.
   */
  lemma OverrunExample()
    ensures ChaptersPerDay(Sum([5]), 3) == 1
    ensures |Plan(["Math"], [5], 1)| == 5
    ensures Plan(["Math"], [5], 1)[4].day == 5 > 3
  {
    assert Sum([5]) == Sum([5][..0]) + 5;
    assert FloorDiv(5, 3) == 1;
    assert EntriesBefore([5], 1) == 5;
  }

  /** `chapters_per_day` rounded up, `max(1, ceil(total_chapters / days_left))`: enough to fit the days left. */
  function FittedChaptersPerDay(total: int, daysLeft: int): (cpd: int)
    requires daysLeft >= 1
    ensures cpd >= 1 && total <= cpd * daysLeft
  {
    var q := (total + daysLeft - 1) / daysLeft;
    assert total + daysLeft - 1 == daysLeft * q + (total + daysLeft - 1) % daysLeft;
    if q > 1 then q else 1
  }

  /**
   * With the rounded-up `chapters_per_day` and no negative chapter counts, every entry is
   * scheduled between tomorrow and the exam day.
   */
  lemma FittedPlanEndsByExam(subjects: seq<string>, chapters: seq<int>, daysLeft: int)
    requires |subjects| <= |chapters| && daysLeft >= 1
    requires forall k :: 0 <= k < |chapters| ==> chapters[k] >= 0
    ensures var p := Plan(subjects, chapters, FittedChaptersPerDay(Sum(chapters), daysLeft));
            forall k :: 0 <= k < |p| ==> 1 <= p[k].day <= daysLeft
  {
    var cpd := FittedChaptersPerDay(Sum(chapters), daysLeft);
    EntriesBeforeMonotonic(chapters, |subjects|, |chapters|);
    EntriesBeforeIsSum(chapters, |chapters|);
    assert chapters[..|chapters|] == chapters;
    EntriesWithin(Slots(subjects, chapters, |subjects|), cpd, daysLeft);
  }

  /** At most `cpd * days` entries all fall on days 1 to `days`. */
  lemma EntriesWithin(slots: seq<Slot>, cpd: int, days: int)
    requires cpd >= 1 && |slots| <= cpd * days
    ensures forall k :: 0 <= k < |slots| ==> 1 <= Entries(slots, cpd)[k].day <= days
  {
    forall k | 0 <= k < |slots|
      ensures 1 <= Entries(slots, cpd)[k].day <= days
    {
      DivBelow(k, cpd, days);
    }
  }
}
