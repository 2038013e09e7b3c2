/**
 * The `StudyPlanner` component's state and handlers: the subject list being edited, the
 * daily hours, the schedule on display and the error message. Each handler changes the
 * state in place and is specified by the pure transition of the `Form` module it
 * performs, so the facts proved there (frames, counts, the well-formedness the buttons
 * keep) carry over to every call.
 */
module StudyPlanner {
  import opened Results
  import opened Seqs
  import opened Form
  import opened Submission
  import opened ScheduleView

  class Planner {
    /** `todayStr`: the ISO date of the day the page was loaded. */
    const today: string
    var subjects: seq<Subject>
    /**
     * `+e.target.value`: an empty or invalid number field reads as `""`, which is 0, so
     * it is `Some(0)`. `None` stands for `NaN` or `undefined`, which this input never gives.
     */
    var dailyHours: Option<int>
    var schedule: Option<Schedule>
    var error: Option<string>

    /** At least one subject, and at least one chapter input per subject. */
    ghost predicate Valid()
      reads this
    {
      WellFormed(subjects)
    }

    /** The initial state: one blank subject dated today, 4 daily hours, no schedule and no error. */
    constructor(today: string)
      ensures this.today == today
      ensures subjects == InitialSubjects(today) && Valid()
      ensures dailyHours == Some(4) && schedule == None && error == None
    {
      this.today := today;
      subjects := InitialSubjects(today);
      dailyHours := Some(4);
      schedule := None;
      error := None;
    }

    /** `handleSubjectChange(index, field, value)`: copy the list, set one field of one subject. */
    method HandleSubjectChange(index: int, field: Field, value: string)
      requires 0 <= index < |subjects|
      modifies this
      ensures subjects == Apply(old(subjects), SetField(index, field, value), today)
      ensures old(Valid()) ==> Valid()
      ensures dailyHours == old(dailyHours) && schedule == old(schedule) && error == old(error)
    {
      var newSubjects := subjects;
      var s := newSubjects[index];
      match field {
        case Name => s := s.(name := value);
        case ExamDate => s := s.(examDate := value);
      }
      newSubjects := newSubjects[index := s];
      subjects := newSubjects;
    }

    /** `handleChapterChange(subIndex, chapIndex, value)`: copy the list, overwrite one chapter input. */
    method HandleChapterChange(subIndex: int, chapIndex: int, value: string)
      requires 0 <= subIndex < |subjects| && 0 <= chapIndex < |subjects[subIndex].chapters|
      modifies this
      ensures subjects == Apply(old(subjects), SetChapter(subIndex, chapIndex, value), today)
      ensures old(Valid()) ==> Valid()
      ensures dailyHours == old(dailyHours) && schedule == old(schedule) && error == old(error)
    {
      var newSubjects := subjects;
      var s := newSubjects[subIndex];
      newSubjects := newSubjects[subIndex := s.(chapters := s.chapters[chapIndex := value])];
      subjects := newSubjects;
    }

    /** `addSubject`: a new blank subject, dated today, at the end. */
    method AddSubject()
      modifies this
      ensures subjects == Apply(old(subjects), Edit.AddSubject, today)
      ensures old(Valid()) ==> Valid()
      ensures dailyHours == old(dailyHours) && schedule == old(schedule) && error == old(error)
    {
      subjects := subjects + [NewSubject(today)];
    }

    /**
     * `removeSubject(index)`: keep every subject whose position is not `index`. The button
     * that calls it is disabled while a single subject is left, which keeps `Valid`.
     */
    method RemoveSubject(index: int)
      modifies this
      ensures subjects == Apply(old(subjects), Edit.RemoveSubject(index), today)
      ensures old(Valid()) && Enabled(old(subjects), Edit.RemoveSubject(index)) ==> Valid()
      ensures dailyHours == old(dailyHours) && schedule == old(schedule) && error == old(error)
    {
      if old(Valid()) && Enabled(subjects, Edit.RemoveSubject(index)) {
        ApplyPreservesWellFormed(subjects, Edit.RemoveSubject(index), today);
      }
      subjects := RemoveAt(subjects, index);
    }

    /** `addChapter(subIndex)`: copy the list, push a blank chapter input onto one subject. */
    method AddChapter(subIndex: int)
      requires 0 <= subIndex < |subjects|
      modifies this
      ensures subjects == Apply(old(subjects), Edit.AddChapter(subIndex), today)
      ensures old(Valid()) ==> Valid()
      ensures dailyHours == old(dailyHours) && schedule == old(schedule) && error == old(error)
    {
      var newSubjects := subjects;
      var s := newSubjects[subIndex];
      newSubjects := newSubjects[subIndex := s.(chapters := s.chapters + [""])];
      subjects := newSubjects;
    }

    /**
     * `removeChapter(subIndex, chapIndex)`: copy the list, filter one subject's chapters by
     * position. The button is disabled while the subject has a single chapter input.
     */
    method RemoveChapter(subIndex: int, chapIndex: int)
      requires 0 <= subIndex < |subjects|
      modifies this
      ensures subjects == Apply(old(subjects), Edit.RemoveChapter(subIndex, chapIndex), today)
      ensures old(Valid()) && Enabled(old(subjects), Edit.RemoveChapter(subIndex, chapIndex)) ==> Valid()
      ensures dailyHours == old(dailyHours) && schedule == old(schedule) && error == old(error)
    {
      if old(Valid()) && Enabled(subjects, Edit.RemoveChapter(subIndex, chapIndex)) {
        ApplyPreservesWellFormed(subjects, Edit.RemoveChapter(subIndex, chapIndex), today);
      }
      var newSubjects := subjects;
      var s := newSubjects[subIndex];
      newSubjects := newSubjects[subIndex := s.(chapters := RemoveAt(s.chapters, chapIndex))];
      subjects := newSubjects;
    }

    /** The daily-hours input: `setDailyHours(+e.target.value)`. */
    method SetDailyHours(value: Option<int>)
      modifies this
      ensures dailyHours == value
      ensures subjects == old(subjects) && schedule == old(schedule) && error == old(error)
    {
      dailyHours := value;
    }

    /**
     * The synchronous part of `submitPlan`: clear the error and the schedule, clean the
     * subjects, and either show the first validation error or hand back the request to send.
     */
    method Submit() returns (request: Option<Payload>)
      modifies this
      ensures schedule == None
      ensures subjects == old(subjects) && dailyHours == old(dailyHours)
      ensures Validate(subjects, dailyHours).Success? ==>
                request == Some(Validate(subjects, dailyHours).value) && error == None
      ensures Validate(subjects, dailyHours).Failure? ==>
                request == None && error == Some(Validate(subjects, dailyHours).error)
    {
      error := None;
      schedule := None;
      var cleaned := Clean(subjects);
      if |cleaned| == 0 {
        error := Some(NO_SUBJECTS_ERROR);
        return None;
      }
      if dailyHours.None? || dailyHours.value <= 0 {
        error := Some(HOURS_ERROR);
        return None;
      }
      return Some(Payload(cleaned, dailyHours.value));
    }
  }
}
