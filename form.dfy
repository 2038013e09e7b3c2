/**
 * The form-state store of the study planner: the list of subjects being edited and the
 * six edit handlers that change it, written as pure transitions on the list. The
 * `Planner` class in planner.dfy performs the same edits in place.
 */
module Form {
  import opened Seqs

  /** One subject row of the form: its name, its exam date (`YYYY-MM-DD`) and its chapter inputs. */
  datatype Subject = Subject(name: string, examDate: string, chapters: seq<string>)

  /** The two subject fields `handleSubjectChange` is called with: `"name"` and `"exam_date"`. */
  datatype Field = Name | ExamDate

  /** The row that the form starts with and that "+ Add Subject" appends. */
  function NewSubject(today: string): Subject {
    Subject("", today, [""])
  }

  /**
   * The invariant the buttons keep: at least one subject, and at least one chapter
   * input in every subject.
   */
  predicate WellFormed(subjects: seq<Subject>) {
    |subjects| >= 1 && forall k :: 0 <= k < |subjects| ==> |subjects[k].chapters| >= 1
  }

  /** The initial form: one blank subject dated today. */
  function InitialSubjects(today: string): (r: seq<Subject>)
    ensures WellFormed(r) && |r| == 1 && r[0].name == "" && r[0].examDate == today
  {
    [NewSubject(today)]
  }

  /** `handleSubjectChange`: only the chosen field of the chosen subject changes. */
  function WithField(subjects: seq<Subject>, index: int, field: Field, value: string): (r: seq<Subject>)
    requires 0 <= index < |subjects|
    ensures |r| == |subjects|
    ensures forall k :: 0 <= k < |r| && k != index ==> r[k] == subjects[k]
    ensures r[index].name == (if field == Name then value else subjects[index].name)
    ensures r[index].examDate == (if field == ExamDate then value else subjects[index].examDate)
    ensures r[index].chapters == subjects[index].chapters
  {
    var s := subjects[index];
    subjects[index := match field case Name => s.(name := value) case ExamDate => s.(examDate := value)]
  }

  /** `handleChapterChange`: only the chosen chapter of the chosen subject changes. */
  function WithChapter(subjects: seq<Subject>, index: int, chapIndex: int, value: string): (r: seq<Subject>)
    requires 0 <= index < |subjects| && 0 <= chapIndex < |subjects[index].chapters|
    ensures |r| == |subjects|
    ensures forall k :: 0 <= k < |r| && k != index ==> r[k] == subjects[k]
    ensures r[index].name == subjects[index].name && r[index].examDate == subjects[index].examDate
    ensures |r[index].chapters| == |subjects[index].chapters|
    ensures r[index].chapters[chapIndex] == value
    ensures forall j :: 0 <= j < |r[index].chapters| && j != chapIndex ==>
              r[index].chapters[j] == subjects[index].chapters[j]
  {
    var s := subjects[index];
    subjects[index := s.(chapters := s.chapters[chapIndex := value])]
  }

  /** `addSubject`: one new blank subject at the end; the existing ones stay, in order. */
  function WithSubjectAdded(subjects: seq<Subject>, today: string): (r: seq<Subject>)
    ensures |r| == |subjects| + 1
    ensures forall k :: 0 <= k < |subjects| ==> r[k] == subjects[k]
    ensures r[|subjects|] == NewSubject(today)
  {
    subjects + [NewSubject(today)]
  }

  /** `addChapter`: a blank chapter input appended to the chosen subject only. */
  function WithChapterAdded(subjects: seq<Subject>, index: int): (r: seq<Subject>)
    requires 0 <= index < |subjects|
    ensures |r| == |subjects|
    ensures forall k :: 0 <= k < |r| && k != index ==> r[k] == subjects[k]
    ensures r[index].name == subjects[index].name && r[index].examDate == subjects[index].examDate
    ensures |r[index].chapters| == |subjects[index].chapters| + 1
    ensures forall j :: 0 <= j < |subjects[index].chapters| ==> r[index].chapters[j] == subjects[index].chapters[j]
    ensures r[index].chapters[|subjects[index].chapters|] == ""
  {
    var s := subjects[index];
    subjects[index := s.(chapters := s.chapters + [""])]
  }

  /**
   * `removeChapter`: the chosen subject's chapters are filtered by position, dropping the
   * one at `chapIndex`; every other subject is unchanged.
   */
  function WithoutChapter(subjects: seq<Subject>, index: int, chapIndex: int): (r: seq<Subject>)
    requires 0 <= index < |subjects|
    ensures |r| == |subjects|
    ensures forall k :: 0 <= k < |r| && k != index ==> r[k] == subjects[k]
    ensures r[index].name == subjects[index].name && r[index].examDate == subjects[index].examDate
    ensures 0 <= chapIndex < |subjects[index].chapters| ==>
              |r[index].chapters| == |subjects[index].chapters| - 1
    ensures r[index].chapters == RemoveAt(subjects[index].chapters, chapIndex)
  {
    var s := subjects[index];
    subjects[index := s.(chapters := RemoveAt(s.chapters, chapIndex))]
  }

  /** A user action on the subject list, one per handler. */
  datatype Edit =
    | SetField(index: int, field: Field, value: string)
    | SetChapter(index: int, chapIndex: int, value: string)
    | AddSubject
    | RemoveSubject(index: int)
    | AddChapter(index: int)
    | RemoveChapter(index: int, chapIndex: int)

  /**
   * The handler can run on `subjects` without throwing or growing an array past its end:
   * the subject it names exists, and so does the chapter it overwrites. Removals filter by
   * position and accept any position.
   */
  predicate Defined(subjects: seq<Subject>, e: Edit) {
    match e
    case SetField(i, _, _) => 0 <= i < |subjects|
    case SetChapter(i, j, _) => 0 <= i < |subjects| && 0 <= j < |subjects[i].chapters|
    case AddSubject => true
    case RemoveSubject(_) => true
    case AddChapter(i) => 0 <= i < |subjects|
    case RemoveChapter(i, _) => 0 <= i < |subjects|
  }

  /**
   * The control that raises `e` is on screen and enabled: on top of `Defined`, a remove
   * button belongs to an existing row and is disabled while its list has a single entry.
   * `Defined` is what the handler itself needs; `Enabled` is what the page lets through.
   */
  predicate Enabled(subjects: seq<Subject>, e: Edit) {
    && Defined(subjects, e)
    && match e
       case RemoveSubject(i) => 0 <= i < |subjects| && |subjects| != 1
       case RemoveChapter(i, j) => 0 <= i < |subjects| && 0 <= j < |subjects[i].chapters|
                                   && |subjects[i].chapters| != 1
       case _ => true
  }

  /**
   * The new subject list each handler passes to `setSubjects`. Only the subject handlers
   * change the number of subjects: by one more, or one fewer for an existing position.
   */
  function Apply(subjects: seq<Subject>, e: Edit, today: string): (r: seq<Subject>)
    requires Defined(subjects, e)
    ensures e.AddSubject? ==> |r| == |subjects| + 1
    ensures e.RemoveSubject? ==> |r| == if 0 <= e.index < |subjects| then |subjects| - 1 else |subjects|
    ensures !e.AddSubject? && !e.RemoveSubject? ==> |r| == |subjects|
  {
    match e
    case SetField(i, f, v) => WithField(subjects, i, f, v)
    case SetChapter(i, j, v) => WithChapter(subjects, i, j, v)
    case AddSubject => WithSubjectAdded(subjects, today)
    case RemoveSubject(i) => RemoveAt(subjects, i)
    case AddChapter(i) => WithChapterAdded(subjects, i)
    case RemoveChapter(i, j) => WithoutChapter(subjects, i, j)
  }

  /** A click: an enabled control runs its handler; a disabled one does nothing. Either way the form stays well formed. */
  function Click(subjects: seq<Subject>, e: Edit, today: string): (r: seq<Subject>)
    ensures WellFormed(subjects) ==> WellFormed(r)
  {
    if Enabled(subjects, e) then
      if WellFormed(subjects) then ApplyPreservesWellFormed(subjects, e, today); Apply(subjects, e, today)
      else Apply(subjects, e, today)
    else subjects
  }

  /** The subject list after a sequence of clicks. */
  function Run(subjects: seq<Subject>, edits: seq<Edit>, today: string): seq<Subject>
    decreases |edits|
  {
    if edits == [] then subjects else Run(Click(subjects, edits[0], today), edits[1..], today)
  }

  /** Every enabled handler keeps the form well formed. */
  lemma ApplyPreservesWellFormed(subjects: seq<Subject>, e: Edit, today: string)
    requires WellFormed(subjects) && Enabled(subjects, e)
    ensures WellFormed(Apply(subjects, e, today))
  {
    var r := Apply(subjects, e, today);
    match e
    case SetField(i, f, v) =>
    case SetChapter(i, j, v) =>
    case AddSubject =>
    case RemoveSubject(i) =>
      forall k | 0 <= k < |r| ensures |r[k].chapters| >= 1 {
        if k < i { assert r[k] == subjects[k]; } else { assert r[k] == subjects[k + 1]; }
      }
    case AddChapter(i) =>
    case RemoveChapter(i, j) =>
  }

  /** Removing a subject through its enabled button shrinks the list by exactly one. */
  lemma RemoveSubjectCount(subjects: seq<Subject>, i: int, today: string)
    requires Enabled(subjects, RemoveSubject(i))
    ensures |Apply(subjects, RemoveSubject(i), today)| == |subjects| - 1 >= 1
  {
  }

  /** Whatever sequence of clicks the user makes, the form stays well formed. */
  lemma {:induction false} RunPreservesWellFormed(subjects: seq<Subject>, edits: seq<Edit>, today: string)
    requires WellFormed(subjects)
    ensures WellFormed(Run(subjects, edits, today))
    decreases |edits|
  {
    if edits != [] {
      RunPreservesWellFormed(Click(subjects, edits[0], today), edits[1..], today);
    }
  }

  /**
   * From the initial form, every reachable subject list has at least one subject and
   * every subject at least one chapter input.
   */
  lemma ReachableWellFormed(edits: seq<Edit>, today: string)
    ensures WellFormed(Run(InitialSubjects(today), edits, today))
  {
    RunPreservesWellFormed(InitialSubjects(today), edits, today);
  }
}
