/**
 * The clean-and-validate step that `submitPlan` runs before any request is made:
 * trim subject names, drop blank chapters, drop subjects that are left without a
 * name, a date or a chapter, then check that something is left and that the daily
 * hours are usable.
 */
module Submission {
  import opened Results
  import opened Text
  import opened Seqs
  import opened Form

  const NO_SUBJECTS_ERROR := "Please add at least one subject with chapters."
  const HOURS_ERROR := "Please enter valid daily study hours."

  /** What would be posted: the cleaned subjects and the daily hours. */
  datatype Payload = Payload(subjects: seq<Subject>, dailyHours: int)

  /** A chapter input that is not blank after trimming. */
  predicate IsNonBlank(c: string) {
    JsTrim(c) != ""
  }

  /** First filter of the chain: a name that is not blank and an exam date that is not empty. */
  predicate HasNameAndDate(s: Subject) {
    JsTrim(s.name) != "" && s.examDate != ""
  }

  /**
   * The map step of the chain: trimmed name, same date, only the non-blank chapters
   * (untrimmed, in their order). Chapters are only dropped, never added or altered.
   */
  function Normalised(s: Subject): (r: Subject)
    ensures |r.chapters| <= |s.chapters|
    ensures forall j :: 0 <= j < |r.chapters| ==> IsNonBlank(r.chapters[j]) && r.chapters[j] in s.chapters
    ensures forall j :: 0 <= j < |s.chapters| && IsNonBlank(s.chapters[j]) ==> s.chapters[j] in r.chapters
  {
    Subject(JsTrim(s.name), s.examDate, Filter(IsNonBlank, s.chapters))
  }

  /** Last filter of the chain: at least one chapter left. */
  predicate HasChapters(s: Subject) {
    |s.chapters| > 0
  }

  /** A subject as it may appear in a payload. */
  predicate Submittable(s: Subject) {
    && s.name != "" && JsTrim(s.name) == s.name
    && s.examDate != ""
    && |s.chapters| > 0
    && forall j :: 0 <= j < |s.chapters| ==> IsNonBlank(s.chapters[j])
  }

  /**
   * Whether a form subject makes it into the payload, stated on the raw input: its
   * name is not blank, its date is not empty and some chapter is not blank.
   */
  predicate Survives(s: Subject) {
    && JsTrim(s.name) != "" && s.examDate != ""
    && exists j :: 0 <= j < |s.chapters| && IsNonBlank(s.chapters[j])
  }

  /** `cleanedSubjects`: the filter / map / filter chain of `submitPlan`. */
  function Clean(subjects: seq<Subject>): (r: seq<Subject>)
    ensures |r| <= |subjects|
    ensures forall k :: 0 <= k < |r| ==> Submittable(r[k])
  {
    var named := Filter(HasNameAndDate, subjects);
    var normalised := Map(Normalised, named);
    NormalisedAreTrimmed(named);
    Filter(HasChapters, normalised)
  }

  /** The map step yields trimmed names, present dates and non-blank chapters. */
  lemma NormalisedAreTrimmed(named: seq<Subject>)
    requires forall k :: 0 <= k < |named| ==> HasNameAndDate(named[k])
    ensures forall x :: x in Map(Normalised, named) && HasChapters(x) ==> Submittable(x)
  {
    var m := Map(Normalised, named);
    forall k | 0 <= k < |m| && HasChapters(m[k]) ensures Submittable(m[k]) {
      NormalisedSubmittable(named[k]);
    }
  }

  /** One subject through the map step. */
  lemma NormalisedSubmittable(s: Subject)
    requires HasNameAndDate(s) && HasChapters(Normalised(s))
    ensures Submittable(Normalised(s))
  {
    TrimIdempotent(JsWhiteSpace, s.name);
  }

  /** A single subject is kept, normalised, exactly when it survives. */
  lemma CleanSingle(x: Subject)
    ensures Clean([x]) == if Survives(x) then [Normalised(x)] else []
  {
    assert [x][1..] == [];
    var chapters := Filter(IsNonBlank, x.chapters);
    assert chapters != [] ==> chapters[0] in x.chapters;
    if Survives(x) {
      var j :| 0 <= j < |x.chapters| && IsNonBlank(x.chapters[j]);
      assert x.chapters[j] in chapters;
    }
    assert [Normalised(x)][1..] == [];
  }

  /** Cleaning distributes over concatenation, so survivors keep their input order. */
  lemma CleanConcat(a: seq<Subject>, b: seq<Subject>)
    ensures Clean(a + b) == Clean(a) + Clean(b)
  {
    FilterConcat(HasNameAndDate, a, b);
    MapConcat(Normalised, Filter(HasNameAndDate, a), Filter(HasNameAndDate, b));
    FilterConcat(HasChapters, Map(Normalised, Filter(HasNameAndDate, a)), Map(Normalised, Filter(HasNameAndDate, b)));
  }

  /**
   * The filter / map / filter chain equals one filter by `Survives` followed by one map:
   * the cleaned list is exactly the survivors, in input order, each normalised.
   */
  lemma {:induction false} CleanIsSurvivorsNormalised(subjects: seq<Subject>)
    ensures Clean(subjects) == Map(Normalised, Filter(Survives, subjects))
  {
    if subjects != [] {
      var rest := subjects[1..];
      assert subjects == [subjects[0]] + rest;
      CleanConcat([subjects[0]], rest);
      CleanSingle(subjects[0]);
      CleanIsSurvivorsNormalised(rest);
      FilterConcat(Survives, [subjects[0]], rest);
      assert [subjects[0]][1..] == [];
      MapConcat(Normalised, Filter(Survives, [subjects[0]]), Filter(Survives, rest));
    }
  }

  /** Nothing is left after cleaning exactly when no subject survives. */
  lemma CleanEmpty(subjects: seq<Subject>)
    ensures Clean(subjects) == [] <==> forall k :: 0 <= k < |subjects| ==> !Survives(subjects[k])
  {
    CleanIsSurvivorsNormalised(subjects);
    var kept := Filter(Survives, subjects);
    if kept != [] {
      assert kept[0] in subjects;
    }
    forall k | 0 <= k < |subjects| && Survives(subjects[k]) ensures kept != [] {
      assert subjects[k] in kept;
    }
  }

  /** A list that is already in payload form passes through cleaning unchanged. */
  lemma CleanFixesSubmittable(subjects: seq<Subject>)
    requires forall k :: 0 <= k < |subjects| ==> Submittable(subjects[k])
    ensures Clean(subjects) == subjects
  {
    FilterKeepsAll(HasNameAndDate, subjects);
    forall k | 0 <= k < |subjects| ensures Normalised(subjects[k]) == subjects[k] {
      FilterKeepsAll(IsNonBlank, subjects[k].chapters);
    }
    assert Map(Normalised, subjects) == subjects;
    FilterKeepsAll(HasChapters, subjects);
  }

  /** Cleaning is idempotent. */
  lemma CleanIdempotent(subjects: seq<Subject>)
    ensures Clean(Clean(subjects)) == Clean(subjects)
  {
    CleanFixesSubmittable(Clean(subjects));
  }

  /**
   * The validation of `submitPlan`: the subject check comes first, then the hours check
   * (absent, `NaN`, zero or negative hours are refused); on success the payload carries
   * the cleaned subjects and the hours.
   */
  function Validate(subjects: seq<Subject>, dailyHours: Option<int>): (r: Result<Payload, string>)
    ensures r.Success? ==> r.value.subjects == Clean(subjects) && dailyHours == Some(r.value.dailyHours)
    ensures r.Success? ==> |r.value.subjects| > 0 && r.value.dailyHours > 0
                           && forall k :: 0 <= k < |r.value.subjects| ==> Submittable(r.value.subjects[k])
    ensures r.Failure? ==> r.error == NO_SUBJECTS_ERROR || r.error == HOURS_ERROR
  {
    var cleaned := Clean(subjects);
    if |cleaned| == 0 then Failure(NO_SUBJECTS_ERROR)
    else if dailyHours.None? || dailyHours.value <= 0 then Failure(HOURS_ERROR)
    else Success(Payload(cleaned, dailyHours.value))
  }

  /** With no surviving subject the subject error is reported, whatever the hours. */
  lemma ValidateNoSurvivor(subjects: seq<Subject>, dailyHours: Option<int>)
    requires forall k :: 0 <= k < |subjects| ==> !Survives(subjects[k])
    ensures Validate(subjects, dailyHours) == Failure(NO_SUBJECTS_ERROR)
  {
    CleanEmpty(subjects);
  }

  /** With a surviving subject, unusable hours give the hours error. */
  lemma ValidateBadHours(subjects: seq<Subject>, dailyHours: Option<int>)
    requires exists k :: 0 <= k < |subjects| && Survives(subjects[k])
    requires dailyHours.None? || dailyHours.value <= 0
    ensures Validate(subjects, dailyHours) == Failure(HOURS_ERROR)
  {
    CleanEmpty(subjects);
  }

  /** With a surviving subject and positive hours, the survivors are submitted, normalised and in order. */
  lemma ValidateAccepts(subjects: seq<Subject>, hours: int)
    requires exists k :: 0 <= k < |subjects| && Survives(subjects[k])
    requires hours > 0
    ensures Validate(subjects, Some(hours)) == Success(Payload(Map(Normalised, Filter(Survives, subjects)), hours))
  {
    CleanEmpty(subjects);
    CleanIsSurvivorsNormalised(subjects);
  }

  /** A subject with a blank chapter among real ones is submitted with only the real ones. */
  lemma ValidateExample()
    ensures Validate([Subject("Math", "2024-06-01", ["Algebra", " "])], Some(3)) == Success(Payload([Subject("Math", "2024-06-01", ["Algebra"])], 3))
  {
    ExampleSubject();
    CleanSingle(Subject("Math", "2024-06-01", ["Algebra", " "]));
  }

  /** The subject of `ValidateExample` survives, losing its blank chapter. */
  lemma ExampleSubject()
    ensures var x := Subject("Math", "2024-06-01", ["Algebra", " "]);
            Survives(x) && Normalised(x) == Subject("Math", "2024-06-01", ["Algebra"])
  {
    ExampleTrims();
    var chapters := ["Algebra", " "];
    assert chapters[1..] == [" "] && [" "][1..] == [];
    assert Filter(IsNonBlank, [" "]) == [];
    assert Filter(IsNonBlank, chapters) == [chapters[0]] + Filter(IsNonBlank, chapters[1..]);
  }

  /** How the strings of `ValidateExample` trim. */
  lemma ExampleTrims()
    ensures JsTrim("Math") == "Math" && IsNonBlank("Algebra") && !IsNonBlank(" ")
  {
    assert !JsWhiteSpace('M') && !JsWhiteSpace('h') && !JsWhiteSpace('A');
    assert AllSpace(JsWhiteSpace, " ");
  }
}
