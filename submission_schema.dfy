/** The submission record and the constraints its schema puts on the store:
    required fields, the grade bounds and the unique (assignment, student) index. */
module SubmissionSchema {
  import opened Model

  /** A submission; `grade`, `feedback` and `gradedBy` stay absent until grading. */
  datatype Submission = Submission(
    assignment: Id,
    student: Id,
    content: string,
    grade: Option<int>,
    feedback: Option<string>,
    gradedBy: Option<Id>)

  const MinGrade := 0
  const MaxGrade := 100

  predicate GradeInRange(g: int)
  {
    MinGrade <= g <= MaxGrade
  }

  /** What the schema validates on one record: content is required (a required
      string may not be empty) and a grade, when present, is within bounds. */
  predicate WellFormed(s: Submission)
  {
    s.content != "" && (s.grade.Some? ==> GradeInRange(s.grade.value))
  }

  /** A freshly created submission: nothing about grading is set. */
  function NewSubmission(assignment: Id, student: Id, content: string): (s: Submission)
    ensures s.grade.None? && s.feedback.None? && s.gradedBy.None?
    ensures content != "" ==> WellFormed(s)
  {
    Submission(assignment, student, content, None, None, None)
  }

  /** The unique index: at most one submission per (assignment, student) pair. */
  predicate UniquePairs(subs: map<Id, Submission>)
  {
    forall a, b ::
      (a in subs && b in subs && subs[a].assignment == subs[b].assignment &&
       subs[a].student == subs[b].student) ==> a == b
  }

  /** `Submission.findOne({ assignment, student })` finds something. */
  predicate HasSubmission(subs: map<Id, Submission>, assignment: Id, student: Id)
  {
    exists k :: k in subs && subs[k].assignment == assignment && subs[k].student == student
  }

  /** Every stored submission is well formed and the unique index holds. */
  predicate Conforms(subs: map<Id, Submission>)
  {
    UniquePairs(subs) && forall k :: k in subs ==> WellFormed(subs[k])
  }

  /** Inserting a well-formed submission for a pair that has none keeps the store conforming. */
  lemma InsertKeepsConformance(subs: map<Id, Submission>, id: Id, s: Submission)
    requires Conforms(subs) && id !in subs && WellFormed(s)
    requires !HasSubmission(subs, s.assignment, s.student)
    ensures Conforms(subs[id := s])
    ensures HasSubmission(subs[id := s], s.assignment, s.student)
  {
    var subs' := subs[id := s];
    forall k | k in subs && k != id
      ensures subs'[k] == subs[k]
      ensures subs[k].assignment != s.assignment || subs[k].student != s.student
    {
    }
    assert subs'[id] == s;
  }

  /** Replacing a submission by a well-formed one for the same pair keeps the store conforming. */
  lemma ReplaceKeepsConformance(subs: map<Id, Submission>, id: Id, s: Submission)
    requires Conforms(subs) && id in subs && WellFormed(s)
    requires s.assignment == subs[id].assignment && s.student == subs[id].student
    ensures Conforms(subs[id := s])
  {
    var subs' := subs[id := s];
    forall a, b | a in subs' && b in subs' && subs'[a].assignment == subs'[b].assignment &&
      subs'[a].student == subs'[b].student
      ensures a == b
    {
      assert subs[a].assignment == subs'[a].assignment && subs[a].student == subs'[a].student;
      assert subs[b].assignment == subs'[b].assignment && subs[b].student == subs'[b].student;
    }
  }
}
