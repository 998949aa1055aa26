/** The relational store the controllers share, as an in-memory object: the `questions`,
    `options`, `exams` and `exam_questions` tables plus their auto-increment counters.
    `Valid()` holds the invariants every committed request preserves. */
module Store {
  import opened Common

  /** A `questions` row. `difficulty` and `qtype` are kept as the strings the table holds. */
  datatype QuestionRow = QuestionRow(id: int, subjectId: int, qtype: string, text: string, difficulty: string)

  /** An `options` row of one question (the question id is the key it is stored under). */
  datatype OptionRow = OptionRow(id: int, idx: int, text: string, isCorrect: int)

  /** An `exams` row. `questionCount` is the cached number of linked questions. */
  datatype ExamHeader = ExamHeader(id: int, subjectId: int, name: string, mode: string, questionCount: int)

  /** An `exam_questions` row of one exam (the exam id is the key it is stored under). */
  datatype Link = Link(questionId: int, position: int)

  /** Ids strictly ascending: the order auto-increment insertion produces. */
  predicate IdsAscending(qs: seq<QuestionRow>) {
    forall i, j :: 0 <= i < j < |qs| ==> qs[i].id < qs[j].id
  }

  /** The link rows of one exam have positions exactly 1..n, in list order. */
  predicate Contiguous(ls: seq<Link>) {
    forall k :: 0 <= k < |ls| ==> ls[k].position == k + 1
  }

  /** The option rows of one question have `idx` exactly 0..n-1, in list order. */
  predicate Indexed(os: seq<OptionRow>) {
    forall k :: 0 <= k < |os| ==> os[k].idx == k
  }

  /** The question ids of a list of link rows, in order. */
  function LinkedIds(ls: seq<Link>): (ids: seq<int>)
    ensures |ids| == |ls| && forall k :: 0 <= k < |ls| ==> ids[k] == ls[k].questionId
  {
    seq(|ls|, k requires 0 <= k < |ls| => ls[k].questionId)
  }

  /** The link rows that list `ids` in order: position k+1 holds ids[k]. */
  function Positioned(ids: seq<int>): (ls: seq<Link>)
    ensures |ls| == |ids| && forall k :: 0 <= k < |ids| ==> ls[k] == Link(ids[k], k + 1)
  {
    seq(|ids|, k requires 0 <= k < |ids| => Link(ids[k], k + 1))
  }

  /** Writing a list of ids as link rows gives contiguous positions and reads back the same list. */
  lemma PositionedIsContiguous(ids: seq<int>)
    ensures Contiguous(Positioned(ids)) && LinkedIds(Positioned(ids)) == ids
  {
  }

  /** Contiguous link rows are exactly the rows their id list would be written as:
      deleting them and re-inserting their ids restores them. */
  lemma PositionedOfLinkedIds(ls: seq<Link>)
    requires Contiguous(ls)
    ensures Positioned(LinkedIds(ls)) == ls
  {
  }

  /** The first `questions` row with this id (the only one, as ids are ascending). */
  function FindQuestion(qs: seq<QuestionRow>, id: int): (r: Option<QuestionRow>)
    ensures r.Some? ==> r.value in qs && r.value.id == id
    ensures r.None? ==> forall i :: 0 <= i < |qs| ==> qs[i].id != id
  {
    if qs == [] then None else if qs[0].id == id then Some(qs[0]) else FindQuestion(qs[1..], id)
  }

  /** With ascending ids, looking a row's id up finds that row. */
  lemma {:induction false} FindQuestionAt(qs: seq<QuestionRow>, i: int)
    requires IdsAscending(qs) && 0 <= i < |qs|
    ensures FindQuestion(qs, qs[i].id) == Some(qs[i])
  {
    if i > 0 {
      assert qs[0].id < qs[i].id;
      FindQuestionAt(qs[1..], i - 1);
    }
  }

  class Database {
    var questions: seq<QuestionRow>
    var options: map<int, seq<OptionRow>>
    var exams: map<int, ExamHeader>
    var links: map<int, seq<Link>>
    var nextQuestionId: int
    var nextOptionId: int
    var nextExamId: int

    /** The store's invariants: question ids ascending below the counter, option `idx` contiguous
        from 0, every exam keyed by its own id below the counter, and for every exam
        `question_count` equal to its number of link rows, whose positions run 1..n. */
    ghost predicate Valid()
      reads this
    {
      && IdsAscending(questions)
      && (forall i :: 0 <= i < |questions| ==> 0 < questions[i].id < nextQuestionId)
      && (forall q :: q in options ==> Indexed(options[q]))
      && 0 < nextQuestionId && 0 < nextExamId
      && exams.Keys == links.Keys
      && (forall e :: e in exams ==> exams[e].id == e && 0 < e < nextExamId && exams[e].questionCount == |links[e]|)
      && (forall e :: e in links ==> Contiguous(links[e]))
    }

    /** An empty schema. */
    constructor ()
      ensures Valid()
      ensures questions == [] && options == map[] && exams == map[] && links == map[]
    {
      questions := [];
      options := map[];
      exams := map[];
      links := map[];
      nextQuestionId := 1;
      nextOptionId := 1;
      nextExamId := 1;
    }
  }
}
