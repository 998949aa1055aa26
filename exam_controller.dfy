/** The exam endpoints: listing, showing with a difficulty tally, manual and automatic creation,
    replacing an exam's content, and deletion, all over the shared store. A storage failure inside
    a write transaction is the `fault` parameter: the transaction is rolled back and every table
    is left as it was (the auto-increment counter, as in the storage engine, is not rolled back). */
module Exams {
  import opened Common
  import opened Text
  import opened Store
  import opened ExamRules

  /** What a handler answers with (the body's payload and, via `Status`, the HTTP code). */
  datatype Response =
    | Created(id: int, name: string)
    | Updated(id: int)
    | Deleted
    | ExamList(exams: seq<ExamHeader>)
    | ExamDetail(exam: ExamHeader, questions: seq<ShownQuestion>, tally: Tally)
    | ValidationFailed(fields: seq<string>)
    | NotEnoughQuestions(difficulty: string, requested: int, available: int)
    | ForeignQuestions
    | SubjectRequired
    | InvalidId
    | NotFound
    | InternalError
  {
    function Status(): int {
      match this
      case Created(_, _) => 201
      case Updated(_) => 200
      case Deleted => 204
      case ExamList(_) => 200
      case ExamDetail(_, _, _) => 200
      case ValidationFailed(_) => 422
      case NotEnoughQuestions(_, _, _) => 422
      case ForeignQuestions => 422
      case SubjectRequired => 422
      case InvalidId => 400
      case NotFound => 404
      case InternalError => 500
    }
  }

  /** The sampler's outcome: the drawn ids, or the first difficulty whose pool was too small. */
  datatype Draw = Drawn(ids: seq<int>) | Short(difficulty: Difficulty, requested: int, available: int)

  /** PHP's `shuffle`: Fisher–Yates from the last slot down, each swap partner chosen freely. */
  method Shuffle(a: array<int>)
    modifies a
    ensures multiset(a[..]) == multiset(old(a[..]))
  {
    var n := a.Length;
    while n > 1
      invariant 0 <= n <= a.Length
      invariant multiset(a[..]) == multiset(old(a[..]))
    {
      n := n - 1;
      var j :| 0 <= j <= n;
      a[n], a[j] := a[j], a[n];
    }
  }

  /** `ORDER BY RAND() LIMIT :cnt` over the rows of a pool: at most `limit` of them, in any order. */
  method RandomOrderLimit(pool: seq<int>, limit: nat) returns (ids: seq<int>)
    ensures |ids| == if limit < |pool| then limit else |pool|
    ensures multiset(ids) <= multiset(pool)
  {
    var a := new int[|pool|](k requires 0 <= k < |pool| => pool[k]);
    assert a[..] == pool;
    Shuffle(a);
    var n := if limit < a.Length then limit else a.Length;
    ids := a[..n];
    assert a[..] == a[..n] + a[n..];
  }

  /** The concatenation of a list of groups, in order. */
  function Concat(gs: seq<seq<int>>): seq<int> {
    if gs == [] then [] else Concat(gs[..|gs| - 1]) + gs[|gs| - 1]
  }

  /** Three groups concatenate to their sum. */
  lemma ConcatThree(gs: seq<seq<int>>)
    requires |gs| == 3
    ensures Concat(gs) == gs[0] + gs[1] + gs[2]
  {
    var g2, g1, g0 := gs[..2], gs[..1], gs[..0];
    assert gs[..|gs| - 1] == g2 && g2[..|g2| - 1] == g1 && g1[..|g1| - 1] == g0 && g0 == [];
    assert Concat(g1) == gs[0];
    assert Concat(g2) == gs[0] + gs[1];
  }

  /** Draws that passed for every difficulty, shuffled together, are a stratified sample. */
  lemma DrawsMakeSample(qs: seq<QuestionRow>, sid: int, c: Counts, groups: seq<seq<int>>, ids: seq<int>)
    requires |groups| == |AllDifficulties|
    requires forall k :: 0 <= k < |groups| ==> IsDraw(qs, sid, AllDifficulties[k], c.Get(AllDifficulties[k]), groups[k])
    requires multiset(ids) == multiset(Concat(groups))
    ensures IsStratifiedSample(qs, sid, c, ids)
  {
    ConcatThree(groups);
    assert AllDifficulties[0] == Easy && AllDifficulties[1] == Medium && AllDifficulties[2] == Hard;
    SampleOfThree(qs, sid, c, groups[0], groups[1], groups[2], ids);
  }

  /** An easy, a medium and a hard draw, in any order, make a stratified sample. */
  lemma SampleOfThree(qs: seq<QuestionRow>, sid: int, c: Counts, ge: seq<int>, gm: seq<int>, gh: seq<int>, ids: seq<int>)
    requires IsDraw(qs, sid, Easy, c.easy, ge) && IsDraw(qs, sid, Medium, c.medium, gm) && IsDraw(qs, sid, Hard, c.hard, gh)
    requires multiset(ids) == multiset(ge + gm + gh)
    ensures IsStratifiedSample(qs, sid, c, ids)
  {
  }

  /** The sampler's progress: the first `|groups|` difficulties had large enough pools, each
      group is a draw of its difficulty, and `acc` holds the groups in order. */
  ghost predicate DrawnSoFar(qs: seq<QuestionRow>, sid: int, c: Counts, groups: seq<seq<int>>, acc: seq<int>) {
    && |groups| <= |AllDifficulties|
    && (forall k :: 0 <= k < |groups| ==> Sufficient(qs, sid, c, AllDifficulties[k]))
    && (forall k :: 0 <= k < |groups| ==> IsDraw(qs, sid, AllDifficulties[k], c.Get(AllDifficulties[k]), groups[k]))
    && acc == Concat(groups)
  }

  /** One more difficulty with a large enough pool and a draw from it extends the progress. */
  lemma DrawnSoFarStep(qs: seq<QuestionRow>, sid: int, c: Counts, groups: seq<seq<int>>, acc: seq<int>, drawn: seq<int>)
    requires DrawnSoFar(qs, sid, c, groups, acc) && |groups| < |AllDifficulties|
    requires Sufficient(qs, sid, c, AllDifficulties[|groups|])
    requires IsDraw(qs, sid, AllDifficulties[|groups|], c.Get(AllDifficulties[|groups|]), drawn)
    ensures DrawnSoFar(qs, sid, c, groups + [drawn], acc + drawn)
  {
    var gs := groups + [drawn];
    assert gs[..|gs| - 1] == groups;
    forall k | 0 <= k < |gs|
      ensures Sufficient(qs, sid, c, AllDifficulties[k])
      ensures IsDraw(qs, sid, AllDifficulties[k], c.Get(AllDifficulties[k]), gs[k])
    {
      if k < |groups| {
        assert gs[k] == groups[k];
      }
    }
  }

  /** All three pools were large enough, and a permutation of the three draws is a stratified
      sample. */
  lemma DrawnSoFarDone(qs: seq<QuestionRow>, sid: int, c: Counts, groups: seq<seq<int>>, acc: seq<int>, ids: seq<int>)
    requires DrawnSoFar(qs, sid, c, groups, acc) && |groups| == |AllDifficulties|
    requires multiset(ids) == multiset(acc)
    ensures forall d: Difficulty :: Sufficient(qs, sid, c, d)
    ensures IsStratifiedSample(qs, sid, c, ids)
  {
    DrawsMakeSample(qs, sid, c, groups, ids);
    SufficientBefore(qs, sid, c, |groups|);
  }

  /** The first pool found too small stops the sampler: not every pool was large enough, and
      those before it were. */
  lemma DrawnSoFarShort(qs: seq<QuestionRow>, sid: int, c: Counts, groups: seq<seq<int>>, acc: seq<int>)
    requires DrawnSoFar(qs, sid, c, groups, acc) && |groups| < |AllDifficulties|
    requires !Sufficient(qs, sid, c, AllDifficulties[|groups|])
    ensures !(forall d: Difficulty :: Sufficient(qs, sid, c, d))
    ensures forall d: Difficulty :: d.Rank() < AllDifficulties[|groups|].Rank() ==> Sufficient(qs, sid, c, d)
  {
    assert AllDifficulties[|groups|].Rank() == |groups|;
    SufficientBefore(qs, sid, c, |groups|);
  }

  /** The difficulties ranked before `i` all had large enough pools. */
  lemma SufficientBefore(qs: seq<QuestionRow>, sid: int, c: Counts, i: int)
    requires 0 <= i <= |AllDifficulties|
    requires forall k :: 0 <= k < i ==> Sufficient(qs, sid, c, AllDifficulties[k])
    ensures forall e: Difficulty :: e.Rank() < i ==> Sufficient(qs, sid, c, e)
  {
    forall e: Difficulty | e.Rank() < i ensures Sufficient(qs, sid, c, e) {
      assert AllDifficulties[e.Rank()] == e;
    }
  }

  /** `shuffle` on a PHP array holding the ids: the result is a permutation of them. */
  method ShuffledCopy(ids: seq<int>) returns (r: seq<int>)
    ensures multiset(r) == multiset(ids)
  {
    var a := new int[|ids|](k requires 0 <= k < |ids| => ids[k]);
    assert a[..] == ids;
    Shuffle(a);
    r := a[..];
  }

  class ExamController {
    const db: Database

    constructor (db: Database)
      ensures this.db == db
    {
      this.db := db;
    }

    /** `list`: the subject's exams, newest first; a missing or non-positive subject id is rejected. */
    method List(subjectParam: Option<int>) returns (r: Response)
      requires db.Valid()
      ensures r == SubjectRequired <==> subjectParam.GetOr(0) <= 0
      ensures r != SubjectRequired ==> r.ExamList?
      ensures r.ExamList? ==> forall i, j :: 0 <= i < j < |r.exams| ==> r.exams[i].id > r.exams[j].id
      ensures r.ExamList? ==> forall e :: e in db.exams && db.exams[e].subjectId == subjectParam.GetOr(0) <==> e in db.exams && db.exams[e] in r.exams
      ensures r.ExamList? ==> forall h :: h in r.exams ==> h.id in db.exams && db.exams[h.id] == h
    {
      var sid := subjectParam.GetOr(0);
      if sid <= 0 {
        return SubjectRequired;
      }
      r := ExamList(HeadersOfSubject(db.exams, sid, db.nextExamId));
    }

    /** `show`: the header, the linked questions in position order, and how many of them are easy,
        medium and hard (other difficulty strings are not tallied). */
    method Show(id: int) returns (r: Response)
      requires db.Valid()
      ensures r == InvalidId <==> id <= 0
      ensures r == NotFound <==> id > 0 && id !in db.exams
      ensures r.ExamDetail? <==> id > 0 && id in db.exams
      ensures r.ExamDetail? ==> r.exam == db.exams[id] && r.questions == JoinedView(db.questions, db.links[id])
      ensures r.ExamDetail? ==> (r.tally.easy == Count(r.questions, RowHasDifficulty("easy"))
                                 && r.tally.medium == Count(r.questions, RowHasDifficulty("medium"))
                                 && r.tally.hard == Count(r.questions, RowHasDifficulty("hard")))
    {
      if id <= 0 {
        return InvalidId;
      }
      if id !in db.exams {
        return NotFound;
      }
      var rows := JoinedView(db.questions, db.links[id]);
      var easy, medium, hard := 0, 0, 0;
      for k := 0 to |rows|
        invariant easy == Count(rows[..k], RowHasDifficulty("easy"))
        invariant medium == Count(rows[..k], RowHasDifficulty("medium"))
        invariant hard == Count(rows[..k], RowHasDifficulty("hard"))
      {
        assert rows[..k + 1] == rows[..k] + [rows[k]];
        CountAppend(rows[..k], [rows[k]], RowHasDifficulty("easy"));
        CountAppend(rows[..k], [rows[k]], RowHasDifficulty("medium"));
        CountAppend(rows[..k], [rows[k]], RowHasDifficulty("hard"));
        var diff := rows[k].difficulty;
        if diff == "easy" {
          easy := easy + 1;
        } else if diff == "medium" {
          medium := medium + 1;
        } else if diff == "hard" {
          hard := hard + 1;
        }
      }
      assert rows[..|rows|] == rows;
      r := ExamDetail(db.exams[id], rows, Tally(easy, medium, hard));
    }

    /** One round of `pickQuestionsForCounts`: nothing for a count of zero or less, otherwise
        `c.Get(d)` ids of the difficulty's pool in random order, or a report that the pool is
        short. */
    method DrawDifficulty(sid: int, c: Counts, d: Difficulty) returns (drawn: seq<int>, short: bool)
      requires db.Valid()
      ensures short <==> !Sufficient(db.questions, sid, c, d)
      ensures short ==> c.Get(d) > |Pool(db.questions, sid, d)|
      ensures !short ==> IsDraw(db.questions, sid, d, c.Get(d), drawn)
    {
      var cnt := c.Get(d);
      drawn, short := [], false;
      if cnt > 0 {
        var pool := Pool(db.questions, sid, d);
        drawn := RandomOrderLimit(pool, cnt);
        if |drawn| < cnt {
          return drawn, true;
        }
        PoolDistinct(db.questions, sid, d);
        DistinctSubMultiset(pool, drawn);
        forall x | x in drawn ensures x in pool {
          assert x in multiset(drawn);
        }
      }
    }

    /** `pickQuestionsForCounts`: for easy, medium and hard in turn, skip a count of zero or less,
        otherwise draw that many ids of the pool in random order, stopping at the first pool that
        is too small; then shuffle the concatenation. */
    method PickQuestionsForCounts(sid: int, c: Counts) returns (r: Draw)
      requires db.Valid()
      ensures r.Drawn? <==> forall d: Difficulty :: Sufficient(db.questions, sid, c, d)
      ensures r.Drawn? ==> IsStratifiedSample(db.questions, sid, c, r.ids)
      ensures r.Short? ==> r.requested == c.Get(r.difficulty) && r.available == |Pool(db.questions, sid, r.difficulty)|
                           && r.available < r.requested
      ensures r.Short? ==> forall d: Difficulty :: d.Rank() < r.difficulty.Rank() ==> Sufficient(db.questions, sid, c, d)
    {
      var acc: seq<int> := [];
      ghost var groups: seq<seq<int>> := [];
      var i := 0;
      while i < |AllDifficulties|
        invariant |groups| == i && DrawnSoFar(db.questions, sid, c, groups, acc)
      {
        var d := AllDifficulties[i];
        var drawn, short := DrawDifficulty(sid, c, d);
        if short {
          // the query returned every row of the pool, fewer than requested
          DrawnSoFarShort(db.questions, sid, c, groups, acc);
          return Short(d, c.Get(d), |Pool(db.questions, sid, d)|);
        }
        DrawnSoFarStep(db.questions, sid, c, groups, acc, drawn);
        acc := acc + drawn;
        groups := groups + [drawn];
        i := i + 1;
      }
      var ids := ShuffledCopy(acc);
      DrawnSoFarDone(db.questions, sid, c, groups, acc, ids);
      r := Drawn(ids);
    }

    /** `insertExamQuestions`: one link row per id, positions counting up from 1. */
    method InsertExamQuestions(examId: int, ids: seq<int>)
      requires examId in db.links && db.links[examId] == []
      modifies db
      ensures db.links == old(db.links)[examId := Positioned(ids)]
      ensures db.questions == old(db.questions) && db.options == old(db.options) && db.exams == old(db.exams)
      ensures db.nextQuestionId == old(db.nextQuestionId) && db.nextOptionId == old(db.nextOptionId) && db.nextExamId == old(db.nextExamId)
    {
      var pos := 1;
      for k := 0 to |ids|
        invariant pos == k + 1
        invariant db.links == old(db.links)[examId := Positioned(ids[..k])]
        invariant db.questions == old(db.questions) && db.options == old(db.options) && db.exams == old(db.exams)
        invariant db.nextQuestionId == old(db.nextQuestionId) && db.nextOptionId == old(db.nextOptionId) && db.nextExamId == old(db.nextExamId)
      {
        assert Positioned(ids[..k]) + [Link(ids[k], pos)] == Positioned(ids[..k + 1]);
        db.links := db.links[examId := db.links[examId] + [Link(ids[k], pos)]];
        pos := pos + 1;
      }
      assert ids[..|ids|] == ids;
    }

    /** Inserts a new exam header and its links inside a transaction; on a fault the tables are
        restored. The new id is the next auto-increment value, which is consumed either way. */
    method InsertExam(sid: int, name: string, mode: string, questionCount: int, ids: seq<int>, fault: bool) returns (r: Response)
      requires db.Valid() && questionCount == |ids|
      modifies db
      ensures db.Valid()
      ensures db.questions == old(db.questions) && db.options == old(db.options)
      ensures r == InternalError <==> fault
      ensures !fault ==> (r == Created(old(db.nextExamId), name)
                          && db.exams == old(db.exams)[r.id := ExamHeader(r.id, sid, name, mode, questionCount)]
                          && db.links == old(db.links)[r.id := Positioned(ids)])
      ensures fault ==> db.exams == old(db.exams) && db.links == old(db.links)
    {
      var exams0, links0 := db.exams, db.links;
      var examId := db.nextExamId;
      db.nextExamId := db.nextExamId + 1;
      db.exams := db.exams[examId := ExamHeader(examId, sid, name, mode, questionCount)];
      db.links := db.links[examId := []];
      InsertExamQuestions(examId, ids);
      if fault {
        db.exams, db.links := exams0, links0;
        return InternalError;
      }
      PositionedIsContiguous(ids);
      r := Created(examId, name);
    }

    /** `createManual`: validate the body, check that the ids are distinct questions of the subject
        (the membership count), then write the header and its links. */
    method CreateManual(b: ManualBody, fault: bool) returns (r: Response)
      requires db.Valid()
      modifies db
      ensures db.Valid()
      ensures db.questions == old(db.questions) && db.options == old(db.options)
      ensures ManualErrors(b) != [] ==> r == ValidationFailed(Keys(ManualErrors(b)))
      ensures ManualErrors(b) == [] && !(Distinct(b.questionIds.ids) && forall x :: x in b.questionIds.ids ==> InSubject(db.questions, b.subjectId, x))
              ==> r == ForeignQuestions
      ensures r.Created? <==> ManualErrors(b) == [] && !fault && Distinct(b.questionIds.ids)
                              && forall x :: x in b.questionIds.ids ==> InSubject(db.questions, b.subjectId, x)
      ensures r.Created? ==> r.id == old(db.nextExamId) && r.name == PhpTrim(b.name.GetOr(""))
                             && db.exams == old(db.exams)[r.id := ExamHeader(r.id, b.subjectId, r.name, "manual", |b.questionIds.ids|)]
                             && db.links == old(db.links)[r.id := Positioned(b.questionIds.ids)]
      ensures !r.Created? ==> db.exams == old(db.exams) && db.links == old(db.links)
      ensures r == InternalError <==> ManualErrors(b) == [] && fault && Distinct(b.questionIds.ids)
                                      && forall x :: x in b.questionIds.ids ==> InSubject(db.questions, b.subjectId, x)
    {
      var errs := ManualErrors(b);
      if errs != [] {
        return ValidationFailed(Keys(errs));
      }
      var ids := b.questionIds.ids;
      var name := PhpTrim(b.name.GetOr(""));
      var matching := |MatchingIds(db.questions, b.subjectId, ids)|;
      ManualMembership(db.questions, b.subjectId, ids);
      if matching != |ids| {
        return ForeignQuestions;
      }
      r := InsertExam(b.subjectId, name, "manual", |ids|, ids, fault);
    }

    /** The part of `createAuto` after validation: draw the stratified sample (before any write,
        so a short pool leaves the store untouched), then write a header whose count is the
        requested total. */
    method CreateFromCounts(sid: int, name: string, c: Counts, fault: bool) returns (r: Response)
      requires db.Valid()
      requires c.easy >= 0 && c.medium >= 0 && c.hard >= 0
      modifies db
      ensures db.Valid()
      ensures db.questions == old(db.questions) && db.options == old(db.options)
      ensures r.NotEnoughQuestions? <==> exists d: Difficulty :: !Sufficient(db.questions, sid, c, d)
      ensures r.NotEnoughQuestions? ==> exists d: Difficulty :: r.difficulty == d.Name() && r.requested == c.Get(d)
                                          && r.available == |Pool(db.questions, sid, d)| < r.requested
      ensures r.Created? <==> !fault && forall d: Difficulty :: Sufficient(db.questions, sid, c, d)
      ensures r.Created? ==> (r.id == old(db.nextExamId) && r.id in db.exams && r.name == name
                              && db.exams == old(db.exams)[r.id := ExamHeader(r.id, sid, name, "auto", c.Total())]
                              && db.links == old(db.links)[r.id := db.links[r.id]]
                              && Contiguous(db.links[r.id])
                              && IsStratifiedSample(db.questions, sid, c, LinkedIds(db.links[r.id])))
      ensures r.NotEnoughQuestions? || r.Created? || r == InternalError
      ensures !r.Created? ==> db.exams == old(db.exams) && db.links == old(db.links)
    {
      var draw := PickQuestionsForCounts(sid, c);
      if draw.Short? {
        assert !Sufficient(db.questions, sid, c, draw.difficulty);
        return NotEnoughQuestions(draw.difficulty.Name(), draw.requested, draw.available);
      }
      StratifiedSampleFacts(db.questions, sid, c, draw.ids);
      ghost var sample := draw.ids;
      r := InsertExam(sid, name, "auto", c.Total(), draw.ids, fault);
      PositionedIsContiguous(sample);
      if !fault {
        assert LinkedIds(db.links[r.id]) == sample;
      }
    }

    /** `createAuto`: validate the body, then sample and write. */
    method CreateAuto(b: AutoBody, fault: bool) returns (r: Response)
      requires db.Valid()
      modifies db
      ensures db.Valid()
      ensures db.questions == old(db.questions) && db.options == old(db.options)
      ensures r.ValidationFailed? <==> AutoErrors(b) != []
      ensures AutoErrors(b) != [] ==> r == ValidationFailed(Keys(AutoErrors(b)))
      ensures r.NotEnoughQuestions? <==> AutoErrors(b) == [] && exists d: Difficulty :: !Sufficient(db.questions, b.subjectId, Normalize(b.counts), d)
      ensures r.NotEnoughQuestions? ==> exists d: Difficulty :: r.difficulty == d.Name() && r.requested == Normalize(b.counts).Get(d)
                                          && r.available == |Pool(db.questions, b.subjectId, d)| < r.requested
      ensures r.Created? <==> AutoErrors(b) == [] && !fault && forall d: Difficulty :: Sufficient(db.questions, b.subjectId, Normalize(b.counts), d)
      ensures r == InternalError <==> AutoErrors(b) == [] && fault && forall d: Difficulty :: Sufficient(db.questions, b.subjectId, Normalize(b.counts), d)
      ensures r.Created? ==> (r.id == old(db.nextExamId) && r.id in db.exams && r.name == PhpTrim(b.name.GetOr(""))
                              && db.exams == old(db.exams)[r.id := ExamHeader(r.id, b.subjectId, r.name, "auto", Normalize(b.counts).Total())]
                              && db.links == old(db.links)[r.id := db.links[r.id]]
                              && Contiguous(db.links[r.id])
                              && IsStratifiedSample(db.questions, b.subjectId, Normalize(b.counts), LinkedIds(db.links[r.id])))
      ensures !r.Created? ==> db.exams == old(db.exams) && db.links == old(db.links)
    {
      var errs := AutoErrors(b);
      if errs != [] {
        return ValidationFailed(Keys(errs));
      }
      AutoErrorsEmpty(b);
      r := CreateFromCounts(b.subjectId, PhpTrim(b.name.GetOr("")), Normalize(b.counts), fault);
    }

    /** The write half of `update`: set the name and the cached count, delete the exam's links
        and insert the new list, all in one transaction. */
    method ReplaceContent(id: int, name: string, ids: seq<int>, fault: bool) returns (r: Response)
      requires db.Valid() && id in db.exams
      modifies db
      ensures db.Valid()
      ensures db.questions == old(db.questions) && db.options == old(db.options)
      ensures r == InternalError <==> fault
      ensures !fault ==> (r == Updated(id)
                          && db.exams == old(db.exams)[id := old(db.exams)[id].(name := name, questionCount := |ids|)]
                          && db.links == old(db.links)[id := Positioned(ids)])
      ensures fault ==> db.exams == old(db.exams) && db.links == old(db.links)
    {
      var exams0, links0 := db.exams, db.links;
      db.exams := db.exams[id := db.exams[id].(name := name, questionCount := |ids|)];
      db.links := db.links[id := []];
      InsertExamQuestions(id, ids);
      if fault {
        db.exams, db.links := exams0, links0;
        return InternalError;
      }
      PositionedIsContiguous(ids);
      r := Updated(id);
    }

    /** `update`: replace an exam's content with an explicit id list or a fresh sample of its
        subject, and its name when one is given. The exam must exist before validation errors
        are reported; an id list is not checked against the subject. */
    method Update(id: int, b: UpdateBody, fault: bool) returns (r: Response)
      requires db.Valid()
      modifies db
      ensures db.Valid()
      ensures db.questions == old(db.questions) && db.options == old(db.options)
      ensures r == InvalidId <==> id <= 0
      ensures r == NotFound <==> id > 0 && id !in old(db.exams)
      ensures r.ValidationFailed? <==> id > 0 && id in old(db.exams) && UpdateErrors(b) != []
      ensures r.ValidationFailed? ==> r.fields == Keys(UpdateErrors(b))
      ensures r.NotEnoughQuestions? <==> (id > 0 && id in old(db.exams) && UpdateErrors(b) == [] && UsesCounts(b)
                                          && exists d: Difficulty :: !Sufficient(db.questions, old(db.exams)[id].subjectId, Normalize(b.counts), d))
      ensures r.NotEnoughQuestions? ==> id in old(db.exams)
                                          && exists d: Difficulty :: r.difficulty == d.Name() && r.requested == Normalize(b.counts).Get(d)
                                               && r.available == |Pool(db.questions, old(db.exams)[id].subjectId, d)| < r.requested
      ensures r == InternalError <==> (id > 0 && id in old(db.exams) && UpdateErrors(b) == [] && fault
                                       && (UsesCounts(b) ==> forall d: Difficulty :: Sufficient(db.questions, old(db.exams)[id].subjectId, Normalize(b.counts), d)))
      ensures r.Updated? <==> (id > 0 && id in old(db.exams) && UpdateErrors(b) == [] && !fault
                               && (UsesCounts(b) ==> forall d: Difficulty :: Sufficient(db.questions, old(db.exams)[id].subjectId, Normalize(b.counts), d)))
      ensures r.Updated? ==> r.id == id && id in db.links
      ensures r.Updated? ==>
                (var h := old(db.exams)[id];
                 db.exams == old(db.exams)[id := h.(name := if b.name.Some? then PhpTrim(b.name.value) else h.name,
                                                     questionCount := |db.links[id]|)]
                 && db.links == old(db.links)[id := db.links[id]]
                 && Contiguous(db.links[id]))
      ensures r.Updated? && !UsesCounts(b) ==> LinkedIds(db.links[id]) == b.questionIds.ids
      ensures r.Updated? && UsesCounts(b) ==>
                IsStratifiedSample(db.questions, old(db.exams)[id].subjectId, Normalize(b.counts), LinkedIds(db.links[id]))
      ensures !r.Updated? ==> db.exams == old(db.exams) && db.links == old(db.links)
    {
      if id <= 0 {
        return InvalidId;
      }
      if id !in db.exams {
        return NotFound;
      }
      var header := db.exams[id];
      var errs := UpdateErrors(b);
      if errs != [] {
        return ValidationFailed(Keys(errs));
      }
      var ids: seq<int>;
      if UsesCounts(b) {
        var draw := PickQuestionsForCounts(header.subjectId, Normalize(b.counts));
        if draw.Short? {
          assert !Sufficient(db.questions, header.subjectId, Normalize(b.counts), draw.difficulty);
          return NotEnoughQuestions(draw.difficulty.Name(), draw.requested, draw.available);
        }
        ids := draw.ids;
      } else {
        ids := b.questionIds.ids;
      }
      var name := if b.name.Some? then PhpTrim(b.name.value) else header.name;
      r := ReplaceContent(id, name, ids, fault);
      PositionedIsContiguous(ids);
    }

    /** `delete`: remove the header; its links go with it (the cascade). */
    method Delete(id: int, fault: bool) returns (r: Response)
      requires db.Valid()
      modifies db
      ensures db.Valid()
      ensures db.questions == old(db.questions) && db.options == old(db.options)
      ensures r == InvalidId <==> id <= 0
      ensures r == InternalError <==> id > 0 && fault
      ensures r == NotFound <==> id > 0 && !fault && id !in old(db.exams)
      ensures r == Deleted <==> id > 0 && !fault && id in old(db.exams)
      ensures r == Deleted ==> db.exams == old(db.exams) - {id} && db.links == old(db.links) - {id}
      ensures r != Deleted ==> db.exams == old(db.exams) && db.links == old(db.links)
    {
      if id <= 0 {
        return InvalidId;
      }
      if fault {
        return InternalError;
      }
      if id !in db.exams {
        return NotFound;
      }
      db.exams := db.exams - {id};
      db.links := db.links - {id};
      r := Deleted;
    }
  }
}
