/** The pure part of the exam-assembly engine: the request bodies as they arrive, the
    field validators of the create and update paths, the difficulty strata the sampler draws
    from, what a valid draw is, the manual-mode membership count, the rows `show` returns,
    and the newest-first exam listing. */
module ExamRules {
  import opened Common
  import opened Text
  import opened Store

  datatype Difficulty = Easy | Medium | Hard {
    /** The value stored in `questions.difficulty` and used as the key of `counts`. */
    function Name(): string {
      match this
      case Easy => "easy"
      case Medium => "medium"
      case Hard => "hard"
    }
    /** Position of the key in the `counts` array the controller builds. */
    function Rank(): nat {
      match this
      case Easy => 0
      case Medium => 1
      case Hard => 2
    }
  }

  /** The difficulties in the order the sampler visits them. */
  const AllDifficulties: seq<Difficulty> := [Easy, Medium, Hard]

  /** The normalised `counts` array: each entry already passed through `(int)`. */
  datatype Counts = Counts(easy: int, medium: int, hard: int) {
    function Get(d: Difficulty): int {
      match d
      case Easy => easy
      case Medium => medium
      case Hard => hard
    }
    /** `array_sum($counts)`. */
    function Total(): int {
      easy + medium + hard
    }
  }

  function Positive(x: int): nat {
    if x > 0 then x else 0
  }

  /** The decoded `question_ids` member of a request body: absent or null, some other scalar
      (with its PHP truthiness), or a list of ids already cast with `intval`. */
  datatype IdsField = IdsMissing | IdsScalar(truthy: bool) | IdsList(ids: seq<int>)

  /** The decoded `counts` member: absent or null, a scalar, or an object. An object's
      easy/medium/hard entries are given after `(int)`; `otherEntries` records entries other
      than non-null easy/medium/hard values, which only matter for the object's truthiness. */
  datatype CountsField =
    | CountsMissing
    | CountsScalar(truthy: bool)
    | CountsObject(easy: Option<int>, medium: Option<int>, hard: Option<int>, otherEntries: bool)

  /** PHP truthiness of `question_ids`: an empty array and null are falsy. */
  predicate IdsTruthy(f: IdsField) {
    match f
    case IdsMissing => false
    case IdsScalar(t) => t
    case IdsList(ids) => |ids| > 0
  }

  /** PHP truthiness of `counts`. */
  predicate CountsTruthy(f: CountsField) {
    match f
    case CountsMissing => false
    case CountsScalar(t) => t
    case CountsObject(e, m, h, other) => e.Some? || m.Some? || h.Some? || other
  }

  /** `is_array($questionIds) && count($questionIds) > 0`. */
  predicate IsNonEmptyList(f: IdsField) {
    f.IdsList? && |f.ids| > 0
  }

  /** The `counts` array the controller rebuilds from an object: missing keys become 0. */
  function Normalize(f: CountsField): Counts
    requires f.CountsObject?
  {
    Counts(f.easy.GetOr(0), f.medium.GetOr(0), f.hard.GetOr(0))
  }

  /** Body of POST /api/exams/manual. `subjectId` is `(int)($d['subject_id'] ?? 0)`. */
  datatype ManualBody = ManualBody(subjectId: int, name: Option<string>, questionIds: IdsField)

  /** Body of POST /api/exams/auto. */
  datatype AutoBody = AutoBody(subjectId: int, name: Option<string>, counts: CountsField)

  /** Body of PUT /api/exams/{id}; `name` is `None` when it is absent or null. */
  datatype UpdateBody = UpdateBody(name: Option<string>, questionIds: IdsField, counts: CountsField)

  /** A field name createManual, createAuto or update can report in `fields`. */
  datatype FieldError =
    | SubjectIdError
    | NameError
    | QuestionIdsError
    | CountsError
    | CountError(d: Difficulty)
    | CountsTotalError
    | QuestionIdsOrCountsError
  {
    /** The string the response lists. */
    function Key(): string {
      match this
      case SubjectIdError => "subject_id"
      case NameError => "name"
      case QuestionIdsError => "question_ids"
      case CountsError => "counts"
      case CountError(d) => "counts." + d.Name()
      case CountsTotalError => "counts.total"
      case QuestionIdsOrCountsError => "question_ids_or_counts_required"
    }
  }

  /** Different field errors are reported under different keys, so the key list identifies them. */
  lemma FieldKeysInjective(a: FieldError, b: FieldError)
    requires a.Key() == b.Key()
    ensures a == b
  {
    match a
    case SubjectIdError => assert b.Key()[0] == 's';
    case NameError => assert |b.Key()| == 4;
    case QuestionIdsError => assert |b.Key()| == 12 && b.Key()[0] == 'q';
    case CountsError => assert |b.Key()| == 6;
    case CountError(d) =>
      assert b.Key()[..7] == "counts.";
      assert b.Key()[7] == a.Key()[7];
    case CountsTotalError => assert b.Key()[..7] == "counts." && b.Key()[7] == 't';
    case QuestionIdsOrCountsError => assert |b.Key()| == 31;
  }

  /** The keys of a list of field errors, as the response lists them. */
  function Keys(errs: seq<FieldError>): (ks: seq<string>)
    ensures |ks| == |errs| && forall k :: 0 <= k < |errs| ==> ks[k] == errs[k].Key()
  {
    seq(|errs|, k requires 0 <= k < |errs| => errs[k].Key())
  }

  /** The fields createManual reports, in the order it appends them. */
  function ManualErrors(b: ManualBody): (errs: seq<FieldError>)
    ensures SubjectIdError in errs <==> b.subjectId <= 0
    ensures NameError in errs <==> PhpTrim(b.name.GetOr("")) == ""
    ensures QuestionIdsError in errs <==> !IsNonEmptyList(b.questionIds)
    ensures forall f :: f in errs ==> f in {SubjectIdError, NameError, QuestionIdsError}
  {
    (if b.subjectId <= 0 then [SubjectIdError] else [])
    + (if PhpTrim(b.name.GetOr("")) == "" then [NameError] else [])
    + (if !IsNonEmptyList(b.questionIds) then [QuestionIdsError] else [])
  }

  /** One `counts.<key>` entry per negative count, in key order. */
  function NegativeCountErrors(c: Counts): (errs: seq<FieldError>)
    ensures forall d: Difficulty :: CountError(d) in errs <==> c.Get(d) < 0
    ensures forall f :: f in errs ==> f.CountError?
  {
    (if c.easy < 0 then [CountError(Easy)] else [])
    + (if c.medium < 0 then [CountError(Medium)] else [])
    + (if c.hard < 0 then [CountError(Hard)] else [])
  }

  /** The fields createAuto reports, in the order it appends them; `question_ids` is never one. */
  function AutoErrors(b: AutoBody): (errs: seq<FieldError>)
    ensures forall f :: f in errs ==> f != QuestionIdsError && f != QuestionIdsOrCountsError
  {
    (if b.subjectId <= 0 then [SubjectIdError] else [])
    + (if PhpTrim(b.name.GetOr("")) == "" then [NameError] else [])
    + (if !b.counts.CountsObject? then [CountsError] else NegativeCountErrors(Normalize(b.counts)))
    + (if !b.counts.CountsObject? || Normalize(b.counts).Total() <= 0 then [CountsTotalError] else [])
  }

  /** Which fields createAuto reports. A `counts` that is not an object is reported both as
      `counts` and, its total being taken as 0, as `counts.total`. */
  lemma AutoErrorsFields(b: AutoBody)
    ensures SubjectIdError in AutoErrors(b) <==> b.subjectId <= 0
    ensures NameError in AutoErrors(b) <==> PhpTrim(b.name.GetOr("")) == ""
    ensures CountsError in AutoErrors(b) <==> !b.counts.CountsObject?
    ensures forall d: Difficulty :: CountError(d) in AutoErrors(b) <==> b.counts.CountsObject? && Normalize(b.counts).Get(d) < 0
    ensures CountsTotalError in AutoErrors(b) <==> !b.counts.CountsObject? || Normalize(b.counts).Total() <= 0
  {
    if b.counts.CountsObject? {
      AutoErrorsObjectFields(b);
    } else {
      AutoErrorsNonObjectFields(b);
    }
  }

  /** The fields createAuto reports when `counts` is an object. */
  lemma AutoErrorsObjectFields(b: AutoBody)
    requires b.counts.CountsObject?
    ensures SubjectIdError in AutoErrors(b) <==> b.subjectId <= 0
    ensures NameError in AutoErrors(b) <==> PhpTrim(b.name.GetOr("")) == ""
    ensures CountsError !in AutoErrors(b)
    ensures forall d: Difficulty :: CountError(d) in AutoErrors(b) <==> Normalize(b.counts).Get(d) < 0
    ensures CountsTotalError in AutoErrors(b) <==> Normalize(b.counts).Total() <= 0
  {
    var sub := if b.subjectId <= 0 then [SubjectIdError] else [];
    var name := if PhpTrim(b.name.GetOr("")) == "" then [NameError] else [];
    var c := Normalize(b.counts);
    var negs := NegativeCountErrors(c);
    var tot := if c.Total() <= 0 then [CountsTotalError] else [];
    assert AutoErrors(b) == sub + name + negs + tot;
    assert SubjectIdError !in name + negs + tot;
    assert NameError !in sub + negs + tot;
    assert CountsError !in sub + name + negs + tot;
    assert CountsTotalError !in sub + name + negs;
    forall d: Difficulty ensures CountError(d) in AutoErrors(b) <==> c.Get(d) < 0 {
      assert CountError(d) !in sub + name + tot;
    }
  }

  /** The fields createAuto reports when `counts` is not an object. */
  lemma AutoErrorsNonObjectFields(b: AutoBody)
    requires !b.counts.CountsObject?
    ensures SubjectIdError in AutoErrors(b) <==> b.subjectId <= 0
    ensures NameError in AutoErrors(b) <==> PhpTrim(b.name.GetOr("")) == ""
    ensures CountsError in AutoErrors(b) && CountsTotalError in AutoErrors(b)
    ensures forall d: Difficulty :: CountError(d) !in AutoErrors(b)
  {
    var sub := if b.subjectId <= 0 then [SubjectIdError] else [];
    var name := if PhpTrim(b.name.GetOr("")) == "" then [NameError] else [];
    assert AutoErrors(b) == sub + name + [CountsError] + [CountsTotalError];
    assert SubjectIdError !in name + [CountsError, CountsTotalError];
    assert NameError !in sub + [CountsError, CountsTotalError];
    forall d: Difficulty ensures CountError(d) !in AutoErrors(b) {
      assert CountError(d) !in sub + name;
    }
  }

  /** A body that passes createAuto's validation asks for a positive number of questions, none
      negative, so the header's `question_count` (the total) is the number the sampler draws. */
  lemma AutoErrorsEmpty(b: AutoBody)
    requires AutoErrors(b) == []
    ensures b.subjectId > 0 && b.counts.CountsObject?
    ensures forall d: Difficulty :: Normalize(b.counts).Get(d) >= 0
    ensures Normalize(b.counts).Total() > 0
    ensures Normalize(b.counts).Total() == Positive(Normalize(b.counts).easy) + Positive(Normalize(b.counts).medium) + Positive(Normalize(b.counts).hard)
  {
    AutoErrorsFields(b);
    assert CountError(Easy) !in AutoErrors(b);
    assert CountError(Medium) !in AutoErrors(b);
    assert CountError(Hard) !in AutoErrors(b);
  }

  /** Whether update takes the sampling path: `counts` is an array and `question_ids` is falsy. */
  predicate UsesCounts(b: UpdateBody) {
    b.counts.CountsObject? && !IdsTruthy(b.questionIds)
  }

  /** The checks update makes before it looks at the exam: a blank given name, and a body with
      neither truthy ids nor truthy counts. */
  function UpdateRequestErrors(b: UpdateBody): (errs: seq<FieldError>)
    ensures NameError in errs <==> b.name.Some? && PhpTrim(b.name.value) == ""
    ensures QuestionIdsOrCountsError in errs <==> !IdsTruthy(b.questionIds) && !CountsTruthy(b.counts)
    ensures forall f :: f in errs ==> f == NameError || f == QuestionIdsOrCountsError
  {
    (if b.name.Some? && PhpTrim(b.name.value) == "" then [NameError] else [])
    + (if !IdsTruthy(b.questionIds) && !CountsTruthy(b.counts) then [QuestionIdsOrCountsError] else [])
  }

  /** The fields update reports once the exam is known to exist, in append order; update never
      reports `subject_id` (the subject of an exam is not changed) nor a non-object `counts`. */
  function UpdateErrors(b: UpdateBody): (errs: seq<FieldError>)
    ensures forall f :: f in errs ==> f != SubjectIdError && f != CountsError
  {
    if UsesCounts(b) then
      var c := Normalize(b.counts);
      UpdateRequestErrors(b) + NegativeCountErrors(c) + (if c.Total() <= 0 then [CountsTotalError] else [])
    else
      UpdateRequestErrors(b) + (if !IsNonEmptyList(b.questionIds) then [QuestionIdsError] else [])
  }

  /** Which fields update reports. Counts are checked only on the sampling path, one field per
      negative count and one for a total that is not positive; there the list is complete before
      sampling, so `question_ids` is never added. Off that path a missing or empty id list is. */
  lemma UpdateErrorsFields(b: UpdateBody)
    ensures NameError in UpdateErrors(b) <==> b.name.Some? && PhpTrim(b.name.value) == ""
    ensures QuestionIdsOrCountsError in UpdateErrors(b) <==> !IdsTruthy(b.questionIds) && !CountsTruthy(b.counts)
    ensures QuestionIdsError in UpdateErrors(b) <==> !UsesCounts(b) && !IsNonEmptyList(b.questionIds)
    ensures forall d: Difficulty :: CountError(d) in UpdateErrors(b) <==> UsesCounts(b) && Normalize(b.counts).Get(d) < 0
    ensures CountsTotalError in UpdateErrors(b) <==> UsesCounts(b) && Normalize(b.counts).Total() <= 0
  {
    var head := UpdateRequestErrors(b);
    if UsesCounts(b) {
      var c := Normalize(b.counts);
      var negs := NegativeCountErrors(c);
      var tot := if c.Total() <= 0 then [CountsTotalError] else [];
      assert UpdateErrors(b) == head + negs + tot;
      assert QuestionIdsError !in head + negs + tot;
      assert CountsTotalError !in head + negs;
      forall d: Difficulty ensures CountError(d) in UpdateErrors(b) <==> c.Get(d) < 0 {
        assert CountError(d) !in head && CountError(d) !in tot;
      }
    } else {
      var tail := if !IsNonEmptyList(b.questionIds) then [QuestionIdsError] else [];
      assert UpdateErrors(b) == head + tail;
      forall d: Difficulty ensures CountError(d) !in UpdateErrors(b) {
        assert CountError(d) !in head;
      }
    }
  }

  /** A non-empty `question_ids` list always wins over `counts`; an accepted body that does not
      sample carries a non-empty list, and one that samples asks for a positive total with no
      negative count. */
  lemma UpdateSourcePrecedence(b: UpdateBody)
    ensures IsNonEmptyList(b.questionIds) ==> !UsesCounts(b)
    ensures UpdateErrors(b) == [] && !UsesCounts(b) ==> IsNonEmptyList(b.questionIds)
    ensures UpdateErrors(b) == [] && UsesCounts(b) ==> Normalize(b.counts).Total() > 0 && forall d: Difficulty :: Normalize(b.counts).Get(d) >= 0
  {
    UpdateErrorsFields(b);
    if UpdateErrors(b) == [] && UsesCounts(b) {
      assert QuestionIdsError !in UpdateErrors(b);
      forall d: Difficulty ensures Normalize(b.counts).Get(d) >= 0 {
        assert CountError(d) !in UpdateErrors(b);
      }
    }
  }

  /* ---------------- Sampling ---------------- */

  /** Ids of the subject's questions of one difficulty, in table order: the rows
      `WHERE subject_id = :sid AND difficulty = :diff` selects. */
  function Pool(qs: seq<QuestionRow>, sid: int, d: Difficulty): seq<int> {
    if qs == [] then []
    else (if qs[0].subjectId == sid && qs[0].difficulty == d.Name() then [qs[0].id] else []) + Pool(qs[1..], sid, d)
  }

  /** Membership in a pool, stated on the table rows. */
  lemma {:induction false} PoolMember(qs: seq<QuestionRow>, sid: int, d: Difficulty, x: int)
    ensures x in Pool(qs, sid, d) <==> exists i :: 0 <= i < |qs| && qs[i].id == x && qs[i].subjectId == sid && qs[i].difficulty == d.Name()
  {
    if qs != [] {
      PoolMember(qs[1..], sid, d, x);
      if x in Pool(qs[1..], sid, d) {
        var i :| 0 <= i < |qs| - 1 && qs[1..][i].id == x && qs[1..][i].subjectId == sid && qs[1..][i].difficulty == d.Name();
        assert qs[i + 1] == qs[1..][i];
      }
      if exists i :: 0 <= i < |qs| && qs[i].id == x && qs[i].subjectId == sid && qs[i].difficulty == d.Name() {
        var i :| 0 <= i < |qs| && qs[i].id == x && qs[i].subjectId == sid && qs[i].difficulty == d.Name();
        if i > 0 { assert qs[1..][i - 1] == qs[i]; }
      }
    }
  }

  /** With ascending ids a pool lists no id twice. */
  lemma {:induction false} PoolDistinct(qs: seq<QuestionRow>, sid: int, d: Difficulty)
    requires IdsAscending(qs)
    ensures Distinct(Pool(qs, sid, d))
  {
    if qs != [] {
      PoolDistinct(qs[1..], sid, d);
      PoolMember(qs[1..], sid, d, qs[0].id);
      assert forall i :: 0 <= i < |qs| - 1 ==> qs[1..][i] == qs[i + 1];
      DistinctCons(qs[0].id, Pool(qs[1..], sid, d));
    }
  }

  /** The difficulty stored for the question with this id, if there is one. */
  function DifficultyOf(qs: seq<QuestionRow>, x: int): Option<string> {
    match FindQuestion(qs, x)
    case Some(q) => Some(q.difficulty)
    case None => None
  }

  /** "This id is a question of difficulty `d`", as a predicate value to count with. */
  function HasDifficulty(qs: seq<QuestionRow>, d: Difficulty): int -> bool {
    x => DifficultyOf(qs, x) == Some(d.Name())
  }

  /** The question with this id belongs to the subject. */
  predicate InSubject(qs: seq<QuestionRow>, sid: int, x: int) {
    FindQuestion(qs, x).Some? && FindQuestion(qs, x).value.subjectId == sid
  }

  /** What a pool member is: a question of the subject with that difficulty. */
  lemma PoolMemberFacts(qs: seq<QuestionRow>, sid: int, d: Difficulty, x: int)
    requires IdsAscending(qs) && x in Pool(qs, sid, d)
    ensures InSubject(qs, sid, x) && DifficultyOf(qs, x) == Some(d.Name())
  {
    PoolMember(qs, sid, d, x);
    var i :| 0 <= i < |qs| && qs[i].id == x && qs[i].subjectId == sid && qs[i].difficulty == d.Name();
    FindQuestionAt(qs, i);
  }

  /** One difficulty's share of a draw: as many distinct ids of that pool as requested
      (none when the requested count is zero or negative). */
  predicate IsDraw(qs: seq<QuestionRow>, sid: int, d: Difficulty, cnt: int, g: seq<int>) {
    |g| == Positive(cnt) && Distinct(g) && forall x :: x in g ==> x in Pool(qs, sid, d)
  }

  /** A stratified sample: some permutation of an easy, a medium and a hard draw, concatenated. */
  ghost predicate IsStratifiedSample(qs: seq<QuestionRow>, sid: int, c: Counts, ids: seq<int>) {
    exists ge, gm, gh ::
      IsDraw(qs, sid, Easy, c.easy, ge) && IsDraw(qs, sid, Medium, c.medium, gm) && IsDraw(qs, sid, Hard, c.hard, gh)
      && multiset(ids) == multiset(ge + gm + gh)
  }

  /** Every pool is large enough for its positive count. */
  predicate Sufficient(qs: seq<QuestionRow>, sid: int, c: Counts, d: Difficulty) {
    c.Get(d) <= 0 || c.Get(d) <= |Pool(qs, sid, d)|
  }

  lemma CountAll<T>(s: seq<T>, p: T -> bool)
    requires forall x :: x in s ==> p(x)
    ensures Count(s, p) == |s|
  {
    if s != [] { CountAll(s[1..], p); }
  }

  lemma CountNone<T>(s: seq<T>, p: T -> bool)
    requires forall x :: x in s ==> !p(x)
    ensures Count(s, p) == 0
  {
    if s != [] { CountNone(s[1..], p); }
  }

  /** A draw of difficulty `d` counts fully towards `d` and not at all towards other difficulties. */
  lemma DrawCounts(qs: seq<QuestionRow>, sid: int, d: Difficulty, cnt: int, g: seq<int>, e: Difficulty)
    requires IdsAscending(qs) && IsDraw(qs, sid, d, cnt, g)
    ensures Count(g, HasDifficulty(qs, e)) == if d == e then |g| else 0
  {
    forall x | x in g ensures DifficultyOf(qs, x) == Some(d.Name()) {
      PoolMemberFacts(qs, sid, d, x);
    }
    if d == e { CountAll(g, HasDifficulty(qs, e)); } else { CountNone(g, HasDifficulty(qs, e)); }
  }

  /** The three draws come from disjoint pools, so together they list no id twice. */
  lemma DrawsDistinct(qs: seq<QuestionRow>, sid: int, c: Counts, ge: seq<int>, gm: seq<int>, gh: seq<int>)
    requires IdsAscending(qs)
    requires IsDraw(qs, sid, Easy, c.easy, ge) && IsDraw(qs, sid, Medium, c.medium, gm) && IsDraw(qs, sid, Hard, c.hard, gh)
    ensures Distinct(ge + gm + gh)
  {
    forall x | x in ge ensures x !in gm && x !in gh {
      PoolMemberFacts(qs, sid, Easy, x);
      if x in gm { PoolMemberFacts(qs, sid, Medium, x); }
      if x in gh { PoolMemberFacts(qs, sid, Hard, x); }
    }
    forall x | x in gm ensures x !in gh {
      PoolMemberFacts(qs, sid, Medium, x);
      if x in gh { PoolMemberFacts(qs, sid, Hard, x); }
    }
    DistinctAppend(ge, gm);
    DistinctAppend(ge + gm, gh);
  }

  /** Each difficulty is counted in the three draws exactly as often as it was requested. */
  lemma DrawsCount(qs: seq<QuestionRow>, sid: int, c: Counts, ge: seq<int>, gm: seq<int>, gh: seq<int>, d: Difficulty)
    requires IdsAscending(qs)
    requires IsDraw(qs, sid, Easy, c.easy, ge) && IsDraw(qs, sid, Medium, c.medium, gm) && IsDraw(qs, sid, Hard, c.hard, gh)
    ensures Count(ge + gm + gh, HasDifficulty(qs, d)) == Positive(c.Get(d))
  {
    CountAppend(ge + gm, gh, HasDifficulty(qs, d));
    CountAppend(ge, gm, HasDifficulty(qs, d));
    DrawCounts(qs, sid, Easy, c.easy, ge, d);
    DrawCounts(qs, sid, Medium, c.medium, gm, d);
    DrawCounts(qs, sid, Hard, c.hard, gh, d);
  }

  /** What a stratified sample guarantees: it holds exactly the requested number of ids of each
      difficulty (nothing for a count of zero or less), no id twice, and only questions of the
      subject; its length is the sum of the positive counts. */
  lemma StratifiedSampleFacts(qs: seq<QuestionRow>, sid: int, c: Counts, ids: seq<int>)
    requires IdsAscending(qs) && IsStratifiedSample(qs, sid, c, ids)
    ensures |ids| == Positive(c.easy) + Positive(c.medium) + Positive(c.hard)
    ensures Distinct(ids)
    ensures forall x :: x in ids ==> InSubject(qs, sid, x)
    ensures forall d: Difficulty :: Count(ids, HasDifficulty(qs, d)) == Positive(c.Get(d))
  {
    var ge, gm, gh :| IsDraw(qs, sid, Easy, c.easy, ge) && IsDraw(qs, sid, Medium, c.medium, gm) && IsDraw(qs, sid, Hard, c.hard, gh)
      && multiset(ids) == multiset(ge + gm + gh);
    var all := ge + gm + gh;
    assert |ids| == |multiset(ids)| == |all|;
    DrawsInSubject(qs, sid, c, ge, gm, gh, ids);
    DrawsDistinct(qs, sid, c, ge, gm, gh);
    DistinctSubMultiset(all, ids);
    forall d: Difficulty ensures Count(ids, HasDifficulty(qs, d)) == Positive(c.Get(d)) {
      CountPermutation(ids, all, HasDifficulty(qs, d));
      DrawsCount(qs, sid, c, ge, gm, gh, d);
    }
  }

  /** Every id of a permutation of the three draws is a question of the subject. */
  lemma DrawsInSubject(qs: seq<QuestionRow>, sid: int, c: Counts, ge: seq<int>, gm: seq<int>, gh: seq<int>, ids: seq<int>)
    requires IdsAscending(qs)
    requires IsDraw(qs, sid, Easy, c.easy, ge) && IsDraw(qs, sid, Medium, c.medium, gm) && IsDraw(qs, sid, Hard, c.hard, gh)
    requires multiset(ids) == multiset(ge + gm + gh)
    ensures forall x :: x in ids ==> InSubject(qs, sid, x)
  {
    forall x | x in ids ensures InSubject(qs, sid, x) {
      assert x in multiset(ge + gm + gh);
      if x in ge { PoolMemberFacts(qs, sid, Easy, x); }
      else if x in gm { PoolMemberFacts(qs, sid, Medium, x); }
      else { PoolMemberFacts(qs, sid, Hard, x); }
    }
  }

  lemma DistinctAppend(a: seq<int>, b: seq<int>)
    requires Distinct(a) && Distinct(b) && forall x :: x in a ==> x !in b
    ensures Distinct(a + b)
  {
    var ab := a + b;
    forall i, j | 0 <= i < j < |ab| ensures ab[i] != ab[j] {
      if j >= |a| && i < |a| {
        assert ab[i] in a && ab[j] == b[j - |a|];
      } else if i >= |a| {
        assert ab[i] == b[i - |a|] && ab[j] == b[j - |a|];
      }
    }
  }

  /* ---------------- Manual membership ---------------- */

  /** The ids `SELECT COUNT(*) FROM questions WHERE id IN (...) AND subject_id = ?` counts: one
      per matching table row. */
  function MatchingIds(qs: seq<QuestionRow>, sid: int, ids: seq<int>): seq<int> {
    if qs == [] then []
    else (if qs[0].subjectId == sid && qs[0].id in ids then [qs[0].id] else []) + MatchingIds(qs[1..], sid, ids)
  }

  lemma {:induction false} MatchingIdsFacts(qs: seq<QuestionRow>, sid: int, ids: seq<int>)
    requires IdsAscending(qs)
    ensures Distinct(MatchingIds(qs, sid, ids))
    ensures forall x :: x in MatchingIds(qs, sid, ids) <==> x in ids && InSubject(qs, sid, x)
  {
    if qs != [] {
      var rest := qs[1..];
      MatchingIdsFacts(rest, sid, ids);
      forall x | x in MatchingIds(rest, sid, ids) ensures x != qs[0].id {
        assert FindQuestion(rest, x).Some?;
        var q := FindQuestion(rest, x).value;
        var k :| 0 <= k < |rest| && rest[k] == q;
        assert qs[k + 1] == q;
      }
      DistinctCons(qs[0].id, MatchingIds(rest, sid, ids));
      forall x ensures x in MatchingIds(qs, sid, ids) <==> x in ids && InSubject(qs, sid, x) {
        if x != qs[0].id {
          assert FindQuestion(qs, x) == FindQuestion(rest, x);
        }
      }
    }
  }

  /** createManual's check `COUNT(*) == count($questionIds)` accepts a list exactly when it has
      no duplicate and every id is a question of the subject: a foreign, unknown or repeated
      id is rejected. */
  lemma ManualMembership(qs: seq<QuestionRow>, sid: int, ids: seq<int>)
    requires IdsAscending(qs)
    ensures |MatchingIds(qs, sid, ids)| == |ids| <==> Distinct(ids) && forall x :: x in ids ==> InSubject(qs, sid, x)
  {
    var m := MatchingIds(qs, sid, ids);
    MatchingIdsFacts(qs, sid, ids);
    ElemsCard(m);
    ElemsCard(ids);
    assert Elems(m) <= Elems(ids);
    SubsetCard(Elems(m), Elems(ids));
    if |m| == |ids| {
      SubsetOfSameSize(Elems(m), Elems(ids));
      forall x | x in ids ensures InSubject(qs, sid, x) {
        assert x in Elems(ids);
      }
    }
    if Distinct(ids) && forall x :: x in ids ==> InSubject(qs, sid, x) {
      forall x | x in Elems(ids) ensures x in Elems(m) {
        assert x in ids;
      }
      SubsetCard(Elems(ids), Elems(m));
    }
  }

  lemma SubsetCard<T>(a: set<T>, b: set<T>)
    requires a <= b
    ensures |a| <= |b|
  {
    assert b == a + (b - a);
    assert a * (b - a) == {};
  }

  /* ---------------- show ---------------- */

  /** One row of `show`'s question list. */
  datatype ShownQuestion = ShownQuestion(id: int, text: string, difficulty: string, qtype: string, position: int)

  /** The rows `show` selects: one per link whose question still exists (inner join), in
      ascending position. */
  function JoinedView(qs: seq<QuestionRow>, ls: seq<Link>): (rows: seq<ShownQuestion>)
    ensures |rows| <= |ls|
  {
    if ls == [] then []
    else
      (match FindQuestion(qs, ls[0].questionId)
       case Some(q) => [ShownQuestion(q.id, q.text, q.difficulty, q.qtype, ls[0].position)]
       case None => [])
      + JoinedView(qs, ls[1..])
  }

  /** When every linked question exists, `show` lists exactly the linked ids, in link order,
      with their positions, and so in ascending position when the links are contiguous. */
  lemma {:induction false} JoinedViewComplete(qs: seq<QuestionRow>, ls: seq<Link>)
    requires forall k :: 0 <= k < |ls| ==> FindQuestion(qs, ls[k].questionId).Some?
    ensures |JoinedView(qs, ls)| == |ls|
    ensures forall k :: 0 <= k < |ls| ==> JoinedView(qs, ls)[k].id == ls[k].questionId && JoinedView(qs, ls)[k].position == ls[k].position
  {
    if ls != [] {
      assert FindQuestion(qs, ls[0].questionId).Some?;
      JoinedViewComplete(qs, ls[1..]);
    }
  }

  /** Whatever is missing, the rows come out in strictly ascending position. */
  lemma {:induction false} JoinedViewOrdered(qs: seq<QuestionRow>, ls: seq<Link>)
    requires forall i, j :: 0 <= i < j < |ls| ==> ls[i].position < ls[j].position
    ensures forall i, j :: 0 <= i < j < |JoinedView(qs, ls)| ==> JoinedView(qs, ls)[i].position < JoinedView(qs, ls)[j].position
    ensures forall r :: r in JoinedView(qs, ls) ==> exists k :: 0 <= k < |ls| && ls[k].position == r.position
  {
    if ls != [] {
      JoinedViewOrdered(qs, ls[1..]);
      var rest := JoinedView(qs, ls[1..]);
      forall r | r in rest ensures ls[0].position < r.position {
        var k :| 0 <= k < |ls| - 1 && ls[1..][k].position == r.position;
        assert ls[k + 1].position == r.position;
      }
      forall r | r in rest ensures exists k :: 0 <= k < |ls| && ls[k].position == r.position {
        var k :| 0 <= k < |ls| - 1 && ls[1..][k].position == r.position;
        assert ls[k + 1].position == r.position;
      }
    }
  }

  /** The per-difficulty tally `show` attaches. */
  datatype Tally = Tally(easy: nat, medium: nat, hard: nat)

  /** "This row has difficulty `name`", as a predicate value to count with. */
  function RowHasDifficulty(name: string): ShownQuestion -> bool {
    (r: ShownQuestion) => r.difficulty == name
  }

  /** Tallying the rows `show` returns by difficulty counts the linked ids of that difficulty:
      a link whose question is gone is neither listed nor counted. */
  lemma {:induction false} JoinedViewTally(qs: seq<QuestionRow>, ls: seq<Link>, d: Difficulty)
    ensures Count(JoinedView(qs, ls), RowHasDifficulty(d.Name())) == Count(LinkedIds(ls), HasDifficulty(qs, d))
  {
    if ls != [] {
      var head := match FindQuestion(qs, ls[0].questionId)
                  case Some(q) => [ShownQuestion(q.id, q.text, q.difficulty, q.qtype, ls[0].position)]
                  case None => [];
      assert JoinedView(qs, ls) == head + JoinedView(qs, ls[1..]);
      CountAppend(head, JoinedView(qs, ls[1..]), RowHasDifficulty(d.Name()));
      assert LinkedIds(ls)[1..] == LinkedIds(ls[1..]);
      JoinedViewTally(qs, ls[1..], d);
    }
  }

  /** The tally `show` reports for an exam whose link rows list a stratified sample is the count
      that was requested for each difficulty. */
  lemma SampledExamTally(qs: seq<QuestionRow>, sid: int, c: Counts, ls: seq<Link>, d: Difficulty)
    requires IdsAscending(qs) && IsStratifiedSample(qs, sid, c, LinkedIds(ls))
    ensures Count(JoinedView(qs, ls), RowHasDifficulty(d.Name())) == Positive(c.Get(d))
  {
    JoinedViewTally(qs, ls, d);
    StratifiedSampleFacts(qs, sid, c, LinkedIds(ls));
  }

  /* ---------------- list ---------------- */

  /** The exams of a subject with an id below `below`, newest (largest id) first: the rows
      `WHERE subject_id = ? ORDER BY created_at DESC` returns, creation order being id order. */
  function HeadersOfSubject(exams: map<int, ExamHeader>, sid: int, below: int): (hs: seq<ExamHeader>)
    requires forall e :: e in exams ==> exams[e].id == e
    decreases below
    ensures forall i, j :: 0 <= i < j < |hs| ==> hs[i].id > hs[j].id
    ensures forall h :: h in hs ==> h.id in exams && exams[h.id] == h && h.subjectId == sid && h.id < below
    ensures forall e :: e in exams && 0 < e < below && exams[e].subjectId == sid ==> exams[e] in hs
  {
    if below <= 1 then []
    else
      var e := below - 1;
      (if e in exams && exams[e].subjectId == sid then [exams[e]] else []) + HeadersOfSubject(exams, sid, e)
  }
}
