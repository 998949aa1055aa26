/** The question endpoints: the per-type option validator shared by create and update, option
    storage with `idx` = list position, replacing a question's options, deletion, and the
    grouping of flat question/option join rows into questions with their options. */
module Questions {
  import opened Common
  import opened Text
  import opened Store

  /** One submitted option: `$o['text'] ?? ''` (`None` when absent) and `!empty($o['is_correct'])`. */
  datatype OptionBody = OptionBody(text: Option<string>, isCorrect: bool)

  /** A create/update body. `text` and `difficulty` are `None` when absent or null (a difficulty
      that is not a string never matches and is given as `None` too); `subjectId` is
      `(int)($d['subject_id'] ?? 0)`; `qtype` is `None` when absent; `options` is `None` when the
      member is not an array. */
  datatype QuestionBody = QuestionBody(
    text: Option<string>,
    difficulty: Option<string>,
    subjectId: int,
    qtype: Option<string>,
    options: Option<seq<OptionBody>>)

  /** The type the handlers work with: an absent type means single choice. */
  function TypeOf(b: QuestionBody): string {
    b.qtype.GetOr("SCQ")
  }

  predicate IsAllowedType(t: string) {
    t in ["SCQ", "MCQ", "TF", "SA", "LA"]
  }

  predicate IsDifficultyName(s: string) {
    s in ["easy", "medium", "hard"]
  }

  /** The number of options a type requires: two for true/false, one (the model answer) for short
      and long answers, four for single and multiple choice and for any unrecognised type. */
  function RequiredOptionCount(t: string): (n: nat)
    ensures n in {1, 2, 4}
    ensures t == "TF" <==> n == 2
  {
    if t == "TF" then 2 else if t == "SA" || t == "LA" then 1 else 4
  }

  /** "This option is marked correct", as a predicate value to count with. */
  function MarkedCorrect(): OptionBody -> bool {
    (o: OptionBody) => o.isCorrect
  }

  /** How many options are marked correct (the `array_sum` of 0/1 flags). */
  function CorrectCount(opts: seq<OptionBody>): nat {
    Count(opts, MarkedCorrect())
  }

  /** The correctness rule of a type: at least one correct option for multiple choice, exactly one
      for the other known types, none imposed on an unknown type. */
  predicate CorrectnessHolds(t: string, correct: nat) {
    if t == "MCQ" then correct >= 1
    else if t in ["SCQ", "TF", "SA", "LA"] then correct == 1
    else true
  }

  predicate IsBlankOption(o: OptionBody) {
    PhpTrim(o.text.GetOr("")) == ""
  }

  /** A field that create and update can report. */
  datatype QuestionError =
    | TextError
    | DifficultyError
    | SubjectIdError
    | TypeError
    | OptionsError
    | OptionCountError(required: nat)
    | ExactlyOneCorrect(qtype: string)
    | AtLeastOneCorrect
    | OptionTextError
  {
    /** The string the response lists. */
    function Key(): string {
      match this
      case TextError => "text"
      case DifficultyError => "difficulty"
      case SubjectIdError => "subject_id"
      case TypeError => "type"
      case OptionsError => "options"
      case OptionCountError(n) => if n == 2 then "options(2)" else if n == 1 then "options(1)" else "options(4)"
      case ExactlyOneCorrect(t) => "exactly one option must be correct (" + t + ")"
      case AtLeastOneCorrect => "at least one option must be correct (MCQ)"
      case OptionTextError => "option text"
    }
  }

  function Keys(errs: seq<QuestionError>): (ks: seq<string>)
    ensures |ks| == |errs| && forall k :: 0 <= k < |errs| ==> ks[k] == errs[k].Key()
  {
    seq(|errs|, k requires 0 <= k < |errs| => errs[k].Key())
  }

  /** One `option text` entry per blank option, in list order. */
  function BlankOptionErrors(opts: seq<OptionBody>): (errs: seq<QuestionError>)
    ensures |errs| == Count(opts, IsBlankOption)
    ensures forall e :: e in errs ==> e == OptionTextError
  {
    if opts == [] then [] else (if IsBlankOption(opts[0]) then [OptionTextError] else []) + BlankOptionErrors(opts[1..])
  }

  /** The checks on a submitted option list, in the order the handlers append them. */
  function OptionErrors(t: string, opts: seq<OptionBody>): seq<QuestionError> {
    var k := CorrectCount(opts);
    (if |opts| != RequiredOptionCount(t) then [OptionCountError(RequiredOptionCount(t))] else [])
    + (if t == "MCQ" && k < 1 then [AtLeastOneCorrect] else [])
    + (if t in ["SCQ", "TF", "SA", "LA"] && k != 1 then [ExactlyOneCorrect(t)] else [])
    + BlankOptionErrors(opts)
  }

  /** The checks on the scalar fields, in append order. */
  function FieldErrors(b: QuestionBody): (errs: seq<QuestionError>)
    ensures TextError in errs <==> PhpTrim(b.text.GetOr("")) == ""
    ensures DifficultyError in errs <==> !IsDifficultyName(b.difficulty.GetOr(""))
    ensures SubjectIdError in errs <==> b.subjectId <= 0
    ensures TypeError in errs <==> !IsAllowedType(TypeOf(b))
    ensures forall e :: e in errs ==> e in {TextError, DifficultyError, SubjectIdError, TypeError}
  {
    (if PhpTrim(b.text.GetOr("")) == "" then [TextError] else [])
    + (if !IsDifficultyName(b.difficulty.GetOr("")) then [DifficultyError] else [])
    + (if b.subjectId <= 0 then [SubjectIdError] else [])
    + (if !IsAllowedType(TypeOf(b)) then [TypeError] else [])
  }

  /** The error list create and update both compute for a body (one definition, used by both);
      `options` is reported exactly when the member is not an array. */
  function BodyErrors(b: QuestionBody): (errs: seq<QuestionError>)
    ensures OptionsError in errs <==> b.options.None?
  {
    if b.options.None? then FieldErrors(b) + [OptionsError]
    else
      OptionErrorsFields(TypeOf(b), b.options.value);
      FieldErrors(b) + OptionErrors(TypeOf(b), b.options.value)
  }

  /** What an acceptable body is, stated field by field. */
  predicate WellFormed(b: QuestionBody) {
    && PhpTrim(b.text.GetOr("")) != ""
    && IsDifficultyName(b.difficulty.GetOr(""))
    && b.subjectId > 0
    && IsAllowedType(TypeOf(b))
    && b.options.Some?
    && |b.options.value| == RequiredOptionCount(TypeOf(b))
    && CorrectnessHolds(TypeOf(b), CorrectCount(b.options.value))
    && forall o :: o in b.options.value ==> !IsBlankOption(o)
  }

  lemma CountZero<T>(s: seq<T>, p: T -> bool)
    ensures Count(s, p) == 0 <==> forall x :: x in s ==> !p(x)
  {
    if s != [] {
      CountZero(s[1..], p);
      assert forall x :: x in s ==> x == s[0] || x in s[1..];
    }
  }

  /** The option checks pass exactly when the list has the type's length, meets its correctness
      rule and has no blank text. */
  lemma OptionErrorsEmptyIff(t: string, opts: seq<OptionBody>)
    ensures OptionErrors(t, opts) == [] <==>
              |opts| == RequiredOptionCount(t) && CorrectnessHolds(t, CorrectCount(opts)) && forall o :: o in opts ==> !IsBlankOption(o)
  {
    CountZero(opts, IsBlankOption);
  }

  /** The validator accepts exactly the well-formed bodies: every failing field is reported. */
  lemma BodyErrorsEmptyIff(b: QuestionBody)
    ensures BodyErrors(b) == [] <==> WellFormed(b)
  {
    if b.options.Some? {
      OptionErrorsEmptyIff(TypeOf(b), b.options.value);
    }
  }

  /** Which option-level fields are reported for a submitted list: the count error carries the
      required count, the correctness errors follow the type's rule, and every other entry is an
      `option text` entry, one per blank option. */
  lemma OptionErrorsFields(t: string, opts: seq<OptionBody>)
    ensures OptionCountError(RequiredOptionCount(t)) in OptionErrors(t, opts) <==> |opts| != RequiredOptionCount(t)
    ensures AtLeastOneCorrect in OptionErrors(t, opts) <==> t == "MCQ" && CorrectCount(opts) == 0
    ensures ExactlyOneCorrect(t) in OptionErrors(t, opts) <==> t in ["SCQ", "TF", "SA", "LA"] && CorrectCount(opts) != 1
    ensures OptionsError !in OptionErrors(t, opts)
  {
    var k := CorrectCount(opts);
    var n := RequiredOptionCount(t);
    var a := if |opts| != n then [OptionCountError(n)] else [];
    var m := if t == "MCQ" && k < 1 then [AtLeastOneCorrect] else [];
    var x := if t in ["SCQ", "TF", "SA", "LA"] && k != 1 then [ExactlyOneCorrect(t)] else [];
    var bl := BlankOptionErrors(opts);
    assert OptionErrors(t, opts) == a + m + x + bl;
    assert OptionCountError(n) !in m + x + bl;
    assert AtLeastOneCorrect !in a + x + bl;
    assert ExactlyOneCorrect(t) !in a + m + bl;
    assert OptionsError !in a + m + x + bl;
  }

  /** The number of `option text` entries a body gets is the number of blank options. */
  lemma OptionTextErrorCount(t: string, opts: seq<OptionBody>)
    ensures Count(OptionErrors(t, opts), IsOptionTextError) == Count(opts, IsBlankOption)
  {
    var k := CorrectCount(opts);
    var head := (if |opts| != RequiredOptionCount(t) then [OptionCountError(RequiredOptionCount(t))] else [])
      + (if t == "MCQ" && k < 1 then [AtLeastOneCorrect] else [])
      + (if t in ["SCQ", "TF", "SA", "LA"] && k != 1 then [ExactlyOneCorrect(t)] else []);
    assert OptionErrors(t, opts) == head + BlankOptionErrors(opts);
    CountAppend(head, BlankOptionErrors(opts), IsOptionTextError);
    CountZero(head, IsOptionTextError);
    CountAll(BlankOptionErrors(opts), IsOptionTextError);
  }

  predicate IsOptionTextError(e: QuestionError) {
    e == OptionTextError
  }

  lemma CountAll<T>(s: seq<T>, p: T -> bool)
    requires forall x :: x in s ==> p(x)
    ensures Count(s, p) == |s|
  {
    if s != [] { CountAll(s[1..], p); }
  }

  /** The option rows an insert loop writes for a submitted list: ids from `firstId` on, `idx` the
      list position, trimmed text, and the correctness flag as 0 or 1. */
  function StoredOptions(firstId: int, opts: seq<OptionBody>): seq<OptionRow> {
    seq(|opts|, i requires 0 <= i < |opts| => OptionRow(firstId + i, i, PhpTrim(opts[i].text.GetOr("")), if opts[i].isCorrect then 1 else 0))
  }

  /** "This stored option has `is_correct = 1`", as a predicate value to count with. */
  function StoredCorrect(): OptionRow -> bool {
    (o: OptionRow) => o.isCorrect == 1
  }

  /** The stored list has one row per submitted option, `idx` running 0..n-1, flags in {0, 1} with
      as many set as options were marked correct, and (for an accepted list) no blank text. */
  lemma StoredOptionsFacts(firstId: int, opts: seq<OptionBody>)
    ensures |StoredOptions(firstId, opts)| == |opts| && Indexed(StoredOptions(firstId, opts))
    ensures forall o :: o in StoredOptions(firstId, opts) ==> o.isCorrect in {0, 1}
    ensures Count(StoredOptions(firstId, opts), StoredCorrect()) == CorrectCount(opts)
    ensures (forall o :: o in opts ==> !IsBlankOption(o)) ==> forall o :: o in StoredOptions(firstId, opts) ==> o.text != ""
  {
    var st := StoredOptions(firstId, opts);
    StoredCorrectCount(firstId, opts);
    if forall o :: o in opts ==> !IsBlankOption(o) {
      forall o | o in st ensures o.text != "" {
        var i :| 0 <= i < |st| && st[i] == o;
        assert opts[i] in opts;
      }
    }
  }

  /** The stored flags count the options marked correct. */
  lemma {:induction false} StoredCorrectCount(firstId: int, opts: seq<OptionBody>)
    decreases |opts|
    ensures Count(StoredOptions(firstId, opts), StoredCorrect()) == CorrectCount(opts)
  {
    if opts != [] {
      var st := StoredOptions(firstId, opts);
      StoredCorrectCount(firstId + 1, opts[1..]);
      SameFlagsSameCount(st[1..], StoredOptions(firstId + 1, opts[1..]));
    }
  }

  lemma {:induction false} SameFlagsSameCount(a: seq<OptionRow>, b: seq<OptionRow>)
    requires |a| == |b| && forall k :: 0 <= k < |a| ==> a[k].isCorrect == b[k].isCorrect
    ensures Count(a, StoredCorrect()) == Count(b, StoredCorrect())
  {
    if a != [] {
      SameFlagsSameCount(a[1..], b[1..]);
    }
  }

  /** The stored options of a question (none when it has no rows). */
  function OptionsOf(options: map<int, seq<OptionRow>>, qid: int): seq<OptionRow> {
    if qid in options then options[qid] else []
  }

  /** The table with the row of `row.id` replaced (`UPDATE ... WHERE id = ?`). */
  function ReplaceRow(qs: seq<QuestionRow>, row: QuestionRow): (r: seq<QuestionRow>)
    ensures |r| == |qs| && forall k :: 0 <= k < |qs| ==> r[k] == if qs[k].id == row.id then row else qs[k]
  {
    seq(|qs|, k requires 0 <= k < |qs| => if qs[k].id == row.id then row else qs[k])
  }

  /** The table without the row of `id` (`DELETE ... WHERE id = ?`). */
  function RemoveRow(qs: seq<QuestionRow>, id: int): (r: seq<QuestionRow>)
    ensures forall q :: q in r <==> q in qs && q.id != id
    ensures |r| <= |qs|
  {
    if qs == [] then [] else (if qs[0].id == id then [] else [qs[0]]) + RemoveRow(qs[1..], id)
  }

  lemma ConsAscending(x: QuestionRow, rest: seq<QuestionRow>)
    requires IdsAscending(rest) && forall q :: q in rest ==> x.id < q.id
    ensures IdsAscending([x] + rest)
  {
    var r := [x] + rest;
    forall i, j | 0 <= i < j < |r| ensures r[i].id < r[j].id {
      assert r[j] == rest[j - 1];
      if i > 0 { assert r[i] == rest[i - 1]; } else { assert rest[j - 1] in rest; }
    }
  }

  /** Removing a row keeps the ids ascending. */
  lemma {:induction false} RemoveRowAscending(qs: seq<QuestionRow>, id: int)
    requires IdsAscending(qs)
    ensures IdsAscending(RemoveRow(qs, id))
  {
    if qs != [] {
      assert IdsAscending(qs[1..]);
      RemoveRowAscending(qs[1..], id);
      var rest := RemoveRow(qs[1..], id);
      if qs[0].id != id {
        forall q | q in rest ensures qs[0].id < q.id {
          var k :| 0 <= k < |qs| - 1 && qs[1..][k] == q;
          assert qs[k + 1] == q;
        }
        ConsAscending(qs[0], rest);
      } else {
        assert RemoveRow(qs, id) == rest;
      }
    }
  }

  /** Removing a row keeps every remaining id within the bounds the table had, and leaves no row
      under the removed id. */
  lemma RemoveRowBounds(qs: seq<QuestionRow>, id: int, next: int)
    requires forall i :: 0 <= i < |qs| ==> 0 < qs[i].id < next
    ensures forall i :: 0 <= i < |RemoveRow(qs, id)| ==> 0 < RemoveRow(qs, id)[i].id < next
    ensures FindQuestion(RemoveRow(qs, id), id).None?
  {
    var r := RemoveRow(qs, id);
    forall i | 0 <= i < |r| ensures 0 < r[i].id < next {
      assert r[i] in r;
      var k :| 0 <= k < |qs| && qs[k] == r[i];
    }
  }

  /** Replacing the row of an id keeps the ids, hence their order and bounds, and makes the new
      row the one found under that id. */
  lemma ReplaceRowFacts(qs: seq<QuestionRow>, row: QuestionRow)
    requires IdsAscending(qs)
    ensures IdsAscending(ReplaceRow(qs, row))
    ensures forall k :: 0 <= k < |qs| ==> ReplaceRow(qs, row)[k].id == qs[k].id
    ensures FindQuestion(qs, row.id).Some? ==> FindQuestion(ReplaceRow(qs, row), row.id) == Some(row)
  {
    var r := ReplaceRow(qs, row);
    assert forall k :: 0 <= k < |qs| ==> r[k].id == qs[k].id;
    if FindQuestion(qs, row.id).Some? {
      var k :| 0 <= k < |qs| && qs[k] == FindQuestion(qs, row.id).value;
      FindQuestionAt(r, k);
    }
  }

  /** Appending a row whose id is above every id keeps the ids ascending. */
  lemma AppendAscending(qs: seq<QuestionRow>, row: QuestionRow)
    requires IdsAscending(qs) && forall i :: 0 <= i < |qs| ==> qs[i].id < row.id
    ensures IdsAscending(qs + [row])
  {
    var r := qs + [row];
    forall i, j | 0 <= i < j < |r| ensures r[i].id < r[j].id {
      assert r[i] == qs[i];
      if j < |qs| { assert r[j] == qs[j]; }
    }
  }

  /** A join row of `SELECT q.*, o.* FROM questions q LEFT JOIN options o`: the question's columns
      and, unless the question has no option at all, one option row. */
  datatype JoinedRow = JoinedRow(q: QuestionRow, opt: Option<OptionRow>)

  /** The join rows of one question, ordered by `idx`: one per option, or one with null option
      columns when there is none. */
  function RowsOfQuestion(q: QuestionRow, opts: seq<OptionRow>): (rows: seq<JoinedRow>)
    ensures |rows| >= 1 && forall r :: r in rows ==> r.q == q
  {
    if opts == [] then [JoinedRow(q, None)] else seq(|opts|, k requires 0 <= k < |opts| => JoinedRow(q, Some(opts[k])))
  }

  /** The join rows of a subject's questions, ordered by id descending, then by `idx`. */
  function RowsOfSubject(qs: seq<QuestionRow>, options: map<int, seq<OptionRow>>, sid: int): (rows: seq<JoinedRow>)
    ensures forall r :: r in rows ==> r.q.subjectId == sid && r.q in qs
  {
    if qs == [] then []
    else RowsOfSubject(qs[1..], options, sid) + (if qs[0].subjectId == sid then RowsOfQuestion(qs[0], OptionsOf(options, qs[0].id)) else [])
  }

  /** A question with its options, as `list` and `show` return it. */
  datatype QuestionView = QuestionView(q: QuestionRow, options: seq<OptionRow>)

  function ViewIds(vs: seq<QuestionView>): (ids: seq<int>)
    ensures |ids| == |vs| && forall k :: 0 <= k < |vs| ==> ids[k] == vs[k].q.id
  {
    seq(|vs|, k requires 0 <= k < |vs| => vs[k].q.id)
  }

  /** With distinct ids, entry `k` is the only one of its question. */
  lemma OnlyEntryOf(vs: seq<QuestionView>, k: int)
    requires Distinct(ViewIds(vs)) && 0 <= k < |vs|
    ensures forall j :: 0 <= j < |vs| && j != k ==> vs[j].q.id != vs[k].q.id
  {
    forall j | 0 <= j < |vs| && j != k ensures vs[j].q.id != vs[k].q.id {
      assert ViewIds(vs)[j] != ViewIds(vs)[k];
    }
  }

  /** Views of the same questions, whatever their options, have the same id list. */
  lemma SameQuestionsSameIds(vs: seq<QuestionView>, ws: seq<QuestionView>)
    requires |vs| == |ws| && forall k :: 0 <= k < |vs| ==> vs[k].q == ws[k].q
    ensures ViewIds(vs) == ViewIds(ws)
  {
  }

  function RowIds(rows: seq<JoinedRow>): (ids: seq<int>)
    ensures |ids| == |rows| && forall k :: 0 <= k < |rows| ==> ids[k] == rows[k].q.id
  {
    seq(|rows|, k requires 0 <= k < |rows| => rows[k].q.id)
  }

  /** The values of `s` in order of first appearance, each once. */
  function Dedup(s: seq<int>): (r: seq<int>)
    ensures Distinct(r)
    ensures forall x :: x in r <==> x in s
  {
    if s == [] then []
    else
      var p := Dedup(s[..|s| - 1]);
      assert forall x :: x in s <==> x in s[..|s| - 1] || x == s[|s| - 1];
      if s[|s| - 1] in p then p
      else
        DistinctCons(s[|s| - 1], []);
        AppendDistinct(p, s[|s| - 1]);
        p + [s[|s| - 1]]
  }

  lemma AppendDistinct(p: seq<int>, x: int)
    requires Distinct(p) && x !in p
    ensures Distinct(p + [x])
  {
    var r := p + [x];
    forall i, j | 0 <= i < j < |r| ensures r[i] != r[j] {
      if j == |p| { assert r[i] in p; }
    }
  }

  /** The non-null options of the rows of question `qid`, in row order. */
  function OptionsInRows(rows: seq<JoinedRow>, qid: int): seq<OptionRow> {
    if rows == [] then []
    else
      var last := rows[|rows| - 1];
      OptionsInRows(rows[..|rows| - 1], qid) + (if last.q.id == qid && last.opt.Some? then [last.opt.value] else [])
  }

  /** The question columns of the first row of question `qid`. */
  function FirstRowOf(rows: seq<JoinedRow>, qid: int): Option<QuestionRow> {
    if rows == [] then None
    else
      var p := FirstRowOf(rows[..|rows| - 1], qid);
      if p.Some? then p else if rows[|rows| - 1].q.id == qid then Some(rows[|rows| - 1].q) else None
  }

  lemma {:induction false} FirstRowOfSome(rows: seq<JoinedRow>, qid: int)
    ensures FirstRowOf(rows, qid).Some? <==> qid in RowIds(rows)
    ensures FirstRowOf(rows, qid).Some? ==> FirstRowOf(rows, qid).value.id == qid
  {
    if rows != [] {
      FirstRowOfSome(rows[..|rows| - 1], qid);
      assert RowIds(rows) == RowIds(rows[..|rows| - 1]) + [rows[|rows| - 1].q.id];
    }
  }

  /** The grouping contract: one view per question id, in order of first appearance, carrying the
      question columns of its first row and its non-null options in row order. */
  ghost predicate GroupedAs(rows: seq<JoinedRow>, vs: seq<QuestionView>) {
    && ViewIds(vs) == Dedup(RowIds(rows))
    && (forall k :: 0 <= k < |vs| ==> FirstRowOf(rows, vs[k].q.id) == Some(vs[k].q))
    && (forall k :: 0 <= k < |vs| ==> vs[k].options == OptionsInRows(rows, vs[k].q.id))
  }

  datatype Response =
    | QuestionCreated(id: int)
    | QuestionUpdated(id: int)
    | QuestionDeleted
    | QuestionList(questions: seq<QuestionView>)
    | QuestionDetail(question: QuestionView)
    | ValidationFailed(fields: seq<string>)
    | SubjectRequired
    | InvalidId
    | NotFound
    | InternalError
  {
    function Status(): int {
      match this
      case QuestionCreated(_) => 201
      case QuestionUpdated(_) => 200
      case QuestionDeleted => 204
      case QuestionList(_) => 200
      case QuestionDetail(_) => 200
      case ValidationFailed(_) => 422
      case SubjectRequired => 422
      case InvalidId => 400
      case NotFound => 404
      case InternalError => 500
    }
  }

  /** Appending one join row: its id joins the id list, and the deduplicated list gains it when
      it is new. */
  lemma GroupStep(p: seq<JoinedRow>, row: JoinedRow)
    ensures RowIds(p + [row]) == RowIds(p) + [row.q.id]
    ensures Dedup(RowIds(p + [row])) == if row.q.id in Dedup(RowIds(p)) then Dedup(RowIds(p)) else Dedup(RowIds(p)) + [row.q.id]
  {
    var ids := RowIds(p + [row]);
    assert ids[..|ids| - 1] == RowIds(p);
  }

  /** Appending one join row, seen from question `x`: the row becomes its first row when it had
      none, and the row's option (if any) joins its options. */
  lemma GroupStepAt(p: seq<JoinedRow>, row: JoinedRow, x: int)
    ensures FirstRowOf(p + [row], x) == if FirstRowOf(p, x).Some? then FirstRowOf(p, x) else if row.q.id == x then Some(row.q) else None
    ensures OptionsInRows(p + [row], x) == OptionsInRows(p, x) + (if row.q.id == x && row.opt.Some? then [row.opt.value] else [])
  {
    assert (p + [row])[..|p|] == p;
  }

  /** A question with no row has no option in the rows. */
  lemma {:induction false} OptionsInRowsAbsent(rows: seq<JoinedRow>, qid: int)
    requires qid !in RowIds(rows)
    ensures OptionsInRows(rows, qid) == []
  {
    if rows != [] {
      var init := rows[..|rows| - 1];
      assert RowIds(init) == RowIds(rows)[..|rows| - 1];
      assert rows[|rows| - 1].q.id == RowIds(rows)[|rows| - 1];
      OptionsInRowsAbsent(init, qid);
    }
  }

  /** The loop invariant of the grouping: `vs` groups the rows seen so far and `index` maps each
      question id seen so far to its position in `vs`. */
  ghost predicate GroupInv(p: seq<JoinedRow>, vs: seq<QuestionView>, index: map<int, nat>) {
    && GroupedAs(p, vs)
    && (forall q :: q in index <==> q in RowIds(p))
    && (forall q :: q in index ==> index[q] < |vs| && vs[index[q]].q.id == q)
  }

  /** One turn of the grouping loop: a first row of a question opens a new entry, and its option
      (if not null) is appended to the entry of its question. */
  method AddRow(ghost p: seq<JoinedRow>, vs: seq<QuestionView>, index: map<int, nat>, row: JoinedRow)
    returns (vs': seq<QuestionView>, index': map<int, nat>)
    requires GroupInv(p, vs, index)
    ensures GroupInv(p + [row], vs', index')
  {
    if row.q.id !in index {
      vs', index' := OpenEntry(p, vs, index, row);
    } else {
      vs' := ExtendEntry(p, vs, index, row);
      index' := index;
    }
  }

  /** The first row of a question: a new entry at the end, holding the row's option if any. */
  method OpenEntry(ghost p: seq<JoinedRow>, vs: seq<QuestionView>, index: map<int, nat>, row: JoinedRow)
    returns (vs': seq<QuestionView>, index': map<int, nat>)
    requires GroupInv(p, vs, index) && row.q.id !in index
    ensures GroupInv(p + [row], vs', index')
  {
    var qid := row.q.id;
    GroupStep(p, row);
    GroupStepAt(p, row, qid);
    FirstRowOfSome(p, qid);
    OptionsInRowsAbsent(p, qid);
    forall j | 0 <= j < |vs| ensures vs[j].q.id != qid {
      assert vs[j].q.id in ViewIds(vs);
    }
    index' := index[qid := |vs|];
    vs' := vs + [QuestionView(row.q, if row.opt.Some? then [row.opt.value] else [])];
    assert ViewIds(vs') == ViewIds(vs) + [qid];
    ghost var p' := p + [row];
    forall k | 0 <= k < |vs'|
      ensures FirstRowOf(p', vs'[k].q.id) == Some(vs'[k].q) && vs'[k].options == OptionsInRows(p', vs'[k].q.id)
    {
      GroupStepAt(p, row, vs'[k].q.id);
      if k < |vs| {
        assert vs'[k] == vs[k];
      }
    }
    forall q | q in index' ensures index'[q] < |vs'| && vs'[index'[q]].q.id == q {
      if q != qid {
        assert vs'[index[q]] == vs[index[q]];
      }
    }
  }

  /** A later row of a question already seen: its option (if any) joins that question's entry. */
  method ExtendEntry(ghost p: seq<JoinedRow>, vs: seq<QuestionView>, index: map<int, nat>, row: JoinedRow)
    returns (vs': seq<QuestionView>)
    requires GroupInv(p, vs, index) && row.q.id in index
    ensures GroupInv(p + [row], vs', index)
  {
    var qid := row.q.id;
    var k := index[qid];
    OnlyEntryOf(vs, k);
    GroupStep(p, row);
    ghost var p' := p + [row];
    vs' := vs;
    if row.opt.Some? {
      vs' := vs[k := vs[k].(options := vs[k].options + [row.opt.value])];
      SameQuestionsSameIds(vs', vs);
    }
    forall j | 0 <= j < |vs'|
      ensures FirstRowOf(p', vs'[j].q.id) == Some(vs'[j].q) && vs'[j].options == OptionsInRows(p', vs'[j].q.id)
    {
      GroupStepAt(p, row, vs[j].q.id);
      assert vs'[j].q == vs[j].q;
    }
  }

  /** The loop of `list`: fold the join rows into one entry per question id, keyed by an index
      from id to position so that later rows of a question append to its options. */
  method GroupRows(rows: seq<JoinedRow>) returns (vs: seq<QuestionView>)
    ensures GroupedAs(rows, vs)
  {
    vs := [];
    var index: map<int, nat> := map[];
    for i := 0 to |rows|
      invariant GroupInv(rows[..i], vs, index)
    {
      assert rows[..i + 1] == rows[..i] + [rows[i]];
      vs, index := AddRow(rows[..i], vs, index, rows[i]);
    }
    assert rows[..|rows|] == rows;
  }

  class QuestionController {
    const db: Database

    constructor (db: Database)
      ensures this.db == db
    {
      this.db := db;
    }

    /** The insert loop of create and update: one option row per submitted option, `idx` = `$i`. */
    method InsertOptions(qid: int, opts: seq<OptionBody>)
      requires qid in db.options && db.options[qid] == []
      modifies db
      ensures db.options == old(db.options)[qid := StoredOptions(old(db.nextOptionId), opts)]
      ensures db.nextOptionId == old(db.nextOptionId) + |opts|
      ensures db.questions == old(db.questions) && db.exams == old(db.exams) && db.links == old(db.links)
      ensures db.nextQuestionId == old(db.nextQuestionId) && db.nextExamId == old(db.nextExamId)
    {
      assert StoredOptions(db.nextOptionId, opts[..0]) == [];
      assert db.options == old(db.options)[qid := StoredOptions(old(db.nextOptionId), opts[..0])];
      for i := 0 to |opts|
        invariant db.options == old(db.options)[qid := StoredOptions(old(db.nextOptionId), opts[..i])]
        invariant db.nextOptionId == old(db.nextOptionId) + i
        invariant db.questions == old(db.questions) && db.exams == old(db.exams) && db.links == old(db.links)
        invariant db.nextQuestionId == old(db.nextQuestionId) && db.nextExamId == old(db.nextExamId)
      {
        var o := opts[i];
        var row := OptionRow(db.nextOptionId, i, PhpTrim(o.text.GetOr("")), if o.isCorrect then 1 else 0);
        assert StoredOptions(old(db.nextOptionId), opts[..i]) + [row] == StoredOptions(old(db.nextOptionId), opts[..i + 1]);
        db.options := db.options[qid := db.options[qid] + [row]];
        db.nextOptionId := db.nextOptionId + 1;
      }
      assert opts[..|opts|] == opts;
    }

    /** `create`: validate, then insert the question row (trimmed text) and its options. */
    method Create(b: QuestionBody) returns (r: Response)
      requires db.Valid()
      modifies db
      ensures db.Valid()
      ensures db.exams == old(db.exams) && db.links == old(db.links)
      ensures BodyErrors(b) != [] ==> r == ValidationFailed(Keys(BodyErrors(b))) && db.questions == old(db.questions) && db.options == old(db.options)
      ensures r.QuestionCreated? <==> WellFormed(b)
      ensures r.QuestionCreated? ==>
                r.id == old(db.nextQuestionId)
                && db.questions == old(db.questions) + [QuestionRow(r.id, b.subjectId, TypeOf(b), PhpTrim(b.text.GetOr("")), b.difficulty.GetOr(""))]
                && db.options == old(db.options)[r.id := StoredOptions(old(db.nextOptionId), b.options.GetOr([]))]
    {
      var errs := BodyErrors(b);
      BodyErrorsEmptyIff(b);
      if errs != [] {
        return ValidationFailed(Keys(errs));
      }
      var qid := InsertQuestion(b.subjectId, TypeOf(b), PhpTrim(b.text.value), b.difficulty.value, b.options.value);
      r := QuestionCreated(qid);
    }

    /** The inserts of `create`: the question row under the next id, then its options. */
    method InsertQuestion(sid: int, qtype: string, text: string, difficulty: string, opts: seq<OptionBody>) returns (qid: int)
      requires db.Valid()
      modifies db
      ensures db.Valid()
      ensures db.exams == old(db.exams) && db.links == old(db.links)
      ensures qid == old(db.nextQuestionId)
      ensures db.questions == old(db.questions) + [QuestionRow(qid, sid, qtype, text, difficulty)]
      ensures db.options == old(db.options)[qid := StoredOptions(old(db.nextOptionId), opts)]
    {
      qid := db.nextQuestionId;
      var row := QuestionRow(qid, sid, qtype, text, difficulty);
      AppendAscending(db.questions, row);
      StoredOptionsFacts(db.nextOptionId, opts);
      db.nextQuestionId := db.nextQuestionId + 1;
      db.questions := db.questions + [row];
      db.options := db.options[qid := []];
      InsertOptions(qid, opts);
      assert forall q :: q in db.options ==> Indexed(db.options[q]);
    }

    /** `update`: validate (before looking the question up), then in one transaction rewrite the
        row and replace its options; a missing question rolls back with 404. */
    method Update(id: int, b: QuestionBody, fault: bool) returns (r: Response)
      requires db.Valid()
      modifies db
      ensures db.Valid()
      ensures db.exams == old(db.exams) && db.links == old(db.links)
      ensures r == InvalidId <==> id <= 0
      ensures r.ValidationFailed? <==> id > 0 && BodyErrors(b) != []
      ensures id > 0 && BodyErrors(b) != [] ==> r == ValidationFailed(Keys(BodyErrors(b)))
      ensures r == NotFound <==> id > 0 && WellFormed(b) && FindQuestion(old(db.questions), id).None?
      ensures r == InternalError <==> id > 0 && WellFormed(b) && FindQuestion(old(db.questions), id).Some? && fault
      ensures r == QuestionUpdated(id) <==> id > 0 && WellFormed(b) && FindQuestion(old(db.questions), id).Some? && !fault
      ensures r.QuestionUpdated? ==>
                r.id == id && WellFormed(b)
                && db.questions == ReplaceRow(old(db.questions), QuestionRow(id, b.subjectId, TypeOf(b), PhpTrim(b.text.GetOr("")), b.difficulty.GetOr("")))
                && db.options == old(db.options)[id := StoredOptions(old(db.nextOptionId), b.options.GetOr([]))]
      ensures !r.QuestionUpdated? ==> db.questions == old(db.questions) && db.options == old(db.options)
    {
      if id <= 0 {
        return InvalidId;
      }
      var errs := BodyErrors(b);
      BodyErrorsEmptyIff(b);
      if errs != [] {
        return ValidationFailed(Keys(errs));
      }
      var row := QuestionRow(id, b.subjectId, TypeOf(b), PhpTrim(b.text.value), b.difficulty.value);
      r := Rewrite(row, b.options.value, fault);
    }

    /** The transaction of `update`: rewrite the row of `row.id` and replace its options; when no
        row has that id, or the store fails, everything is rolled back. */
    method Rewrite(row: QuestionRow, opts: seq<OptionBody>, fault: bool) returns (r: Response)
      requires db.Valid() && row.id > 0
      modifies db
      ensures db.Valid()
      ensures db.exams == old(db.exams) && db.links == old(db.links)
      ensures r == NotFound <==> FindQuestion(old(db.questions), row.id).None?
      ensures r == InternalError <==> FindQuestion(old(db.questions), row.id).Some? && fault
      ensures r == QuestionUpdated(row.id) <==> FindQuestion(old(db.questions), row.id).Some? && !fault
      ensures r.QuestionUpdated? ==>
                db.questions == ReplaceRow(old(db.questions), row)
                && db.options == old(db.options)[row.id := StoredOptions(old(db.nextOptionId), opts)]
      ensures !r.QuestionUpdated? ==> db.questions == old(db.questions) && db.options == old(db.options)
    {
      var questions0 := db.questions;
      ReplaceRowFacts(questions0, row);
      db.questions := ReplaceRow(questions0, row);
      if FindQuestion(questions0, row.id).None? {
        db.questions := questions0;
        return NotFound;
      }
      r := ReplaceOptions(row.id, opts, fault, questions0);
    }

    /** The rest of `update`'s transaction once the row is rewritten: delete the question's
        options and insert the new ones, then commit, or on a failure roll back to `questions0`
        and the old options. */
    method ReplaceOptions(qid: int, opts: seq<OptionBody>, fault: bool, questions0: seq<QuestionRow>) returns (r: Response)
      requires db.Valid()
      requires IdsAscending(questions0) && forall i :: 0 <= i < |questions0| ==> 0 < questions0[i].id < db.nextQuestionId
      modifies db
      ensures db.Valid()
      ensures db.exams == old(db.exams) && db.links == old(db.links)
      ensures r == InternalError <==> fault
      ensures r == QuestionUpdated(qid) <==> !fault
      ensures !fault ==> db.questions == old(db.questions) && db.options == old(db.options)[qid := StoredOptions(old(db.nextOptionId), opts)]
      ensures fault ==> db.questions == questions0 && db.options == old(db.options)
    {
      var options0 := db.options;
      StoredOptionsFacts(db.nextOptionId, opts);
      db.options := db.options[qid := []];
      InsertOptions(qid, opts);
      if fault {
        db.questions, db.options := questions0, options0;
        return InternalError;
      }
      assert forall q :: q in db.options ==> Indexed(db.options[q]);
      r := QuestionUpdated(qid);
    }

    /** `delete`: remove the question's options and its row in one transaction; 404 when no row
        was deleted. Exam links that refer to the question are left in place. */
    method Delete(id: int, fault: bool) returns (r: Response)
      requires db.Valid()
      modifies db
      ensures db.Valid()
      ensures db.exams == old(db.exams) && db.links == old(db.links)
      ensures r == InvalidId <==> id <= 0
      ensures r == InternalError <==> id > 0 && fault
      ensures r == NotFound <==> id > 0 && !fault && FindQuestion(old(db.questions), id).None?
      ensures r == QuestionDeleted <==> id > 0 && !fault && FindQuestion(old(db.questions), id).Some?
      ensures id > 0 && !fault ==> db.questions == RemoveRow(old(db.questions), id) && db.options == old(db.options) - {id}
      ensures id <= 0 || fault ==> db.questions == old(db.questions) && db.options == old(db.options)
      ensures FindQuestion(db.questions, id).None? || id <= 0 || fault
    {
      if id <= 0 {
        return InvalidId;
      }
      if fault {
        return InternalError;
      }
      var existed := RemoveQuestion(id);
      r := if existed then QuestionDeleted else NotFound;
    }

    /** The two deletes of `delete`: the question's options, then its row; `existed` is whether a
        row was deleted. */
    method RemoveQuestion(id: int) returns (existed: bool)
      requires db.Valid()
      modifies db
      ensures db.Valid()
      ensures existed <==> FindQuestion(old(db.questions), id).Some?
      ensures db.questions == RemoveRow(old(db.questions), id) && db.options == old(db.options) - {id}
      ensures db.exams == old(db.exams) && db.links == old(db.links)
      ensures FindQuestion(db.questions, id).None?
    {
      existed := FindQuestion(db.questions, id).Some?;
      RemoveRowAscending(db.questions, id);
      RemoveRowBounds(db.questions, id, db.nextQuestionId);
      db.options := db.options - {id};
      db.questions := RemoveRow(db.questions, id);
    }

    /** `show`: the question's columns from the first join row and its non-null options in `idx`
        order; no row at all means 404. */
    method Show(id: int) returns (r: Response)
      requires db.Valid()
      ensures r == InvalidId <==> id <= 0
      ensures r == NotFound <==> id > 0 && FindQuestion(db.questions, id).None?
      ensures r.QuestionDetail? <==> id > 0 && FindQuestion(db.questions, id).Some?
      ensures r.QuestionDetail? ==> (FindQuestion(db.questions, id) == Some(r.question.q)
                                    && r.question.options == OptionsOf(db.options, id))
    {
      if id <= 0 {
        return InvalidId;
      }
      var found := FindQuestion(db.questions, id);
      if found.None? {
        return NotFound;
      }
      ghost var opts := OptionsOf(db.options, id);
      var rows := RowsOfQuestion(found.value, OptionsOf(db.options, id));
      var first := rows[0];
      var options: seq<OptionRow> := [];
      for i := 0 to |rows|
        invariant options == if opts == [] then [] else opts[..i]
      {
        if rows[i].opt.None? {
          continue;
        }
        options := options + [rows[i].opt.value];
      }
      assert opts != [] ==> opts[..|rows|] == opts;
      r := QuestionDetail(QuestionView(first.q, options));
    }

    /** `list`: the subject's questions, newest first, each with its options in `idx` order. */
    method List(subjectParam: Option<int>) returns (r: Response)
      requires db.Valid()
      ensures r == SubjectRequired <==> subjectParam.GetOr(0) <= 0
      ensures r != SubjectRequired ==> r.QuestionList? && GroupedAs(RowsOfSubject(db.questions, db.options, subjectParam.GetOr(0)), r.questions)
    {
      var sid := subjectParam.GetOr(0);
      if sid <= 0 {
        return SubjectRequired;
      }
      var vs := GroupRows(RowsOfSubject(db.questions, db.options, sid));
      r := QuestionList(vs);
    }
  }
}
