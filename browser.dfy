/** What the browser scripts share: JavaScript's conversions they rely on, the question payload
    they send, and how the server decodes that payload into the body its validator sees. */
module Browser {
  import opened Common
  import opened Text
  import Questions
  import Router

  /** `String(x)` of what `FormData.get` returns: the field's value, or "null" when no control
      of that name is checked. */
  function FormValue(v: Option<string>): string {
    v.GetOr("null")
  }

  /** `parseInt(FormData.get(name), 10)`: an unchecked radio group reads as NaN. */
  lemma UncheckedIsNaN()
    ensures ParseInt(FormValue(None)) == None
  {
    assert forall c :: c in "null" ==> !IsDigit(c);
  }

  /** JavaScript's `String(n)` of an integer, as used in template URLs. */
  function IntString(n: int): (r: string)
    ensures n >= 0 ==> r == DecimalString(n)
  {
    if n < 0 then "-" + DecimalString(-n) else DecimalString(n)
  }

  /** The truthiness of an id variable that holds `null` or a number. */
  predicate IsTruthyId(v: Option<int>) {
    v.Some? && v.value != 0
  }

  /** One option of a question payload. */
  datatype OptionPayload = OptionPayload(text: string, isCorrect: bool)

  /** The JSON body of POST /questions and PUT /questions/{id}. `subjectId` is `None` when
      `parseInt` gave NaN (serialised as `null`); `qtype` is `None` when the script sends no type. */
  datatype QuestionPayload = QuestionPayload(
    subjectId: Option<int>,
    text: string,
    difficulty: string,
    qtype: Option<string>,
    options: seq<OptionPayload>)

  /** The request a question form sends: its method, its path below `/api`, and its body. */
  datatype QuestionRequest = QuestionRequest(httpMethod: string, url: string, payload: QuestionPayload)

  /** The server's reading of a payload: `null` subject becomes 0, every option has a text and
      a boolean flag. */
  function ServerBody(p: QuestionPayload): (b: Questions.QuestionBody)
    ensures b.text == Some(p.text) && b.difficulty == Some(p.difficulty) && b.qtype == p.qtype
    ensures b.subjectId == p.subjectId.GetOr(0)
    ensures b.options.Some? && |b.options.value| == |p.options|
    ensures forall i :: 0 <= i < |p.options| ==> b.options.value[i] == Questions.OptionBody(Some(p.options[i].text), p.options[i].isCorrect)
  {
    Questions.QuestionBody(
      Some(p.text), Some(p.difficulty), p.subjectId.GetOr(0), p.qtype,
      Some(seq(|p.options|, i requires 0 <= i < |p.options| => Questions.OptionBody(Some(p.options[i].text), p.options[i].isCorrect))))
  }

  /** The method and path of a question save: PUT on the question being edited, else POST. */
  function QuestionTarget(editId: Option<int>): (string, string) {
    if IsTruthyId(editId) then ("PUT", "/questions/" + IntString(editId.value)) else ("POST", "/questions")
  }

  /** The `api` helper prefixes `/api`: a save of the question being edited reaches `update` with
      its id, any other save reaches `create`. */
  lemma QuestionTargetRoutes(editId: Option<int>)
    requires editId.Some? ==> 0 <= editId.value <= Router.PhpIntMax
    ensures IsTruthyId(editId) ==>
              Router.Dispatch(Some(QuestionTarget(editId).0), "/api" + QuestionTarget(editId).1) == Router.QuestionUpdate(editId.value)
    ensures !IsTruthyId(editId) ==>
              Router.Dispatch(Some(QuestionTarget(editId).0), "/api" + QuestionTarget(editId).1) == Router.QuestionsCreate
  {
    if IsTruthyId(editId) {
      EditTargetRoutes(editId.value);
    } else {
      CreateTargetRoutes(editId);
    }
  }

  /** The PUT of a question being edited, on its own. */
  lemma EditTargetRoutes(id: int)
    requires 0 < id <= Router.PhpIntMax
    ensures Router.Dispatch(Some(QuestionTarget(Some(id)).0), "/api" + QuestionTarget(Some(id)).1) == Router.QuestionUpdate(id)
  {
    var n: nat := id;
    var ds := DecimalString(n);
    assert QuestionTarget(Some(id)) == ("PUT", "/questions/" + ds);
    assert "/api" + ("/questions/" + ds) == "/api/questions/" + ds;
    assert Router.IdPath("/api/questions/", n, false) == "/api/questions/" + ds;
    Router.QuestionIdRoutes(n, false, "PUT");
  }

  /** The POST of a new question, on its own. */
  lemma CreateTargetRoutes(editId: Option<int>)
    requires !IsTruthyId(editId)
    ensures Router.Dispatch(Some(QuestionTarget(editId).0), "/api" + QuestionTarget(editId).1) == Router.QuestionsCreate
  {
    assert QuestionTarget(editId) == ("POST", "/questions");
    assert "/api" + "/questions" == "/api/questions";
    Router.LiteralRoutes();
  }

  /** A text the browser does not see as blank, containing no NUL, is not blank to the server
      either. */
  lemma NoNulNotBlank(s: string)
    requires JsTrim(s) != [] && '\0' !in s
    ensures PhpTrim(JsTrim(s)) != []
  {
    var t := JsTrim(s);
    var l := DropLeading(s, IsJsSpace);
    DropTrailingFacts(l, IsJsSpace);
    JsTrimInside(s);
    PhpTrimEmptyIff(t);
    assert t[0] == l[0] && t[0] in s;
    assert !IsPhpSpace(t[0]);
  }

  /** The characters of a trimmed string come from the string. */
  lemma JsTrimInside(s: string)
    ensures forall c :: c in JsTrim(s) ==> c in s
  {
    var l := DropLeading(s, IsJsSpace);
    DropLeadingFacts(s, IsJsSpace);
    DropTrailingFacts(l, IsJsSpace);
    forall c | c in JsTrim(s) ensures c in s {
      var i :| 0 <= i < |JsTrim(s)| && JsTrim(s)[i] == c;
      assert c == l[i] && l[i] == s[|s| - |l| + i];
    }
  }

  /** The number of payload options marked correct is what the server counts. */
  lemma ServerCorrectCount(p: QuestionPayload)
    ensures Questions.CorrectCount(ServerBody(p).options.value) == Count(p.options, PayloadCorrect())
  {
    PayloadCountShift(p.options, ServerBody(p).options.value);
  }

  /** "This payload option is marked correct", as a predicate value to count with. */
  function PayloadCorrect(): OptionPayload -> bool {
    (o: OptionPayload) => o.isCorrect
  }

  lemma {:induction false} PayloadCountShift(ps: seq<OptionPayload>, bs: seq<Questions.OptionBody>)
    requires |ps| == |bs| && forall i :: 0 <= i < |ps| ==> bs[i] == Questions.OptionBody(Some(ps[i].text), ps[i].isCorrect)
    ensures Count(bs, Questions.MarkedCorrect()) == Count(ps, PayloadCorrect())
  {
    if ps != [] {
      PayloadCountShift(ps[1..], bs[1..]);
    }
  }

  /** A payload whose options are the trimmed, non-empty, NUL-free inputs, as many as the type
      needs, passes the server's option checks exactly when its correct options meet the type's
      rule. */
  lemma PayloadOptionsAccepted(t: string, p: QuestionPayload, raw: seq<string>)
    requires |raw| == |p.options| == Questions.RequiredOptionCount(t)
    requires forall i :: 0 <= i < |raw| ==> p.options[i].text == JsTrim(raw[i]) && JsTrim(raw[i]) != [] && '\0' !in raw[i]
    ensures Questions.OptionErrors(t, ServerBody(p).options.value) == [] <==>
              Questions.CorrectnessHolds(t, Count(p.options, PayloadCorrect()))
  {
    ServerSeesNoBlankOption(p, raw);
    ServerCorrectCount(p);
    Questions.OptionErrorsEmptyIff(t, ServerBody(p).options.value);
  }

  /** Payload options whose texts are JavaScript-trimmed, non-empty and NUL-free are none of them
      blank to the server. */
  lemma ServerSeesNoBlankOption(p: QuestionPayload, raw: seq<string>)
    requires |raw| == |p.options|
    requires forall i :: 0 <= i < |raw| ==> p.options[i].text == JsTrim(raw[i]) && JsTrim(raw[i]) != [] && '\0' !in raw[i]
    ensures forall o :: o in ServerBody(p).options.value ==> !Questions.IsBlankOption(o)
  {
    var os := ServerBody(p).options.value;
    forall o | o in os ensures !Questions.IsBlankOption(o) {
      var i :| 0 <= i < |os| && os[i] == o;
      NoNulNotBlank(raw[i]);
    }
  }
}
