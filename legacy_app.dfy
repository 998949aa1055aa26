/** The older single-choice question page: its `escapeHtml` built from `replaceAll` with string
    patterns, its four-option submit handler (which sends no `type`) and its `currentEditId`. */
module LegacyApp {
  import opened Common
  import opened Text
  import opened Browser
  import HtmlEscape
  import QuestionsPage
  import Questions

  /* ---------------- escapeHtml ---------------- */

  /** `s.replaceAll(pat, rep)` with a string pattern: the occurrences of `pat` found scanning left
      to right, not overlapping, are replaced; an empty pattern matches before every character and
      at the end. */
  function ReplaceAll(s: string, pat: string, rep: string): (r: string)
    ensures |pat| == 1 ==> r == HtmlEscape.ReplaceChar(s, pat[0], rep)
    decreases |s|, |pat|
  {
    if pat == [] then
      rep + (if s == [] then [] else [s[0]] + ReplaceAll(s[1..], pat, rep))
    else if s == [] then []
    else if |pat| <= |s| && s[..|pat|] == pat then rep + ReplaceAll(s[|pat|..], pat, rep)
    else [s[0]] + ReplaceAll(s[1..], pat, rep)
  }

  /** `escapeHtml` of app.js. The two copies of `escapeHtml` (regular expressions in helpers.js,
      `replaceAll` with string patterns here) give the same string for every input. */
  function LegacyEscapeHtml(s: string): (r: string)
    ensures r == HtmlEscape.EscapeHtml(s)
  {
    ReplaceAll(ReplaceAll(ReplaceAll(ReplaceAll(ReplaceAll(s, "&", "&amp;"), "<", "&lt;"), ">", "&gt;"), "\"", "&quot;"), "'", "&#039;")
  }

  /** The legacy escape loses nothing: the text shown is the text stored. */
  lemma LegacyUnescape(s: string)
    ensures HtmlEscape.Unescape(LegacyEscapeHtml(s)) == s
  {
    HtmlEscape.UnescapeEscape(s);
  }

  /* ---------------- onSubmit ---------------- */

  /** What `onSubmit` reads: the subject select, the text, the difficulty, the option inputs and
      the checked `correct` radio's value (`None` when none is checked). */
  datatype LegacyForm = LegacyForm(
    subjectValue: string,
    text: string,
    difficulty: string,
    optionInputs: seq<string>,
    correct: Option<string>)

  /** The body `onSubmit` sends, if its guard lets one through: no `type` member, options correct
      exactly at the checked index. */
  function LegacyPayload(f: LegacyForm): Option<QuestionPayload> {
    var text := JsTrim(f.text);
    var opts := QuestionsPage.TrimAll(f.optionInputs);
    var correct := ParseInt(FormValue(f.correct));
    if text == "" || QuestionsPage.AnyEmpty(opts) || correct.None? then None
    else Some(QuestionPayload(ParseInt(f.subjectValue), text, f.difficulty, None,
                              seq(|opts|, i requires 0 <= i < |opts| => OptionPayload(opts[i], i == correct.value))))
  }

  /** Without a `type` member the server validates the body as a single-choice question. */
  lemma LegacySentAsSingleChoice(f: LegacyForm)
    requires LegacyPayload(f).Some?
    ensures Questions.TypeOf(ServerBody(LegacyPayload(f).value)) == "SCQ"
  {
  }

  /** The legacy form sends what the single-choice branch of the newer form sends for the same
      inputs, except that the newer one names the type. */
  lemma LegacyMatchesSingleChoiceForm(f: LegacyForm, g: QuestionsPage.QuestionForm)
    requires g.typeValue in {"", "SCQ"}
    requires g.subjectValue == f.subjectValue && g.text == f.text && g.difficulty == f.difficulty
    requires g.scqInputs == f.optionInputs && g.scqCorrect == f.correct
    ensures LegacyPayload(f).None? <==> QuestionsPage.BuildPayload(g).None?
    ensures LegacyPayload(f).Some? ==> QuestionsPage.BuildPayload(g).value == LegacyPayload(f).value.(qtype := Some("SCQ"))
  {
  }

  /** A sent form with the four NUL-free inputs the server requires and a checked index among them
      passes the server's option checks. */
  lemma LegacyPayloadAccepted(f: LegacyForm)
    requires LegacyPayload(f).Some?
    requires |f.optionInputs| == 4 && forall i :: 0 <= i < 4 ==> '\0' !in f.optionInputs[i]
    requires 0 <= ParseInt(FormValue(f.correct)).value < 4
    ensures Questions.OptionErrors("SCQ", ServerBody(LegacyPayload(f).value).options.value) == []
  {
    var g := QuestionsPage.QuestionForm(f.subjectValue, f.text, f.difficulty, "SCQ", f.optionInputs, f.correct,
                                        [], [], None, None, None);
    LegacyMatchesSingleChoiceForm(f, g);
    QuestionsPage.ScqPayloadAccepted(g);
    assert ServerBody(LegacyPayload(f).value).options == ServerBody(QuestionsPage.BuildPayload(g).value).options;
  }

  /** The legacy page's edit state. */
  class LegacyEditor {
    /** The id of the question being edited, `None` (null) when creating. */
    var currentEditId: Option<int>

    constructor ()
      ensures currentEditId == None
    {
      currentEditId := None;
    }

    /** `setEditMode(on)`: leaving edit mode forgets the question. */
    method SetEditMode(on: bool)
      modifies this
      ensures currentEditId == if on then old(currentEditId) else None
    {
      if !on {
        currentEditId := None;
      }
    }

    /** `cancelEditMode` (the form reset is not modelled). */
    method CancelEditMode()
      modifies this
      ensures currentEditId == None
    {
      SetEditMode(false);
    }

    /** The edit click, once the question has been fetched. */
    method OnQuestionLoaded(resp: Questions.Response)
      modifies this
      ensures currentEditId == if resp.QuestionDetail? then Some(resp.question.q.id) else old(currentEditId)
    {
      if !resp.QuestionDetail? {
        return;
      }
      currentEditId := Some(resp.question.q.id);
      SetEditMode(true);
    }

    /** The delete click, once the server answered: deleting the question being edited leaves
        edit mode. */
    method OnQuestionDeleted(id: int, resp: Questions.Response)
      modifies this
      ensures currentEditId == if 200 <= resp.Status() < 300 && old(currentEditId) == Some(id) then None else old(currentEditId)
    {
      if !(200 <= resp.Status() < 300) {
        return;
      }
      if currentEditId == Some(id) {
        CancelEditMode();
      }
    }

    /** `onSubmit`: the request sent (PUT on the edited question, else POST), if the guard lets it
        through; a successful save leaves edit mode. */
    method Submit(f: LegacyForm, saved: bool) returns (req: Option<QuestionRequest>)
      modifies this
      ensures req.None? <==> LegacyPayload(f).None?
      ensures req.Some? ==> req.value == QuestionRequest(QuestionTarget(old(currentEditId)).0, QuestionTarget(old(currentEditId)).1, LegacyPayload(f).value)
      ensures currentEditId == if req.Some? && saved then None else old(currentEditId)
    {
      var payload := LegacyPayload(f);
      if payload.None? {
        return None;
      }
      var target := QuestionTarget(currentEditId);
      req := Some(QuestionRequest(target.0, target.1, payload.value));
      if saved {
        SetEditMode(false);
      }
    }
  }
}
