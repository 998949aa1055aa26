/** The front controller: a decision table from the request method and the URL path to the
    handler that answers, with the numeric id of `/api/questions/{id}` and `/api/exams/{id}`
    captured by a `\d+` pattern anchored with PCRE's `^` and `$`. */
module Router {
  import opened Common
  import opened Text

  /** The handler a request is dispatched to, or the router's own answer (405 or 404). */
  datatype Action =
    | SubjectsList
    | SubjectsCreate
    | QuestionsList
    | QuestionsCreate
    | QuestionShow(id: int)
    | QuestionUpdate(id: int)
    | QuestionDelete(id: int)
    | ExamsList
    | ExamsCreateAuto
    | ExamsCreateManual
    | ExamShow(id: int)
    | ExamUpdate(id: int)
    | ExamDelete(id: int)
    | MethodNotAllowed
    | NotFound(path: string)

  /** `PHP_INT_MAX` on a 64-bit build. */
  const PhpIntMax: int := 0x7FFF_FFFF_FFFF_FFFF

  /** PHP's `(int)` of a captured digit string: its decimal value, saturated at `PHP_INT_MAX`. */
  function IntCast(ds: string): (n: int)
    requires forall i :: 0 <= i < |ds| ==> IsDigit(ds[i])
    ensures 0 <= n <= PhpIntMax
  {
    if DigitsValue(ds) <= PhpIntMax then DigitsValue(ds) else PhpIntMax
  }

  predicate AllDigits(s: string) {
    forall i :: 0 <= i < |s| ==> IsDigit(s[i])
  }

  /** The group `(\d+)` of `#^<prefix>(\d+)$#` matched against `p`, if the pattern matches. `\d` is
      an ASCII digit, and `$` (without the `D` modifier) also matches before one final line feed. */
  function IdCapture(prefix: string, p: string): (r: Option<string>)
    ensures r.Some? ==> r.value != [] && AllDigits(r.value)
    ensures r.Some? ==> p == prefix + r.value || p == prefix + r.value + "\n"
  {
    if |p| >= |prefix| && p[..|prefix|] == prefix then
      var rest := p[|prefix|..];
      var body := if rest != [] && rest[|rest| - 1] == '\n' then rest[..|rest| - 1] else rest;
      assert p == prefix + rest;
      assert rest != [] && rest[|rest| - 1] == '\n' ==> rest == body + "\n";
      if body != [] && AllDigits(body) then Some(body) else None
    else None
  }

  /** `dispatch`: the method defaults to GET when the server gives none; literal routes are tried
      in source order, each `{id}` pattern after the literal routes of its collection. */
  function Dispatch(requestMethod: Option<string>, p: string): (r: Action)
    ensures r.NotFound? ==> r.path == p
    ensures r.QuestionShow? || r.QuestionUpdate? || r.QuestionDelete? ==>
              IdCapture("/api/questions/", p).Some? && 0 <= r.id <= PhpIntMax
    ensures r.ExamShow? || r.ExamUpdate? || r.ExamDelete? ==>
              IdCapture("/api/exams/", p).Some? && 0 <= r.id <= PhpIntMax
    ensures r.QuestionShow? || r.ExamShow? ==> requestMethod.GetOr("GET") == "GET"
    ensures r.QuestionUpdate? || r.ExamUpdate? ==> requestMethod.GetOr("GET") == "PUT"
    ensures r.QuestionDelete? || r.ExamDelete? ==> requestMethod.GetOr("GET") == "DELETE"
  {
    var m := requestMethod.GetOr("GET");
    if m == "GET" && p == "/api/subjects" then SubjectsList
    else if m == "POST" && p == "/api/subjects" then SubjectsCreate
    else if m == "GET" && p == "/api/questions" then QuestionsList
    else if m == "POST" && p == "/api/questions" then QuestionsCreate
    else if IdCapture("/api/questions/", p).Some? then
      var id := IntCast(IdCapture("/api/questions/", p).value);
      if m == "GET" then QuestionShow(id)
      else if m == "PUT" then QuestionUpdate(id)
      else if m == "DELETE" then QuestionDelete(id)
      else MethodNotAllowed
    else if m == "GET" && p == "/api/exams" then ExamsList
    else if m == "POST" && p == "/api/exams/auto" then ExamsCreateAuto
    else if m == "POST" && p == "/api/exams/manual" then ExamsCreateManual
    else if IdCapture("/api/exams/", p).Some? then
      var id := IntCast(IdCapture("/api/exams/", p).value);
      if m == "GET" then ExamShow(id)
      else if m == "PUT" then ExamUpdate(id)
      else if m == "DELETE" then ExamDelete(id)
      else MethodNotAllowed
    else NotFound(p)
  }

  /** The seven fixed method/path pairs. */
  predicate IsLiteralRoute(m: string, p: string) {
    || (m == "GET" && p == "/api/subjects")
    || (m == "POST" && p == "/api/subjects")
    || (m == "GET" && p == "/api/questions")
    || (m == "POST" && p == "/api/questions")
    || (m == "GET" && p == "/api/exams")
    || (m == "POST" && p == "/api/exams/auto")
    || (m == "POST" && p == "/api/exams/manual")
  }

  /** Each fixed pair reaches its handler. */
  lemma LiteralRoutes()
    ensures Dispatch(Some("GET"), "/api/subjects") == SubjectsList
    ensures Dispatch(Some("POST"), "/api/subjects") == SubjectsCreate
    ensures Dispatch(Some("GET"), "/api/questions") == QuestionsList
    ensures Dispatch(Some("POST"), "/api/questions") == QuestionsCreate
    ensures Dispatch(Some("GET"), "/api/exams") == ExamsList
    ensures Dispatch(Some("POST"), "/api/exams/auto") == ExamsCreateAuto
    ensures Dispatch(Some("POST"), "/api/exams/manual") == ExamsCreateManual
  {
    NoIdCapture("/api/questions/", "/api/exams");
    assert "/api/exams/auto"[..15] != "/api/questions/"[..15] by {
      assert "/api/exams/auto"[5] != "/api/questions/"[5];
    }
    assert "/api/exams/manual"[..15] != "/api/questions/" by {
      assert "/api/exams/manual"[5] != "/api/questions/"[5];
    }
  }

  /** A path shorter than the prefix has no capture. */
  lemma NoIdCapture(prefix: string, p: string)
    requires |p| < |prefix|
    ensures IdCapture(prefix, p).None?
  {
  }

  /** A path that is the prefix followed by a non-empty digit string, optionally followed by one
      line feed, is captured with exactly those digits. */
  lemma IdCaptureOf(prefix: string, ds: string, newline: bool)
    requires ds != [] && AllDigits(ds)
    ensures IdCapture(prefix, prefix + ds + (if newline then "\n" else "")) == Some(ds)
  {
    var p := prefix + ds + (if newline then "\n" else "");
    assert p[..|prefix|] == prefix;
    var rest := p[|prefix|..];
    assert rest == ds + (if newline then "\n" else "");
    if newline {
      assert rest[..|rest| - 1] == ds;
    } else {
      assert rest == ds && IsDigit(rest[|rest| - 1]);
    }
  }

  /** The router answers 404 exactly when no fixed pair matches and neither id pattern matches. */
  lemma NotFoundIff(requestMethod: Option<string>, p: string)
    ensures Dispatch(requestMethod, p).NotFound? <==>
              !IsLiteralRoute(requestMethod.GetOr("GET"), p)
              && IdCapture("/api/questions/", p).None? && IdCapture("/api/exams/", p).None?
  {
    var m := requestMethod.GetOr("GET");
    if IdCapture("/api/questions/", p).Some? {
      assert !(m == "GET" && p == "/api/exams") && !(m == "POST" && p == "/api/exams/auto") && !(m == "POST" && p == "/api/exams/manual") by {
        ExamPathsAreNotQuestionIds(p);
      }
    }
  }

  /** A captured path starts with the prefix. */
  lemma CaptureHasPrefix(prefix: string, p: string)
    ensures IdCapture(prefix, p).Some? ==> |p| > |prefix| && p[..|prefix|] == prefix
  {
  }

  /** The exam collection paths do not match the question id pattern. */
  lemma ExamPathsAreNotQuestionIds(p: string)
    requires IdCapture("/api/questions/", p).Some?
    ensures p != "/api/exams" && p != "/api/exams/auto" && p != "/api/exams/manual"
  {
    assert p[5] == 'q';
  }

  /** 405 is answered exactly for a method other than GET, PUT and DELETE on a path an id pattern
      matches (no fixed pair shares a path with an id pattern). */
  lemma MethodNotAllowedIff(requestMethod: Option<string>, p: string)
    ensures Dispatch(requestMethod, p) == MethodNotAllowed <==>
              (IdCapture("/api/questions/", p).Some? || IdCapture("/api/exams/", p).Some?)
              && requestMethod.GetOr("GET") !in {"GET", "PUT", "DELETE"}
  {
    var m := requestMethod.GetOr("GET");
    if IdCapture("/api/questions/", p).Some? {
      ExamPathsAreNotQuestionIds(p);
      assert p[5] == 'q';
    }
    if IdCapture("/api/exams/", p).Some? {
      assert p[5] == 'e' && p[10] == '/';
      assert p != "/api/subjects" && p != "/api/questions";
      assert p != "/api/exams";
      assert p != "/api/exams/auto" by { assert IsDigit(p[11]); }
      assert p != "/api/exams/manual" by { assert IsDigit(p[11]); }
    }
  }

  /** The path an id route is written with: the collection prefix, the decimal id, and optionally
      the one trailing line feed `$` lets through. */
  function IdPath(prefix: string, n: nat, newline: bool): string {
    prefix + DecimalString(n) + (if newline then "\n" else "")
  }

  /** An exam id path is no fixed route and no question id, and its capture is the decimal id. */
  lemma ExamIdPath(n: nat, newline: bool)
    ensures forall m :: !IsLiteralRoute(m, IdPath("/api/exams/", n, newline))
    ensures IdCapture("/api/questions/", IdPath("/api/exams/", n, newline)).None?
    ensures IdCapture("/api/exams/", IdPath("/api/exams/", n, newline)) == Some(DecimalString(n))
  {
    var ds := DecimalString(n);
    var p := IdPath("/api/exams/", n, newline);
    IdCaptureOf("/api/exams/", ds, newline);
    assert p[..11] == "/api/exams/" && p[11] == ds[0];
    DigitAfterExamsPrefix(p);
  }

  /** A path that continues `/api/exams/` with a digit is no fixed route and no question id. */
  lemma DigitAfterExamsPrefix(p: string)
    requires |p| >= 12 && p[..11] == "/api/exams/" && IsDigit(p[11])
    ensures forall m :: !IsLiteralRoute(m, p)
    ensures IdCapture("/api/questions/", p).None?
  {
    assert p[5] == 'e';
    assert p != "/api/exams/auto" by { assert !IsDigit("/api/exams/auto"[11]); }
    assert p != "/api/exams/manual" by { assert !IsDigit("/api/exams/manual"[11]); }
    assert p != "/api/subjects" by { assert "/api/subjects"[5] == 's'; }
    assert p != "/api/questions" by { assert "/api/questions"[5] == 'q'; }
    assert p != "/api/exams" by { assert |"/api/exams"| == 10; }
    CaptureHasPrefix("/api/questions/", p);
    assert |p| < 15 || p[..15] != "/api/questions/" by {
      if |p| >= 15 { assert p[..15][5] == p[5]; }
    }
  }

  /** A question id path is no fixed route, and its capture is the decimal id. */
  lemma QuestionIdPath(n: nat, newline: bool)
    ensures forall m :: !IsLiteralRoute(m, IdPath("/api/questions/", n, newline))
    ensures IdCapture("/api/questions/", IdPath("/api/questions/", n, newline)) == Some(DecimalString(n))
  {
    var ds := DecimalString(n);
    var p := IdPath("/api/questions/", n, newline);
    IdCaptureOf("/api/questions/", ds, newline);
    assert p[5] == 'q' && p[15] == ds[0] && IsDigit(p[15]);
  }

  /** `/api/exams/{n}`: GET, PUT and DELETE reach show, update and delete with id `n` (for any `n`
      a 64-bit PHP integer holds); any other method is answered with 405. */
  lemma ExamIdRoutes(n: nat, newline: bool, m: string)
    requires n <= PhpIntMax
    ensures m == "GET" ==> Dispatch(Some(m), IdPath("/api/exams/", n, newline)) == ExamShow(n)
    ensures m == "PUT" ==> Dispatch(Some(m), IdPath("/api/exams/", n, newline)) == ExamUpdate(n)
    ensures m == "DELETE" ==> Dispatch(Some(m), IdPath("/api/exams/", n, newline)) == ExamDelete(n)
    ensures m !in {"GET", "PUT", "DELETE"} ==> Dispatch(Some(m), IdPath("/api/exams/", n, newline)) == MethodNotAllowed
  {
    ExamIdPath(n, newline);
    DigitsValueOfDecimalString(n);
    assert !IsLiteralRoute(m, IdPath("/api/exams/", n, newline));
  }

  /** `/api/questions/{n}`: the same table for the question handlers. */
  lemma QuestionIdRoutes(n: nat, newline: bool, m: string)
    requires n <= PhpIntMax
    ensures m == "GET" ==> Dispatch(Some(m), IdPath("/api/questions/", n, newline)) == QuestionShow(n)
    ensures m == "PUT" ==> Dispatch(Some(m), IdPath("/api/questions/", n, newline)) == QuestionUpdate(n)
    ensures m == "DELETE" ==> Dispatch(Some(m), IdPath("/api/questions/", n, newline)) == QuestionDelete(n)
    ensures m !in {"GET", "PUT", "DELETE"} ==> Dispatch(Some(m), IdPath("/api/questions/", n, newline)) == MethodNotAllowed
  {
    QuestionIdPath(n, newline);
    DigitsValueOfDecimalString(n);
    assert !IsLiteralRoute(m, IdPath("/api/questions/", n, newline));
  }

  /** Literal routes come first: `/api/exams/auto` is not an id, so under GET (or any method but
      POST) it reaches no handler and is answered with 404, path echoed. */
  lemma ExamsAutoOnlyUnderPost(m: string)
    requires m != "POST"
    ensures Dispatch(Some(m), "/api/exams/auto") == NotFound("/api/exams/auto")
    ensures Dispatch(Some(m), "/api/exams/manual") == NotFound("/api/exams/manual")
  {
    NotFoundIff(Some(m), "/api/exams/auto");
    NotFoundIff(Some(m), "/api/exams/manual");
    assert !IsDigit("/api/exams/auto"[11]);
    assert !IsDigit("/api/exams/manual"[11]);
    assert "/api/exams/auto"[5] != 'q' && "/api/exams/manual"[5] != 'q';
  }

  /** Id 0 matches the pattern: the request is routed to the exam handler with id 0 (which
      answers 400, ids being positive). */
  lemma ExamZeroIsRouted()
    ensures Dispatch(Some("GET"), "/api/exams/0") == ExamShow(0)
  {
    ExamIdRoutes(0, false, "GET");
    assert IdPath("/api/exams/", 0, false) == "/api/exams/0";
  }

  /** Leading zeros are read as decimal: `007` is 7. */
  lemma LeadingZerosIgnored()
    ensures Dispatch(Some("DELETE"), "/api/exams/007") == ExamDelete(7)
  {
    IdCaptureOf("/api/exams/", "007", false);
    assert "/api/exams/" + "007" + "" == "/api/exams/007";
    assert "007"[..2] == "00" && "00"[..1] == "0" && "0"[..0] == "";
    assert DigitsValue("007") == 7;
    NoIdCapture("/api/questions/", "/api/exams/007");
  }
}
