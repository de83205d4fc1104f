/** The question service's request logic: title normalisation, validation
    and normalisation of a question's fields, the image-list bookkeeping of
    create and update, and the deterministic choice of a room's question.
    `JSON.parse`, image uploads and database queries are parameters. */
module QuestionController {
  import opened Wrappers
  import opened Text
  import opened Json

  // ---------------------------------------------------------------------
  // normalizeTitle

  /** `replace(/\s+/g, ' ')`: every maximal run of whitespace becomes one
      space. */
  function CollapseSpaces(s: string): (r: string)
    ensures Collapsed(r)
    ensures s == [] <==> r == []
    ensures s != [] ==> (r[0] == ' ' <==> IsSpace(s[0]))
    ensures NonSpace(r) == NonSpace(s)
    ensures LowerFixed(s) ==> LowerFixed(r)
    decreases |s|
  {
    if s == [] then []
    else if IsSpace(s[0]) then
      var rest := TrimStart(s);
      var t := CollapseSpaces(rest);
      CollapseRunStep(s, rest, t);
      " " + t
    else
      var t := CollapseSpaces(s[1..]);
      CollapseCharStep(s, t);
      [s[0]] + t
  }

  /** What `CollapseSpaces` promises of a result `r` for the input `s`. */
  predicate CollapseFacts(s: string, r: string) {
    && Collapsed(r)
    && (s == [] <==> r == [])
    && (s != [] ==> (r[0] == ' ' <==> IsSpace(s[0])))
    && NonSpace(r) == NonSpace(s)
    && (LowerFixed(s) ==> LowerFixed(r))
  }

  /** A leading whitespace run becomes one space in front of the collapsed
      rest. */
  lemma CollapseRunStep(s: string, rest: string, t: string)
    requires s != [] && IsSpace(s[0]) && rest == TrimStart(s)
    requires CollapseFacts(rest, t)
    ensures CollapseFacts(s, " " + t)
  {
    var r := " " + t;
    assert Collapsed(r) by {
      assert t == [] || t[0] != ' ';
      CollapsedCons(' ', t);
    }
    assert NonSpace(r) == NonSpace(s) by {
      NonSpaceOfTrimStart(s);
      NonSpaceCons(' ', t);
    }
    assert LowerFixed(s) ==> LowerFixed(r) by {
      if LowerFixed(s) {
        LowerFixedSuffix(s, |s| - |rest|);
        LowerFixedCons(' ', t);
      }
    }
  }

  lemma LowerFixedCons(c: char, t: string)
    requires LowerChar(c) == c && LowerFixed(t)
    ensures LowerFixed([c] + t)
  {
    assert forall i | 1 <= i < |t| + 1 :: ([c] + t)[i] == t[i - 1];
  }

  /** A leading non-space character is kept in front of the collapsed
      rest. */
  lemma CollapseCharStep(s: string, t: string)
    requires s != [] && !IsSpace(s[0])
    requires CollapseFacts(s[1..], t)
    ensures CollapseFacts(s, [s[0]] + t)
  {
    CollapsedCons(s[0], t);
    assert LowerFixed(s) ==> LowerFixed(s[1..]) by {
      if LowerFixed(s) { LowerFixedSuffix(s, 1); }
    }
    assert NonSpace(s) == [s[0]] + NonSpace(s[1..]);
    assert NonSpace([s[0]] + t) == [s[0]] + NonSpace(t) by { assert ([s[0]] + t)[1..] == t; }
  }

  lemma LowerFixedSuffix(s: string, k: nat)
    requires k <= |s| && LowerFixed(s)
    ensures LowerFixed(s[k..])
  {
    assert forall i | 0 <= i < |s| - k :: s[k..][i] == s[k + i];
  }

  /** A character in front of a collapsed string keeps it collapsed, unless
      it is whitespace other than a space or a second space in a row. */
  lemma CollapsedCons(c: char, t: string)
    requires Collapsed(t)
    requires !IsSpace(c) || (c == ' ' && (t == [] || t[0] != ' '))
    ensures Collapsed([c] + t)
  {
    var s := [c] + t;
    forall i | 0 <= i < |s| ensures !IsSpace(s[i]) || s[i] == ' ' {
      if i > 0 { assert s[i] == t[i - 1]; }
    }
    forall i, j | 0 <= i && j == i + 1 < |s| ensures !(s[i] == ' ' && s[j] == ' ') {
      if i > 0 { assert s[i] == t[i - 1] && s[j] == t[i]; }
    }
  }

  /** Every character is its own lower case. */
  predicate LowerFixed(s: string) {
    forall i | 0 <= i < |s| :: LowerChar(s[i]) == s[i]
  }

  /** The shape of a normalised title: lower case, no whitespace other than
      single spaces, none at either end. */
  predicate NormalTitle(s: string) {
    && LowerFixed(s)
    && Collapsed(s)
    && Trimmed(s)
  }

  /** Only plain spaces, never two in a row. */
  predicate Collapsed(s: string) {
    && (forall i | 0 <= i < |s| :: !IsSpace(s[i]) || s[i] == ' ')
    && (forall i, j | 0 <= i && j == i + 1 < |s| :: !(s[i] == ' ' && s[j] == ' '))
  }

  /** `normalizeTitle`: lower-cases, collapses whitespace runs to one space
      and trims. The result has the normal shape and keeps the input's
      non-whitespace characters in order, lower-cased. */
  function NormalizeTitle(title: string): (r: string)
    ensures NormalTitle(r)
    ensures NonSpace(r) == NonSpace(ToLower(title))
  {
    NormalizeShape(title);
    Trim(CollapseSpaces(ToLower(title)))
  }

  lemma NormalizeShape(title: string)
    ensures NormalTitle(Trim(CollapseSpaces(ToLower(title))))
    ensures NonSpace(Trim(CollapseSpaces(ToLower(title)))) == NonSpace(ToLower(title))
  {
    var lowered := ToLower(title);
    LowerFixedToLower(title);
    var collapsed := CollapseSpaces(lowered);
    TrimOfCollapsed(collapsed);
    NonSpaceOfTrim(collapsed);
  }

  lemma TrimOfCollapsed(s: string)
    requires Collapsed(s) && LowerFixed(s)
    ensures NormalTitle(Trim(s))
  {
    var u := TrimStart(s);
    SliceKeepsShape(s, |s| - |u|, |s|);
    SliceKeepsShape(u, 0, |TrimEnd(u)|);
  }

  lemma LowerFixedToLower(s: string)
    ensures LowerFixed(ToLower(s))
  {
    var t := ToLower(s);
    forall i | 0 <= i < |t| ensures LowerChar(t[i]) == t[i] {
      assert t[i] == LowerChar(s[i]);
    }
  }

  /** A title already in normal shape is its own normalisation. */
  lemma NormalizeTitleFixesNormal(title: string)
    requires NormalTitle(title)
    ensures NormalizeTitle(title) == title
  {
    assert ToLower(title) == title;
    CollapseOfCollapsed(title);
    TrimOfTrimmed(title);
  }

  lemma SliceKeepsShape(s: string, a: nat, b: nat)
    requires a <= b <= |s|
    requires Collapsed(s) && LowerFixed(s)
    ensures Collapsed(s[a..b]) && LowerFixed(s[a..b])
  {
    assert forall i | 0 <= i < b - a :: s[a..b][i] == s[a + i];
  }

  lemma {:induction false} CollapseOfCollapsed(s: string)
    requires Collapsed(s)
    ensures CollapseSpaces(s) == s
    decreases |s|
  {
    if s != [] {
      assert Collapsed(s[1..]);
      if IsSpace(s[0]) {
        assert TrimStart(s) == s[1..] by {
          assert s[1..] == [] || !IsSpace(s[1]);
          assert TrimStart(s) == TrimStart(s[1..]);
        }
      }
      CollapseOfCollapsed(s[1..]);
    }
  }

  /** A non-empty run of whitespace collapses to exactly one space. */
  lemma CollapseRun(w: string)
    requires w != [] && forall i | 0 <= i < |w| :: IsSpace(w[i])
    ensures CollapseSpaces(w) == " "
  {
    TrimStartOfSpaces(w);
  }

  lemma TrimStartOfSpaces(w: string)
    requires forall i | 0 <= i < |w| :: IsSpace(w[i])
    ensures TrimStart(w) == []
  {
  }

  /** Collapsing works piece by piece when no whitespace run straddles the
      boundary between the pieces. */
  lemma {:induction false} CollapseAppend(p: string, q: string)
    requires p == [] || !IsSpace(p[|p| - 1]) || q == [] || !IsSpace(q[0])
    ensures CollapseSpaces(p + q) == CollapseSpaces(p) + CollapseSpaces(q)
    decreases |p|, 1
  {
    if p == [] {
      assert p + q == q;
    } else if IsSpace(p[0]) {
      CollapseAppendRun(p, q);
    } else {
      CollapseAppendWord(p, q);
    }
  }

  /** `CollapseAppend` when `p` starts with a non-space character. */
  lemma {:induction false} CollapseAppendWord(p: string, q: string)
    requires p != [] && !IsSpace(p[0])
    requires !IsSpace(p[|p| - 1]) || q == [] || !IsSpace(q[0])
    ensures CollapseSpaces(p + q) == CollapseSpaces(p) + CollapseSpaces(q)
    decreases |p|, 0
  {
    var p' := p[1..];
    var cpq, cp', cq := CollapseSpaces(p' + q), CollapseSpaces(p'), CollapseSpaces(q);
    assert CollapseSpaces(p + q) == [p[0]] + cpq by {
      ConsTail(p, q);
      CollapseUnfold(p + q);
    }
    assert CollapseSpaces(p) == [p[0]] + cp' by {
      CollapseUnfold(p);
    }
    assert cpq == cp' + cq by {
      assert p' == [] || p'[|p'| - 1] == p[|p| - 1];
      CollapseAppend(p', q);
    }
    Regroup([p[0]], CollapseSpaces(p + q), cpq, cp', cq, CollapseSpaces(p));
  }

  /** `CollapseAppend` when `p` starts with whitespace. */
  lemma {:induction false} CollapseAppendRun(p: string, q: string)
    requires p != [] && IsSpace(p[0])
    requires !IsSpace(p[|p| - 1]) || q == [] || !IsSpace(q[0])
    ensures CollapseSpaces(p + q) == CollapseSpaces(p) + CollapseSpaces(q)
    decreases |p|, 0
  {
    var t := TrimStart(p);
    TrimStartShorter(p);
    assert CollapseSpaces(p + q) == " " + CollapseSpaces(t + q) by {
      assert (p + q)[0] == p[0];
      TrimStartAppend(p, q);
      CollapseUnfold(p + q);
    }
    assert CollapseSpaces(p) == " " + CollapseSpaces(t) by {
      CollapseUnfold(p);
    }
    CollapseAppend(t, q);
    Regroup(" ", CollapseSpaces(p + q), CollapseSpaces(t + q), CollapseSpaces(t), CollapseSpaces(q), CollapseSpaces(p));
  }

  /** One step of `CollapseSpaces`. */
  lemma CollapseUnfold(s: string)
    requires s != []
    ensures IsSpace(s[0]) ==> CollapseSpaces(s) == " " + CollapseSpaces(TrimStart(s))
    ensures !IsSpace(s[0]) ==> CollapseSpaces(s) == [s[0]] + CollapseSpaces(s[1..])
  {
  }

  /** Dropping a leading space shortens the text and keeps its last
      character. */
  lemma TrimStartShorter(p: string)
    requires p != [] && IsSpace(p[0])
    ensures |TrimStart(p)| < |p|
    ensures TrimStart(p) != [] ==> TrimStart(p)[|TrimStart(p)| - 1] == p[|p| - 1]
  {
  }

  /** Collapsing keeps a non-space last character last. */
  lemma CollapseKeepsLast(s: string)
    requires s != [] && !IsSpace(s[|s| - 1])
    ensures var r := CollapseSpaces(s); r != [] && r[|r| - 1] == s[|s| - 1]
  {
    var init := s[..|s| - 1];
    var c := [s[|s| - 1]];
    assert s == init + c;
    CollapseAppend(init, c);
    CollapseOfCollapsed(c);
  }

  /** `normalizeTitle` joins the words on either side of a whitespace run
      with exactly one space: together with the fixed point below, this
      pins the result down word by word. */
  lemma {:induction false} NormalizeTitleJoinsWords(p: string, w: string, q: string)
    requires p != [] && !IsSpace(p[|p| - 1])
    requires w != [] && forall i | 0 <= i < |w| :: IsSpace(w[i])
    requires q != [] && !IsSpace(q[0])
    ensures NormalizeTitle(p + w + q) == NormalizeTitle(p) + " " + NormalizeTitle(q)
  {
    var lp, lw, lq := ToLower(p), ToLower(w), ToLower(q);
    var cp, cq := CollapseSpaces(lp), CollapseSpaces(lq);
    assert CollapseSpaces(ToLower(p + w + q)) == cp + " " + cq by {
      CollapseWordsApart(p, w, q);
    }
    assert cp != [] && !IsSpace(cp[|cp| - 1]) by {
      CollapseKeepsLast(lp);
    }
    assert cq != [] && !IsSpace(cq[0]);
    TrimAroundSpace(cp, cq);
  }

  /** The collapsing step of `NormalizeTitleJoinsWords`. */
  lemma {:induction false} CollapseWordsApart(p: string, w: string, q: string)
    requires p != [] && !IsSpace(p[|p| - 1])
    requires w != [] && forall i | 0 <= i < |w| :: IsSpace(w[i])
    requires q != [] && !IsSpace(q[0])
    ensures CollapseSpaces(ToLower(p + w + q))
      == CollapseSpaces(ToLower(p)) + " " + CollapseSpaces(ToLower(q))
  {
    var lp, lw, lq := ToLower(p), ToLower(w), ToLower(q);
    assert ToLower(p + w + q) == lp + (lw + lq);
    assert !IsSpace(lp[|lp| - 1]) && !IsSpace(lq[0]);
    assert forall i | 0 <= i < |lw| :: IsSpace(lw[i]) by {
      forall i | 0 <= i < |lw| ensures IsSpace(lw[i]) {
        assert lw[i] == LowerChar(w[i]);
      }
    }
    var cp, cq := CollapseSpaces(lp), CollapseSpaces(lq);
    assert CollapseSpaces(lp + (lw + lq)) == cp + CollapseSpaces(lw + lq) by {
      CollapseAppend(lp, lw + lq);
    }
    assert CollapseSpaces(lw + lq) == " " + cq by {
      CollapseAppend(lw, lq);
      CollapseRun(lw);
    }
    Regroup(cp, CollapseSpaces(lp + (lw + lq)), CollapseSpaces(lw + lq), " ", cq, cp + " ");
  }

  /** Normalising a title twice gives the same as normalising it once. */
  lemma NormalizeTitleIdempotent(title: string)
    ensures NormalizeTitle(NormalizeTitle(title)) == NormalizeTitle(title)
  {
    NormalizeTitleFixesNormal(NormalizeTitle(title));
  }

  // ---------------------------------------------------------------------
  // validateQuestionFields

  /** The request fields a question is validated from; `None` is a field
      the request leaves undefined. */
  datatype QuestionFields = QuestionFields(
    title: Option<string>,
    description: Option<string>,
    topic: Option<Value>,
    difficulty: Option<string>,
    examples: Option<string>,
    leetcodeLink: Option<string>,
    defaultCode: Option<Value>,
    testCases: Option<Value>)

  /** The normalised fields of a valid question. */
  datatype QuestionData = QuestionData(
    title: string,
    description: string,
    topic: seq<string>,
    difficulty: string,
    examples: string,
    leetcodeLink: string,
    defaultCode: Value,
    testCases: Value)

  /** `{valid: true, data}`, `{valid: false, message}`, or an exception
      thrown by the validator (a `.trim()` on an undefined field, a property
      read on a `null` test case, a `.trim()` on a topic that is not a
      string). */
  datatype Validation = Valid(data: QuestionData) | Invalid(message: string) | Threw

  const DefaultCodeNotJson := "Default code must be a valid JSON string"
  const DefaultCodeMissing := "Default code for all languages (python, javascript, java) must be provided"
  const TestCasesNotJson := "Test cases must be a valid JSON string"
  const TestCasesNotArray := "Test cases must be an array"
  const TestCaseIncomplete := "Each test case must have input and expected_output"
  const TopicNotStrings := "Topic must be an array of strings or a single string"
  const FieldsRequired := "All fields are required"

  /** A field after the `typeof x === 'string'` / `JSON.parse` step. */
  datatype Parsed = ParseFailed | Parsed(value: Option<Value>)

  function ParseIfString(v: Option<Value>, parse: string -> Option<Value>): (r: Parsed)
    ensures !(v.Some? && v.value.Str?) ==> r == Parsed(v)
    ensures v.Some? && v.value.Str? ==> (r.ParseFailed? <==> parse(v.value.s).None?)
    ensures v.Some? && v.value.Str? && r.Parsed? ==> r.value == parse(v.value.s)
  {
    if v.Some? && v.value.Str? then
      match parse(v.value.s)
      case None => ParseFailed
      case Some(x) => Parsed(Some(x))
    else Parsed(v)
  }

  /** The default code names truthy code for all three languages. */
  predicate HasAllDefaultCode(dc: Option<Value>) {
    && TruthyOpt(dc)
    && TruthyOpt(Get(dc.value, "python"))
    && TruthyOpt(Get(dc.value, "javascript"))
    && TruthyOpt(Get(dc.value, "java"))
  }

  /** What `test_cases.some(test => !test.input || !test.expected_output)`
      finds, scanning in order: an incomplete entry, a `null` entry (whose
      property read throws), or neither. */
  datatype Scan = AllComplete | Incomplete | NullEntry

  predicate CompleteTestCase(t: Value) {
    TruthyOpt(Get(t, "input")) && TruthyOpt(Get(t, "expected_output"))
  }

  function ScanTestCases(items: seq<Value>): (r: Scan)
    ensures r.AllComplete? <==> forall i | 0 <= i < |items| :: items[i] != Null && CompleteTestCase(items[i])
    decreases |items|
  {
    if items == [] then AllComplete
    else if items[0].Null? then NullEntry
    else if !CompleteTestCase(items[0]) then Incomplete
    else
      var rest := ScanTestCases(items[1..]);
      assert forall i | 1 <= i < |items| :: items[i] == items[1..][i - 1];
      rest
  }

  /** The topic after normalisation, or why there is none. */
  datatype TopicOutcome = Topics(list: seq<string>) | NotStrings | TopicThrew

  /** The strings of `xs`, trimmed, with the empty ones dropped. */
  function TrimNonEmpty(xs: seq<string>): (r: seq<string>)
    ensures forall i | 0 <= i < |r| :: r[i] != "" && Trimmed(r[i])
    ensures |r| <= |xs|
    decreases |xs|
  {
    if xs == [] then []
    else (if Trim(xs[0]) == "" then [] else [Trim(xs[0])]) + TrimNonEmpty(xs[1..])
  }

  /** `t !== ''`. */
  predicate NonEmptyText(t: string) {
    t != ""
  }

  /** `TrimNonEmpty` is `map(t => t.trim())` followed by
      `filter(t => t !== '')`: every entry that is not blank is kept,
      trimmed and in order, and nothing else. */
  lemma {:induction false} TrimNonEmptyIsFilter(xs: seq<string>)
    ensures TrimNonEmpty(xs) == Filter(TrimAll(xs), NonEmptyText)
    decreases |xs|
  {
    if xs != [] {
      var ts := TrimAll(xs);
      assert ts[0] == Trim(xs[0]);
      assert ts[1..] == TrimAll(xs[1..]);
      TrimNonEmptyIsFilter(xs[1..]);
    }
  }

  predicate AllStrings(items: seq<Value>) {
    forall i | 0 <= i < |items| :: items[i].Str?
  }

  function Strings(items: seq<Value>): (r: seq<string>)
    requires AllStrings(items)
    ensures |r| == |items| && forall i | 0 <= i < |items| :: r[i] == items[i].s
  {
    seq(|items|, i requires 0 <= i < |items| => items[i].s)
  }

  /** An array of strings is trimmed element-wise with empty entries
      dropped; a string becomes a trimmed singleton or the empty list;
      anything else is rejected. */
  function NormalizeTopic(topic: Option<Value>): (r: TopicOutcome)
    ensures topic.Some? && topic.value.Array? && AllStrings(topic.value.items) ==>
      r == Topics(Filter(TrimAll(Strings(topic.value.items)), NonEmptyText))
    ensures topic.Some? && topic.value.Array? && !AllStrings(topic.value.items) ==> r.TopicThrew?
    ensures topic.Some? && topic.value.Str? ==>
      r == Topics(if Trim(topic.value.s) == "" then [] else [Trim(topic.value.s)])
    ensures !(topic.Some? && (topic.value.Array? || topic.value.Str?)) ==> r.NotStrings?
  {
    if topic.Some? && topic.value.Array? then
      if AllStrings(topic.value.items) then
        TrimNonEmptyIsFilter(Strings(topic.value.items));
        Topics(TrimNonEmpty(Strings(topic.value.items)))
      else TopicThrew
    else if topic.Some? && topic.value.Str? then
      var t := Trim(topic.value.s);
      Topics(if t == "" then [] else [t])
    else NotStrings
  }

  /** The four fields every question must carry as strings; a missing one
      makes the validator throw on its `.trim()`. */
  predicate HasStrings(f: QuestionFields) {
    f.title.Some? && f.description.Some? && f.examples.Some? && f.difficulty.Some?
  }

  /** The data a valid question is stored with. */
  function Normalized(f: QuestionFields, topic: seq<string>, dc: Value, tc: Value): QuestionData
    requires HasStrings(f)
  {
    QuestionData(
      Trim(f.title.value), Trim(f.description.value), topic, Trim(f.difficulty.value), f.examples.value,
      if f.leetcodeLink.Some? && f.leetcodeLink.value != "" then Trim(f.leetcodeLink.value) else "",
      dc, tc)
  }

  /** `validateQuestionFields`, check by check in the source's order: the
      trims, the default code, the test cases, the topic, then the required
      fields. A valid result carries the trimmed title, description and
      difficulty, the examples as given (their trim is discarded), and
      default code for all three languages and complete test cases. */
  function ValidateQuestionFields(f: QuestionFields, parse: string -> Option<Value>): (r: Validation)
    ensures !HasStrings(f) ==> r.Threw?
    ensures r.Valid? ==>
      && HasStrings(f)
      && r.data.title == Trim(f.title.value) && r.data.title != ""
      && r.data.description == Trim(f.description.value) && r.data.description != ""
      && r.data.difficulty == Trim(f.difficulty.value) && r.data.difficulty != ""
      && r.data.examples == f.examples.value
      && r.data.topic != [] && NormalizeTopic(f.topic) == Topics(r.data.topic)
      && HasAllDefaultCode(Some(r.data.defaultCode))
      && r.data.testCases.Array?
      && forall i | 0 <= i < |r.data.testCases.items| ::
           r.data.testCases.items[i] != Null && CompleteTestCase(r.data.testCases.items[i])
  {
    if !HasStrings(f) then Threw
    else
      match ParseIfString(f.defaultCode, parse)
      case ParseFailed => Invalid(DefaultCodeNotJson)
      case Parsed(dc) =>
        if !HasAllDefaultCode(dc) then Invalid(DefaultCodeMissing)
        else CheckTestCases(f, dc.value, ParseIfString(f.testCases, parse))
  }

  /** The test-case checks and everything after them. */
  function CheckTestCases(f: QuestionFields, dc: Value, tc: Parsed): (r: Validation)
    requires HasStrings(f)
    ensures r.Valid? <==> TestCasesAcceptable(tc) && RestAcceptable(f)
    ensures r.Valid? ==> r.data == Normalized(f, NormalizeTopic(f.topic).list, dc, tc.value.value)
    ensures tc.ParseFailed? ==> r == Invalid(TestCasesNotJson)
    ensures tc.Parsed? && TruthyOpt(tc.value) && !tc.value.value.Array? ==> r == Invalid(TestCasesNotArray)
  {
    match tc
    case ParseFailed => Invalid(TestCasesNotJson)
    case Parsed(t) =>
      // both test-case checks start with `test_cases &&`
      if !TruthyOpt(t) then
        assert !TestCasesAcceptable(tc);
        CheckTopic(f, dc, t)
      else if !t.value.Array? then Invalid(TestCasesNotArray)
      else
        ScanAcceptable(tc);
        match ScanTestCases(t.value.items)
        case NullEntry => Threw
        case Incomplete => Invalid(TestCaseIncomplete)
        case AllComplete => CheckTopic(f, dc, t)
  }

  lemma ScanAcceptable(tc: Parsed)
    requires tc.Parsed? && tc.value.Some? && tc.value.value.Array?
    ensures TestCasesAcceptable(tc) <==> ScanTestCases(tc.value.value.items).AllComplete?
  {
  }

  /** The topic normalisation and the final required-fields check. */
  function CheckTopic(f: QuestionFields, dc: Value, tc: Option<Value>): (r: Validation)
    requires HasStrings(f)
    ensures r.Valid? <==> RestAcceptable(f) && TruthyOpt(tc)
    ensures r.Valid? ==> r.data == Normalized(f, NormalizeTopic(f.topic).list, dc, tc.value)
    ensures NormalizeTopic(f.topic) == Topics([]) ==> r == Invalid(FieldsRequired)
  {
    match NormalizeTopic(f.topic)
    case TopicThrew => Threw
    case NotStrings => Invalid(TopicNotStrings)
    case Topics(topic) =>
      var data := Normalized(f, topic, dc, if tc.Some? then tc.value else Null);
      if data.title == "" || data.description == "" || topic == [] || data.difficulty == "" || !TruthyOpt(tc) then
        Invalid(FieldsRequired)
      else
        Valid(data)
  }

  /** The conditions after the test cases: non-blank strings and a
      non-empty topic list. */
  predicate RestAcceptable(f: QuestionFields)
    requires HasStrings(f)
  {
    && Trim(f.title.value) != "" && Trim(f.description.value) != "" && Trim(f.difficulty.value) != ""
    && NormalizeTopic(f.topic).Topics? && NormalizeTopic(f.topic).list != []
  }

  predicate DefaultCodeAcceptable(dc: Parsed) {
    dc.Parsed? && HasAllDefaultCode(dc.value)
  }

  /** A present array of test cases, each a non-null object with a
      non-empty input and expected output. */
  predicate TestCasesAcceptable(tc: Parsed) {
    && tc.Parsed? && tc.value.Some? && tc.value.value.Array?
    && forall i | 0 <= i < |tc.value.value.items| ::
         tc.value.value.items[i] != Null && CompleteTestCase(tc.value.value.items[i])
  }

  /** The conditions a request must meet to be accepted, stated without
      regard to the order the validator checks them in. */
  predicate Acceptable(f: QuestionFields, parse: string -> Option<Value>) {
    && HasStrings(f)
    && DefaultCodeAcceptable(ParseIfString(f.defaultCode, parse))
    && TestCasesAcceptable(ParseIfString(f.testCases, parse))
    && RestAcceptable(f)
  }

  /** A question is valid exactly when it meets every acceptance condition. */
  lemma ValidIffAcceptable(f: QuestionFields, parse: string -> Option<Value>)
    ensures ValidateQuestionFields(f, parse).Valid? <==> Acceptable(f, parse)
  {
    if HasStrings(f) {
      var dc := ParseIfString(f.defaultCode, parse);
      if dc.Parsed? && HasAllDefaultCode(dc.value) {
        var tc := ParseIfString(f.testCases, parse);
        assert ValidateQuestionFields(f, parse) == CheckTestCases(f, dc.value.value, tc);
      }
    }
  }

  /** Default code whose `python`, `javascript` or `java` entry is missing or
      empty is rejected with the default-code message. */
  lemma MissingDefaultCodeRejected(f: QuestionFields, parse: string -> Option<Value>)
    requires HasStrings(f)
    requires ParseIfString(f.defaultCode, parse).Parsed?
    requires !HasAllDefaultCode(ParseIfString(f.defaultCode, parse).value)
    ensures ValidateQuestionFields(f, parse) == Invalid(DefaultCodeMissing)
  {
  }

  /** Test cases that parse to something truthy but not an array are
      rejected with the array message. */
  lemma NonArrayTestCasesRejected(f: QuestionFields, parse: string -> Option<Value>)
    requires HasStrings(f)
    requires ParseIfString(f.defaultCode, parse).Parsed?
    requires HasAllDefaultCode(ParseIfString(f.defaultCode, parse).value)
    requires var tc := ParseIfString(f.testCases, parse);
      tc.Parsed? && TruthyOpt(tc.value) && !tc.value.value.Array?
    ensures ValidateQuestionFields(f, parse) == Invalid(TestCasesNotArray)
  {
  }

  /** Topics that normalise to the empty list fail with "All fields are
      required" once every earlier check has passed. */
  lemma EmptyTopicRejected(f: QuestionFields, parse: string -> Option<Value>)
    requires HasStrings(f)
    requires ParseIfString(f.defaultCode, parse).Parsed?
    requires HasAllDefaultCode(ParseIfString(f.defaultCode, parse).value)
    requires var tc := ParseIfString(f.testCases, parse);
      tc.Parsed? && TruthyOpt(tc.value) && tc.value.value.Array? && ScanTestCases(tc.value.value.items).AllComplete?
    requires NormalizeTopic(f.topic) == Topics([])
    ensures ValidateQuestionFields(f, parse) == Invalid(FieldsRequired)
  {
  }

  // ---------------------------------------------------------------------
  // images

  /** A multipart form field: absent, sent once, or sent several times. */
  datatype FormField = Absent | One(s: string) | Many(xs: seq<string>)

  /** `images ? (Array.isArray(images) ? images : [images]) : []`. */
  function ImageUrls(images: FormField): (r: seq<string>)
    ensures images.Absent? ==> r == []
    ensures images.One? ==> r == (if images.s == "" then [] else [images.s])
    ensures images.Many? ==> r == images.xs
  {
    match images
    case Absent => []
    case One(s) => if s == "" then [] else [s]
    case Many(xs) => xs
  }

  /** The elements of `xs` that satisfy `keep`, in order. */
  function Filter<T>(xs: seq<T>, keep: T -> bool): (r: seq<T>)
    ensures forall i | 0 <= i < |r| :: keep(r[i])
    ensures forall x | x in r :: x in xs
    ensures forall x | x in xs && keep(x) :: x in r
    ensures |r| <= |xs|
    decreases |xs|
  {
    if xs == [] then []
    else (if keep(xs[0]) then [xs[0]] else []) + Filter(xs[1..], keep)
  }

  /** Filtering distributes over concatenation. */
  lemma {:induction false} FilterAppend<T>(a: seq<T>, b: seq<T>, keep: T -> bool)
    ensures Filter(a + b, keep) == Filter(a, keep) + Filter(b, keep)
    decreases |a|
  {
    if a != [] {
      var h := if keep(a[0]) then [a[0]] else [];
      var ab, a'b, a', fb := Filter(a + b, keep), Filter(a[1..] + b, keep), Filter(a[1..], keep), Filter(b, keep);
      assert ab == h + a'b by {
        ConsTail(a, b);
      }
      assert a'b == a' + fb by {
        FilterAppend(a[1..], b, keep);
      }
      assert Filter(a, keep) == h + a';
      Regroup(h, ab, a'b, a', fb, Filter(a, keep));
    } else {
      assert a + b == b;
    }
  }

  /** `url.trim() !== ''`. */
  predicate NotBlank(url: string) {
    Trim(url) != ""
  }

  /** The strings of `xs` that are not blank, in order. */
  function NonBlank(xs: seq<string>): (r: seq<string>)
    ensures forall i | 0 <= i < |r| :: Trim(r[i]) != ""
    ensures forall x | x in r :: x in xs
    ensures forall x | x in xs && Trim(x) != "" :: x in r
  {
    var r := Filter(xs, NotBlank);
    assert forall i | 0 <= i < |r| :: NotBlank(r[i]);
    r
  }

  lemma NonBlankAppend(a: seq<string>, b: seq<string>)
    ensures NonBlank(a + b) == NonBlank(a) + NonBlank(b)
  {
    FilterAppend(a, b, NotBlank);
  }

  /** The URLs the uploads produce, one per file, in order. */
  function Uploaded<F>(files: seq<F>, upload: F -> string): (r: seq<string>)
    ensures |r| == |files| && forall i | 0 <= i < |files| :: r[i] == upload(files[i])
  {
    seq(|files|, i requires 0 <= i < |files| => upload(files[i]))
  }

  /** `handleImages`: whichever branch is taken, the result is the supplied
      URLs followed by the uploaded ones, each in input order, with blank
      strings dropped. */
  function HandleImages<F>(images: seq<string>, files: seq<F>, upload: F -> string): (r: seq<string>)
    ensures r == NonBlank(images) + NonBlank(Uploaded(files, upload))
    ensures forall i | 0 <= i < |r| :: Trim(r[i]) != ""
  {
    var uploaded := Uploaded(files, upload);
    var all :=
      if |files| == 0 then (if |images| > 0 then images else [])
      else if |images| == 0 then uploaded
      else images + uploaded;
    assert all == images + uploaded by {
      assert |files| == 0 ==> uploaded == [];
      assert |images| == 0 ==> images == [];
    }
    NonBlankAppend(images, uploaded);
    NonBlank(all)
  }

  const CloudStorageHost := "storage.googleapis.com"

  /** `deleteOldImages`: the old images, in order, that are not kept in the
      new list and whose URL contains the cloud-storage host; exactly these
      are deleted. */
  function ImagesToDelete(previous: seq<string>, kept: seq<string>): (r: seq<string>)
    ensures forall x :: x in r <==> (x in previous && x !in kept && Contains(x, CloudStorageHost))
    ensures |r| <= |previous|
    decreases |previous|
  {
    if previous == [] then []
    else
      var rest := ImagesToDelete(previous[1..], kept);
      assert forall x :: x in previous <==> x == previous[0] || x in previous[1..];
      (if previous[0] !in kept && Contains(previous[0], CloudStorageHost) then [previous[0]] else []) + rest
  }

  /** An old image that the new list does not keep and that lives in
      cloud storage. */
  function Stale(kept: seq<string>): string -> bool {
    x => x !in kept && Contains(x, CloudStorageHost)
  }

  /** The deletions are the old list filtered, in its order and with its
      repetitions: a URL listed twice is deleted twice. */
  lemma {:induction false} ImagesToDeleteIsFilter(previous: seq<string>, kept: seq<string>)
    ensures ImagesToDelete(previous, kept) == Filter(previous, Stale(kept))
    decreases |previous|
  {
    if previous != [] {
      ImagesToDeleteIsFilter(previous[1..], kept);
    }
  }

  // ---------------------------------------------------------------------
  // the room's question

  /** `char.charCodeAt(0)` for a code point from `Array.from(roomId)`: the
      code point itself inside the basic plane, otherwise its leading
      (high) UTF-16 surrogate. */
  function CharCode(c: char): (r: nat)
    ensures r < 0x10000
    ensures c as int < 0x10000 ==> r == c as int
    ensures c as int >= 0x10000 ==> 0xD800 <= r < 0xDC00
  {
    if c as int < 0x10000 then c as int else 0xD800 + (c as int - 0x10000) / 0x400
  }

  /** The sum of the char codes of the room id, accumulated left to right. */
  function RoomHash(roomId: string): nat
    decreases |roomId|
  {
    if roomId == [] then 0 else RoomHash(roomId[..|roomId| - 1]) + CharCode(roomId[|roomId| - 1])
  }

  lemma {:induction false} RoomHashAppend(a: string, b: string)
    ensures RoomHash(a + b) == RoomHash(a) + RoomHash(b)
    decreases |b|
  {
    if b == [] {
      assert a + b == a;
    } else {
      var ab := a + b;
      assert ab[..|ab| - 1] == a + b[..|b| - 1];
      assert ab[|ab| - 1] == b[|b| - 1];
      RoomHashAppend(a, b[..|b| - 1]);
    }
  }

  /** The hash does not depend on the order of the room id's pieces. */
  lemma RoomHashSwap(a: string, b: string)
    ensures RoomHash(a + b) == RoomHash(b + a)
  {
    RoomHashAppend(a, b);
    RoomHashAppend(b, a);
  }

  /** `getQuestionByTopicAndDifficulty` after the count: no matching
      question is a 404 (`None`); otherwise one of the matches, chosen by
      the room id's hash modulo the number of matches. */
  function SelectQuestion<Q>(roomId: string, matching: seq<Q>): (r: Option<Q>)
    ensures r.None? <==> |matching| == 0
    ensures r.Some? ==> r.value in matching
    ensures r.Some? ==> r.value == matching[QuestionIndex(roomId, |matching|)]
  {
    if |matching| == 0 then None
    else Some(matching[QuestionIndex(roomId, |matching|)])
  }

  /** `hash % questionCount`: a position among the matches, fixed by the
      room id and the number of matches alone. */
  function QuestionIndex(roomId: string, count: nat): (i: nat)
    requires count > 0
    ensures i < count
  {
    RoomHash(roomId) % count
  }

  /** Both users of a room get the same question whichever way round the
      room id lists them: the choice depends on the characters of the id,
      not their order across the two pieces. */
  lemma SelectQuestionSymmetric<Q>(a: string, b: string, matching: seq<Q>)
    ensures SelectQuestion(a + b, matching) == SelectQuestion(b + a, matching)
  {
    RoomHashSwap(a, b);
  }
}
