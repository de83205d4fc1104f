/** The client's test harness: the string transforms that turn a user's
    solution and a test case into a program for the remote runner, the
    normalisation of the runner's output, and the bounded retry loop that
    turns the runner's responses into a verdict. The runner itself is a
    function from (test index, attempt) to a response. */
module CodeExecution {
  import opened Wrappers
  import opened Text

  // ---------------------------------------------------------------------
  // replaceTabsWithSpaces

  /** `n` spaces (`' '.repeat(n)`). */
  function Spaces(n: nat): (r: string)
    ensures |r| == n && forall i | 0 <= i < n :: r[i] == ' '
  {
    seq(n, _ => ' ')
  }

  /** Every tab replaced by `n` spaces, every other character kept: the
      reference the line-by-line transform is proved equal to. */
  function ExpandTabs(s: string, n: nat): (r: string)
    ensures '\t' !in r
    ensures |r| == |s| + (n - 1) * TabCount(s)
    decreases |s|
  {
    if s == [] then []
    else (if s[0] == '\t' then Spaces(n) else [s[0]]) + ExpandTabs(s[1..], n)
  }

  /** The number of tabs in `s`. */
  function TabCount(s: string): nat
    decreases |s|
  {
    if s == [] then 0 else (if s[0] == '\t' then 1 else 0) + TabCount(s[1..])
  }

  lemma {:induction false} ExpandTabsAppend(a: string, b: string, n: nat)
    ensures ExpandTabs(a + b, n) == ExpandTabs(a, n) + ExpandTabs(b, n)
    decreases |a|
  {
    if a == [] {
      assert a + b == b;
    } else {
      assert (a + b)[1..] == a[1..] + b;
      ExpandTabsAppend(a[1..], b, n);
    }
  }

  /** A string without tabs is left alone. */
  lemma {:induction false} ExpandTabsNoTabs(s: string, n: nat)
    requires '\t' !in s
    ensures ExpandTabs(s, n) == s
    decreases |s|
  {
    if s != [] {
      assert '\t' !in s[1..];
      ExpandTabsNoTabs(s[1..], n);
    }
  }

  function ExpandEach(lines: seq<string>, n: nat): (r: seq<string>)
    ensures |r| == |lines| && forall i | 0 <= i < |lines| :: r[i] == ExpandTabs(lines[i], n)
  {
    seq(|lines|, i requires 0 <= i < |lines| => ExpandTabs(lines[i], n))
  }

  /** `replaceTabsWithSpaces`: split into lines, replace the tabs of each
      line, join with newlines again. */
  function ReplaceTabs(code: string, n: nat): string {
    Join(ExpandEach(Split(code, '\n'), n), "\n")
  }

  lemma {:induction false} ExpandJoin(lines: seq<string>, n: nat)
    ensures ExpandTabs(Join(lines, "\n"), n) == Join(ExpandEach(lines, n), "\n")
    decreases |lines|
  {
    if |lines| > 1 {
      var rest := lines[1..];
      ExpandJoin(rest, n);
      ExpandTabsAppend(lines[0] + "\n", Join(rest, "\n"), n);
      ExpandTabsAppend(lines[0], "\n", n);
      assert ExpandEach(lines, n)[1..] == ExpandEach(rest, n);
    }
  }

  /** The line-by-line replacement is the same as replacing every tab of
      the whole text: no tab remains, each tab becomes exactly `n` spaces,
      and every other character, line breaks included, is kept in place. */
  lemma ReplaceTabsIsExpandTabs(code: string, n: nat)
    ensures ReplaceTabs(code, n) == ExpandTabs(code, n)
  {
    ExpandJoin(Split(code, '\n'), n);
    JoinSplit(code, '\n');
  }

  // ---------------------------------------------------------------------
  // cleanInput

  /** The length of the longest prefix of `s` in `[\w\s]`. */
  function WordSpaceRun(s: string): (k: nat)
    ensures k <= |s|
    ensures forall i | 0 <= i < k :: IsWordChar(s[i]) || IsSpace(s[i])
    ensures k == |s| || !(IsWordChar(s[k]) || IsSpace(s[k]))
    decreases |s|
  {
    if s != [] && (IsWordChar(s[0]) || IsSpace(s[0])) then 1 + WordSpaceRun(s[1..]) else 0
  }

  /** `replace(/[\w\s]*=/g, '')`. At each position the pattern matches
      exactly when the longest `[\w\s]` run there is followed by `=`; the
      run and the `=` are then removed and the scan resumes after them.
      Otherwise one character is kept and the scan moves on by one. */
  function StripAssignments(s: string): (r: string)
    ensures '=' !in r
    ensures |r| <= |s|
    decreases |s|
  {
    if s == [] then []
    else
      var k := WordSpaceRun(s);
      if k < |s| && s[k] == '=' then StripAssignments(s[k + 1..])
      else [s[0]] + StripAssignments(s[1..])
  }

  /** Text without `=` is left alone. */
  lemma {:induction false} StripAssignmentsNoEquals(s: string)
    requires '=' !in s
    ensures StripAssignments(s) == s
    decreases |s|
  {
    if s != [] {
      assert '=' !in s[1..];
      StripAssignmentsNoEquals(s[1..]);
    }
  }

  /** A leading assignment target, the `=` after it and nothing else are
      removed: `nums = [1,2]` keeps only ` [1,2]`. */
  lemma StripAssignmentsDropsTarget(target: string, rest: string)
    requires forall i | 0 <= i < |target| :: IsWordChar(target[i]) || IsSpace(target[i])
    ensures StripAssignments(target + "=" + rest) == StripAssignments(rest)
  {
    var s := target + "=" + rest;
    assert s[|target|] == '=';
    assert forall i | 0 <= i < |target| :: s[i] == target[i];
    assert WordSpaceRun(s) == |target|;
    assert s[|target| + 1..] == rest;
  }

  /** Text free of `=` whose last character is outside `[\w\s]` passes
      through untouched: no match can start inside it. */
  lemma {:induction false} StripAssignmentsKeepsPrefix(p: string, rest: string)
    requires '=' !in p
    requires p == [] || !(IsWordChar(p[|p| - 1]) || IsSpace(p[|p| - 1]))
    ensures StripAssignments(p + rest) == p + StripAssignments(rest)
    decreases |p|
  {
    if p == [] {
      assert p + rest == rest;
    } else {
      var s := p + rest;
      var p' := p[1..];
      assert StripAssignments(s) == [p[0]] + StripAssignments(p' + rest) by {
        var k := WordSpaceRun(s);
        assert k < |p| by {
          assert s[|p| - 1] == p[|p| - 1];
        }
        assert s[k] == p[k];
        assert s[0] == p[0] && s[1..] == p' + rest;
      }
      assert StripAssignments(p' + rest) == p' + StripAssignments(rest) by {
        assert p' == [] || p'[|p'| - 1] == p[|p| - 1];
        StripAssignmentsKeepsPrefix(p', rest);
      }
      Regroup([p[0]], StripAssignments(s), StripAssignments(p' + rest), p', StripAssignments(rest), p);
    }
  }

  /** Where an assignment follows text that ends outside `[\w\s]`, only
      the target and its `=` are removed. */
  lemma StripAssignmentsDropsInnerTarget(p: string, target: string, rest: string)
    requires '=' !in p
    requires p == [] || !(IsWordChar(p[|p| - 1]) || IsSpace(p[|p| - 1]))
    requires forall i | 0 <= i < |target| :: IsWordChar(target[i]) || IsSpace(target[i])
    ensures StripAssignments(p + target + "=" + rest) == p + StripAssignments(rest)
  {
    assert p + target + "=" + rest == p + (target + "=" + rest);
    StripAssignmentsKeepsPrefix(p, target + "=" + rest);
    StripAssignmentsDropsTarget(target, rest);
  }

  /** `name = value, name = value, ...`: targets made of `[\w\s]`, values
      free of `=`, separated by commas. */
  function AssignmentList(names: seq<string>, values: seq<string>): string
    requires |names| == |values| >= 1
    decreases |names|
  {
    if |names| == 1 then names[0] + "=" + values[0]
    else names[0] + "=" + values[0] + "," + AssignmentList(names[1..], values[1..])
  }

  predicate Targets(names: seq<string>) {
    forall n, i | n in names && 0 <= i < |n| :: IsWordChar(n[i]) || IsSpace(n[i])
  }

  /** Stripping a list of assignments leaves the values, still separated
      by their commas. */
  lemma {:induction false} StripAssignmentList(names: seq<string>, values: seq<string>)
    requires |names| == |values| >= 1
    requires Targets(names)
    requires forall v | v in values :: '=' !in v
    ensures StripAssignments(AssignmentList(names, values)) == Join(values, ",")
    decreases |names|
  {
    var n, v := names[0], values[0];
    assert n in names && v in values;
    if |names| == 1 {
      StripAssignmentsDropsTarget(n, v);
      StripAssignmentsNoEquals(v);
    } else {
      var rest := AssignmentList(names[1..], values[1..]);
      assert StripAssignments(rest) == Join(values[1..], ",") by {
        assert forall w | w in values[1..] :: w in values;
        assert forall m | m in names[1..] :: m in names;
        StripAssignmentList(names[1..], values[1..]);
      }
      assert forall i | 0 <= i < |n| :: IsWordChar(n[i]) || IsSpace(n[i]);
      StripAssignmentStep(n, v, rest);
    }
  }

  /** One assignment and its comma in front of more text: the value and
      the comma stay. */
  lemma StripAssignmentStep(n: string, v: string, rest: string)
    requires forall i | 0 <= i < |n| :: IsWordChar(n[i]) || IsSpace(n[i])
    requires '=' !in v
    ensures StripAssignments(n + "=" + v + "," + rest) == v + "," + StripAssignments(rest)
  {
    var head := v + ",";
    assert StripAssignments(n + "=" + v + "," + rest) == StripAssignments(head + rest) by {
      assert n + "=" + v + "," + rest == n + "=" + (head + rest);
      StripAssignmentsDropsTarget(n, head + rest);
    }
    assert head[|head| - 1] == ',';
    StripAssignmentsKeepsPrefix(head, rest);
  }

  /** `cleanInput` on a list of assignments gives the trimmed values with
      their commas. */
  lemma CleanInputOfAssignments(names: seq<string>, values: seq<string>)
    requires |names| == |values| >= 1
    requires Targets(names)
    requires forall v | v in values :: '=' !in v
    ensures CleanInput(AssignmentList(names, values)) == Trim(Join(values, ","))
  {
    StripAssignmentList(names, values);
  }

  /** `cleanInput`: assignments removed, then trimmed. */
  function CleanInput(input: string): (r: string)
    ensures '=' !in r
    ensures Trimmed(r)
    ensures '=' !in input ==> r == Trim(input)
  {
    var stripped := StripAssignments(input);
    StripAssignmentsUnchanged(input);
    TrimKeepsAbsent(stripped, '=');
    Trim(stripped)
  }

  lemma StripAssignmentsUnchanged(s: string)
    ensures '=' !in s ==> StripAssignments(s) == s
  {
    if '=' !in s { StripAssignmentsNoEquals(s); }
  }

  // ---------------------------------------------------------------------
  // formatJavaInput

  predicate StartsWith(s: string, p: string) {
    |p| <= |s| && s[..|p|] == p
  }

  predicate EndsWith(s: string, p: string) {
    |p| <= |s| && s[|s| - |p|..] == p
  }

  /** `s.slice(k, -k)`: empty when the two cuts cross. */
  function Inner(s: string, k: nat): (r: string)
    ensures |r| == if |s| >= 2 * k then |s| - 2 * k else 0
  {
    if |s| >= 2 * k then s[k..|s| - k] else ""
  }

  /** The comma-separated pieces between the brackets, each trimmed. */
  function Elements(input: string): seq<string> {
    TrimAll(Split(Inner(input, 1), ','))
  }

  /** Branch 2: `new int[]{a, b, c}`. */
  function IntArrayLiteral(input: string): string {
    "new int[]{" + Join(Elements(input), ", ") + "}"
  }

  /** Branch 4: one `key: value` piece as `"key": "value"`, with the
      missing value of a piece without `:` rendered as `undefined`. */
  function PairLiteral(pair: string): string {
    var kv := TrimAll(Split(pair, ':'));
    "\"" + kv[0] + "\": \"" + (if |kv| > 1 then kv[1] else "undefined") + "\""
  }

  function PairLiterals(pairs: seq<string>): (r: seq<string>)
    ensures |r| == |pairs| && forall i | 0 <= i < |pairs| :: r[i] == PairLiteral(pairs[i])
  {
    seq(|pairs|, i requires 0 <= i < |pairs| => PairLiteral(pairs[i]))
  }

  /** `split` with a separator of several characters. */
  function SplitOn(s: string, sep: string): (parts: seq<string>)
    requires |sep| > 0
    ensures |parts| >= 1
    decreases |s|
  {
    if |s| < |sep| then [s]
    else if s[..|sep|] == sep then [[]] + SplitOn(s[|sep|..], sep)
    else
      var rest := SplitOn(s[1..], sep);
      [[s[0]] + rest[0]] + rest[1..]
  }

  /** Branch 3: `new int[][]{new int[]{..}, ..}`, one row per piece
      between `],[`. */
  function MatrixLiteral(input: string): string {
    "new int[][]{" + Join(MatrixRows(SplitOn(Inner(input, 2), "],[")), ", ") + "}"
  }

  function MatrixRows(rows: seq<string>): (r: seq<string>)
    ensures |r| == |rows|
  {
    seq(|rows|, i requires 0 <= i < |rows| =>
      "new int[]{" + Join(TrimAll(Split(rows[i], ',')), ", ") + "}")
  }

  predicate Quoted(s: string) {
    StartsWith(s, "\"") && EndsWith(s, "\"")
  }

  predicate Bracketed(s: string) {
    StartsWith(s, "[") && EndsWith(s, "]")
  }

  predicate Braced(s: string) {
    StartsWith(s, "{") && EndsWith(s, "}")
  }

  predicate IsBooleanWord(s: string) {
    ToLower(s) == "true" || ToLower(s) == "false"
  }

  /** `formatJavaInput`, with all eight branches in the source's order.
      `isNumeric` is `!isNaN(input)`. */
  function FormatJavaInput(input: string, isNumeric: string -> bool): (r: string)
    ensures Quoted(input) ==> r == input
    ensures !Quoted(input) && Bracketed(input) ==> r == IntArrayLiteral(input)
  {
    if Quoted(input) then input
    else if Bracketed(input) then IntArrayLiteral(input)
    else if StartsWith(input, "[[") && EndsWith(input, "]]") then MatrixLiteral(input)
    else if Braced(input) then
      "new HashMap<String, String>{" + Join(PairLiterals(Split(Inner(input, 1), ',')), ", ") + "}"
    else if isNumeric(input) then input
    else if IsBooleanWord(input) then ToLower(input)
    else if Bracketed(input) then
      "new ArrayList<Integer>(Arrays.asList(" + Join(Elements(input), ", ") + "))"
    else input
  }

  /** The same function with the two branches that can never be taken left
      out: a `[[...]]` input is always caught by the one-dimensional array
      branch, and the list branch repeats the array branch's test. */
  function FormatJavaReachable(input: string, isNumeric: string -> bool): string {
    if Quoted(input) then input
    else if Bracketed(input) then IntArrayLiteral(input)
    else if Braced(input) then
      "new HashMap<String, String>{" + Join(PairLiterals(Split(Inner(input, 1), ',')), ", ") + "}"
    else if isNumeric(input) then input
    else if IsBooleanWord(input) then ToLower(input)
    else input
  }

  lemma DoubleBracketIsBracketed(s: string)
    requires StartsWith(s, "[[") && EndsWith(s, "]]")
    ensures Bracketed(s)
  {
    assert s[..1] == s[..2][..1];
    assert s[|s| - 1..] == s[|s| - 2..][1..];
  }

  /** The matrix and list branches are dead code. */
  lemma FormatJavaDeadBranches(input: string, isNumeric: string -> bool)
    ensures FormatJavaInput(input, isNumeric) == FormatJavaReachable(input, isNumeric)
  {
    if StartsWith(input, "[[") && EndsWith(input, "]]") {
      DoubleBracketIsBracketed(input);
    }
  }

  /** An input that no branch recognises is passed through unchanged. */
  lemma FormatJavaFallThrough(input: string, isNumeric: string -> bool)
    requires !Quoted(input) && !Bracketed(input) && !Braced(input)
    requires !isNumeric(input) && !IsBooleanWord(input)
    ensures FormatJavaInput(input, isNumeric) == input
  {
    if StartsWith(input, "[[") && EndsWith(input, "]]") {
      DoubleBracketIsBracketed(input);
      assert false;
    }
  }

  /** A matrix input such as `[[1,2],[3,4]]` is formatted by the
      one-dimensional branch. */
  lemma MatrixTakesArrayBranch(input: string, isNumeric: string -> bool)
    requires StartsWith(input, "[[") && EndsWith(input, "]]")
    ensures FormatJavaInput(input, isNumeric) == IntArrayLiteral(input)
  {
    DoubleBracketIsBracketed(input);
    assert input[0] == '[';
  }

  /** The array branch reads a bracketed list of trimmed, comma-free
      elements back as the same elements. */
  lemma ArrayLiteralRoundTrip(xs: seq<string>, isNumeric: string -> bool)
    requires |xs| >= 1
    requires forall i | 0 <= i < |xs| :: ',' !in xs[i] && Trimmed(xs[i])
    ensures FormatJavaInput("[" + Join(xs, ",") + "]", isNumeric) == "new int[]{" + Join(xs, ", ") + "}"
  {
    var body := Join(xs, ",");
    var s := "[" + body + "]";
    assert s[..1] == "[" && s[|s| - 1..] == "]";
    assert s[0] == '[';
    assert !Quoted(s) && Bracketed(s);
    assert Inner(s, 1) == body;
    SplitJoin(xs, ',');
    TrimAllTrimmed(xs);
    assert Elements(s) == xs;
  }

  lemma TrimAllTrimmed(xs: seq<string>)
    requires forall i | 0 <= i < |xs| :: Trimmed(xs[i])
    ensures TrimAll(xs) == xs
  {
    forall i | 0 <= i < |xs| ensures TrimAll(xs)[i] == xs[i] {
      TrimOfTrimmed(xs[i]);
    }
  }

  /** `TRUE`, `False` and the like become lower-case when no earlier branch
      applies. */
  lemma BooleanLowered(input: string, isNumeric: string -> bool)
    requires !Quoted(input) && !Bracketed(input) && !Braced(input) && !isNumeric(input)
    requires IsBooleanWord(input)
    ensures FormatJavaInput(input, isNumeric) == ToLower(input)
    ensures FormatJavaInput(input, isNumeric) in {"true", "false"}
  {
    FormatJavaDeadBranches(input, isNumeric);
  }

  // ---------------------------------------------------------------------
  // prepareTestcaseCode

  /** Spaces per tab for each supported language. */
  function TabWidth(language: string): (n: nat)
    ensures language == "javascript" ==> n == 2
    ensures language != "javascript" ==> n == 4
  {
    if language == "javascript" then 2 else 4
  }

  predicate Supported(language: string) {
    language == "python" || language == "javascript" || language == "java"
  }

  /** The statement that calls the solution on the test input. */
  function CallLine(language: string, functionName: string, input: string, isNumeric: string -> bool): string
    requires Supported(language)
  {
    if language == "python" then "print(Solution()." + functionName + "(" + input + "))"
    else if language == "javascript" then "console.log(" + functionName + "(" + CleanInput(input) + "))"
    else "System.out.println(new Solution()." + functionName + "(" + FormatJavaInput(CleanInput(input), isNumeric) + "));"
  }

  /** The eight spaces of indentation before the template's closing
      backtick. */
  const Trailer := "\n        "

  /** `prepareTestcaseCode`: the trimmed source with its tabs expanded at
      the language's width, a blank line, then the call statement. Python
      passes the input verbatim; JavaScript passes it cleaned; Java passes
      it cleaned and formatted as a Java literal. Any other language is an
      error. */
  function PrepareTestcaseCode(language: string, functionName: string, sourceCode: string, input: string,
                               isNumeric: string -> bool): (r: Result<string>)
    ensures r.Err? <==> !Supported(language)
    ensures r.Err? ==> r.message == "Unsupported language: " + language
    ensures r.Ok? ==>
      r.value == "\n" + ExpandTabs(Trim(sourceCode), TabWidth(language)) + "\n\n"
        + CallLine(language, functionName, input, isNumeric) + Trailer
  {
    if !Supported(language) then Err("Unsupported language: " + language)
    else
      var width := if language == "javascript" then 2 else 4;
      ReplaceTabsIsExpandTabs(Trim(sourceCode), width);
      Ok("\n" + ReplaceTabs(Trim(sourceCode), width) + "\n\n"
        + CallLine(language, functionName, input, isNumeric) + Trailer)
  }

  // ---------------------------------------------------------------------
  // normalizeOutput

  /** No whitespace character stands right before or right after `x`. */
  predicate NoSpaceAround(s: string, x: char) {
    forall i, j | 0 <= i && j == i + 1 < |s| :: !(IsSpace(s[i]) && s[j] == x) && !(s[i] == x && IsSpace(s[j]))
  }

  /** The leading whitespace run of `s` is followed by `x`. */
  predicate RunThen(s: string, x: char) {
    var k := |s| - |TrimStart(s)|;
    k < |s| && s[k] == x
  }

  /** The global replace of whitespace, `x`, whitespace by `x`, for a
      pattern such as `\s*,\s*`. At each position the pattern matches
      exactly when the longest whitespace run there is followed by `x`; the
      run, the `x` and the whitespace after it become one `x`. Otherwise one
      character is kept and the scan moves on by one. */
  function Tighten(s: string, x: char): (r: string)
    ensures s == [] <==> r == []
    ensures s != [] ==> r[0] == (if RunThen(s, x) then x else s[0])
    decreases |s|
  {
    if s == [] then []
    else
      var k := |s| - |TrimStart(s)|;
      if k < |s| && s[k] == x then [x] + Tighten(TrimStart(s[k + 1..]), x)
      else [s[0]] + Tighten(s[1..], x)
  }

  lemma RunThenStep(s: string, x: char)
    requires |s| >= 1 && IsSpace(s[0])
    ensures RunThen(s, x) == RunThen(s[1..], x)
  {
    assert TrimStart(s) == TrimStart(s[1..]);
  }

  lemma NoSpaceAroundSlice(s: string, x: char, a: nat, b: nat)
    requires a <= b <= |s|
    requires NoSpaceAround(s, x)
    ensures NoSpaceAround(s[a..b], x)
  {
    var t := s[a..b];
    forall i, j | 0 <= i && j == i + 1 < |t|
      ensures !(IsSpace(t[i]) && t[j] == x) && !(t[i] == x && IsSpace(t[j]))
    {
      assert t[i] == s[a + i] && t[j] == s[a + j];
    }
  }

  lemma NoSpaceAroundCons(c: char, t: string, x: char)
    requires NoSpaceAround(t, x)
    requires t != [] ==> !(IsSpace(c) && t[0] == x) && !(c == x && IsSpace(t[0]))
    ensures NoSpaceAround([c] + t, x)
  {
    var s := [c] + t;
    forall i, j | 0 <= i && j == i + 1 < |s|
      ensures !(IsSpace(s[i]) && s[j] == x) && !(s[i] == x && IsSpace(s[j]))
    {
      if i > 0 {
        assert s[i] == t[i - 1] && s[j] == t[i];
      }
    }
  }

  /** After tightening around `x`, no whitespace touches `x`. */
  lemma {:induction false} TightenEstablishes(s: string, x: char)
    requires !IsSpace(x)
    ensures NoSpaceAround(Tighten(s, x), x)
    decreases |s|
  {
    if s != [] {
      var k := |s| - |TrimStart(s)|;
      if k < |s| && s[k] == x {
        var rest := TrimStart(s[k + 1..]);
        TightenEstablishes(rest, x);
        NoSpaceAroundCons(x, Tighten(rest, x), x);
      } else {
        TightenEstablishes(s[1..], x);
        if IsSpace(s[0]) {
          RunThenStep(s, x);
        }
        NoSpaceAroundCons(s[0], Tighten(s[1..], x), x);
      }
    }
  }

  /** Tightening around `y` keeps the absence of whitespace around any other
      character `x`: it only ever removes whitespace. */
  lemma {:induction false} TightenPreserves(s: string, x: char, y: char)
    requires !IsSpace(y) && x != y
    requires NoSpaceAround(s, x)
    ensures NoSpaceAround(Tighten(s, y), x)
    decreases |s|
  {
    if s != [] {
      var k := |s| - |TrimStart(s)|;
      if k < |s| && s[k] == y {
        SuffixAfterRun(s, x, k);
        TightenPreserves(TrimStart(s[k + 1..]), x, y);
        EmitHead(s, x, y);
      } else {
        NoSpaceAroundSlice(s, x, 1, |s|);
        TightenPreserves(s[1..], x, y);
        KeepHead(s, x, y);
      }
    }
  }

  lemma SuffixAfterRun(s: string, x: char, k: nat)
    requires k < |s| && NoSpaceAround(s, x)
    ensures NoSpaceAround(TrimStart(s[k + 1..]), x)
  {
    var t := s[k + 1..];
    NoSpaceAroundSuffix(s, x, k + 1);
    NoSpaceAroundSuffix(t, x, |t| - |TrimStart(t)|);
  }

  lemma NoSpaceAroundSuffix(s: string, x: char, a: nat)
    requires a <= |s|
    requires NoSpaceAround(s, x)
    ensures NoSpaceAround(s[a..], x)
  {
    NoSpaceAroundSlice(s, x, a, |s|);
    assert s[a..|s|] == s[a..];
  }

  lemma EmitHead(s: string, x: char, y: char)
    requires !IsSpace(y) && x != y && s != []
    requires RunThen(s, y)
    requires NoSpaceAround(Tighten(TrimStart(s[|s| - |TrimStart(s)| + 1..]), y), x)
    ensures NoSpaceAround(Tighten(s, y), x)
  {
    var k := |s| - |TrimStart(s)|;
    var rest := TrimStart(s[k + 1..]);
    var t := Tighten(rest, y);
    assert Tighten(s, y) == [y] + t by {
      TightenRun(s, y);
    }
    assert NoSpaceAround([y] + t, x) by {
      NoSpaceAroundCons(y, t, x);
    }
    NoSpaceAroundSame(Tighten(s, y), [y] + t, x);
  }

  lemma NoSpaceAroundSame(a: string, b: string, x: char)
    requires a == b && NoSpaceAround(b, x)
    ensures NoSpaceAround(a, x)
  {
  }

  /** Where the pattern matches, one `y` is emitted for the run, the `y`
      and the whitespace after it. */
  lemma TightenRun(s: string, y: char)
    requires !IsSpace(y) && s != [] && RunThen(s, y)
    ensures Tighten(s, y) == [y] + Tighten(TrimStart(s[|s| - |TrimStart(s)| + 1..]), y)
  {
  }

  lemma KeepHead(s: string, x: char, y: char)
    requires !IsSpace(y) && x != y && s != []
    requires NoSpaceAround(s, x) && NoSpaceAround(Tighten(s[1..], y), x)
    requires !RunThen(s, y)
    ensures NoSpaceAround(Tighten(s, y), x)
  {
    assert |s| > 1 ==> !(IsSpace(s[0]) && s[1] == x) && !(s[0] == x && IsSpace(s[1]));
    assert Tighten(s, y) == [s[0]] + Tighten(s[1..], y);
    NoSpaceAroundCons(s[0], Tighten(s[1..], y), x);
  }


  /** Tightening text that already has no whitespace around `x` changes
      nothing. */
  lemma {:induction false} TightenIdentity(s: string, x: char)
    requires !IsSpace(x)
    requires NoSpaceAround(s, x)
    ensures Tighten(s, x) == s
    decreases |s|
  {
    if s != [] {
      NoSpaceAroundSlice(s, x, 1, |s|);
      TightenIdentity(s[1..], x);
      if s[0] == x {
        assert TrimStart(s) == s;
        assert |s| > 1 ==> !IsSpace(s[1]);
        assert TrimStart(s[1..]) == s[1..];
        assert Tighten(s, x) == [x] + Tighten(s[1..], x);
      } else {
        NoRunThen(s, x);
        assert Tighten(s, x) == [s[0]] + Tighten(s[1..], x);
      }
      assert s == [s[0]] + s[1..];
    }
  }

  lemma NoRunThen(s: string, x: char)
    requires !IsSpace(x) && NoSpaceAround(s, x)
    requires s != [] && s[0] != x
    ensures !RunThen(s, x)
  {
    var k := |s| - |TrimStart(s)|;
    if 0 < k < |s| {
      assert IsSpace(s[k - 1]);
    }
  }


  /** Every single quote replaced by a double quote. */
  function DoubleQuotes(s: string): (r: string)
    ensures |r| == |s| && '\'' !in r
    ensures forall i | 0 <= i < |s| :: r[i] == if s[i] == '\'' then '"' else s[i]
  {
    seq(|s|, i requires 0 <= i < |s| => if s[i] == '\'' then '"' else s[i])
  }

  lemma DoubleQuotesPreserves(s: string, x: char)
    requires x != '\'' && x != '"'
    requires NoSpaceAround(s, x)
    ensures NoSpaceAround(DoubleQuotes(s), x)
  {
  }

  lemma DoubleQuotesIdentity(s: string)
    requires '\'' !in s
    ensures DoubleQuotes(s) == s
  {
  }

  /** The shape of normalised output. */
  predicate NormalOutput(s: string) {
    && NoSpaceAround(s, ',') && NoSpaceAround(s, '[') && NoSpaceAround(s, ']')
    && NoSpaceAround(s, '(') && NoSpaceAround(s, ')')
    && '\'' !in s
    && Trimmed(s)
  }

  function TightenAll(s: string): string {
    Tighten(Tighten(Tighten(Tighten(Tighten(s, ','), '['), ']'), '('), ')')
  }

  lemma TightenAllEstablishes(s: string)
    ensures var t := TightenAll(s);
      NoSpaceAround(t, ',') && NoSpaceAround(t, '[') && NoSpaceAround(t, ']')
      && NoSpaceAround(t, '(') && NoSpaceAround(t, ')')
  {
    var t1 := Tighten(s, ',');
    TightenEstablishes(s, ',');
    var t2 := Tighten(t1, '[');
    TightenEstablishes(t1, '[');
    TightenPreserves(t1, ',', '[');
    var t3 := Tighten(t2, ']');
    TightenEstablishes(t2, ']');
    TightenPreserves(t2, ',', ']');
    TightenPreserves(t2, '[', ']');
    var t4 := Tighten(t3, '(');
    TightenEstablishes(t3, '(');
    TightenPreserves(t3, ',', '(');
    TightenPreserves(t3, '[', '(');
    TightenPreserves(t3, ']', '(');
    TightenEstablishes(t4, ')');
    TightenPreserves(t4, ',', ')');
    TightenPreserves(t4, '[', ')');
    TightenPreserves(t4, ']', ')');
    TightenPreserves(t4, '(', ')');
  }

  lemma {:induction false} TrimPreserves(s: string, x: char)
    requires NoSpaceAround(s, x)
    ensures NoSpaceAround(Trim(s), x)
  {
    var t := TrimStart(s);
    assert NoSpaceAround(t, x) by {
      TrimStartPreserves(s, x);
    }
    TrimEndPreserves(t, x);
    assert Trim(s) == TrimEnd(t);
  }

  /** Dropping leading whitespace keeps no whitespace around `x`. */
  lemma TrimStartPreserves(s: string, x: char)
    requires NoSpaceAround(s, x)
    ensures NoSpaceAround(TrimStart(s), x)
  {
    NoSpaceAroundSuffix(s, x, |s| - |TrimStart(s)|);
  }

  /** Dropping trailing whitespace keeps no whitespace around `x`. */
  lemma TrimEndPreserves(t: string, x: char)
    requires NoSpaceAround(t, x)
    ensures NoSpaceAround(TrimEnd(t), x)
  {
    NoSpaceAroundSlice(t, x, 0, |TrimEnd(t)|);
    assert t[0..|TrimEnd(t)|] == TrimEnd(t);
  }

  /** `normalizeOutput`: whitespace around `,`, `[`, `]`, `(` and `)`
      squeezed out, single quotes turned into double quotes, then trimmed. */
  function NormalizeOutput(output: string): string {
    Trim(DoubleQuotes(TightenAll(output)))
  }

  /** The normalised output has no whitespace next to `,`, `[`, `]`, `(`
      or `)`, no single quote, and nothing to trim. */
  lemma NormalizeOutputShape(output: string)
    ensures NormalOutput(NormalizeOutput(output))
  {
    var t := TightenAll(output);
    TightenAllEstablishes(output);
    var q := DoubleQuotes(t);
    DoubleQuotesPreserves(t, ',');
    DoubleQuotesPreserves(t, '[');
    DoubleQuotesPreserves(t, ']');
    DoubleQuotesPreserves(t, '(');
    DoubleQuotesPreserves(t, ')');
    TrimPreserves(q, ',');
    TrimPreserves(q, '[');
    TrimPreserves(q, ']');
    TrimPreserves(q, '(');
    TrimPreserves(q, ')');
    TrimKeepsAbsent(q, '\'');
  }

  /** Output already in normal shape is its own normalisation. */
  lemma NormalizeOutputFixesNormal(s: string)
    requires NormalOutput(s)
    ensures NormalizeOutput(s) == s
  {
    TightenAllIdentity(s);
    DoubleQuotesIdentity(s);
    TrimOfTrimmed(s);
  }

  lemma TightenAllIdentity(s: string)
    requires NoSpaceAround(s, ',') && NoSpaceAround(s, '[') && NoSpaceAround(s, ']')
    requires NoSpaceAround(s, '(') && NoSpaceAround(s, ')')
    ensures TightenAll(s) == s
  {
    TightenIdentity(s, ',');
    TightenIdentity(s, '[');
    TightenIdentity(s, ']');
    TightenIdentity(s, '(');
    TightenIdentity(s, ')');
  }

  /** Normalising twice is normalising once. */
  lemma NormalizeOutputIdempotent(s: string)
    ensures NormalizeOutput(NormalizeOutput(s)) == NormalizeOutput(s)
  {
    NormalizeOutputShape(s);
    NormalizeOutputFixesNormal(NormalizeOutput(s));
  }

  /** Normalising only ever removes whitespace and turns single quotes
      into double quotes: every other character of the output survives, in
      order. */
  lemma NormalizeOutputKeepsContent(output: string)
    ensures NonSpace(NormalizeOutput(output)) == NonSpace(DoubleQuotes(output))
  {
    var t := TightenAll(output);
    TightenAllKeepsContent(output);
    NonSpaceOfTrim(DoubleQuotes(t));
    NonSpaceDoubleQuotes(t);
    NonSpaceDoubleQuotes(output);
  }

  lemma TightenAllKeepsContent(s: string)
    ensures NonSpace(TightenAll(s)) == NonSpace(s)
  {
    var t1 := Tighten(s, ',');
    var t2 := Tighten(t1, '[');
    var t3 := Tighten(t2, ']');
    var t4 := Tighten(t3, '(');
    TightenKeepsContent(s, ',');
    TightenKeepsContent(t1, '[');
    TightenKeepsContent(t2, ']');
    TightenKeepsContent(t3, '(');
    TightenKeepsContent(t4, ')');
  }

  /** Tightening removes whitespace and nothing else. */
  lemma {:induction false} TightenKeepsContent(s: string, x: char)
    requires !IsSpace(x)
    ensures NonSpace(Tighten(s, x)) == NonSpace(s)
    decreases |s|, 1
  {
    if s != [] {
      if RunThen(s, x) {
        TightenKeepsContentRun(s, x);
      } else {
        var t := Tighten(s[1..], x);
        TightenKeepsContent(s[1..], x);
        assert Tighten(s, x) == [s[0]] + t;
        NonSpaceCons(s[0], t);
        NonSpaceCons(s[0], s[1..]);
        assert [s[0]] + s[1..] == s;
      }
    }
  }

  /** `TightenKeepsContent` where the pattern matches at the start. */
  lemma {:induction false} TightenKeepsContentRun(s: string, x: char)
    requires !IsSpace(x) && s != [] && RunThen(s, x)
    ensures NonSpace(Tighten(s, x)) == NonSpace(s)
    decreases |s|, 0
  {
    var k := |s| - |TrimStart(s)|;
    var after := s[k + 1..];
    var rest := TrimStart(after);
    var t := Tighten(rest, x);
    assert NonSpace(t) == NonSpace(after) by {
      TightenKeepsContent(rest, x);
      NonSpaceOfTrimStart(after);
    }
    TightenHeadContent(s, x, t);
    RunHeadContent(s, x, after);
    SamePrefixed([x], NonSpace(t), NonSpace(after), NonSpace(Tighten(s, x)), NonSpace(s));
  }

  /** Where the pattern matches, the tightened text's content is `x` and
      then that of the tightened rest. */
  lemma TightenHeadContent(s: string, x: char, t: string)
    requires !IsSpace(x) && s != [] && RunThen(s, x)
    requires t == Tighten(TrimStart(s[|s| - |TrimStart(s)| + 1..]), x)
    ensures NonSpace(Tighten(s, x)) == [x] + NonSpace(t)
  {
    TightenRun(s, x);
    NonSpaceCons(x, t);
  }

  /** Where the pattern matches, the content is `x` and then that of the
      text after it. */
  lemma RunHeadContent(s: string, x: char, after: string)
    requires !IsSpace(x) && RunThen(s, x)
    requires after == s[|s| - |TrimStart(s)| + 1..]
    ensures NonSpace(s) == [x] + NonSpace(after)
  {
    NonSpaceOfTrimStart(s);
    assert TrimStart(s) == [x] + after;
    NonSpaceCons(x, after);
  }

  /** Turning single quotes into double quotes commutes with dropping
      whitespace: neither quote is whitespace. */
  lemma {:induction false} NonSpaceDoubleQuotes(s: string)
    ensures NonSpace(DoubleQuotes(s)) == DoubleQuotes(NonSpace(s))
    decreases |s|
  {
    if s != [] {
      var d := DoubleQuotes(s);
      assert d[1..] == DoubleQuotes(s[1..]);
      NonSpaceDoubleQuotes(s[1..]);
      var head := if IsSpace(s[0]) then [] else [s[0]];
      DoubleQuotesAppend(head, NonSpace(s[1..]));
    }
  }

  lemma DoubleQuotesAppend(a: string, b: string)
    ensures DoubleQuotes(a + b) == DoubleQuotes(a) + DoubleQuotes(b)
  {
  }

  /** A character that no replacement of `normalizeOutput` touches:
      neither whitespace nor one of `, [ ] ( )`. */
  predicate Bare(c: char) {
    !IsSpace(c) && c !in ",[]()"
  }

  /** A cut of `a + b` that the scan of `Tighten(_, x)` never straddles:
      one side is empty, or `a` ends or `b` starts with a character that is
      neither whitespace nor `x`. */
  predicate Seam(a: string, b: string, x: char) {
    || a == [] || b == []
    || (!IsSpace(a[|a| - 1]) && a[|a| - 1] != x)
    || (!IsSpace(b[0]) && b[0] != x)
  }

  /** Tightening distributes over a seam. */
  lemma {:induction false} TightenAppend(a: string, b: string, x: char)
    requires !IsSpace(x) && Seam(a, b, x)
    ensures Tighten(a + b, x) == Tighten(a, x) + Tighten(b, x)
    decreases |a|
  {
    if a == [] {
      assert a + b == b;
    } else if b == [] {
      assert a + b == a;
    } else if RunThen(a, x) {
      var a' := TrimStart(a[|a| - |TrimStart(a)| + 1..]);
      TightenAppendRun(a, b, x);
      TightenAppend(a', b, x);
      Regroup([x], Tighten(a + b, x), Tighten(a' + b, x), Tighten(a', x), Tighten(b, x), Tighten(a, x));
    } else {
      TightenAppendKeep(a, b, x);
      TightenAppend(a[1..], b, x);
      Regroup([a[0]], Tighten(a + b, x), Tighten(a[1..] + b, x), Tighten(a[1..], x), Tighten(b, x), Tighten(a, x));
    }
  }

  /** Where the pattern matches at the start of `a`, it matches the same
      way at the start of `a + b`. */
  lemma TightenAppendRun(a: string, b: string, x: char)
    requires !IsSpace(x) && a != [] && b != [] && Seam(a, b, x) && RunThen(a, x)
    ensures var a' := TrimStart(a[|a| - |TrimStart(a)| + 1..]);
      && |a'| < |a| && Seam(a', b, x)
      && Tighten(a, x) == [x] + Tighten(a', x)
      && Tighten(a + b, x) == [x] + Tighten(a' + b, x)
  {
    var a' := TrimStart(a[|a| - |TrimStart(a)| + 1..]);
    assert RunThen(a + b, x) && TrimStart((a + b)[|a + b| - |TrimStart(a + b)| + 1..]) == a' + b by {
      RunAppend(a, b, x);
    }
    assert Tighten(a, x) == [x] + Tighten(a', x) by {
      TightenRun(a, x);
    }
    assert Tighten(a + b, x) == [x] + Tighten(a' + b, x) by {
      TightenRun(a + b, x);
    }
  }

  /** The scan's view of `a + b` where the pattern matches at the start of
      `a`: the same match, and after it the rest of `a` and then `b`. */
  lemma RunAppend(a: string, b: string, x: char)
    requires !IsSpace(x) && a != [] && b != [] && Seam(a, b, x) && RunThen(a, x)
    ensures var a' := TrimStart(a[|a| - |TrimStart(a)| + 1..]);
      && |a'| < |a| && Seam(a', b, x)
      && RunThen(a + b, x)
      && TrimStart((a + b)[|a + b| - |TrimStart(a + b)| + 1..]) == a' + b
  {
    var k := |a| - |TrimStart(a)|;
    var a' := TrimStart(a[k + 1..]);
    RunThenAppend(a, b, x, k);
    RestAppend(a, b, x, k, a');
  }

  /** The match at the start of `a` is the match at the start of
      `a + b`. */
  lemma RunThenAppend(a: string, b: string, x: char, k: nat)
    requires !IsSpace(x) && k == |a| - |TrimStart(a)| && k < |a| && a[k] == x
    ensures |a + b| - |TrimStart(a + b)| == k && RunThen(a + b, x)
  {
    assert TrimStart(a + b) == TrimStart(a) + b by {
      TrimStartAppend(a, b);
    }
    assert (a + b)[k] == a[k];
  }

  /** What is left after the match at `k`: shorter than `a`, still a seam
      with `b`, and with `b` after it once its whitespace is dropped. */
  lemma RestAppend(a: string, b: string, x: char, k: nat, a': string)
    requires !IsSpace(x) && b != [] && Seam(a, b, x)
    requires k == |a| - |TrimStart(a)| && k < |a| && a[k] == x && a' == TrimStart(a[k + 1..])
    ensures |a'| < |a| && Seam(a', b, x)
    ensures TrimStart((a + b)[k + 1..]) == a' + b
  {
    var after := a[k + 1..];
    assert Seam(a', b, x) && (a' != [] || !IsSpace(b[0])) by {
      if !IsSpace(a[|a| - 1]) && a[|a| - 1] != x {
        RestKeepsLast(a, x);
      }
    }
    SuffixAppend(a, b, k + 1);
    TrimStartAppend(after, b);
  }

  /** A suffix of `a + b` that starts inside `a`. */
  lemma SuffixAppend<T>(a: seq<T>, b: seq<T>, i: nat)
    requires i <= |a|
    ensures (a + b)[i..] == a[i..] + b
  {
  }

  /** Past a match, what is left of `a` still ends with `a`'s last
      character when that is neither whitespace nor `x`. */
  lemma RestKeepsLast(a: string, x: char)
    requires a != [] && RunThen(a, x) && !IsSpace(a[|a| - 1]) && a[|a| - 1] != x
    ensures var a' := TrimStart(a[|a| - |TrimStart(a)| + 1..]);
      a' != [] && a'[|a'| - 1] == a[|a| - 1]
  {
    var after := a[|a| - |TrimStart(a)| + 1..];
    assert after != [] && after[|after| - 1] == a[|a| - 1];
    TrimStartKeepsLast(after);
  }

  /** Where the pattern does not match at the start of `a`, it does not
      match at the start of `a + b` either. */
  lemma TightenAppendKeep(a: string, b: string, x: char)
    requires !IsSpace(x) && a != [] && b != [] && Seam(a, b, x) && !RunThen(a, x)
    ensures Seam(a[1..], b, x)
    ensures Tighten(a, x) == [a[0]] + Tighten(a[1..], x)
    ensures Tighten(a + b, x) == [a[0]] + Tighten(a[1..] + b, x)
  {
    var k := |a| - |TrimStart(a)|;
    if !IsSpace(a[|a| - 1]) && a[|a| - 1] != x {
      TrimStartKeepsLast(a);
    }
    assert TrimStart(a + b) == TrimStart(a) + b by {
      TrimStartAppend(a, b);
    }
    assert k < |a| ==> (a + b)[k] == a[k];
    assert k == |a| ==> (a + b)[k] == b[0];
    ConsTail(a, b);
  }

  /** Tightening keeps a first character that is neither whitespace nor
      `x`. */
  lemma TightenKeepsFirst(q: string, x: char)
    requires !IsSpace(x) && q != [] && !IsSpace(q[0]) && q[0] != x
    ensures Tighten(q, x) != [] && Tighten(q, x)[0] == q[0]
  {
    assert TrimStart(q) == q;
  }

  /** Tightening keeps a last character that is neither whitespace nor
      `x`. */
  lemma TightenKeepsLast(p: string, x: char)
    requires !IsSpace(x) && p != [] && !IsSpace(p[|p| - 1]) && p[|p| - 1] != x
    ensures Tighten(p, x) != [] && Tighten(p, x)[|Tighten(p, x)| - 1] == p[|p| - 1]
  {
    var c := p[|p| - 1];
    assert p == p[..|p| - 1] + [c];
    TightenAppend(p[..|p| - 1], [c], x);
    assert TrimStart([c]) == [c];
    assert Tighten([c], x) == [c] + Tighten([], x);
  }

  /** Tightening around `x` keeps whatever lies between two pieces that
      end and start with characters other than whitespace and `x`, and
      keeps those characters. */
  lemma TightenAround(p: string, w: string, q: string, x: char)
    requires !IsSpace(x) && forall i | 0 <= i < |w| :: IsSpace(w[i])
    requires p != [] && !IsSpace(p[|p| - 1]) && p[|p| - 1] != x
    requires q != [] && !IsSpace(q[0]) && q[0] != x
    ensures Tighten(p + w + q, x) == Tighten(p, x) + w + Tighten(q, x)
    ensures var t := Tighten(p, x); t != [] && t[|t| - 1] == p[|p| - 1]
    ensures var t := Tighten(q, x); t != [] && t[0] == q[0]
  {
    TightenAppend(p + w, q, x);
    TightenAppend(p, w, x);
    TightenIdentity(w, x);
    TightenKeepsLast(p, x);
    TightenKeepsFirst(q, x);
  }

  /** `s` is `p + w + q`, where `p` ends with `c` and `q` starts with
      `d`. */
  predicate Around(s: string, p: string, w: string, q: string, c: char, d: char) {
    s == p + w + q && p != [] && p[|p| - 1] == c && q != [] && q[0] == d
  }

  /** The replacements around the characters of `xs`, one after the
      other. */
  function TightenEach(s: string, xs: string): string
    decreases |xs|
  {
    if xs == [] then s else TightenEach(Tighten(s, xs[0]), xs[1..])
  }

  /** `normalizeOutput`'s five replacements are those around `, [ ] ( )`,
      in that order. */
  lemma TightenAllIsEach(s: string)
    ensures TightenAll(s) == TightenEach(s, ",[]()")
  {
    var t1, t2, t3, t4 := Tighten(s, ','), Tighten(Tighten(s, ','), '['), Tighten(Tighten(Tighten(s, ','), '['), ']'),
      Tighten(Tighten(Tighten(Tighten(s, ','), '['), ']'), '(');
    assert ",[]()"[1..] == "[]()" && "[]()"[1..] == "]()" && "]()"[1..] == "()" && "()"[1..] == ")" && ")"[1..] == "";
    assert TightenEach(t4, ")") == Tighten(t4, ')');
    assert TightenEach(t3, "()") == TightenEach(t4, ")");
    assert TightenEach(t2, "]()") == TightenEach(t3, "()");
    assert TightenEach(t1, "[]()") == TightenEach(t2, "]()");
  }

  /** Replacements around characters of `, [ ] ( )` keep a whitespace run
      between two pieces that end and start with bare characters. */
  lemma {:induction false} TightenEachAround(s: string, p: string, w: string, q: string, xs: string, c: char, d: char)
    requires forall i | 0 <= i < |xs| :: xs[i] in ",[]()"
    requires forall i | 0 <= i < |w| :: IsSpace(w[i])
    requires Around(s, p, w, q, c, d) && Bare(c) && Bare(d)
    ensures Around(TightenEach(s, xs), TightenEach(p, xs), w, TightenEach(q, xs), c, d)
    decreases |xs|
  {
    if xs != [] {
      var x := xs[0];
      assert Around(Tighten(s, x), Tighten(p, x), w, Tighten(q, x), c, d) by {
        TightenStage(s, p, w, q, x, c, d);
      }
      TightenEachAround(Tighten(s, x), Tighten(p, x), w, Tighten(q, x), xs[1..], c, d);
    }
  }

  /** All five replacements keep a whitespace run between two pieces that
      end and start with bare characters. */
  lemma TightenAllAround(p: string, w: string, q: string)
    requires forall i | 0 <= i < |w| :: IsSpace(w[i])
    requires p != [] && Bare(p[|p| - 1]) && q != [] && Bare(q[0])
    ensures Around(TightenAll(p + w + q), TightenAll(p), w, TightenAll(q), p[|p| - 1], q[0])
  {
    TightenEachAround(p + w + q, p, w, q, ",[]()", p[|p| - 1], q[0]);
    TightenAllIsEach(p + w + q);
    TightenAllIsEach(p);
    TightenAllIsEach(q);
  }

  /** One replacement of `TightenAllAround`. */
  lemma TightenStage(s: string, p: string, w: string, q: string, x: char, c: char, d: char)
    requires x in ",[]()" && Bare(c) && Bare(d)
    requires forall i | 0 <= i < |w| :: IsSpace(w[i])
    requires Around(s, p, w, q, c, d)
    ensures Around(Tighten(s, x), Tighten(p, x), w, Tighten(q, x), c, d)
  {
    TightenAround(p, w, q, x);
  }

  /** Whitespace between two bare characters is left alone: normalising
      `p + w + q` normalises each side and keeps the run `w` between them,
      so `a b ,c` becomes `a b,c`, not `ab,c`. */
  lemma NormalizeOutputAround(p: string, w: string, q: string)
    requires forall i | 0 <= i < |w| :: IsSpace(w[i])
    requires p != [] && Bare(p[|p| - 1]) && q != [] && Bare(q[0])
    ensures NormalizeOutput(p + w + q) == NormalizeOutput(p) + w + NormalizeOutput(q)
  {
    var s, a, b := TightenAll(p + w + q), TightenAll(p), TightenAll(q);
    assert Around(s, a, w, b, p[|p| - 1], q[0]) by {
      TightenAllAround(p, w, q);
    }
    QuoteTrimAround(s, a, w, b, p[|p| - 1], q[0]);
  }

  /** The quoting and trimming steps of `normalizeOutput` keep a
      whitespace run between two bare characters. */
  lemma QuoteTrimAround(s: string, a: string, w: string, b: string, c: char, d: char)
    requires forall i | 0 <= i < |w| :: IsSpace(w[i])
    requires Around(s, a, w, b, c, d) && Bare(c) && Bare(d)
    ensures Trim(DoubleQuotes(s)) == Trim(DoubleQuotes(a)) + w + Trim(DoubleQuotes(b))
  {
    var qa, qb := DoubleQuotes(a), DoubleQuotes(b);
    assert DoubleQuotes(w) == w by {
      assert forall i | 0 <= i < |w| :: w[i] != '\'';
    }
    assert DoubleQuotes(a + w + b) == qa + w + qb by {
      DoubleQuotesAppend(a + w, b);
      DoubleQuotesAppend(a, w);
    }
    assert !IsSpace(qa[|qa| - 1]) && !IsSpace(qb[0]);
    TrimAroundMiddle(qa, w, qb);
  }

  // ---------------------------------------------------------------------
  // executeCodeWithTestcases

  /** What one request to the runner gives: the program's output, a 429
      rate-limit error, or any other error with its message. */
  datatype Response = Output(text: string) | RateLimited | Failure(message: string)

  datatype TestCase = TestCase(input: string, expectedOutput: string)

  datatype TestResult = TestResult(input: string, expectedOutput: string, actualOutput: string, isPassed: bool)

  /** The waits before the second, third and abandoned fourth attempt. */
  const Backoff: seq<nat> := [1000, 2000, 4000]

  const Attempts := 3

  const GaveUp := "Failed after retries"

  /** The result of an attempt that was not rate-limited. */
  function Answer(t: TestCase, response: Response): (r: TestResult)
    requires !response.RateLimited?
    ensures r.input == t.input && r.expectedOutput == t.expectedOutput
    ensures r.isPassed <==> response.Output? && NormalizeOutput(response.text) == NormalizeOutput(t.expectedOutput)
    ensures response.Failure? ==> r.actualOutput == response.message
    ensures response.Output? ==> r.actualOutput == NormalizeOutput(response.text)
  {
    match response
    case Output(text) =>
      var actual := NormalizeOutput(text);
      TestResult(t.input, t.expectedOutput, actual, actual == NormalizeOutput(t.expectedOutput))
    case Failure(message) => TestResult(t.input, t.expectedOutput, message, false)
  }

  /** The verdict for one test case, attempt by attempt from `attempt`. */
  function Verdict(t: TestCase, respond: nat -> Response, attempt: nat): (r: TestResult)
    ensures r.input == t.input && r.expectedOutput == t.expectedOutput
    decreases Attempts - attempt
  {
    if attempt >= Attempts then TestResult(t.input, t.expectedOutput, GaveUp, false)
    else if respond(attempt).RateLimited? then Verdict(t, respond, attempt + 1)
    else Answer(t, respond(attempt))
  }

  /** How many attempts from `attempt` on are rate-limited in a row,
      counting only the three attempts the loop makes. */
  function LimitedRun(respond: nat -> Response, attempt: nat): (n: nat)
    ensures n <= Attempts - attempt || (attempt >= Attempts && n == 0)
    decreases Attempts - attempt
  {
    if attempt >= Attempts || !respond(attempt).RateLimited? then 0
    else 1 + LimitedRun(respond, attempt + 1)
  }

  /** The retry loop of one test case: it computes the verdict, and it has
      waited 1000, 2000, ... ms, doubling, once before each retry. */
  method RunTestcase(t: TestCase, respond: nat -> Response) returns (result: TestResult, waits: seq<nat>)
    ensures result == Verdict(t, respond, 0)
    ensures waits == Backoff[..LimitedRun(respond, 0)]
  {
    var retries := 3;
    var delay := 1000;
    var attempt := 0;
    waits := [];
    while retries > 0
      invariant 0 <= retries <= 3 && attempt == 3 - retries
      invariant attempt < 3 ==> delay == Backoff[attempt]
      invariant waits == Backoff[..attempt]
      invariant LimitedRun(respond, 0) == attempt + LimitedRun(respond, attempt)
      invariant Verdict(t, respond, 0) == Verdict(t, respond, attempt)
    {
      var response := respond(attempt);
      if !response.RateLimited? {
        result := Answer(t, response);
        return;
      }
      waits := waits + [delay];
      retries := retries - 1;
      delay := delay * 2;
      attempt := attempt + 1;
    }
    result := TestResult(t.input, t.expectedOutput, GaveUp, false);
  }

  /** The verdict is the answer of the first attempt that is not a 429:
      any other error is reported at once, output is compared. */
  lemma VerdictFirstAnswer(t: TestCase, respond: nat -> Response, k: nat)
    requires k < Attempts && !respond(k).RateLimited?
    requires forall j | 0 <= j < k :: respond(j).RateLimited?
    ensures Verdict(t, respond, 0) == Answer(t, respond(k))
  {
    if k >= 1 {
      VerdictSkips(t, respond, 0);
    }
    if k >= 2 {
      VerdictSkips(t, respond, 1);
    }
    VerdictStops(t, respond, k);
  }

  /** A 429 within the limit moves on to the next attempt. */
  lemma VerdictSkips(t: TestCase, respond: nat -> Response, attempt: nat)
    requires attempt < Attempts && respond(attempt).RateLimited?
    ensures Verdict(t, respond, attempt) == Verdict(t, respond, attempt + 1)
  {
  }

  /** Any other response within the limit decides the test. */
  lemma VerdictStops(t: TestCase, respond: nat -> Response, attempt: nat)
    requires attempt < Attempts && !respond(attempt).RateLimited?
    ensures Verdict(t, respond, attempt) == Answer(t, respond(attempt))
  {
  }

  /** Three 429s in a row give up with "Failed after retries". */
  lemma VerdictGivesUp(t: TestCase, respond: nat -> Response)
    requires forall j | 0 <= j < Attempts :: respond(j).RateLimited?
    ensures Verdict(t, respond, 0) == TestResult(t.input, t.expectedOutput, GaveUp, false)
  {
    assert respond(0).RateLimited? && respond(1).RateLimited? && respond(2).RateLimited?;
    assert Verdict(t, respond, 0) == Verdict(t, respond, 1);
    assert Verdict(t, respond, 1) == Verdict(t, respond, 2);
    assert Verdict(t, respond, 2) == Verdict(t, respond, 3);
  }

  /** Attempt `k` is the first of the three that is not a 429. */
  predicate FirstAnswerAt(respond: nat -> Response, k: nat) {
    && k < Attempts
    && (forall j | 0 <= j < k :: respond(j).RateLimited?)
    && !respond(k).RateLimited?
  }

  /** The attempt `k` is the first within three that is not a 429, and it
      produced output matching the expected output once both are
      normalised. */
  predicate PassesAt(t: TestCase, respond: nat -> Response, k: nat) {
    && FirstAnswerAt(respond, k)
    && respond(k).Output?
    && NormalizeOutput(respond(k).text) == NormalizeOutput(t.expectedOutput)
  }

  lemma FirstAnswerUnique(respond: nat -> Response, k: nat, k': nat)
    requires FirstAnswerAt(respond, k) && FirstAnswerAt(respond, k')
    ensures k == k'
  {
  }

  /** The test passes exactly when some attempt passes in that sense. */
  lemma VerdictPassedIff(t: TestCase, respond: nat -> Response)
    ensures Verdict(t, respond, 0).isPassed <==> exists k: nat :: PassesAt(t, respond, k)
  {
    var k: nat := if !respond(0).RateLimited? then 0 else if !respond(1).RateLimited? then 1 else 2;
    if !respond(k).RateLimited? {
      assert FirstAnswerAt(respond, k);
      VerdictFirstAnswer(t, respond, k);
      if Verdict(t, respond, 0).isPassed {
        assert PassesAt(t, respond, k);
      }
      forall k': nat | PassesAt(t, respond, k') ensures k' == k {
        FirstAnswerUnique(respond, k, k');
      }
    } else {
      VerdictGivesUp(t, respond);
    }
  }

  /** The responses the runner gives to the attempts of test `i`. */
  function ResponsesOf(respond: (nat, nat) -> Response, i: nat): (r: nat -> Response)
    ensures forall k :: r(k) == respond(i, k)
  {
    (k: nat) => respond(i, k)
  }

  /** `executeCodeWithTestcases` after the runtime lookup: an unsupported
      language fails the whole run; otherwise there is one verdict per test
      case, in order, each from that test's own responses. The test cases
      run one after another here; the source runs them concurrently and
      collects the results in order. */
  method ExecuteWithTestcases(language: string, functionName: string, sourceCode: string, tests: seq<TestCase>,
                              isNumeric: string -> bool, respond: (nat, nat) -> Response)
    returns (r: Result<seq<TestResult>>)
    ensures r.Err? <==> !Supported(language) && |tests| > 0
    ensures r.Ok? ==> |r.value| == |tests|
    ensures r.Ok? ==> forall i | 0 <= i < |tests| :: r.value[i] == Verdict(tests[i], ResponsesOf(respond, i), 0)
  {
    ghost var expected := seq(|tests|, j requires 0 <= j < |tests| => Verdict(tests[j], ResponsesOf(respond, j), 0));
    var results: seq<TestResult> := [];
    var i := 0;
    while i < |tests|
      invariant 0 <= i <= |tests|
      invariant i > 0 ==> Supported(language)
      invariant results == expected[..i]
    {
      var outcome := RunOne(language, functionName, sourceCode, tests[i], isNumeric, ResponsesOf(respond, i));
      if outcome.Err? {
        return Err(outcome.message);
      }
      assert outcome.value == expected[i];
      PrefixGrows(expected, i);
      results := results + [outcome.value];
      i := i + 1;
    }
    assert results == expected;
    return Ok(results);
  }

  /** A prefix one longer is the prefix and the next element. */
  lemma PrefixGrows<T>(s: seq<T>, i: nat)
    requires i < |s|
    ensures s[..i + 1] == s[..i] + [s[i]]
  {
  }

  /** One test case of the run: its program is prepared, which fails only
      for an unsupported language, and then it is submitted with retries. */
  method RunOne(language: string, functionName: string, sourceCode: string, t: TestCase,
                isNumeric: string -> bool, respond: nat -> Response)
    returns (r: Result<TestResult>)
    ensures r.Err? <==> !Supported(language)
    ensures r.Ok? ==> r.value == Verdict(t, respond, 0)
  {
    var code := PrepareTestcaseCode(language, functionName, sourceCode, t.input, isNumeric);
    if code.Err? {
      return Err(code.message);
    }
    var verdict, _ := RunTestcase(t, respond);
    return Ok(verdict);
  }
}
