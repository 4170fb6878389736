/**
 * Importing a theme and its problems from an already-parsed JSON document of
 * the form `{ theme: {...}, problems: [...] }`: the shape check, the theme id
 * (its own copy of the slug function plus a suffix loop), the default-filled
 * records, and the sequence of store calls.
 */
module JsonImport {
  import opened Wrappers
  import opened Text
  import opened JsonValue
  import opened Entities
  import ThemeIds
  import DataManager

  /** Why an import stops; every case is a thrown error caught by the import screen. */
  datatype ImportError =
    | NullDocument           // `parsed.theme` read on `null`
    | MissingThemeOrProblems // `theme` or `problems` absent or falsy
    | MissingThemeName       // `theme.name` absent or falsy
    | ProblemsNotArray
    | NameNotText            // `toLowerCase` called on a name that is not a string
    | NullProblem(index: nat) // `problem.id` read on a `null` element

  /** The documents the shape check lets through, stated directly. */
  predicate WellFormedImport(parsed: Json)
  {
    && parsed.JObject?
    && "theme" in parsed.members && parsed.members["theme"].JObject?
    && "name" in parsed.members["theme"].members && Truthy(parsed.members["theme"].members["name"])
    && "problems" in parsed.members && parsed.members["problems"].JArray?
  }

  /** `validateJson` on the parsed value: the value itself, or the first check it fails. */
  function ValidateJson(parsed: Json): (r: Result<Json, ImportError>)
    ensures r.Ok? <==> WellFormedImport(parsed)
    ensures r.Ok? ==> r.value == parsed
    ensures parsed.JNull? ==> r == Err(NullDocument)
    ensures !parsed.JNull? && !(HasTruthy(parsed, "theme") && HasTruthy(parsed, "problems")) ==>
              r == Err(MissingThemeOrProblems)
    ensures HasTruthy(parsed, "theme") && HasTruthy(parsed, "problems") && !HasTruthy(parsed.members["theme"], "name") ==>
              r == Err(MissingThemeName)
    ensures HasTruthy(parsed, "theme") && HasTruthy(parsed, "problems") && HasTruthy(parsed.members["theme"], "name") &&
            !parsed.members["problems"].JArray? ==>
              r == Err(ProblemsNotArray)
  {
    if parsed.JNull? then Err(NullDocument)
    else if !HasTruthy(parsed, "theme") || !HasTruthy(parsed, "problems") then Err(MissingThemeOrProblems)
    else if !HasTruthy(parsed.members["theme"], "name") then Err(MissingThemeName)
    else if !parsed.members["problems"].JArray? then Err(ProblemsNotArray)
    else Ok(parsed)
  }

  /** The import screen's own `generateThemeId(name)`: the chain, or `theme` when it yields `''`. */
  function ImportThemeSlug(name: string): (r: string)
    ensures r == ThemeIds.BaseThemeId(name)
    ensures ThemeIds.IsSlug(r) && r != []
  {
    var slug := ThemeIds.SlugPipeline(name);
    if slug != [] then slug else "theme"
  }

  /**
   * Lines 80-85: the theme id, recomputing the slug on every pass; it differs
   * from every existing theme id, using `-1`, `-2`, ... on collision.
   */
  method ChooseImportThemeId(name: string, existingThemes: seq<Theme>) returns (themeId: string)
    ensures ThemeIds.FirstFreeCandidate(ThemeIds.BaseThemeId(name), existingThemes, themeId)
  {
    themeId := ImportThemeSlug(name);
    var counter := 1;
    while FindById(existingThemes, themeId).Some?
      invariant 1 <= counter <= |existingThemes| + 1
      invariant themeId == ThemeIds.Candidate(ThemeIds.BaseThemeId(name), counter - 1)
      invariant forall j :: 0 <= j < counter - 1 ==>
                  Taken(existingThemes, ThemeIds.Candidate(ThemeIds.BaseThemeId(name), j))
      decreases |existingThemes| + 1 - counter
    {
      ThemeIds.TakenAttemptBounded(ThemeIds.BaseThemeId(name), existingThemes, counter);
      themeId := ImportThemeSlug(name) + "-" + NatToString(counter);
      counter := counter + 1;
    }
    ThemeIds.FoundIsTaken(existingThemes, themeId);
    ThemeIds.StopsAtFirstFree(ThemeIds.BaseThemeId(name), existingThemes, counter, themeId);
  }

  const DefaultDescription: string := "Сипаттама жоқ"
  const DefaultIcon: string := "CodeOutlined"

  /** The defaults of a problem's description fields (lines 108-111). */
  const DefaultInput: string := "Кіру сипаттамасы жоқ"
  const DefaultOutput: string := "Шығару сипаттамасы жоқ"
  const DefaultSolution: string := "# Шешім коды жоқ"
  const DefaultExplanation: string := "Талдау жоқ"

  /** The theme record of lines 88-93. */
  function BuildTheme(themeId: string, name: string, theme: Json): (r: Theme)
    ensures HasId(r, themeId)
    ensures r.props.Keys == {"name", "description", "icon"}
    ensures r.props["name"] == JString(name)
    ensures HasTruthy(theme, "description") ==> r.props["description"] == theme.members["description"]
    ensures !HasTruthy(theme, "description") ==> r.props["description"] == JString(DefaultDescription)
    ensures HasTruthy(theme, "icon") ==> r.props["icon"] == theme.members["icon"]
    ensures !HasTruthy(theme, "icon") ==> r.props["icon"] == JString(DefaultIcon)
  {
    Record(JString(themeId), map[
      "name" := JString(name),
      "description" := GetOr(theme, "description", JString(DefaultDescription)),
      "icon" := GetOr(theme, "icon", JString(DefaultIcon))])
  }

  /** The id a problem without one receives: `themeId-(i+1)`. */
  function DefaultProblemId(themeId: string, i: nat): string
  {
    themeId + "-" + NatToString(i + 1)
  }

  /** The title a problem without one receives: `Есеп (i+1)`. */
  function DefaultTitle(i: nat): string
  {
    "Есеп " + NatToString(i + 1)
  }

  /**
   * The record for problem `i` (lines 103-113), or None for a `null` element,
   * on which reading `problem.id` throws.
   */
  function BuildProblem(problem: Json, themeId: string, i: nat): (r: Option<Problem>)
    ensures r.None? <==> problem.JNull?
  {
    if problem.JNull? then None
    else Some(Record(GetOr(problem, "id", JString(DefaultProblemId(themeId, i))), ProblemFields(problem, i)))
  }

  /** The fields of problem `i` other than its id. */
  function ProblemFields(problem: Json, i: nat): map<string, Json>
  {
    map[
      "title" := GetOr(problem, "title", JString(DefaultTitle(i))),
      "problemText" := GetOr(problem, "problemText", GetOr(problem, "title", JString(""))),
      "input" := GetOr(problem, "input", JString(DefaultInput)),
      "output" := GetOr(problem, "output", JString(DefaultOutput)),
      "solution" := GetOr(problem, "solution", JString(DefaultSolution)),
      "explanation" := GetOr(problem, "explanation", JString(DefaultExplanation)),
      "videoUrl" := GetOr(problem, "videoUrl", JString("")),
      "testCases" := GetOr(problem, "testCases", JArray([]))]
  }

  /** The fields of a built record: the element's own truthy value, or the default. */
  lemma BuildProblemDefaults(problem: Json, themeId: string, i: nat)
    requires !problem.JNull?
    ensures var p := BuildProblem(problem, themeId, i).value;
      && p.props.Keys == {"title", "problemText", "input", "output", "solution", "explanation", "videoUrl", "testCases"}
      && (HasTruthy(problem, "id") ==> p.id == problem.members["id"])
      && (!HasTruthy(problem, "id") ==> HasId(p, DefaultProblemId(themeId, i)))
      && (HasTruthy(problem, "title") ==> p.props["title"] == problem.members["title"])
      && (!HasTruthy(problem, "title") ==> p.props["title"] == JString(DefaultTitle(i)))
      && p.props["problemText"] ==
           (if HasTruthy(problem, "problemText") then problem.members["problemText"]
            else if HasTruthy(problem, "title") then problem.members["title"]
            else JString(""))
      && p.props["input"] == GetOr(problem, "input", JString(DefaultInput))
      && p.props["output"] == GetOr(problem, "output", JString(DefaultOutput))
      && p.props["solution"] == GetOr(problem, "solution", JString(DefaultSolution))
      && p.props["explanation"] == GetOr(problem, "explanation", JString(DefaultExplanation))
      && p.props["videoUrl"] == GetOr(problem, "videoUrl", JString(""))
      && p.props["testCases"] == GetOr(problem, "testCases", JArray([]))
  {
    var p := BuildProblem(problem, themeId, i).value;
    assert p.id == GetOr(problem, "id", JString(DefaultProblemId(themeId, i)));
    assert p.props == ProblemFields(problem, i);
    ProblemFieldsKeys(problem, i);
    ProblemFieldsDefaults(problem, i);
    ProblemFieldsDescriptions(problem, i);
  }

  lemma ProblemFieldsKeys(problem: Json, i: nat)
    ensures ProblemFields(problem, i).Keys ==
              {"title", "problemText", "input", "output", "solution", "explanation", "videoUrl", "testCases"}
  {
  }

  lemma ProblemFieldsDefaults(problem: Json, i: nat)
    ensures var fields := ProblemFields(problem, i);
      && fields["title"] == GetOr(problem, "title", JString(DefaultTitle(i)))
      && fields["problemText"] == GetOr(problem, "problemText", GetOr(problem, "title", JString("")))
      && fields["testCases"] == GetOr(problem, "testCases", JArray([]))
      && fields["videoUrl"] == GetOr(problem, "videoUrl", JString(""))
  {
  }

  lemma ProblemFieldsDescriptions(problem: Json, i: nat)
    ensures var fields := ProblemFields(problem, i);
      && fields["input"] == GetOr(problem, "input", JString(DefaultInput))
      && fields["output"] == GetOr(problem, "output", JString(DefaultOutput))
      && fields["solution"] == GetOr(problem, "solution", JString(DefaultSolution))
      && fields["explanation"] == GetOr(problem, "explanation", JString(DefaultExplanation))
  {
  }

  /** Every built record has a truthy id, title, input, output, solution, explanation and test-case list. */
  lemma BuiltProblemFieldsPresent(problem: Json, themeId: string, i: nat)
    requires !problem.JNull?
    ensures var p := BuildProblem(problem, themeId, i).value;
      && Truthy(p.id)
      && forall key :: key in {"title", "input", "output", "solution", "explanation", "testCases"} ==> Truthy(p.props[key])
  {
    var p := BuildProblem(problem, themeId, i).value;
    assert NatToString(i + 1) != [];
    assert DefaultProblemId(themeId, i) != [];
    assert p.id == GetOr(problem, "id", JString(DefaultProblemId(themeId, i)));
    assert p.props == ProblemFields(problem, i);
  }

  /** Two problems of one import that both lack an id receive different ids. */
  lemma DefaultProblemIdsDistinct(themeId: string, i: nat, j: nat)
    requires i != j
    ensures DefaultProblemId(themeId, i) != DefaultProblemId(themeId, j)
  {
    if DefaultProblemId(themeId, i) == DefaultProblemId(themeId, j) {
      DropPrefix(themeId + "-", NatToString(i + 1));
      DropPrefix(themeId + "-", NatToString(j + 1));
      NatToStringInjective(i + 1, j + 1);
    }
  }

  lemma DropPrefix(p: string, x: string)
    ensures (p + x)[|p|..] == x
  {
  }

  /** The records of the first n elements, when none of them is `null`. */
  function BuiltProblems(items: seq<Json>, themeId: string, n: nat): (r: seq<Problem>)
    requires n <= |items| && forall i :: 0 <= i < n ==> !items[i].JNull?
    ensures |r| == n
  {
    if n == 0 then [] else BuiltProblems(items, themeId, n - 1) + [BuildProblem(items[n - 1], themeId, n - 1).value]
  }

  /** The k-th imported record is built from the k-th element, with index k. */
  lemma {:induction false} BuiltProblemsAt(items: seq<Json>, themeId: string, n: nat, k: nat)
    requires n <= |items| && forall i :: 0 <= i < n ==> !items[i].JNull?
    requires k < n
    ensures Some(BuiltProblems(items, themeId, n)[k]) == BuildProblem(items[k], themeId, k)
  {
    if k < n - 1 {
      BuiltProblemsAt(items, themeId, n - 1, k);
    }
  }

  /** The index of the first `null` element, if any. */
  function FirstNull(items: seq<Json>): (r: Option<nat>)
    ensures r.Some? ==> r.value < |items| && items[r.value].JNull? && forall i :: 0 <= i < r.value ==> !items[i].JNull?
    ensures r.None? ==> forall i :: 0 <= i < |items| ==> !items[i].JNull?
  {
    if items == [] then None
    else if items[0].JNull? then Some(0)
    else match FirstNull(items[1..])
      case None => None
      case Some(k) => Some(k + 1)
  }

  /** How many elements are imported before the first `null` one (all of them when there is none). */
  function ImportedCount(items: seq<Json>): (n: nat)
    ensures n <= |items| && forall i :: 0 <= i < n ==> !items[i].JNull?
    ensures n < |items| <==> FirstNull(items).Some?
  {
    match FirstNull(items)
    case None => |items|
    case Some(k) => k
  }

  /**
   * The document after `added` were appended one by one to a theme's list;
   * with nothing appended the document is untouched (no key is created).
   */
  function Appended(doc: DataManager.ProblemsDoc, themeId: string, added: seq<Problem>): (r: DataManager.ProblemsDoc)
    ensures DataManager.ByTheme(r, themeId) == DataManager.ByTheme(doc, themeId) + added
    ensures forall t :: t != themeId ==> DataManager.ByTheme(r, t) == DataManager.ByTheme(doc, t)
  {
    if added == [] then doc else doc[themeId := DataManager.ByTheme(doc, themeId) + added]
  }

  /** Appending one more record is one more `addProblem`. */
  lemma AppendedStep(doc: DataManager.ProblemsDoc, themeId: string, added: seq<Problem>, p: Problem)
    ensures Appended(doc, themeId, added + [p]) ==
            Appended(doc, themeId, added)[themeId := DataManager.ByTheme(Appended(doc, themeId, added), themeId) + [p]]
  {
    if added == [] {
      assert added + [p] == [p];
    } else {
      assert DataManager.ByTheme(doc, themeId) + added + [p] == DataManager.ByTheme(doc, themeId) + (added + [p]);
    }
  }

  /**
   * Lines 97-117: one `addProblem` per element in input order; a `null`
   * element stops the loop. `problemWriteOk(i)` is the outcome of the i-th write.
   */
  method AddImportedProblems(store: DataManager.DataStore, themeId: string, items: seq<Json>, problemWriteOk: nat -> bool)
    returns (stopped: Option<nat>)
    requires store.Valid()
    modifies store`problemsFallback, store`problemsCache
    ensures store.Valid()
    ensures stopped == FirstNull(items)
    ensures store.GetThemes() == old(store.GetThemes())
    ensures store.GetProblems() == Appended(old(store.GetProblems()), themeId, BuiltProblems(items, themeId, ImportedCount(items)))
  {
    ghost var doc := store.GetProblems();
    var i := 0;
    while i < |items|
      invariant 0 <= i <= |items|
      invariant forall k :: 0 <= k < i ==> !items[k].JNull?
      invariant store.GetProblems() == Appended(doc, themeId, BuiltProblems(items, themeId, i))
    {
      var problemData := BuildProblem(items[i], themeId, i);
      if problemData.None? {
        FirstNullIs(items, i);
        stopped := Some(i);
        return;
      }
      assert forall k :: 0 <= k < i + 1 ==> !items[k].JNull?;
      ghost var built := BuiltProblems(items, themeId, i);
      ghost var current := store.GetProblems();
      var _ := store.AddProblem(themeId, problemData.value, problemWriteOk(i));
      assert store.GetProblems() == current[themeId := DataManager.ByTheme(current, themeId) + [problemData.value]];
      AppendedStep(doc, themeId, built, problemData.value);
      assert store.GetProblems() == Appended(doc, themeId, built + [problemData.value]);
      assert BuiltProblems(items, themeId, i + 1) == built + [problemData.value];
      i := i + 1;
    }
    FirstNullNone(items);
    stopped := None;
  }

  /** A `null` at i with none before it is the first `null`. */
  lemma {:induction false} FirstNullIs(items: seq<Json>, i: nat)
    requires i < |items| && items[i].JNull? && forall k :: 0 <= k < i ==> !items[k].JNull?
    ensures FirstNull(items) == Some(i)
  {
    if i > 0 {
      assert items[1..][i - 1] == items[i];
      FirstNullIs(items[1..], i - 1);
    }
  }

  /** Without any `null` there is no first one. */
  lemma FirstNullNone(items: seq<Json>)
    requires forall k :: 0 <= k < |items| ==> !items[k].JNull?
    ensures FirstNull(items) == None
  {
  }

  /**
   * Lines 77-117 once the document passed the checks: choose the id, add the
   * theme, then add the problems.
   */
  method AddImportedTheme(store: DataManager.DataStore, name: string, theme: Json, items: seq<Json>,
                          themeWriteOk: bool, problemWriteOk: nat -> bool)
    returns (themeId: string, stopped: Option<nat>)
    requires store.Valid()
    modifies store`themesFallback, store`themesCache, store`problemsFallback, store`problemsCache
    ensures store.Valid()
    ensures ThemeIds.FirstFreeCandidate(ThemeIds.BaseThemeId(name), old(store.GetThemes()), themeId)
    ensures store.GetThemes() == old(store.GetThemes()) + [BuildTheme(themeId, name, theme)]
    ensures store.GetProblems() == Appended(old(store.GetProblems()), themeId, BuiltProblems(items, themeId, ImportedCount(items)))
    ensures stopped == FirstNull(items)
  {
    var existingThemes := store.GetThemes();
    ghost var problemsBefore := store.GetProblems();
    themeId := ChooseImportThemeId(name, existingThemes);
    var themeObj := BuildTheme(themeId, name, theme);
    var _ := store.AddTheme(themeObj, themeWriteOk);
    assert store.GetProblems() == problemsBefore;
    ghost var themesAfter := store.GetThemes();
    assert themesAfter == existingThemes + [themeObj];
    stopped := AddImportedProblems(store, themeId, items, problemWriteOk);
    assert store.GetThemes() == themesAfter;
  }

  /** The effect of a successful or partially successful import on the store. */
  ghost predicate Imported(parsed: Json, themesBefore: seq<Theme>, themesAfter: seq<Theme>,
                           problemsBefore: DataManager.ProblemsDoc, problemsAfter: DataManager.ProblemsDoc)
  {
    && WellFormedImport(parsed)
    && var theme := parsed.members["theme"];
    && var items := parsed.members["problems"].items;
    && theme.members["name"].JString?
    && exists themeId ::
      && ThemeIds.FirstFreeCandidate(ThemeIds.BaseThemeId(theme.members["name"].s), themesBefore, themeId)
      && themesAfter == themesBefore + [BuildTheme(themeId, theme.members["name"].s, theme)]
      && problemsAfter == Appended(problemsBefore, themeId, BuiltProblems(items, themeId, ImportedCount(items)))
  }

  /**
   * `handleImportToFirebase` from a parsed document: the shape check, the
   * theme id, `addTheme`, then the problems. A `null` element ends the import
   * with an error after the theme and the problems before it were added.
   */
  method ImportToStore(store: DataManager.DataStore, parsed: Json, themeWriteOk: bool, problemWriteOk: nat -> bool)
    returns (r: Result<Theme, ImportError>)
    requires store.Valid()
    modifies store`themesFallback, store`themesCache, store`problemsFallback, store`problemsCache
    ensures store.Valid()
    ensures !WellFormedImport(parsed) ==> r == Err(ValidateJson(parsed).error)
    ensures WellFormedImport(parsed) && !parsed.members["theme"].members["name"].JString? ==> r == Err(NameNotText)
    ensures r.Err? && !r.error.NullProblem? ==>
              store.GetThemes() == old(store.GetThemes()) && store.GetProblems() == old(store.GetProblems())
    ensures r.Ok? || r.error.NullProblem? ==>
              Imported(parsed, old(store.GetThemes()), store.GetThemes(),
                       old(store.GetProblems()), store.GetProblems())
    ensures r.Ok? <==> WellFormedImport(parsed) && parsed.members["theme"].members["name"].JString? &&
                       FirstNull(parsed.members["problems"].items).None?
    ensures r.Err? && r.error.NullProblem? ==> Some(r.error.index) == FirstNull(parsed.members["problems"].items)
  {
    var validated := ValidateJson(parsed);
    if validated.Err? {
      return Err(validated.error);
    }
    var theme := parsed.members["theme"];
    var name := theme.members["name"];
    if !name.JString? {
      return Err(NameNotText);
    }
    var themeId, stopped := AddImportedTheme(store, name.s, theme, parsed.members["problems"].items,
                                             themeWriteOk, problemWriteOk);
    if stopped.Some? {
      return Err(NullProblem(stopped.value));
    }
    return Ok(BuildTheme(themeId, name.s, theme));
  }
}
