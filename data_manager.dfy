/**
 * The in-memory data layer: a mirror of two remote documents (the themes list
 * and the problems-by-theme map), synchronous getters over it, read-modify-write
 * mutations, refresh from a point read, and one push listener per document.
 *
 * The remote store is abstracted away: a document write is a `writeOk` flag, a
 * point read or a push notification is a `Snapshot` argument, and a listener is
 * a number in a registry of live listeners.
 *
 * Each cache variable holds nothing, the bundled fallback object itself, or an
 * object loaded from the store. The getters return the live object (the cached
 * one, else the fallback), and mutations edit that object in place BEFORE the
 * write, so the local view changes whatever the write outcome. When nothing is
 * cached the edited object is the fallback.
 */
module DataManager {
  import opened Wrappers
  import opened JsonValue
  import opened Entities

  /** The `problems` document: theme id to that theme's problems, in insertion order. */
  type ProblemsDoc = map<string, seq<Problem>>

  /** What a cache variable holds: `null`, the fallback object itself, or a loaded object. */
  datatype Slot<T> = Empty | Fallback | Loaded(value: T)

  /** The store's answer about one document, from a point read or a push. */
  datatype Snapshot<T> = Present(data: T) | Absent | Failed

  /** The unsubscribe function handed back by a subscription. */
  datatype Unsubscribe = NoOp | StopListener(listener: nat)

  /** The object a getter returns: the loaded one, else the fallback. */
  function Live<T>(cache: Slot<T>, fallback: T): T
  {
    if cache.Loaded? then cache.value else fallback
  }

  /**
   * The cache variable and the fallback object after the live object is
   * overwritten with `doc` in place: the loaded object if there is one, else the
   * fallback object. When `committed`, the cache variable is then pointed at the
   * edited object (`cache = liveObject` after a successful write).
   */
  function EditInPlace<T>(cache: Slot<T>, fallback: T, doc: T, committed: bool): (r: (Slot<T>, T))
    ensures Live(r.0, r.1) == doc
    ensures r.0.Loaded? == cache.Loaded?
    ensures cache.Loaded? ==> r.1 == fallback
  {
    if cache.Loaded? then (Loaded(doc), fallback)
    else (if committed then Fallback else cache, doc)
  }

  /** The problems of one theme in a document; a missing key reads as no problems. */
  function ByTheme(doc: ProblemsDoc, themeId: string): (r: seq<Problem>)
    ensures themeId !in doc ==> r == []
    ensures themeId in doc ==> r == doc[themeId]
  {
    if themeId in doc then doc[themeId] else []
  }

  function ListenerSet(current: Option<nat>): set<nat>
  {
    if current.Some? then {current.value} else {}
  }

  class DataStore {
    /** `isFirebaseConfigured()`, fixed when the module loads. */
    const storeConfigured: bool

    /** The bundled `problems.json` / `themes.json` objects; mutable, like any imported object. */
    var problemsFallback: ProblemsDoc
    var themesFallback: seq<Theme>

    var problemsCache: Slot<ProblemsDoc>
    var themesCache: Slot<seq<Theme>>

    /** The listener behind `problemsUnsubscribe` / `themesUnsubscribe`, if one was installed. */
    var problemsListener: Option<nat>
    var themesListener: Option<nat>

    /** The listeners the remote store still notifies. */
    var liveProblemsListeners: set<nat>
    var liveThemesListeners: set<nat>
    var nextListener: nat

    /**
     * Only the most recently installed listener of each document can still be
     * live, and the two documents never share a listener (both draw from one
     * counter), so stopping a handle stops at most one of them.
     */
    ghost predicate Valid()
      reads this`problemsListener, this`themesListener, this`liveProblemsListeners, this`liveThemesListeners,
            this`nextListener
    {
      && liveProblemsListeners <= ListenerSet(problemsListener)
      && liveThemesListeners <= ListenerSet(themesListener)
      && (problemsListener.Some? ==> problemsListener.value < nextListener)
      && (themesListener.Some? ==> themesListener.value < nextListener)
      && (!storeConfigured ==> problemsListener == None && themesListener == None)
      && (problemsListener.Some? && themesListener.Some? ==> problemsListener.value != themesListener.value)
      && liveProblemsListeners !! liveThemesListeners
    }

    /** The state when the module has just loaded: nothing cached, no listener. */
    constructor (storeConfigured: bool, problemsFallback: ProblemsDoc, themesFallback: seq<Theme>)
      ensures Valid()
      ensures this.storeConfigured == storeConfigured
      ensures this.problemsFallback == problemsFallback && this.themesFallback == themesFallback
      ensures problemsCache == Empty && themesCache == Empty
      ensures problemsListener == None && themesListener == None
      ensures liveProblemsListeners == {} && liveThemesListeners == {}
      ensures GetProblems() == problemsFallback && GetThemes() == themesFallback
    {
      this.storeConfigured := storeConfigured;
      this.problemsFallback := problemsFallback;
      this.themesFallback := themesFallback;
      problemsCache, themesCache := Empty, Empty;
      problemsListener, themesListener := None, None;
      liveProblemsListeners, liveThemesListeners := {}, {};
      nextListener := 0;
    }

    // -------------------------------------------------------------------------
    // Synchronous reads

    /** `getProblems()`: the cached document when one is set, otherwise the fallback; never fails. */
    function GetProblems(): (r: ProblemsDoc)
      reads this`problemsCache, this`problemsFallback
      ensures problemsCache.Loaded? ==> r == problemsCache.value
      ensures !problemsCache.Loaded? ==> r == problemsFallback
    {
      Live(problemsCache, problemsFallback)
    }

    /** `getThemes()`: the cached list when one is set, otherwise the fallback; never fails. */
    function GetThemes(): (r: seq<Theme>)
      reads this`themesCache, this`themesFallback
      ensures themesCache.Loaded? ==> r == themesCache.value
      ensures !themesCache.Loaded? ==> r == themesFallback
    {
      Live(themesCache, themesFallback)
    }

    /** `getProblemsByTheme(themeId)`: the theme's list, or empty when the key is absent. */
    function GetProblemsByTheme(themeId: string): (r: seq<Problem>)
      reads this`problemsCache, this`problemsFallback
      ensures themeId in GetProblems() ==> r == GetProblems()[themeId]
      ensures themeId !in GetProblems() ==> r == []
    {
      ByTheme(GetProblems(), themeId)
    }

    /** `getProblemById(themeId, problemId)`: the first problem of the theme with that id, if any. */
    function GetProblemById(themeId: string, problemId: string): (r: Option<Problem>)
      reads this`problemsCache, this`problemsFallback
      ensures r.Some? <==> exists j :: 0 <= j < |GetProblemsByTheme(themeId)| && HasId(GetProblemsByTheme(themeId)[j], problemId)
      ensures r.Some? ==> HasId(r.value, problemId)
      ensures r.Some? ==> exists j :: 0 <= j < |GetProblemsByTheme(themeId)| && r.value == GetProblemsByTheme(themeId)[j] &&
                            forall i :: 0 <= i < j ==> !HasId(GetProblemsByTheme(themeId)[i], problemId)
    {
      FindById(GetProblemsByTheme(themeId), problemId)
    }

    /** `getThemeById(themeId)`: the first theme with that id, if any. */
    function GetThemeById(themeId: string): (r: Option<Theme>)
      reads this`themesCache, this`themesFallback
      ensures r.Some? <==> exists j :: 0 <= j < |GetThemes()| && HasId(GetThemes()[j], themeId)
      ensures r.Some? ==> HasId(r.value, themeId)
      ensures r.Some? ==> exists j :: 0 <= j < |GetThemes()| && r.value == GetThemes()[j] &&
                            forall i :: 0 <= i < j ==> !HasId(GetThemes()[i], themeId)
    {
      FindById(GetThemes(), themeId)
    }

    // -------------------------------------------------------------------------
    // Editing the live objects

    /** Overwrites the live problems object with `doc`. */
    method EditLiveProblems(doc: ProblemsDoc)
      modifies this`problemsFallback, this`problemsCache
      ensures (problemsCache, problemsFallback) == EditInPlace(old(problemsCache), old(problemsFallback), doc, false)
    {
      if problemsCache.Loaded? {
        problemsCache := Loaded(doc);
      } else {
        problemsFallback := doc;
      }
    }

    /** Overwrites the live themes list with `themes`. */
    method EditLiveThemes(themes: seq<Theme>)
      modifies this`themesFallback, this`themesCache
      ensures (themesCache, themesFallback) == EditInPlace(old(themesCache), old(themesFallback), themes, false)
    {
      if themesCache.Loaded? {
        themesCache := Loaded(themes);
      } else {
        themesFallback := themes;
      }
    }

    /** `problemsCache = problems` where `problems` is the live object. */
    method CommitProblems()
      modifies this`problemsCache
      ensures problemsCache == (if old(problemsCache).Loaded? then old(problemsCache) else Fallback)
    {
      if !problemsCache.Loaded? {
        problemsCache := Fallback;
      }
    }

    /** `themesCache = themes` where `themes` is the live list. */
    method CommitThemes()
      modifies this`themesCache
      ensures themesCache == (if old(themesCache).Loaded? then old(themesCache) else Fallback)
    {
      if !themesCache.Loaded? {
        themesCache := Fallback;
      }
    }

    // -------------------------------------------------------------------------
    // Mutations on problems

    /**
     * `addProblem(themeId, problem)`: appends to the theme's list (created empty
     * when absent) and always reports success, whatever the write outcome.
     */
    method AddProblem(themeId: string, problem: Problem, writeOk: bool) returns (ok: bool)
      requires Valid()
      modifies this`problemsFallback, this`problemsCache
      ensures Valid() && ok
      ensures (problemsCache, problemsFallback) ==
              EditInPlace(old(problemsCache), old(problemsFallback),
                          old(GetProblems())[themeId := old(GetProblemsByTheme(themeId)) + [problem]],
                          storeConfigured && writeOk)
      ensures GetProblems() == old(GetProblems())[themeId := old(GetProblemsByTheme(themeId)) + [problem]]
      ensures GetProblemsByTheme(themeId) == old(GetProblemsByTheme(themeId)) + [problem]
      ensures forall t :: t != themeId ==> GetProblemsByTheme(t) == old(GetProblemsByTheme(t))
    {
      var problems := GetProblems();
      if themeId !in problems {
        problems := problems[themeId := []];
      }
      problems := problems[themeId := problems[themeId] + [problem]];
      assert problems == GetProblems()[themeId := GetProblemsByTheme(themeId) + [problem]];
      EditLiveProblems(problems);
      if storeConfigured && writeOk {
        CommitProblems();
      }
      ok := true;
    }

    /**
     * `updateProblem(themeId, problemId, updated)`: replaces the first problem
     * with that id by `{ ...updated, id: problemId }`; false, with nothing
     * changed, when the theme key is absent or no problem has that id.
     */
    method UpdateProblem(themeId: string, problemId: string, updated: Problem, writeOk: bool) returns (ok: bool)
      requires Valid()
      modifies this`problemsFallback, this`problemsCache
      ensures Valid()
      ensures ok <==> themeId in old(GetProblems()) &&
                      exists j :: 0 <= j < |old(GetProblems())[themeId]| && HasId(old(GetProblems())[themeId][j], problemId)
      ensures !ok ==> problemsCache == old(problemsCache) && problemsFallback == old(problemsFallback)
      ensures ok ==>
        var before := old(GetProblems())[themeId];
        var k := FirstIndexWithId(before, problemId).value;
        && (problemsCache, problemsFallback) ==
           EditInPlace(old(problemsCache), old(problemsFallback),
                       old(GetProblems())[themeId := before[k := WithId(updated, problemId)]],
                       storeConfigured && writeOk)
        && |GetProblemsByTheme(themeId)| == |before|
        && GetProblemsByTheme(themeId)[k] == WithId(updated, problemId)
        && (forall i :: 0 <= i < |before| && i != k ==> GetProblemsByTheme(themeId)[i] == before[i])
        && (forall t :: t != themeId ==> GetProblemsByTheme(t) == old(GetProblemsByTheme(t)))
    {
      var problems := GetProblems();
      if themeId in problems {
        var index := FirstIndexWithId(problems[themeId], problemId);
        if index.Some? {
          problems := problems[themeId := problems[themeId][index.value := WithId(updated, problemId)]];
          EditLiveProblems(problems);
          if storeConfigured && writeOk {
            CommitProblems();
          }
          return true;
        }
      }
      return false;
    }

    /**
     * `deleteProblem(themeId, problemId)`: false, with nothing changed, only
     * when the theme key is absent; otherwise drops every problem with that id.
     */
    method DeleteProblem(themeId: string, problemId: string, writeOk: bool) returns (ok: bool)
      requires Valid()
      modifies this`problemsFallback, this`problemsCache
      ensures Valid()
      ensures ok <==> themeId in old(GetProblems())
      ensures !ok ==> problemsCache == old(problemsCache) && problemsFallback == old(problemsFallback)
      ensures ok ==>
        && (problemsCache, problemsFallback) ==
           EditInPlace(old(problemsCache), old(problemsFallback),
                       old(GetProblems())[themeId := RemoveWithId(old(GetProblems())[themeId], problemId)],
                       storeConfigured && writeOk)
        && GetProblemsByTheme(themeId) == RemoveWithId(old(GetProblemsByTheme(themeId)), problemId)
        && (forall t :: t != themeId ==> GetProblemsByTheme(t) == old(GetProblemsByTheme(t)))
    {
      var problems := GetProblems();
      if themeId in problems {
        problems := problems[themeId := RemoveWithId(problems[themeId], problemId)];
        EditLiveProblems(problems);
        if storeConfigured && writeOk {
          CommitProblems();
        }
        return true;
      }
      return false;
    }

    // -------------------------------------------------------------------------
    // Mutations on themes

    /** `addTheme(theme)`: appends to the themes list and always reports success. */
    method AddTheme(theme: Theme, writeOk: bool) returns (ok: bool)
      requires Valid()
      modifies this`themesFallback, this`themesCache
      ensures Valid() && ok
      ensures (themesCache, themesFallback) ==
              EditInPlace(old(themesCache), old(themesFallback), old(GetThemes()) + [theme], storeConfigured && writeOk)
      ensures GetThemes() == old(GetThemes()) + [theme]
    {
      var themes := GetThemes() + [theme];
      EditLiveThemes(themes);
      if storeConfigured && writeOk {
        CommitThemes();
      }
      ok := true;
    }

    /**
     * `updateTheme(themeId, updated)`: replaces the first theme with that id by
     * `{ ...updated, id: themeId }`; false, with nothing changed, when none has it.
     */
    method UpdateTheme(themeId: string, updated: Theme, writeOk: bool) returns (ok: bool)
      requires Valid()
      modifies this`themesFallback, this`themesCache
      ensures Valid()
      ensures ok <==> exists j :: 0 <= j < |old(GetThemes())| && HasId(old(GetThemes())[j], themeId)
      ensures !ok ==> themesCache == old(themesCache) && themesFallback == old(themesFallback)
      ensures ok ==>
        var k := FirstIndexWithId(old(GetThemes()), themeId).value;
        && (themesCache, themesFallback) ==
           EditInPlace(old(themesCache), old(themesFallback), old(GetThemes())[k := WithId(updated, themeId)],
                       storeConfigured && writeOk)
        && |GetThemes()| == |old(GetThemes())|
        && GetThemes()[k] == WithId(updated, themeId)
        && (forall i :: 0 <= i < |GetThemes()| && i != k ==> GetThemes()[i] == old(GetThemes())[i])
    {
      var themes := GetThemes();
      var index := FirstIndexWithId(themes, themeId);
      if index.Some? {
        themes := themes[index.value := WithId(updated, themeId)];
        EditLiveThemes(themes);
        if storeConfigured && writeOk {
          CommitThemes();
        }
        return true;
      }
      return false;
    }

    /**
     * `deleteTheme(themeId)`: false, with nothing changed, when no theme has the
     * id. Otherwise true, and the theme's key leaves the live problems object on
     * every path; the themes cache is swapped for the filtered list only when the
     * themes write succeeded. The outcome of the second (problems) write is
     * awaited but not inspected, so it is not a parameter.
     */
    method DeleteTheme(themeId: string, writeOk: bool) returns (ok: bool)
      requires Valid()
      modifies this`problemsFallback, this`problemsCache, this`themesCache
      ensures Valid()
      ensures ok <==> exists j :: 0 <= j < |old(GetThemes())| && HasId(old(GetThemes())[j], themeId)
      ensures !ok ==> problemsCache == old(problemsCache) && problemsFallback == old(problemsFallback)
                      && themesCache == old(themesCache)
      ensures ok ==> (problemsCache, problemsFallback) ==
                     EditInPlace(old(problemsCache), old(problemsFallback), old(GetProblems()) - {themeId},
                                 storeConfigured && writeOk)
      ensures ok ==> GetProblemsByTheme(themeId) == []
      ensures ok ==> forall t :: t != themeId ==> GetProblemsByTheme(t) == old(GetProblemsByTheme(t))
      ensures ok && storeConfigured && writeOk ==> themesCache == Loaded(RemoveWithId(old(GetThemes()), themeId))
      ensures !(ok && storeConfigured && writeOk) ==> themesCache == old(themesCache)
    {
      var themes := GetThemes();
      var filteredThemes := RemoveWithId(themes, themeId);
      if |filteredThemes| < |themes| {
        if storeConfigured && writeOk {
          themesCache := Loaded(filteredThemes);
          var problems := GetProblems();
          EditLiveProblems(problems - {themeId});
          CommitProblems();
          return true;
        }
        var problems := GetProblems();
        EditLiveProblems(problems - {themeId});
        return true;
      }
      return false;
    }

    // -------------------------------------------------------------------------
    // Refresh from a point read

    /** `refreshProblems()`: the read document when the store is configured and has it, else the fallback. */
    method RefreshProblems(read: Snapshot<ProblemsDoc>) returns (data: ProblemsDoc)
      modifies this`problemsCache
      ensures storeConfigured && read.Present? ==> problemsCache == Loaded(read.data) && data == read.data
      ensures !(storeConfigured && read.Present?) ==> problemsCache == Fallback && data == problemsFallback
      ensures GetProblems() == data
    {
      if storeConfigured && read.Present? {
        problemsCache := Loaded(read.data);
        return read.data;
      }
      problemsCache := Fallback;
      return problemsFallback;
    }

    /**
     * `refreshThemes()`: a present document yields its `themes` field (`[]` when
     * that is absent); otherwise the fallback.
     */
    method RefreshThemes(read: Snapshot<Option<seq<Theme>>>) returns (data: seq<Theme>)
      modifies this`themesCache
      ensures storeConfigured && read.Present? ==>
                themesCache == Loaded(data) && data == (if read.data.Some? then read.data.value else [])
      ensures !(storeConfigured && read.Present?) ==> themesCache == Fallback && data == themesFallback
      ensures GetThemes() == data
    {
      if storeConfigured && read.Present? {
        data := if read.data.Some? then read.data.value else [];
        themesCache := Loaded(data);
        return;
      }
      themesCache := Fallback;
      return themesFallback;
    }

    // -------------------------------------------------------------------------
    // Subscriptions

    /**
     * `subscribeToProblems(callback)`. Without a store the callback gets the
     * fallback at once and the handle does nothing. Otherwise the previous
     * listener, if any, is stopped before a fresh one is installed; its first
     * snapshot arrives later as a push.
     */
    method SubscribeToProblems() returns (handle: Unsubscribe, delivered: Option<ProblemsDoc>)
      requires Valid()
      modifies this`problemsListener, this`liveProblemsListeners, this`nextListener
      ensures Valid()
      ensures !storeConfigured ==>
        && handle == NoOp && delivered == Some(problemsFallback)
        && problemsListener == old(problemsListener) && liveProblemsListeners == old(liveProblemsListeners)
        && nextListener == old(nextListener)
      ensures storeConfigured ==>
        && delivered == None
        && handle == StopListener(old(nextListener))
        && problemsListener == Some(old(nextListener))
        && liveProblemsListeners == {old(nextListener)}
        && nextListener == old(nextListener) + 1
      ensures old(problemsListener).Some? ==> old(problemsListener).value !in liveProblemsListeners
    {
      if !storeConfigured {
        return NoOp, Some(problemsFallback);
      }
      if problemsListener.Some? {
        liveProblemsListeners := liveProblemsListeners - {problemsListener.value};
      }
      var listener := nextListener;
      nextListener := nextListener + 1;
      liveProblemsListeners := liveProblemsListeners + {listener};
      problemsListener := Some(listener);
      return StopListener(listener), None;
    }

    /** `subscribeToThemes(callback)`: as for problems. */
    method SubscribeToThemes() returns (handle: Unsubscribe, delivered: Option<seq<Theme>>)
      requires Valid()
      modifies this`themesListener, this`liveThemesListeners, this`nextListener
      ensures Valid()
      ensures !storeConfigured ==>
        && handle == NoOp && delivered == Some(themesFallback)
        && themesListener == old(themesListener) && liveThemesListeners == old(liveThemesListeners)
        && nextListener == old(nextListener)
      ensures storeConfigured ==>
        && delivered == None
        && handle == StopListener(old(nextListener))
        && themesListener == Some(old(nextListener))
        && liveThemesListeners == {old(nextListener)}
        && nextListener == old(nextListener) + 1
      ensures old(themesListener).Some? ==> old(themesListener).value !in liveThemesListeners
    {
      if !storeConfigured {
        return NoOp, Some(themesFallback);
      }
      if themesListener.Some? {
        liveThemesListeners := liveThemesListeners - {themesListener.value};
      }
      var listener := nextListener;
      nextListener := nextListener + 1;
      liveThemesListeners := liveThemesListeners + {listener};
      themesListener := Some(listener);
      return StopListener(listener), None;
    }

    /**
     * A push to a problems listener: a present document becomes the cache before
     * the callback sees it; a missing document hands the callback the fallback;
     * a listener error hands it the cache or the fallback. A stopped listener
     * hears nothing.
     */
    method OnProblemsPush(listener: nat, snapshot: Snapshot<ProblemsDoc>) returns (delivered: Option<ProblemsDoc>)
      modifies this`problemsCache
      ensures listener !in liveProblemsListeners ==> delivered == None && problemsCache == old(problemsCache)
      ensures listener in liveProblemsListeners ==> match snapshot
        case Present(data) => problemsCache == Loaded(data) && delivered == Some(data) && GetProblems() == data
        case Absent => problemsCache == old(problemsCache) && delivered == Some(problemsFallback)
        case Failed => problemsCache == old(problemsCache) && delivered == Some(GetProblems())
    {
      if listener !in liveProblemsListeners {
        return None;
      }
      match snapshot
      case Present(data) =>
        problemsCache := Loaded(data);
        delivered := Some(data);
      case Absent =>
        delivered := Some(problemsFallback);
      case Failed =>
        delivered := Some(GetProblems());
    }

    /** A push to a themes listener: as for problems, a present document without `themes` reading as `[]`. */
    method OnThemesPush(listener: nat, snapshot: Snapshot<Option<seq<Theme>>>) returns (delivered: Option<seq<Theme>>)
      modifies this`themesCache
      ensures listener !in liveThemesListeners ==> delivered == None && themesCache == old(themesCache)
      ensures listener in liveThemesListeners ==> match snapshot
        case Present(field) =>
          var data := if field.Some? then field.value else [];
          themesCache == Loaded(data) && delivered == Some(data) && GetThemes() == data
        case Absent => themesCache == old(themesCache) && delivered == Some(themesFallback)
        case Failed => themesCache == old(themesCache) && delivered == Some(GetThemes())
    {
      if listener !in liveThemesListeners {
        return None;
      }
      match snapshot
      case Present(field) =>
        var data := if field.Some? then field.value else [];
        themesCache := Loaded(data);
        delivered := Some(data);
      case Absent =>
        delivered := Some(themesFallback);
      case Failed =>
        delivered := Some(GetThemes());
    }

    /** Calling an unsubscribe handle: stops that listener; harmless when repeated or a no-op. */
    method CallUnsubscribe(handle: Unsubscribe)
      requires Valid()
      modifies this`liveProblemsListeners, this`liveThemesListeners
      ensures Valid()
      ensures handle.NoOp? ==> liveProblemsListeners == old(liveProblemsListeners) &&
                               liveThemesListeners == old(liveThemesListeners)
      ensures handle.StopListener? ==>
        && liveProblemsListeners == old(liveProblemsListeners) - {handle.listener}
        && liveThemesListeners == old(liveThemesListeners) - {handle.listener}
    {
      if handle.StopListener? {
        liveProblemsListeners := liveProblemsListeners - {handle.listener};
        liveThemesListeners := liveThemesListeners - {handle.listener};
      }
    }
  }

  /** At most one problems listener and one themes listener are live at any time. */
  lemma AtMostOneLiveListener(store: DataStore)
    requires store.Valid()
    ensures |store.liveProblemsListeners| <= 1 && |store.liveThemesListeners| <= 1
  {
    SubsetCardinality(store.liveProblemsListeners, ListenerSet(store.problemsListener));
    SubsetCardinality(store.liveThemesListeners, ListenerSet(store.themesListener));
  }

  /**
   * A sequence of calls: add a theme and a problem under it, then delete the
   * theme; every read sees the caller's own writes.
   */
  method LoopsScenario() returns (themesAfter: seq<Theme>, loopsAfter: seq<Problem>)
    ensures themesAfter == [] && loopsAfter == []
  {
    var store := new DataStore(true, map[], []);
    var loops := Record(JString("loops"), map["name" := JString("Loops"), "description" := JString("d"),
                                              "icon" := JString("CodeOutlined")]);
    var p1 := Record(JString("p1"), map["title" := JString("T")]);
    var ok := store.AddTheme(loops, true);
    assert store.GetThemes() == [loops];
    ok := store.AddProblem("loops", p1, true);
    assert store.GetProblemsByTheme("loops") == [p1];
    assert HasId(store.GetThemes()[0], "loops");
    ok := store.DeleteTheme("loops", true);
    assert ok;
    themesAfter, loopsAfter := store.GetThemes(), store.GetProblemsByTheme("loops");
  }
}
