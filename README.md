# pylearn-app core, modelled in Dafny

pylearn-app is a small React site for learning Python. Themes group
programming problems. Admins create themes and problems, either through a form
or by importing a JSON document. Problems can carry a video, either a YouTube
link or a Firebase Storage file. Visitors register and log in against accounts
kept in the browser's local storage.

This project models the logic under those screens and proves what it promises.

- `data_manager.dfy` (module `DataManager`) is the in-memory data layer, written
  as the class `DataStore`. It mirrors two remote documents: the themes list
  and the problems map from theme id to that theme's problems. It offers:
  - synchronous getters;
  - read-modify-write mutations that edit the live object in place before the
    write;
  - refresh from a point read;
  - one push listener per document.

  The remote store becomes arguments: a write outcome is a `bool`, and a read
  or a push is a `Snapshot`.
- `theme_id.dfy` (module `ThemeIds`) covers the theme form.
  - The slug chain turns a theme name into a base id.
  - The suffix loop makes that id unique among the existing themes.
  - The form's choice between the route's id (edit) and a generated one (new).
- `json_import.dfy` (module `JsonImport`) covers the JSON import. It works on an
  already-parsed document:
  - the shape check;
  - the import's own copy of the slug function;
  - its unique-id loop;
  - the default-filled theme and problem records;
  - the `addTheme` call and the `addProblem` loop.
- `video_utils.dfy` (module `VideoUtils`) covers YouTube URL normalisation and
  the two URL classifiers. Each of the two regular expressions is modelled as
  a leftmost search.
- `auth.dfy` (module `Auth`) is the account registry, written as the class
  `AccountStore`. It holds the stored users and the current session, and it
  offers `login`, `register`, `logout` and the session queries.
- The shared modules are:
  - `wrappers.dfy` (`Option`, `Result`);
  - `text.dfy`: JavaScript whitespace, `trim`, `includes`, and the decimal
    rendering of a counter;
  - `json.dfy`: parsed values and JavaScript truthiness;
  - `entities.dfy`: themes and problems as records with an `id` and named
    properties, plus the `find`, `findIndex` and `filter` helpers.

The model follows the code on these points:
- Nothing memoises the initial load. The module starts both refreshes once, at
  load time (`src/utils/dataManager.js:403-408`).
- Mutations edit the object the getter returned, before the write. When
  nothing is cached, that object is the bundled fallback itself. So the local
  view changes even when the write fails.
- A push for a document that does not exist hands the callback the fallback,
  not the cache (`src/utils/dataManager.js:136-138`).
- `deleteTheme` removes the theme's key from the problems object on every path
  that returns true. The themes cache is replaced only after a successful
  themes write (`src/utils/dataManager.js:346-371`).

## Model

| member | source | states |
|---|---|---|
| Entities.WithId | src/utils/dataManager.js:260 | `{ ...r, id }` keeps every property and has the given id |
| Entities.FirstIndexWithId | src/utils/dataManager.js:258 | `findIndex` finds the first index with the id, and finds none exactly when no element has it |
| Entities.FindById | src/utils/dataManager.js:228-231 | `find` returns the element at the first index with the id, or nothing when there is no such index |
| Entities.RemoveWithId | src/utils/dataManager.js:282 | `filter` keeps exactly the elements without the id. The result is shorter iff some element had the id, and unchanged otherwise |
| Entities.RemoveWithIdAppend | src/utils/dataManager.js:282 | filtering distributes over concatenation, so survivors keep their original order |
| Entities.Ids | src/pages/AdminThemeForm.jsx:59 | the set of ids in a list holds exactly the ids some element has, and is no larger than the list |
| JsonValue.Get | src/pages/JsonImport.jsx:31 | a property read yields a value exactly when the value is an object with that key, and the value is that member |
| JsonValue.Truthy | src/pages/JsonImport.jsx:31 | JavaScript's truthiness on a JSON value, as `if (x)` and `x \|\| y` use it; `JsonValue.FalsyValues` lists the falsy ones |
| JsonValue.HasTruthy | src/pages/JsonImport.jsx:31 | `if (v.key)`: the property read succeeds and its value is truthy; `JsonValue.HasTruthyMember` restates it on objects |
| JsonValue.FalsyValues | src/pages/JsonImport.jsx:31 | a JSON value is falsy exactly when it is `null`, `false`, `0` or the empty string |
| JsonValue.HasTruthyMember | src/pages/JsonImport.jsx:31 | `if (v.key)` passes exactly when `v` is an object whose `key` member is truthy |
| JsonValue.GetOr | src/pages/JsonImport.jsx:91-112 | `x.key \|\| fallback` yields the member when it is truthy, and the fallback otherwise |
| Text.Trim | src/utils/videoUtils.js:6 | the trimmed string is the slice of the input left after cutting whitespace only, at each end, and it starts and ends with a non-whitespace character |
| Text.TrimBounds | src/utils/videoUtils.js:6 | the two trimming steps together cut a whitespace-only prefix and a whitespace-only suffix from the input |
| Text.TrimStartDropsSpaces | src/utils/videoUtils.js:6 | the start trim keeps a suffix of the input, and every character it drops is whitespace |
| Text.TrimEndDropsSpaces | src/utils/videoUtils.js:6 | the end trim keeps a prefix of the input, and every character it drops is whitespace |
| Text.TrimOfTrimmed | src/utils/videoUtils.js:6 | trimming a string with no whitespace at either end changes nothing |
| Text.Contains | src/utils/videoUtils.js:9 | `s.includes(pattern)`: the pattern is a prefix of `s` or of some suffix of it; `Text.ContainsAt` ties it to an index |
| Text.ContainsAt | src/utils/videoUtils.js:9 | `includes` holds iff the pattern occurs at some index |
| Text.NatToString | src/pages/AdminThemeForm.jsx:60 | the rendering of a counter is a non-empty run of decimal digits without a leading zero, except `0` itself |
| Text.NatToStringRoundTrip | src/pages/AdminThemeForm.jsx:60 | reading the rendered digits back gives the number |
| Text.NatToStringInjective | src/pages/AdminThemeForm.jsx:60 | different counters render differently |
| DataManager.EditInPlace | src/utils/dataManager.js:234-252 | after the live object is overwritten, the getter returns the new document. A loaded cache stays loaded and the fallback is kept; otherwise the fallback itself is edited |
| DataManager.ByTheme | src/utils/dataManager.js:222-225 | a theme id with an entry reads as that entry, and one without reads as an empty list |
| DataManager.DataStore.constructor | src/utils/dataManager.js:17-21 | at load nothing is cached and no listener exists, so the getters return the fallbacks |
| DataManager.DataStore.GetProblems | src/utils/dataManager.js:178-183 | the cached document when one is set, else the fallback; no precondition, so it never fails |
| DataManager.DataStore.GetThemes | src/utils/dataManager.js:186-191 | the cached list when one is set, else the fallback; never fails |
| DataManager.DataStore.GetProblemsByTheme | src/utils/dataManager.js:222-225 | the theme's list, or empty when the key is absent |
| DataManager.DataStore.GetProblemById | src/utils/dataManager.js:228-231 | present iff some problem of the theme has the id. The result has the id and is the first such problem |
| DataManager.DataStore.GetThemeById | src/utils/dataManager.js:300-303 | present iff some theme has the id. The result has the id and is the first such theme |
| DataManager.DataStore.EditLiveProblems | src/utils/dataManager.js:237-239 | the problems object the getter returns is overwritten in place |
| DataManager.DataStore.EditLiveThemes | src/utils/dataManager.js:308 | the themes list the getter returns is overwritten in place |
| DataManager.DataStore.CommitProblems | src/utils/dataManager.js:244 | the cache variable is pointed at the live problems object |
| DataManager.DataStore.CommitThemes | src/utils/dataManager.js:313 | the cache variable is pointed at the live themes list |
| DataManager.DataStore.AddProblem | src/utils/dataManager.js:234-252 | always true, whatever the write outcome. The theme's list becomes the old one (empty if absent) plus the problem at the end. Every other theme is unchanged, and the listener invariant is kept |
| DataManager.DataStore.UpdateProblem | src/utils/dataManager.js:255-276 | true iff the theme key exists and some problem has the id; otherwise nothing changes. On success only the first match is replaced, by the update with its id forced. Length, other entries and other themes are kept |
| DataManager.DataStore.DeleteProblem | src/utils/dataManager.js:279-297 | false, with nothing changed, iff the theme key is absent. Otherwise every problem with the id is dropped, the rest keep their order, and other themes are unchanged |
| DataManager.DataStore.AddTheme | src/utils/dataManager.js:306-321 | always true; the themes list becomes the old one plus the theme at the end |
| DataManager.DataStore.UpdateTheme | src/utils/dataManager.js:324-343 | true iff some theme has the id; otherwise nothing changes. On success only the first match is replaced, with its id forced, and the length and other entries are kept |
| DataManager.DataStore.DeleteTheme | src/utils/dataManager.js:346-371 | false, with nothing changed, iff no theme has the id. Otherwise the theme's problems are gone on every path and other themes' problems are kept. The themes cache becomes the filtered list only when the write succeeded, and is untouched otherwise |
| DataManager.DataStore.RefreshProblems | src/utils/dataManager.js:194-205 | with a configured store and a present document, that document is cached and returned. Otherwise the fallback is cached and returned; the getter then returns the same value |
| DataManager.DataStore.RefreshThemes | src/utils/dataManager.js:208-219 | a present document yields its `themes` field (`[]` when absent), which is cached. Otherwise the fallback is cached; the getter then returns the result |
| DataManager.DataStore.SubscribeToProblems | src/utils/dataManager.js:120-145 | without a store, the callback gets the fallback and the handle is a no-op. Otherwise the previous listener is stopped before exactly one fresh listener is live |
| DataManager.DataStore.SubscribeToThemes | src/utils/dataManager.js:148-173 | as for problems, for the themes listener |
| DataManager.DataStore.OnProblemsPush | src/utils/dataManager.js:131-142 | a present document is cached before the callback receives it. A missing document hands over the fallback and an error hands over the cache or the fallback; the cache is unchanged in both. A stopped listener delivers nothing |
| DataManager.DataStore.OnThemesPush | src/utils/dataManager.js:159-170 | as for problems, a present document without `themes` reading as `[]` |
| DataManager.DataStore.CallUnsubscribe | src/utils/dataManager.js:126-128 | calling a handle stops exactly that listener, and the listener invariant is kept |
| DataManager.AtMostOneLiveListener | src/utils/dataManager.js:126-131 | at most one problems listener and one themes listener are live at any time |
| DataManager.LoopsScenario | src/utils/dataManager.js:306-371 | adding a theme and a problem under it and then deleting the theme leaves no themes and no problems under that id |
| ThemeIds.LowerChar | src/pages/AdminThemeForm.jsx:44 | an ASCII capital becomes its own lower-case letter, and other characters are unchanged |
| ThemeIds.ToLower | src/pages/AdminThemeForm.jsx:44 | the lower-casing keeps the length and maps each character |
| ThemeIds.SpacesToHyphens | src/pages/AdminThemeForm.jsx:46 | replacing each whitespace run by one hyphen never lengthens the text, and empties only empty text |
| ThemeIds.SpacesToHyphensNoSpaces | src/pages/AdminThemeForm.jsx:46 | no whitespace remains after the replacement |
| ThemeIds.KeepSlugChars | src/pages/AdminThemeForm.jsx:47 | only `a-z`, `0-9` and `-` remain, and a single character is kept iff it is one of them |
| ThemeIds.SqueezeHyphens | src/pages/AdminThemeForm.jsx:48 | the squeeze never lengthens the text, empties only empty text, and a leading hyphen is kept iff there was one |
| ThemeIds.SqueezeHyphensShape | src/pages/AdminThemeForm.jsx:48 | no two hyphens in a row remain, and no character appears that was not in the input |
| ThemeIds.DropHyphens | src/pages/AdminThemeForm.jsx:48 | cutting the leading run of hyphens leaves text that does not start with a hyphen and is no longer than the input |
| ThemeIds.DropHyphensCut | src/pages/AdminThemeForm.jsx:48 | the result is a suffix of the input and everything cut is a hyphen |
| ThemeIds.DropHyphensKeepsNonHyphens | src/pages/AdminThemeForm.jsx:48 | every character other than a hyphen is kept, in order |
| ThemeIds.DropHyphensAll | src/pages/AdminThemeForm.jsx:48 | a text made only of hyphens is cut to nothing |
| ThemeIds.StripEdgeHyphens | src/pages/AdminThemeForm.jsx:49 | at most one character is cut at each end, and only a hyphen. On input without double hyphens no hyphen remains at either end and none is doubled |
| ThemeIds.SlugPipeline | src/pages/AdminThemeForm.jsx:43-49 | the replace chain yields only `a-z0-9-`, with no hyphen at either end and no double hyphen |
| ThemeIds.BaseThemeId | src/pages/AdminThemeForm.jsx:43-54 | the base id is a non-empty slug; a name that reduces to nothing gives `theme` |
| ThemeIds.SlugFixedByKeep | src/pages/AdminThemeForm.jsx:47 | a slug passes the character filter unchanged |
| ThemeIds.SlugCharsKept | src/pages/AdminThemeForm.jsx:47 | a string of slug characters passes the character filter unchanged |
| ThemeIds.NoSpacesUnchanged | src/pages/AdminThemeForm.jsx:46 | a string of slug characters has no whitespace to replace |
| ThemeIds.SqueezeKeepsSingles | src/pages/AdminThemeForm.jsx:48 | a string without double hyphens is not changed by the squeeze |
| ThemeIds.SlugPipelineFixesSlugs | src/pages/AdminThemeForm.jsx:43-49 | a slug is a fixed point of the chain |
| ThemeIds.SpacesRun | src/pages/AdminThemeForm.jsx:46 | a whole run of whitespace becomes one hyphen |
| ThemeIds.SpacesToHyphensAppend | src/pages/AdminThemeForm.jsx:46 | the replacement works run by run: cutting the input between a whitespace and a non-whitespace character commutes with it |
| ThemeIds.KeepSlugCharsAppend | src/pages/AdminThemeForm.jsx:47 | the filter works character by character: it commutes with concatenation |
| ThemeIds.TrimStartAppend | src/pages/AdminThemeForm.jsx:45 | trimming the start of a string only touches its leading whitespace |
| ThemeIds.DropHyphensAppend | src/pages/AdminThemeForm.jsx:48 | cutting leading hyphens only touches the leading run |
| ThemeIds.SqueezeHyphensAppend | src/pages/AdminThemeForm.jsx:48 | the squeeze works run by run: cutting the input where the two sides are not both hyphens commutes with it |
| ThemeIds.SqueezeHyphensRun | src/pages/AdminThemeForm.jsx:48 | a whole run of hyphens becomes one hyphen |
| ThemeIds.SqueezeKeepsNonHyphens | src/pages/AdminThemeForm.jsx:48 | the squeeze keeps every non-hyphen character, in order |
| ThemeIds.NonHyphensOfKept | src/pages/AdminThemeForm.jsx:47 | the non-hyphen characters the filter keeps are exactly the ASCII lower-case letters and digits of its input |
| ThemeIds.AlnumOfSpaces | src/pages/AdminThemeForm.jsx:46 | replacing whitespace runs keeps the letters and digits, in order |
| ThemeIds.StripKeepsNonHyphens | src/pages/AdminThemeForm.jsx:49 | cutting edge hyphens keeps every other character, in order |
| ThemeIds.SlugKeepsLettersAndDigits | src/pages/AdminThemeForm.jsx:43-49 | the slug without its hyphens is exactly the lower-cased name's ASCII letters and digits, in order |
| ThemeIds.EmptySlugIffNoAlnum | src/pages/AdminThemeForm.jsx:43-54 | the slug is empty iff the lower-cased name has no ASCII letter or digit, and then the base id is `theme` |
| ThemeIds.BaseThemeIdIdempotent | src/pages/AdminThemeForm.jsx:43-54 | deriving a base id from a base id gives it back |
| ThemeIds.Candidate | src/pages/AdminThemeForm.jsx:57-61 | attempt 0 is the base, and attempt k is the base + `-` + k |
| ThemeIds.CandidateInjective | src/pages/AdminThemeForm.jsx:57-61 | different attempts give different ids |
| ThemeIds.Attempts | src/pages/AdminThemeForm.jsx:57-62 | the ids of the first n attempts include every one of them |
| ThemeIds.AttemptsSize | src/pages/AdminThemeForm.jsx:57-62 | the first n attempts are n distinct ids |
| ThemeIds.AttemptsBounded | src/pages/AdminThemeForm.jsx:59-62 | if the first n attempts are all taken then n is at most the number of themes, so the loop stops within count + 1 tests |
| ThemeIds.GenerateThemeId | src/pages/AdminThemeForm.jsx:41-65 | the result is taken by no theme. It is the base when the base is free, and otherwise base-k for the smallest free k ≥ 1 |
| ThemeIds.IsEditRoute | src/pages/AdminThemeForm.jsx:82 | the form edits a theme when the route id is present, non-empty and not `new` |
| ThemeIds.ThemeFormId | src/pages/AdminThemeForm.jsx:100-103 | an edit route keeps its theme id; otherwise the id is generated as above |
| ThemeIds.SubmitThemeForm | src/pages/AdminThemeForm.jsx:94-119 | the saved record is the form values with the chosen id. A new theme is appended under a fresh id, and distinct ids stay distinct. On an edit route the first theme with the route id is replaced by the record, and the list is unchanged when there is none. A non-text name fails before anything is written |
| ThemeIds.AppendFreshKeepsDistinct | src/pages/AdminThemeForm.jsx:57-62 | appending a theme under an untaken id keeps the ids distinct |
| JsonImport.ValidateJson | src/pages/JsonImport.jsx:26-50 | accepts iff the document is an object with truthy `theme`, a truthy `theme.name` and an array `problems`, and returns it unchanged. Each rejection carries its cause, checked in source order: `null`, then a missing `theme` or `problems`, then a missing name, then a non-array `problems` |
| JsonImport.ImportThemeSlug | src/pages/JsonImport.jsx:137-145 | the import's slug function equals the form's base id: a non-empty slug, `theme` for an empty result |
| JsonImport.ChooseImportThemeId | src/pages/JsonImport.jsx:80-85 | the chosen id is taken by no theme: the base, or base-k for the smallest free k ≥ 1 |
| JsonImport.BuildTheme | src/pages/JsonImport.jsx:88-93 | the theme has the chosen id, the name, and exactly the keys name, description and icon. Description and icon come from the input when truthy and from the defaults otherwise |
| JsonImport.BuildProblem | src/pages/JsonImport.jsx:102-113 | a record is built for every element except `null`, where reading `problem.id` throws |
| JsonImport.BuildProblemDefaults | src/pages/JsonImport.jsx:103-113 | every field of the record is the element's own truthy member or its default: id themeId-(i+1), title `Есеп (i+1)`, problemText the title and then '', input, output, solution and explanation their fixed texts, videoUrl '' and testCases []. The record has exactly the nine listed keys |
| JsonImport.BuiltProblemFieldsPresent | src/pages/JsonImport.jsx:103-113 | every built problem has a truthy id, title, input, output, solution and explanation |
| JsonImport.DefaultProblemIdsDistinct | src/pages/JsonImport.jsx:104 | default ids of different positions differ |
| JsonImport.BuiltProblems | src/pages/JsonImport.jsx:100-116 | one problem is built per element imported |
| JsonImport.BuiltProblemsAt | src/pages/JsonImport.jsx:101-115 | the k-th built problem is built from the k-th element at position k, so input order is kept |
| JsonImport.FirstNull | src/pages/JsonImport.jsx:101-103 | the first `null` element, when there is one, and no `null` before it |
| JsonImport.ImportedCount | src/pages/JsonImport.jsx:101-116 | the loop gets through the elements before the first `null`, or all of them |
| JsonImport.Appended | src/pages/JsonImport.jsx:115 | adding problems to a theme extends that theme's list and leaves every other theme's list alone |
| JsonImport.AppendedStep | src/pages/JsonImport.jsx:115 | one more `addProblem` extends the appended list by one |
| JsonImport.AddImportedProblems | src/pages/JsonImport.jsx:100-116 | the store's problems become the old ones with the built problems appended to the theme, in input order, up to the first `null`. The themes are unchanged |
| JsonImport.FirstNullIs | src/pages/JsonImport.jsx:101-103 | a `null` with none before it is the first `null` |
| JsonImport.FirstNullNone | src/pages/JsonImport.jsx:101-103 | without a `null` element there is no first `null` |
| JsonImport.AddImportedTheme | src/pages/JsonImport.jsx:76-116 | the themes gain exactly the built theme under a fresh id, then the problems are appended under that id |
| JsonImport.ImportToStore | src/pages/JsonImport.jsx:68-135 | succeeds iff the document passes the check, the name is text and no element is `null`. A rejected document changes nothing. Otherwise the theme and the problems before any `null` are stored, and the error names that `null`'s index |
| VideoUtils.IdRun | src/utils/videoUtils.js:21 | the longest prefix of `[a-zA-Z0-9_-]` characters |
| VideoUtils.IdRunOf | src/utils/videoUtils.js:21 | an id followed by a non-id character is captured exactly |
| VideoUtils.FirstPatternAt | src/utils/videoUtils.js:21 | a match at an index is one of the three literals followed by a maximal id run |
| VideoUtils.LineEnd | src/utils/videoUtils.js:22 | the end of the current line, where `.` stops matching |
| VideoUtils.VParamAt | src/utils/videoUtils.js:22 | `[&?]v=` at the index followed by a non-empty id run, which is captured |
| VideoUtils.LastVParam | src/utils/videoUtils.js:22 | what the greedy `.*` leaves to `[&?]v=`: a captured id is a valid id |
| VideoUtils.LastVParamFinds | src/utils/videoUtils.js:22 | the greedy `.*` settles on the last `v=` parameter in range |
| VideoUtils.SecondPatternAt | src/utils/videoUtils.js:22 | a match starts with `youtube.com/watch?` and captures a valid id |
| VideoUtils.MatchAt | src/utils/videoUtils.js:20-23 | either pattern captures only valid ids |
| VideoUtils.Search | src/utils/videoUtils.js:26 | `url.match` captures only valid ids |
| VideoUtils.SearchNone | src/utils/videoUtils.js:26 | the search fails iff the pattern matches at no index |
| VideoUtils.SearchLeftmost | src/utils/videoUtils.js:26 | the search returns the match at the leftmost matching index |
| VideoUtils.FirstMatch | src/utils/videoUtils.js:25-31 | the first pattern that matches decides, and its capture is a valid id |
| VideoUtils.FirstMatchAppend | src/utils/videoUtils.js:25-31 | trying a list of patterns is trying its first part, then its rest |
| VideoUtils.FirstMatchOfPatterns | src/utils/videoUtils.js:20-31 | the loop's result is the first pattern's match, or else the second's |
| VideoUtils.EmbedUrl | src/utils/videoUtils.js:2-38 | null for a non-string or empty value, and the trimmed URL when it holds the embed path. Any other result is the embed base followed by a valid id |
| VideoUtils.ConvertYouTubeToEmbed | src/utils/videoUtils.js:2-38 | the loop over the patterns computes the function above; a non-string or empty value gives null |
| VideoUtils.IsYouTubeUrl | src/utils/videoUtils.js:47-49 | `isYouTubeUrl`: a present, non-empty URL containing `youtube.com` or `youtu.be` |
| VideoUtils.IsFirebaseStorageUrl | src/utils/videoUtils.js:42-44 | `isFirebaseStorageUrl`: a present, non-empty URL containing `firebasestorage.googleapis.com` |
| VideoUtils.ClassifiersNeedHost | src/utils/videoUtils.js:42-49 | `isYouTubeUrl` holds iff the URL contains `youtube.com` or `youtu.be`, and `isFirebaseStorageUrl` iff it contains the storage host |
| VideoUtils.EmbedUrlKeepsEmbed | src/utils/videoUtils.js:6-11 | a trimmed URL already holding the embed path comes back as it is |
| VideoUtils.RebuiltIsEmbed | src/utils/videoUtils.js:34 | a rebuilt URL holds the embed path and has no whitespace at either end |
| VideoUtils.EmbedUrlIdempotent | src/utils/videoUtils.js:9-11 | converting a converted URL gives the same URL |
| VideoUtils.MatchAtNamesHost | src/utils/videoUtils.js:21-22 | a URL either pattern matches names a YouTube host |
| VideoUtils.FirstMatchNamesHost | src/utils/videoUtils.js:25-31 | a URL the loop finds an id in names a YouTube host |
| VideoUtils.TrimmedNamesHost | src/utils/videoUtils.js:6 | a host in the trimmed URL is in the URL |
| VideoUtils.ConvertibleIsYouTube | src/utils/videoUtils.js:2-49 | every URL the converter accepts is classified as a YouTube URL |
| VideoUtils.EmbedOutputClassified | src/utils/videoUtils.js:33-49 | every rebuilt URL is a YouTube URL and not a Firebase Storage URL |
| VideoUtils.FirstPatternNeedsPrefix | src/utils/videoUtils.js:21 | the first pattern matches only where one of its three literals starts |
| VideoUtils.NoMatchWithoutY | src/utils/videoUtils.js:21-22 | neither pattern matches at an index not holding `y` |
| VideoUtils.EmbedUrlOfSearch | src/utils/videoUtils.js:25-35 | a first-pattern match, or else a second-pattern match, gives the embed URL of that id |
| VideoUtils.EmbedUrlNone | src/utils/videoUtils.js:33-37 | a URL without the embed path converts to null iff neither pattern matches at any index |
| VideoUtils.PrefixThenId | src/utils/videoUtils.js:21 | `youtu.be/ID` and `youtube.com/watch?v=ID` match the first pattern with that id |
| VideoUtils.ShortOrWatchUrl | src/utils/videoUtils.js:21 | `youtu.be/ID` and `youtube.com/watch?v=ID` URLs convert to the embed URL of that ID |
| VideoUtils.SecondPatternFinds | src/utils/videoUtils.js:22 | the second pattern captures the last `v=` parameter on the line |
| VideoUtils.QueryUrlFindsV | src/utils/videoUtils.js:22 | in `youtube.com/watch?…&v=ID` the second pattern captures ID |
| VideoUtils.QueryUrlNoFirstPattern | src/utils/videoUtils.js:21 | a watch URL whose first parameter is not `v` has no first-pattern match and no embed path |
| VideoUtils.QueryUrlSecondPattern | src/utils/videoUtils.js:22 | the search with the second pattern finds ID in such a URL |
| VideoUtils.VParamNotFirst | src/utils/videoUtils.js:22 | a watch URL whose `v=` parameter is not first converts to the embed URL of its ID |
| Auth.IsAdmin | src/utils/auth.js:7-9 | `isAdmin` holds exactly for `admin` and `teacher` |
| Auth.FindAccount | src/utils/auth.js:27 | the account found has the username and the password, one exists iff some account has both, and it is the first such account |
| Auth.LoginAttempt | src/utils/auth.js:11-41 | matching admin credentials log in as an admin before stored users are consulted. A non-admin login means a stored user matched, and failure means no account matched. The session carries the matched account's username and email |
| Auth.AdminLogin | src/utils/auth.js:2-23 | only the two hardcoded username and password pairs log in as an admin |
| Auth.FindUnique | src/utils/auth.js:27 | with unique usernames, a user's own password finds that user |
| Auth.RegisterThenLogin | src/utils/auth.js:26-38 | after an accepted registration the usernames stay unique, and the same username and password log in as that non-admin user |
| Auth.AccountStore.constructor | src/utils/auth.js:26 | a fresh browser has no users (an absent `users` entry reads as `[]`) and no session |
| Auth.AccountStore.GetCurrentUser | src/utils/auth.js:81-84 | the stored session, or nothing |
| Auth.AccountStore.IsAuthenticated | src/utils/auth.js:86-88 | true exactly when a session is stored |
| Auth.AccountStore.Login | src/utils/auth.js:11-41 | the outcome is the login rule above. Success stores that user as the session, failure leaves the session alone, and the users never change |
| Auth.AccountStore.Register | src/utils/auth.js:43-75 | an admin's or a stored user's username is refused with nothing changed. Otherwise exactly one account is appended and becomes the non-admin session, and unique usernames stay unique |
| Auth.AccountStore.Logout | src/utils/auth.js:77-79 | the session is gone, so the user is no longer authenticated |
| Auth.RegisterLogoutLogin | src/utils/auth.js:43-79 | register, logout, then login with the same credentials signs the new user back in as a non-admin |

## Left out

- Firestore calls are not modelled: `getDoc`, `getDocs`, `setDoc`, `onSnapshot`, the collection set-up and the load-time calls. A write is a boolean outcome, a read or push is a `Snapshot` argument, and a listener is a number in a registry of live listeners.
- The local-storage copies that mutations write after a failed or skipped store write (`problems_temp`, `themes_temp`) are not modelled; nothing reads them back.
- `exportProblems` and `exportThemes` are not modelled; they are download plumbing.
- Asynchrony is not modelled. Each operation runs to completion before the next starts, so races between mutations and pushes are out of scope.
- JSON text is not modelled. `JSON.parse` and `JSON.stringify` are replaced by already-parsed values, so the syntax-error path of the import and the empty-text check before it are out of scope.
- Property reads see only an object's own members; inherited properties such as `constructor` are not modelled.
- `loginTime` and `createdAt` are not modelled, because they are clock readings. Passwords appear only in equality tests.
- ThemeIds.LowerChar: lower-cases ASCII letters only. Full Unicode `toLowerCase` can turn a non-ASCII letter into an ASCII one (the Kelvin sign into `k`, `İ` into `i` and a combining dot), and that case is not modelled.
- VideoUtils.IsYouTubeUrl: takes an optional string. The source also accepts other truthy values: for an array, `includes` tests whether some element equals the host string, and any other value that is neither a string nor an array throws. The same holds for `VideoUtils.IsFirebaseStorageUrl`.
- ThemeIds.SpacesToHyphens: its own contract gives only length and emptiness; that no whitespace is left, and that each run becomes one hyphen, are stated by `ThemeIds.SpacesToHyphensNoSpaces`, `ThemeIds.SpacesRun` and `ThemeIds.SpacesToHyphensAppend`.
- ThemeIds.DropHyphens: its own contract gives the first character and the length; the suffix, the cut hyphens and the kept characters are stated by `ThemeIds.DropHyphensCut` and `ThemeIds.DropHyphensKeepsNonHyphens`.
- ThemeIds.SqueezeHyphens: its own contract gives length, emptiness and the first character; no double hyphen and no new character are stated by `ThemeIds.SqueezeHyphensShape`, and the run-by-run behaviour by `ThemeIds.SqueezeHyphensRun` and `ThemeIds.SqueezeHyphensAppend`.
- VideoUtils.LastVParam: its own contract only says a capture is a valid id; which `v=` it picks is stated by `VideoUtils.LastVParamFinds`.
- JsonImport.BuildProblem: its own contract only separates `null` from the rest; every field of the record, in both the truthy and the default case, is stated by `JsonImport.BuildProblemDefaults`, and `JsonImport.BuiltProblemFieldsPresent` adds that the defaulted fields are truthy.
- JsonImport.ImportToStore: covers only the import handler's store effects. The admin check, the messages, the navigation and the form reset are screen behaviour and are not modelled.
- Screens and components are not part of this model, nor are the Python runner and the Firebase configuration.
