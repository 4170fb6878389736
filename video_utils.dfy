/**
 * Video URL helpers: turning a YouTube page URL into its embed URL, and the
 * two classifiers the video player uses to choose between an embedded
 * YouTube frame and a Firebase Storage file.
 *
 * The two regular expressions of `convertYouTubeToEmbed` are modelled as
 * leftmost searches: at each index the pattern is tried, and the first index
 * where it matches gives the captured id.
 */
module VideoUtils {
  import opened Wrappers
  import opened Text
  import opened JsonValue

  const EmbedMarker: string := "youtube.com/embed/"
  const WatchPrefix: string := "youtube.com/watch?v="
  const ShortPrefix: string := "youtu.be/"
  const WatchQuery: string := "youtube.com/watch?"
  const EmbedBase: string := "https://www.youtube.com/embed/"
  const YouTubeHost: string := "youtube.com"
  const ShortHost: string := "youtu.be"
  const StorageHost: string := "firebasestorage.googleapis.com"

  /** The character class `[a-zA-Z0-9_-]`. */
  predicate IsIdChar(c: char)
  {
    || 'a' <= c <= 'z' || 'A' <= c <= 'Z' || '0' <= c <= '9' || c == '_' || c == '-'
  }

  /** A string `[a-zA-Z0-9_-]+` matches in full. */
  predicate IsVideoId(id: string)
  {
    id != [] && forall k :: 0 <= k < |id| ==> IsIdChar(id[k])
  }

  /** The greedy `[a-zA-Z0-9_-]*` at the start of `s`: the longest prefix of id characters. */
  function IdRun(s: string): (r: string)
    ensures |r| <= |s| && r == s[..|r|]
    ensures forall k :: 0 <= k < |r| ==> IsIdChar(r[k])
    ensures |r| == |s| || !IsIdChar(s[|r|])
  {
    if s == [] || !IsIdChar(s[0]) then [] else [s[0]] + IdRun(s[1..])
  }

  /** A run of id characters followed by anything else is read back whole. */
  lemma {:induction false} IdRunOf(id: string, rest: string)
    requires forall k :: 0 <= k < |id| ==> IsIdChar(id[k])
    requires rest == [] || !IsIdChar(rest[0])
    ensures IdRun(id + rest) == id
  {
    if id != [] {
      assert (id + rest)[1..] == id[1..] + rest;
      IdRunOf(id[1..], rest);
    } else {
      assert id + rest == rest;
    }
  }

  /** `lit` at index p of `s`, followed by the captured id `id`. */
  predicate IdAfter(s: string, p: nat, lit: string, id: string)
    requires p <= |s|
  {
    StartsWith(s[p..], lit) && IsVideoId(id) && id == IdRun(s[p + |lit|..])
  }

  /** `(?:youtube\.com\/watch\?v=|youtu\.be\/|youtube\.com\/embed\/)([a-zA-Z0-9_-]+)` anchored at index p. */
  function FirstPatternAt(s: string, p: nat): (r: Option<string>)
    requires p <= |s|
    ensures r.Some? ==> IdAfter(s, p, WatchPrefix, r.value) || IdAfter(s, p, ShortPrefix, r.value) ||
                        IdAfter(s, p, EmbedMarker, r.value)
  {
    var t := s[p..];
    if StartsWith(t, WatchPrefix) && IdRun(s[p + |WatchPrefix|..]) != [] then Some(IdRun(s[p + |WatchPrefix|..]))
    else if StartsWith(t, ShortPrefix) && IdRun(s[p + |ShortPrefix|..]) != [] then Some(IdRun(s[p + |ShortPrefix|..]))
    else if StartsWith(t, EmbedMarker) && IdRun(s[p + |EmbedMarker|..]) != [] then Some(IdRun(s[p + |EmbedMarker|..]))
    else None
  }

  /** The first line terminator at or after i, or the end of `s`: where `.*` has to stop. */
  function LineEnd(s: string, i: nat): (r: nat)
    requires i <= |s|
    ensures i <= r <= |s|
    ensures forall k :: i <= k < r ==> !IsLineTerminator(s[k])
    ensures r == |s| || IsLineTerminator(s[r])
    decreases |s| - i
  {
    if i == |s| || IsLineTerminator(s[i]) then i else LineEnd(s, i + 1)
  }

  /** `[&?]v=([a-zA-Z0-9_-]+)` anchored at index q. */
  function VParamAt(s: string, q: nat): (r: Option<string>)
    ensures r.Some? ==> q + 3 < |s| && (s[q] == '&' || s[q] == '?') && s[q + 1] == 'v' && s[q + 2] == '='
    ensures r.Some? ==> IsVideoId(r.value) && r.value == IdRun(s[q + 3..])
  {
    if q + 3 < |s| && (s[q] == '&' || s[q] == '?') && s[q + 1] == 'v' && s[q + 2] == '=' && IsIdChar(s[q + 3])
    then Some(IdRun(s[q + 3..]))
    else None
  }

  /** The greedy `.*` backs off from the right: the last index in [lo, hi] where `[&?]v=` plus an id matches. */
  function LastVParam(s: string, lo: nat, hi: int): (r: Option<string>)
    ensures r.Some? ==> IsVideoId(r.value)
    decreases hi + 1 - lo
  {
    if hi < lo then None
    else if VParamAt(s, hi).Some? then VParamAt(s, hi)
    else LastVParam(s, lo, hi - 1)
  }

  /** `youtube\.com\/watch\?.*[&?]v=([a-zA-Z0-9_-]+)` anchored at index p. */
  function SecondPatternAt(s: string, p: nat): (r: Option<string>)
    requires p <= |s|
    ensures r.Some? ==> StartsWith(s[p..], WatchQuery) && IsVideoId(r.value)
  {
    if StartsWith(s[p..], WatchQuery) then
      var lo := p + |WatchQuery|;
      LastVParam(s, lo, LineEnd(s, lo) - 1)
    else None
  }

  /** The two entries of the `patterns` list, in order. */
  datatype Pattern = IdAfterPrefix | VParamInQuery

  const Patterns: seq<Pattern> := [IdAfterPrefix, VParamInQuery]

  function MatchAt(pattern: Pattern, s: string, p: nat): (r: Option<string>)
    requires p <= |s|
    ensures r.Some? ==> IsVideoId(r.value)
  {
    match pattern
    case IdAfterPrefix => FirstPatternAt(s, p)
    case VParamInQuery => SecondPatternAt(s, p)
  }

  /** `s.match(pattern)[1]` searching from index p: the capture at the leftmost index that matches. */
  function Search(pattern: Pattern, s: string, p: nat): (r: Option<string>)
    requires p <= |s|
    ensures r.Some? ==> IsVideoId(r.value)
    decreases |s| - p
  {
    match MatchAt(pattern, s, p)
    case Some(id) => Some(id)
    case None => if p == |s| then None else Search(pattern, s, p + 1)
  }

  /** The search fails exactly when no index from p on matches. */
  lemma {:induction false} SearchNone(pattern: Pattern, s: string, p: nat)
    requires p <= |s|
    ensures Search(pattern, s, p).None? <==> forall k :: p <= k <= |s| ==> MatchAt(pattern, s, k).None?
    decreases |s| - p
  {
    if MatchAt(pattern, s, p).None? && p < |s| {
      SearchNone(pattern, s, p + 1);
      assert Search(pattern, s, p) == Search(pattern, s, p + 1);
    }
  }

  /** The search returns the match at the leftmost index q that matches. */
  lemma {:induction false} SearchLeftmost(pattern: Pattern, s: string, p: nat, q: nat)
    requires p <= q <= |s|
    requires MatchAt(pattern, s, q).Some?
    requires forall k :: p <= k < q ==> MatchAt(pattern, s, k).None?
    ensures Search(pattern, s, p) == MatchAt(pattern, s, q)
    decreases q - p
  {
    if p < q {
      SearchLeftmost(pattern, s, p + 1, q);
    }
  }

  /** The captured id of the first pattern of `patterns` that matches somewhere in `s`. */
  function FirstMatch(patterns: seq<Pattern>, s: string): (r: Option<string>)
    ensures r.Some? ==> IsVideoId(r.value)
  {
    if patterns == [] then None
    else match Search(patterns[0], s, 0)
      case Some(id) => Some(id)
      case None => FirstMatch(patterns[1..], s)
  }

  /** Trying the patterns of a + b in turn is trying a, then b. */
  lemma {:induction false} FirstMatchAppend(a: seq<Pattern>, b: seq<Pattern>, s: string)
    ensures FirstMatch(a + b, s) == if FirstMatch(a, s).Some? then FirstMatch(a, s) else FirstMatch(b, s)
  {
    if a == [] {
      assert a + b == b;
    } else {
      assert (a + b)[0] == a[0];
      assert (a + b)[1..] == a[1..] + b;
      FirstMatchAppend(a[1..], b, s);
    }
  }

  /** What `convertYouTubeToEmbed` returns for `url`. */
  function EmbedUrl(url: Json): (r: Option<string>)
    ensures r.Some? ==> url.JString? && url.s != []
    ensures url.JString? && url.s != [] && Contains(Trim(url.s), EmbedMarker) ==> r == Some(Trim(url.s))
    ensures r.Some? && !Contains(Trim(url.s), EmbedMarker) ==>
              |r.value| > |EmbedBase| && r.value[..|EmbedBase|] == EmbedBase && IsVideoId(r.value[|EmbedBase|..])
  {
    if !url.JString? || url.s == [] then None
    else
      var trimmed := Trim(url.s);
      if Contains(trimmed, EmbedMarker) then Some(trimmed)
      else match FirstMatch(Patterns, trimmed)
        case Some(id) => Some(EmbedBase + id)
        case None => None
  }

  /**
   * `convertYouTubeToEmbed(url)`: null for a missing or non-string value, the
   * trimmed URL when it is already an embed URL, otherwise the embed URL of
   * the id the first matching pattern captures, or null.
   */
  method ConvertYouTubeToEmbed(url: Json) returns (r: Option<string>)
    ensures r == EmbedUrl(url)
    ensures !url.JString? || url.s == [] ==> r == None
  {
    if !url.JString? || url.s == [] {
      return None;
    }
    var trimmed := Trim(url.s);
    if Contains(trimmed, EmbedMarker) {
      return Some(trimmed);
    }
    var videoId: Option<string> := None;
    for i := 0 to |Patterns|
      invariant videoId == None && FirstMatch(Patterns[..i], trimmed) == None
    {
      var found := Search(Patterns[i], trimmed, 0);
      FirstMatchStep(trimmed, i);
      if found.Some? {
        videoId := found;
        break;
      }
    }
    assert Patterns[..|Patterns|] == Patterns;
    if videoId.Some? {
      return Some(EmbedBase + videoId.value);
    }
    return None;
  }

  /** One pass of the pattern loop after the earlier patterns all failed. */
  lemma FirstMatchStep(s: string, i: nat)
    requires i < |Patterns| && FirstMatch(Patterns[..i], s) == None
    ensures FirstMatch(Patterns[..i + 1], s) == Search(Patterns[i], s, 0)
    ensures Search(Patterns[i], s, 0).Some? ==> FirstMatch(Patterns, s) == Search(Patterns[i], s, 0)
  {
    FirstMatchAppend(Patterns[..i], [Patterns[i]], s);
    assert Patterns[..i + 1] == Patterns[..i] + [Patterns[i]];
    FirstMatchAppend(Patterns[..i + 1], Patterns[i + 1..], s);
    assert Patterns[..i + 1] + Patterns[i + 1..] == Patterns;
  }

  /** `isYouTubeUrl(url)`: a non-empty URL mentioning either YouTube host. */
  predicate IsYouTubeUrl(url: Option<string>)
  {
    url.Some? && url.value != [] && (Contains(url.value, YouTubeHost) || Contains(url.value, ShortHost))
  }

  /** `isFirebaseStorageUrl(url)`: a non-empty URL mentioning the Firebase Storage host. */
  predicate IsFirebaseStorageUrl(url: Option<string>)
  {
    url.Some? && url.value != [] && Contains(url.value, StorageHost)
  }

  // ---------------------------------------------------------------------------
  // Properties

  /** A string holding a non-empty pattern is not empty. */
  lemma ContainsNonEmpty(s: string, pattern: string)
    requires pattern != [] && Contains(s, pattern)
    ensures s != []
  {
    ContainsAt(s, pattern);
  }

  /** The non-empty test of both classifiers is implied by the host test: each holds iff its host occurs. */
  lemma ClassifiersNeedHost(url: Option<string>)
    ensures IsYouTubeUrl(url) <==> url.Some? && (Contains(url.value, YouTubeHost) || Contains(url.value, ShortHost))
    ensures IsFirebaseStorageUrl(url) <==> url.Some? && Contains(url.value, StorageHost)
  {
    if url.Some? {
      if Contains(url.value, YouTubeHost) {
        ContainsNonEmpty(url.value, YouTubeHost);
      }
      if Contains(url.value, ShortHost) {
        ContainsNonEmpty(url.value, ShortHost);
      }
      if Contains(url.value, StorageHost) {
        ContainsNonEmpty(url.value, StorageHost);
      }
    }
  }

  /** A trimmed URL that already holds the embed path is returned as it is. */
  lemma EmbedUrlKeepsEmbed(url: string)
    requires Contains(url, EmbedMarker)
    requires !IsSpace(url[0]) && !IsSpace(url[|url| - 1])
    ensures EmbedUrl(JString(url)) == Some(url)
  {
    TrimOfTrimmed(url);
  }

  /** A rebuilt embed URL holds the embed path and has no surrounding space. */
  lemma RebuiltIsEmbed(id: string)
    requires IsVideoId(id)
    ensures var r := EmbedBase + id; Contains(r, EmbedMarker) && !IsSpace(r[0]) && !IsSpace(r[|r| - 1])
  {
    var r := EmbedBase + id;
    assert r[|r| - 1] == id[|id| - 1];
    assert IsIdChar(r[|r| - 1]);
    assert r[12..12 + |EmbedMarker|] == EmbedMarker;
    ContainsWitness(r, 12, EmbedMarker);
  }

  /** Converting an already converted URL returns it unchanged. */
  lemma EmbedUrlIdempotent(url: Json)
    requires EmbedUrl(url).Some?
    ensures EmbedUrl(JString(EmbedUrl(url).value)) == EmbedUrl(url)
  {
    var r := EmbedUrl(url).value;
    var trimmed := Trim(url.s);
    if Contains(trimmed, EmbedMarker) {
      ContainsNonEmpty(trimmed, EmbedMarker);
      EmbedUrlKeepsEmbed(trimmed);
    } else {
      var id := r[|EmbedBase|..];
      assert r == EmbedBase + id;
      RebuiltIsEmbed(id);
      EmbedUrlKeepsEmbed(r);
    }
  }

  /** `lit` found at index k, where `lit` starts with `host`: then `s` mentions `host`. */
  lemma HostAt(s: string, k: nat, lit: string, host: string)
    requires k <= |s| && StartsWith(s[k..], lit) && StartsWith(lit, host)
    ensures Contains(s, host)
  {
    assert s[k..k + |host|] == s[k..][..|host|];
    ContainsWitness(s, k, host);
  }

  /** Whatever index a pattern matches at, the string there names a YouTube host. */
  lemma MatchAtNamesHost(pattern: Pattern, s: string, k: nat)
    requires k <= |s| && MatchAt(pattern, s, k).Some?
    ensures Contains(s, YouTubeHost) || Contains(s, ShortHost)
  {
    var id := MatchAt(pattern, s, k).value;
    match pattern
    case IdAfterPrefix =>
      if IdAfter(s, k, WatchPrefix, id) {
        HostAt(s, k, WatchPrefix, YouTubeHost);
      } else if IdAfter(s, k, ShortPrefix, id) {
        HostAt(s, k, ShortPrefix, ShortHost);
      } else {
        HostAt(s, k, EmbedMarker, YouTubeHost);
      }
    case VParamInQuery =>
      HostAt(s, k, WatchQuery, YouTubeHost);
  }

  /** A pattern match anywhere in the trimmed URL names a YouTube host there. */
  lemma FirstMatchNamesHost(s: string)
    requires FirstMatch(Patterns, s).Some?
    ensures Contains(s, YouTubeHost) || Contains(s, ShortHost)
  {
    FirstMatchOfPatterns(s);
    var pattern := if Search(IdAfterPrefix, s, 0).Some? then IdAfterPrefix else VParamInQuery;
    SearchNone(pattern, s, 0);
    var k :| 0 <= k <= |s| && MatchAt(pattern, s, k).Some?;
    MatchAtNamesHost(pattern, s, k);
  }

  /** A host named in the trimmed URL is named in the URL. */
  lemma TrimmedNamesHost(url: string, host: string)
    requires Contains(Trim(url), host)
    ensures Contains(url, host)
  {
    var i: nat, j: nat :| WhitespaceCut(url, i, j, Trim(url));
    ContainsInSlice(url, i, j, host);
  }

  /** A URL whose trimmed form holds the embed path names the YouTube host. */
  lemma EmbedPathNamesHost(url: string)
    requires Contains(Trim(url), EmbedMarker)
    ensures Contains(url, YouTubeHost)
  {
    var trimmed := Trim(url);
    ContainsAt(trimmed, EmbedMarker);
    var k: nat :| OccursAt(trimmed, EmbedMarker, k);
    HostAt(trimmed, k, EmbedMarker, YouTubeHost);
    TrimmedNamesHost(url, YouTubeHost);
  }

  /** A URL whose trimmed form yields an id names one of the YouTube hosts. */
  lemma MatchedNamesHost(url: string)
    requires FirstMatch(Patterns, Trim(url)).Some?
    ensures Contains(url, YouTubeHost) || Contains(url, ShortHost)
  {
    FirstMatchNamesHost(Trim(url));
    if Contains(Trim(url), YouTubeHost) {
      TrimmedNamesHost(url, YouTubeHost);
    } else {
      TrimmedNamesHost(url, ShortHost);
    }
  }

  /** Only a URL that `isYouTubeUrl` accepts is ever converted. */
  lemma ConvertibleIsYouTube(url: string)
    requires EmbedUrl(JString(url)).Some?
    ensures IsYouTubeUrl(Some(url))
  {
    if Contains(Trim(url), EmbedMarker) {
      EmbedPathNamesHost(url);
    } else {
      assert FirstMatch(Patterns, Trim(url)).Some?;
      MatchedNamesHost(url);
    }
  }

  /**
   * A rebuilt embed URL is classified as YouTube and not as Firebase Storage,
   * so the player embeds it rather than playing it as a file.
   */
  lemma EmbedOutputClassified(id: string)
    requires IsVideoId(id)
    ensures IsYouTubeUrl(Some(EmbedBase + id))
    ensures !IsFirebaseStorageUrl(Some(EmbedBase + id))
  {
    var r := EmbedBase + id;
    assert r[12..12 + |YouTubeHost|] == YouTubeHost;
    ContainsWitness(r, 12, YouTubeHost);
    assert StorageHost[26] == '.';
    forall k: nat
      ensures !OccursAt(r, StorageHost, k)
    {
      if k + |StorageHost| <= |r| {
        if k < 4 {
          assert r[26..30] == "bed/";
          assert r[k + 26] == r[26..30][k];
        } else {
          assert r[k + 26] == id[k - 4];
        }
        assert r[k..k + |StorageHost|][26] == r[k + 26] != '.';
      }
    }
    ContainsAt(r, StorageHost);
  }

  // ---------------------------------------------------------------------------
  // The URL shapes the patterns were written for

  /** A literal starting with 'y' does not start at an index holding another character. */
  lemma NoLiteralWithoutY(s: string, k: nat, lit: string)
    requires k <= |s| && lit != [] && lit[0] == 'y'
    requires k == |s| || s[k] != 'y'
    ensures !StartsWith(s[k..], lit)
  {
    if k < |s| && |lit| <= |s| - k {
      assert s[k..][..|lit|][0] == s[k];
    }
  }

  /** A literal holding a character outside `[a-zA-Z0-9_-]` does not start inside a trailing id. */
  lemma NoLiteralInId(s: string, from: nat, k: nat, lit: string, j: nat)
    requires from <= k <= |s|
    requires forall m :: from <= m < |s| ==> IsIdChar(s[m])
    requires j < |lit| && !IsIdChar(lit[j])
    ensures !StartsWith(s[k..], lit)
  {
    if |lit| <= |s| - k {
      assert s[k..][..|lit|][j] == s[k + j];
    }
  }

  /** No index where none of the three prefixes starts matches the first pattern. */
  lemma FirstPatternNeedsPrefix(s: string, k: nat)
    requires k <= |s|
    requires !StartsWith(s[k..], WatchPrefix) && !StartsWith(s[k..], ShortPrefix) && !StartsWith(s[k..], EmbedMarker)
    ensures MatchAt(IdAfterPrefix, s, k).None?
  {
  }

  /** Before the host, nothing matches: an index not holding 'y' starts no pattern. */
  lemma NoMatchWithoutY(pattern: Pattern, s: string, k: nat)
    requires k <= |s| && (k == |s| || s[k] != 'y')
    ensures MatchAt(pattern, s, k).None?
  {
    NoLiteralWithoutY(s, k, WatchPrefix);
    NoLiteralWithoutY(s, k, ShortPrefix);
    NoLiteralWithoutY(s, k, EmbedMarker);
    NoLiteralWithoutY(s, k, WatchQuery);
  }

  /** A URL without surrounding space or embed path converts through the first pattern that finds an id. */
  lemma EmbedUrlOfSearch(u: string, id: string)
    requires u != [] && !IsSpace(u[0]) && !IsSpace(u[|u| - 1])
    requires !Contains(u, EmbedMarker)
    requires Search(IdAfterPrefix, u, 0) == Some(id) ||
             (Search(IdAfterPrefix, u, 0).None? && Search(VParamInQuery, u, 0) == Some(id))
    ensures EmbedUrl(JString(u)) == Some(EmbedBase + id)
  {
    FirstMatchOfPatterns(u);
    assert FirstMatch(Patterns, u) == Some(id);
    TrimOfTrimmed(u);
    EmbedUrlOfTrimmed(u);
  }

  /** A URL without surrounding space or embed path converts through the pattern loop alone. */
  lemma EmbedUrlOfTrimmed(u: string)
    requires u != [] && !IsSpace(u[0]) && !IsSpace(u[|u| - 1])
    requires !Contains(u, EmbedMarker)
    ensures FirstMatch(Patterns, u).None? ==> EmbedUrl(JString(u)).None?
    ensures FirstMatch(Patterns, u).Some? ==> EmbedUrl(JString(u)) == Some(EmbedBase + FirstMatch(Patterns, u).value)
  {
    TrimOfTrimmed(u);
    var url := JString(u);
    assert url.JString? && url.s != [] && Trim(url.s) == u;
    assert !Contains(Trim(url.s), EmbedMarker);
  }

  /** The `patterns` list tried in order: the first, then the second. */
  lemma FirstMatchOfPatterns(s: string)
    ensures FirstMatch(Patterns, s) ==
            if Search(IdAfterPrefix, s, 0).Some? then Search(IdAfterPrefix, s, 0) else Search(VParamInQuery, s, 0)
  {
    assert Patterns[1..] == [VParamInQuery];
    assert Patterns[1..][1..] == [];
    assert FirstMatch(Patterns[1..], s) == Search(VParamInQuery, s, 0);
  }

  /** A non-empty string that is not an embed URL converts to null exactly when neither pattern matches anywhere. */
  lemma EmbedUrlNone(url: string)
    requires url != [] && !Contains(Trim(url), EmbedMarker)
    ensures EmbedUrl(JString(url)).None? <==>
            forall k :: 0 <= k <= |Trim(url)| ==>
              MatchAt(IdAfterPrefix, Trim(url), k).None? && MatchAt(VParamInQuery, Trim(url), k).None?
  {
    FirstMatchOfPatterns(Trim(url));
    SearchNone(IdAfterPrefix, Trim(url), 0);
    SearchNone(VParamInQuery, Trim(url), 0);
  }

  /** One of the first pattern's own prefixes, then an id and a character that ends it. */
  lemma PrefixThenId(pre: string, prefix: string, id: string, rest: string)
    requires prefix == ShortPrefix || prefix == WatchPrefix
    requires IsVideoId(id)
    requires rest == [] || !IsIdChar(rest[0])
    ensures MatchAt(IdAfterPrefix, pre + prefix + id + rest, |pre|) == Some(id)
  {
    var u := pre + prefix + id + rest;
    var p := |pre|;
    var t := u[p..];
    assert t == prefix + (id + rest);
    assert StartsWith(t, prefix);
    assert u[p + |prefix|..] == id + rest;
    IdRunOf(id, rest);
    if prefix == ShortPrefix {
      assert t[5] == '.' != WatchPrefix[5];
      assert !StartsWith(t, WatchPrefix);
    }
  }

  /** No index before the first 'y' matches either pattern. */
  lemma NoMatchBeforeY(pattern: Pattern, u: string, p: nat)
    requires p <= |u|
    requires forall k :: 0 <= k < p ==> u[k] != 'y'
    ensures forall k :: 0 <= k < p ==> MatchAt(pattern, u, k).None?
  {
    forall k | 0 <= k < p
      ensures MatchAt(pattern, u, k).None?
    {
      NoMatchWithoutY(pattern, u, k);
    }
  }

  /** The first and last characters of a URL built from parts. */
  lemma EdgesOf(pre: string, mid: string, post: string)
    requires mid != []
    requires pre == [] || !IsSpace(pre[0])
    requires post == [] || !IsSpace(post[|post| - 1])
    requires !IsSpace(mid[0]) && !IsSpace(mid[|mid| - 1])
    ensures var u := pre + mid + post; !IsSpace(u[0]) && !IsSpace(u[|u| - 1])
  {
  }

  /**
   * `youtu.be/ID` and `youtube.com/watch?v=ID`, after any scheme or
   * subdomain without a 'y' and before anything that does not continue the
   * id, convert to the embed URL of that same id.
   */
  lemma ShortOrWatchUrl(pre: string, prefix: string, id: string, rest: string)
    requires prefix == ShortPrefix || prefix == WatchPrefix
    requires forall k :: 0 <= k < |pre| ==> pre[k] != 'y'
    requires IsVideoId(id)
    requires rest == [] || !IsIdChar(rest[0])
    requires (pre == [] || !IsSpace(pre[0])) && (rest == [] || !IsSpace(rest[|rest| - 1]))
    requires !Contains(pre + prefix + id + rest, EmbedMarker)
    ensures EmbedUrl(JString(pre + prefix + id + rest)) == Some(EmbedBase + id)
  {
    var u := pre + prefix + id + rest;
    assert u == pre + (prefix + id) + rest;
    assert (prefix + id)[|prefix + id| - 1] == id[|id| - 1];
    EdgesOf(pre, prefix + id, rest);
    assert forall k :: 0 <= k < |pre| ==> u[k] == pre[k];
    NoMatchBeforeY(IdAfterPrefix, u, |pre|);
    PrefixThenId(pre, prefix, id, rest);
    SearchLeftmost(IdAfterPrefix, u, 0, |pre|);
    EmbedUrlOfSearch(u, id);
  }

  /** The last index of [lo, hi] where `[&?]v=` and an id start is the one the backing-off `.*` settles on. */
  lemma {:induction false} LastVParamFinds(s: string, lo: nat, hi: int, q: nat)
    requires lo <= q <= hi
    requires VParamAt(s, q).Some?
    requires forall k :: q < k <= hi ==> VParamAt(s, k).None?
    ensures LastVParam(s, lo, hi) == VParamAt(s, q)
    decreases hi - q
  {
    if q < hi {
      LastVParamFinds(s, lo, hi - 1, q);
    }
  }

  /** The watch URL `pre + "youtube.com/watch?" + query + "&v=" + id`. */
  function QueryUrl(pre: string, query: string, id: string): string
  {
    pre + WatchQuery + query + "&v=" + id
  }

  /** Where the parts of a `QueryUrl` sit. */
  lemma QueryUrlChars(pre: string, query: string, id: string)
    ensures var u := QueryUrl(pre, query, id);
      var a := |pre| + |WatchQuery| + |query|;
      && |u| == a + 3 + |id|
      && (forall k :: 0 <= k < |pre| ==> u[k] == pre[k])
      && (forall k :: 0 <= k < |WatchQuery| ==> u[|pre| + k] == WatchQuery[k])
      && (forall k :: 0 <= k < |query| ==> u[|pre| + |WatchQuery| + k] == query[k])
      && u[a] == '&' && u[a + 1] == 'v' && u[a + 2] == '='
      && (forall k :: 0 <= k < |id| ==> u[a + 3 + k] == id[k])
      && u[|pre|..] == WatchQuery + query + "&v=" + id
      && u[a + 3..] == id
  {
    var u := QueryUrl(pre, query, id);
    var t := WatchQuery + query + "&v=" + id;
    assert u == pre + t;
    assert u[|pre|..] == t;
    assert t[|WatchQuery| + |query| + 3..] == id;
  }

  /** In a `QueryUrl`, only the host holds a 'y' before the id. */
  lemma QueryUrlOneY(pre: string, query: string, id: string)
    requires forall k :: 0 <= k < |pre| ==> pre[k] != 'y'
    requires forall k :: 0 <= k < |query| ==> query[k] != 'y'
    ensures var u := QueryUrl(pre, query, id);
      forall k :: 0 <= k < |pre| + |WatchQuery| + |query| + 3 && k != |pre| ==> u[k] != 'y'
  {
    var u := QueryUrl(pre, query, id);
    var p, q := |pre|, |pre| + |WatchQuery|;
    var a := q + |query|;
    QueryUrlChars(pre, query, id);
    assert forall j :: 1 <= j < |WatchQuery| ==> WatchQuery[j] != 'y';
    forall k | 0 <= k < a + 3 && k != p
      ensures u[k] != 'y'
    {
      if k < p {
        assert u[k] == pre[k];
      } else if k < q {
        assert u[p + (k - p)] == WatchQuery[k - p];
      } else if k < a {
        assert u[q + (k - q)] == query[k - q];
      }
    }
  }

  /** `youtube.com/watch?` followed by a query not starting with `v=` starts none of the first pattern's prefixes. */
  lemma WatchQueryNoPrefix(query: string, id: string)
    requires !StartsWith(query, "v=")
    ensures var t := WatchQuery + query + "&v=" + id;
      !StartsWith(t, WatchPrefix) && !StartsWith(t, ShortPrefix) && !StartsWith(t, EmbedMarker)
  {
    var t := WatchQuery + query + "&v=" + id;
    var n := |WatchQuery|;
    assert t[5] == 'b' != ShortPrefix[5];
    assert t[12] == 'w' != EmbedMarker[12];
    assert WatchPrefix[n..] == "v=";
    if |query| >= 2 {
      assert t[n..n + 2] == query[..2];
    } else if |query| == 1 {
      assert t[n + 1] == '&';
    } else {
      assert t[n] == '&';
    }
  }

  /** From the id on, a `QueryUrl` holds only id characters. */
  lemma QueryUrlIdTail(pre: string, query: string, id: string)
    requires IsVideoId(id)
    ensures var u := QueryUrl(pre, query, id);
      forall m :: |u| - |id| <= m < |u| ==> IsIdChar(u[m])
  {
    var u := QueryUrl(pre, query, id);
    assert u == (pre + WatchQuery + query + "&v=") + id;
    forall m | |u| - |id| <= m < |u| ensures IsIdChar(u[m]) {
      assert u[m] == id[m - (|u| - |id|)];
    }
  }

  /** No index of a `QueryUrl` starts one of the first pattern's prefixes. */
  lemma QueryUrlNoPrefix(pre: string, query: string, id: string, k: nat)
    requires forall j :: 0 <= j < |pre| ==> pre[j] != 'y'
    requires forall j :: 0 <= j < |query| ==> query[j] != 'y'
    requires !StartsWith(query, "v=")
    requires IsVideoId(id)
    requires k <= |QueryUrl(pre, query, id)|
    ensures var u := QueryUrl(pre, query, id);
      !StartsWith(u[k..], WatchPrefix) && !StartsWith(u[k..], ShortPrefix) && !StartsWith(u[k..], EmbedMarker)
  {
    var u := QueryUrl(pre, query, id);
    var a := |pre| + |WatchQuery| + |query|;
    QueryUrlChars(pre, query, id);
    if k == |pre| {
      WatchQueryNoPrefix(query, id);
    } else if k < a + 3 {
      QueryUrlOneY(pre, query, id);
      NoLiteralWithoutY(u, k, WatchPrefix);
      NoLiteralWithoutY(u, k, ShortPrefix);
      NoLiteralWithoutY(u, k, EmbedMarker);
    } else {
      QueryUrlIdTail(pre, query, id);
      NoLiteralInId(u, a + 3, k, WatchPrefix, 7);
      NoLiteralInId(u, a + 3, k, ShortPrefix, 5);
      NoLiteralInId(u, a + 3, k, EmbedMarker, 7);
    }
  }

  /** After the host of a `QueryUrl` there is no line break, so `.*` may run to the end. */
  lemma QueryUrlOneLine(pre: string, query: string, id: string)
    requires forall j :: 0 <= j < |query| ==> !IsLineTerminator(query[j])
    requires IsVideoId(id)
    ensures var u := QueryUrl(pre, query, id); LineEnd(u, |pre| + |WatchQuery|) == |u|
  {
    var u := QueryUrl(pre, query, id);
    var lo := |pre| + |WatchQuery|;
    assert u[lo..] == query + "&v=" + id;
    forall m | lo <= m < |u|
      ensures !IsLineTerminator(u[m])
    {
      assert u[m] == u[lo..][m - lo];
      if m - lo >= |query| + 3 {
        assert u[lo..][m - lo] == id[m - lo - |query| - 3];
      }
    }
  }

  /** The `&v=` of a `QueryUrl` is the last place `[&?]v=` and an id start. */
  lemma QueryUrlLastV(pre: string, query: string, id: string)
    requires IsVideoId(id)
    ensures var u := QueryUrl(pre, query, id);
      var a := |pre| + |WatchQuery| + |query|;
      VParamAt(u, a) == Some(id) && forall k :: a < k <= |u| - 1 ==> VParamAt(u, k).None?
  {
    var u := QueryUrl(pre, query, id);
    var a := |pre| + |WatchQuery| + |query|;
    assert u == (pre + WatchQuery + query) + "&v=" + id;
    assert u[a..] == "&v=" + id;
    assert u[a + 3..] == id;
    IdRunOf(id, []);
    assert id + [] == id;
    QueryUrlIdTail(pre, query, id);
    forall k | a < k <= |u| - 1
      ensures VParamAt(u, k).None?
    {
      if k >= a + 3 {
        assert IsIdChar(u[k]);
      } else {
        assert u[k] == u[a..][k - a];
      }
    }
  }

  /** The second pattern at p: its host, one line, and a last `[&?]v=` with an id at a. */
  lemma SecondPatternFinds(u: string, p: nat, a: nat, id: string)
    requires p + |WatchQuery| <= a < |u|
    requires StartsWith(u[p..], WatchQuery)
    requires LineEnd(u, p + |WatchQuery|) == |u|
    requires VParamAt(u, a) == Some(id)
    requires forall k :: a < k <= |u| - 1 ==> VParamAt(u, k).None?
    ensures MatchAt(VParamInQuery, u, p) == Some(id)
  {
    LastVParamFinds(u, p + |WatchQuery|, |u| - 1, a);
  }

  /** At the host of a `QueryUrl`, the second pattern captures the id after `&v=`. */
  lemma QueryUrlFindsV(pre: string, query: string, id: string)
    requires forall j :: 0 <= j < |query| ==> !IsLineTerminator(query[j])
    requires IsVideoId(id)
    ensures MatchAt(VParamInQuery, QueryUrl(pre, query, id), |pre|) == Some(id)
  {
    var u := QueryUrl(pre, query, id);
    assert StartsWith(u[|pre|..], WatchQuery) by {
      assert u == pre + WatchQuery + (query + "&v=" + id);
      assert u[|pre|..][..|WatchQuery|] == WatchQuery;
    }
    QueryUrlOneLine(pre, query, id);
    QueryUrlLastV(pre, query, id);
    SecondPatternFinds(u, |pre|, |pre| + |WatchQuery| + |query|, id);
  }

  /** The first pattern finds nothing in a `QueryUrl`, which is not an embed URL either. */
  lemma QueryUrlNoFirstPattern(pre: string, query: string, id: string)
    requires forall k :: 0 <= k < |pre| ==> pre[k] != 'y'
    requires forall k :: 0 <= k < |query| ==> query[k] != 'y'
    requires !StartsWith(query, "v=")
    requires IsVideoId(id)
    ensures Search(IdAfterPrefix, QueryUrl(pre, query, id), 0).None?
    ensures !Contains(QueryUrl(pre, query, id), EmbedMarker)
  {
    var u := QueryUrl(pre, query, id);
    forall k | 0 <= k <= |u|
      ensures MatchAt(IdAfterPrefix, u, k).None?
    {
      QueryUrlNoPrefix(pre, query, id, k);
      FirstPatternNeedsPrefix(u, k);
    }
    forall k: nat
      ensures !OccursAt(u, EmbedMarker, k)
    {
      if k + |EmbedMarker| <= |u| {
        QueryUrlNoPrefix(pre, query, id, k);
        assert u[k..][..|EmbedMarker|] == u[k..k + |EmbedMarker|];
      }
    }
    ContainsAt(u, EmbedMarker);
    SearchNone(IdAfterPrefix, u, 0);
  }

  /** The second pattern's leftmost match in a `QueryUrl` is at its host. */
  lemma QueryUrlSecondPattern(pre: string, query: string, id: string)
    requires forall k :: 0 <= k < |pre| ==> pre[k] != 'y'
    requires forall k :: 0 <= k < |query| ==> query[k] != 'y' && !IsLineTerminator(query[k])
    requires IsVideoId(id)
    ensures Search(VParamInQuery, QueryUrl(pre, query, id), 0) == Some(id)
  {
    var u := QueryUrl(pre, query, id);
    QueryUrlOneY(pre, query, id);
    NoMatchBeforeY(VParamInQuery, u, |pre|);
    QueryUrlFindsV(pre, query, id);
    SearchLeftmost(VParamInQuery, u, 0, |pre|);
  }

  /**
   * A watch URL whose `v=` parameter comes after another one, as in
   * `https://www.youtube.com/watch?feature=share&v=ID`, still converts to the
   * embed URL of that id: the first pattern finds nothing and the second one
   * takes over.
   */
  lemma VParamNotFirst(pre: string, query: string, id: string)
    requires forall k :: 0 <= k < |pre| ==> pre[k] != 'y'
    requires pre == [] || !IsSpace(pre[0])
    requires forall k :: 0 <= k < |query| ==> query[k] != 'y' && !IsLineTerminator(query[k])
    requires !StartsWith(query, "v=")
    requires IsVideoId(id)
    ensures EmbedUrl(JString(pre + "youtube.com/watch?" + query + "&v=" + id)) == Some(EmbedBase + id)
  {
    var u := QueryUrl(pre, query, id);
    assert u == pre + (WatchQuery + query + "&v=") + id;
    assert u[|u| - 1] == id[|id| - 1];
    assert !IsSpace(u[0]) by {
      if pre == [] {
        assert u[0] == 'y';
      }
    }
    QueryUrlNoFirstPattern(pre, query, id);
    QueryUrlSecondPattern(pre, query, id);
    EmbedUrlOfSearch(u, id);
  }
}
