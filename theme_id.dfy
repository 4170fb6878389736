/**
 * Theme ids for the theme form: a URL-safe slug derived from the theme name,
 * made unique against the existing themes by a `-1`, `-2`, ... suffix.
 */
module ThemeIds {
  import opened Wrappers
  import opened Text
  import opened JsonValue
  import opened Entities
  import DataManager

  predicate IsSlugChar(c: char)
  {
    ('a' <= c <= 'z') || ('0' <= c <= '9') || c == '-'
  }

  /** Only `a-z`, `0-9` and `-`; no `-` at either end; never two `-` in a row. */
  predicate IsSlug(s: string)
  {
    && (forall i :: 0 <= i < |s| ==> IsSlugChar(s[i]))
    && (s != [] ==> s[0] != '-' && s[|s| - 1] != '-')
    && NoDoubleHyphen(s)
  }

  predicate NoDoubleHyphen(s: string)
  {
    forall i :: 0 <= i < |s| - 1 ==> !(s[i] == '-' && s[i + 1] == '-')
  }

  // ---------------------------------------------------------------------------
  // The replace chain of `generateThemeId`

  /** `toLowerCase` on the ASCII letters (other letters are dropped later unless already lower-case ASCII). */
  function LowerChar(c: char): (r: char)
    ensures 'A' <= c <= 'Z' ==> 'a' <= r <= 'z' && r as int - 'a' as int == c as int - 'A' as int
    ensures !('A' <= c <= 'Z') ==> r == c
  {
    if 'A' <= c <= 'Z' then (c as int - 'A' as int + 'a' as int) as char else c
  }

  function ToLower(s: string): (r: string)
    ensures |r| == |s| && forall i :: 0 <= i < |s| ==> r[i] == LowerChar(s[i])
  {
    seq(|s|, i requires 0 <= i < |s| => LowerChar(s[i]))
  }

  /**
   * `replace(/\s+/g, '-')`: every maximal run of whitespace becomes one `-`
   * (`SpacesRun`, `NoSpacesUnchanged`, `SpacesToHyphensAppend`), so no
   * whitespace is left.
   */
  function SpacesToHyphens(s: string): (r: string)
    ensures |r| <= |s|
    ensures r == [] <==> s == []
    decreases |s|
  {
    if s == [] then []
    else if IsSpace(s[0]) then "-" + SpacesToHyphens(TrimStart(s[1..]))
    else [s[0]] + SpacesToHyphens(s[1..])
  }

  /** `replace(/[^a-z0-9-]/g, '')`; with `KeepSlugCharsAppend`, a filter that keeps exactly the slug characters. */
  function KeepSlugChars(s: string): (r: string)
    ensures forall i :: 0 <= i < |r| ==> IsSlugChar(r[i])
    ensures |s| == 1 ==> r == (if IsSlugChar(s[0]) then s else [])
  {
    if s == [] then []
    else if IsSlugChar(s[0]) then [s[0]] + KeepSlugChars(s[1..])
    else KeepSlugChars(s[1..])
  }

  /** The characters of `s` other than `-`, in order. */
  function NonHyphens(s: string): string
  {
    if s == [] then [] else (if s[0] == '-' then [] else [s[0]]) + NonHyphens(s[1..])
  }

  predicate IsAlnum(c: char)
  {
    ('a' <= c <= 'z') || ('0' <= c <= '9')
  }

  /** The lower-case ASCII letters and the digits of `s`, in order. */
  function AlnumOf(s: string): string
  {
    if s == [] then [] else (if IsAlnum(s[0]) then [s[0]] else []) + AlnumOf(s[1..])
  }

  /** The string without its leading run of `-`. */
  function DropHyphens(s: string): (r: string)
    ensures r == [] || r[0] != '-'
    ensures |r| <= |s|
  {
    if s != [] && s[0] == '-' then DropHyphens(s[1..]) else s
  }

  /** `DropHyphens` keeps a suffix and cuts only `-`. */
  lemma {:induction false} DropHyphensCut(s: string)
    ensures DropHyphens(s) == s[|s| - |DropHyphens(s)|..]
    ensures forall k :: 0 <= k < |s| - |DropHyphens(s)| ==> s[k] == '-'
  {
    if s != [] && s[0] == '-' {
      var r := DropHyphens(s[1..]);
      DropHyphensCut(s[1..]);
      assert r == s[|s| - |r|..] by {
        assert s[1..][|s| - 1 - |r|..] == s[|s| - |r|..];
      }
      assert forall k :: 1 <= k < |s| - |r| ==> s[k] == s[1..][k - 1];
    }
  }

  /** `DropHyphens` keeps every character other than `-`, in order. */
  lemma {:induction false} DropHyphensKeepsNonHyphens(s: string)
    ensures NonHyphens(DropHyphens(s)) == NonHyphens(s)
  {
    if s != [] && s[0] == '-' {
      DropHyphensKeepsNonHyphens(s[1..]);
      assert NonHyphens(s) == NonHyphens(s[1..]);
    }
  }

  /** A run of `-` is dropped entirely. */
  lemma {:induction false} DropHyphensAll(s: string)
    requires forall i :: 0 <= i < |s| ==> s[i] == '-'
    ensures DropHyphens(s) == []
  {
    if s != [] {
      DropHyphensAll(s[1..]);
    }
  }

  /**
   * `replace(/-+/g, '-')`: every run of `-` becomes one `-`, and everything
   * else is kept in order (`SqueezeHyphensRun`, `SqueezeKeepsSingles`,
   * `SqueezeHyphensAppend`, `SqueezeKeepsNonHyphens`).
   */
  function SqueezeHyphens(s: string): (r: string)
    ensures |r| <= |s|
    ensures r == [] <==> s == []
    ensures r != [] ==> (r[0] == '-' <==> s[0] == '-')
    decreases |s|
  {
    if s == [] then []
    else if s[0] == '-' then "-" + SqueezeHyphens(DropHyphens(s[1..]))
    else [s[0]] + SqueezeHyphens(s[1..])
  }

  /** The squeeze leaves no two `-` in a row and brings in no new character. */
  lemma {:induction false} SqueezeHyphensShape(s: string)
    ensures NoDoubleHyphen(SqueezeHyphens(s))
    ensures forall c :: c in SqueezeHyphens(s) ==> c in s
    decreases |s|
  {
    if s != [] {
      var r := SqueezeHyphens(s);
      if s[0] == '-' {
        var d := DropHyphens(s[1..]);
        var rest := SqueezeHyphens(d);
        SqueezeHyphensShape(d);
        assert forall c :: c in d ==> c in s by {
          DropHyphensCut(s[1..]);
          assert d == s[|s| - |d|..];
          SuffixChars(s, d);
        }
        assert r == "-" + rest;
        assert forall i :: 0 < i < |r| ==> r[i] == rest[i - 1];
      } else {
        var rest := SqueezeHyphens(s[1..]);
        SqueezeHyphensShape(s[1..]);
        assert r == [s[0]] + rest;
        assert forall i :: 0 < i < |r| ==> r[i] == rest[i - 1];
      }
    }
  }

  /** No whitespace is left after the whitespace step. */
  lemma {:induction false} SpacesToHyphensNoSpaces(s: string)
    ensures forall i :: 0 <= i < |SpacesToHyphens(s)| ==> !IsSpace(SpacesToHyphens(s)[i])
    decreases |s|
  {
    if s != [] {
      var r := SpacesToHyphens(s);
      var t := if IsSpace(s[0]) then TrimStart(s[1..]) else s[1..];
      SpacesToHyphensNoSpaces(t);
      assert r == (if IsSpace(s[0]) then "-" else [s[0]]) + SpacesToHyphens(t);
      assert forall i :: 0 < i < |r| ==> r[i] == SpacesToHyphens(t)[i - 1];
    }
  }

  /**
   * `replace(/^-|-$/g, '')`: at most one character goes at each end, and only a
   * `-`. After the squeeze (no double hyphen) the result has no `-` at either end.
   */
  function StripEdgeHyphens(s: string): (r: string)
    ensures exists i: nat, j: nat :: i <= 1 && |s| - 1 <= j <= |s| && i <= j && r == s[i..j] &&
              (i == 1 ==> s[0] == '-') && (j < |s| ==> s[|s| - 1] == '-')
    ensures NoDoubleHyphen(s) ==> NoDoubleHyphen(r) && (r == [] || (r[0] != '-' && r[|r| - 1] != '-'))
    ensures forall c :: c in r ==> c in s
  {
    var i := if s != [] && s[0] == '-' then 1 else 0;
    var a := s[i..];
    assert NoDoubleHyphen(s) ==> NoDoubleHyphen(a);
    if a != [] && a[|a| - 1] == '-' then
      assert a[..|a| - 1] == s[i..|s| - 1];
      a[..|a| - 1]
    else
      assert a == s[i..|s|];
      a
  }

  /** The whole chain of lines 43-49: the slug of `name`, possibly empty. */
  function SlugPipeline(name: string): (r: string)
    ensures IsSlug(r)
  {
    var spaced := SpacesToHyphens(Trim(ToLower(name)));
    var kept := KeepSlugChars(spaced);
    var squeezed := SqueezeHyphens(kept);
    SqueezeHyphensShape(kept);
    assert forall c :: c in squeezed ==> IsSlugChar(c);
    var r := StripEdgeHyphens(squeezed);
    assert forall i :: 0 <= i < |r| ==> IsSlugChar(r[i]) by {
      forall i | 0 <= i < |r| ensures IsSlugChar(r[i]) {
        assert r[i] in r;
      }
    }
    r
  }

  /** The base id: the slug of the name, or `theme` when that is empty. */
  function BaseThemeId(name: string): (r: string)
    ensures IsSlug(r) && r != []
    ensures SlugPipeline(name) == [] ==> r == "theme"
    ensures SlugPipeline(name) != [] ==> r == SlugPipeline(name)
  {
    var baseId := SlugPipeline(name);
    if baseId == [] then "theme" else baseId
  }

  // ---------------------------------------------------------------------------
  // A slug is its own slug

  lemma {:induction false} SlugFixedByKeep(s: string)
    requires IsSlug(s)
    ensures KeepSlugChars(s) == s
  {
    if s != [] {
      assert IsSlug(s[1..]) || s[1..] == [] || s[1] == '-';
      SlugCharsKept(s[1..]);
    }
  }

  lemma {:induction false} SlugCharsKept(s: string)
    requires forall i :: 0 <= i < |s| ==> IsSlugChar(s[i])
    ensures KeepSlugChars(s) == s
  {
    if s != [] {
      SlugCharsKept(s[1..]);
    }
  }

  /** Text without whitespace is unchanged by the whitespace step. */
  lemma {:induction false} NoSpacesUnchanged(s: string)
    requires forall i :: 0 <= i < |s| ==> !IsSpace(s[i])
    ensures SpacesToHyphens(s) == s
  {
    if s != [] {
      assert !IsSpace(s[0]);
      NoSpacesUnchanged(s[1..]);
    }
  }

  /** A run of whitespace becomes a single `-`. */
  lemma SpacesRun(s: string)
    requires s != [] && forall i :: 0 <= i < |s| ==> IsSpace(s[i])
    ensures SpacesToHyphens(s) == "-"
  {
    assert TrimStart(s[1..]) == [];
  }

  lemma {:induction false} SqueezeKeepsSingles(s: string)
    requires NoDoubleHyphen(s)
    ensures SqueezeHyphens(s) == s
  {
    if s != [] {
      assert NoDoubleHyphen(s[1..]);
      if s[0] == '-' {
        assert s[1..] == [] || s[1] != '-';
        assert DropHyphens(s[1..]) == s[1..];
      }
      SqueezeKeepsSingles(s[1..]);
    }
  }

  lemma LowerKeepsSlugChars(s: string)
    requires forall i :: 0 <= i < |s| ==> IsSlugChar(s[i])
    ensures ToLower(s) == s
  {
    var lowered := ToLower(s);
    forall i | 0 <= i < |s| ensures lowered[i] == s[i] {
      assert IsSlugChar(s[i]);
    }
  }

  lemma StripKeepsSlug(s: string)
    requires IsSlug(s)
    ensures StripEdgeHyphens(s) == s
  {
  }

  /** Feeding a slug back through the chain changes nothing: an id regenerates itself. */
  lemma SlugPipelineFixesSlugs(s: string)
    requires IsSlug(s)
    ensures SlugPipeline(s) == s
  {
    LowerKeepsSlugChars(s);
    TrimOfTrimmed(s);
    assert forall i :: 0 <= i < |s| ==> !IsSpace(s[i]) by {
      forall i | 0 <= i < |s| ensures !IsSpace(s[i]) {
        assert IsSlugChar(s[i]);
      }
    }
    NoSpacesUnchanged(s);
    SlugCharsKept(s);
    SqueezeKeepsSingles(s);
    StripKeepsSlug(s);
    var spaced := SpacesToHyphens(Trim(ToLower(s)));
    assert spaced == s;
    assert SqueezeHyphens(KeepSlugChars(spaced)) == s;
  }

  /** The base id of a base id is itself. */
  lemma BaseThemeIdIdempotent(name: string)
    ensures BaseThemeId(BaseThemeId(name)) == BaseThemeId(name)
  {
    SlugPipelineFixesSlugs(BaseThemeId(name));
  }

  // ---------------------------------------------------------------------------
  // Each step of the chain is determined by how it treats runs

  /** The character filter distributes over concatenation. */
  lemma {:induction false} KeepSlugCharsAppend(a: string, b: string)
    ensures KeepSlugChars(a + b) == KeepSlugChars(a) + KeepSlugChars(b)
  {
    if a == [] {
      assert a + b == b;
    } else {
      HeadTailAppend(a, b);
      KeepSlugCharsAppend(a[1..], b);
      if IsSlugChar(a[0]) {
        ConcatAssoc([a[0]], KeepSlugChars(a[1..]), KeepSlugChars(b));
      }
    }
  }

  /**
   * Whitespace runs are replaced one at a time: cutting the text where it does
   * not split a whitespace run, the two halves are converted separately.
   */
  lemma {:induction false} SpacesToHyphensAppend(a: string, b: string)
    requires a == [] || b == [] || !IsSpace(a[|a| - 1]) || !IsSpace(b[0])
    ensures SpacesToHyphens(a + b) == SpacesToHyphens(a) + SpacesToHyphens(b)
    decreases |a|, 1
  {
    if a == [] {
      assert a + b == b;
    } else if IsSpace(a[0]) {
      SpacesAppendAfterSpace(a, b);
    } else {
      HeadTailAppend(a, b);
      SpacesToHyphensAppend(a[1..], b);
      assert SpacesToHyphens(a + b) == [a[0]] + SpacesToHyphens(a[1..] + b);
      ConcatAssoc([a[0]], SpacesToHyphens(a[1..]), SpacesToHyphens(b));
    }
  }

  /** The case of `SpacesToHyphensAppend` where `a` starts with whitespace. */
  lemma {:induction false} SpacesAppendAfterSpace(a: string, b: string)
    requires a != [] && IsSpace(a[0])
    requires b == [] || !IsSpace(a[|a| - 1]) || !IsSpace(b[0])
    ensures SpacesToHyphens(a + b) == SpacesToHyphens(a) + SpacesToHyphens(b)
    decreases |a|, 0
  {
    var t := TrimStart(a[1..]);
    SpacesUnfoldAfterSpace(a, b);
    TrimStartTailLast(a);
    SpacesToHyphensAppend(t, b);
    PrependChain(SpacesToHyphens(a + b), SpacesToHyphens(t + b), SpacesToHyphens(t), SpacesToHyphens(b),
                 SpacesToHyphens(a));
  }

  /** The whitespace case of `SpacesToHyphens`, on `a` and on `a + b`. */
  lemma SpacesUnfoldAfterSpace(a: string, b: string)
    requires a != [] && IsSpace(a[0])
    requires b == [] || !IsSpace(a[|a| - 1]) || !IsSpace(b[0])
    ensures SpacesToHyphens(a) == "-" + SpacesToHyphens(TrimStart(a[1..]))
    ensures SpacesToHyphens(a + b) == "-" + SpacesToHyphens(TrimStart(a[1..]) + b)
  {
    var ab := a + b;
    SpacesHead(a);
    SpacesHead(ab);
    HeadTailAppend(a, b);
    if b != [] && !IsSpace(a[|a| - 1]) {
      assert a[1..][|a| - 2] == a[|a| - 1];
    }
    TrimStartAppend(a[1..], b);
  }

  lemma SpacesHead(s: string)
    requires s != [] && IsSpace(s[0])
    ensures SpacesToHyphens(s) == "-" + SpacesToHyphens(TrimStart(s[1..]))
  {
  }

  /** Trimming the start of the tail of `a` keeps the last character of `a`. */
  lemma TrimStartTailLast(a: string)
    requires a != []
    ensures TrimStart(a[1..]) == [] || TrimStart(a[1..])[|TrimStart(a[1..])| - 1] == a[|a| - 1]
  {
    var t := TrimStart(a[1..]);
    if t != [] {
      TrimStartDropsSpaces(a[1..]);
      SuffixLast(a[1..], t);
      assert a[1..][|a| - 2] == a[|a| - 1];
    }
  }

  /** Dropping the leading hyphens of the tail of `a` keeps the last character of `a`. */
  lemma DropHyphensTailLast(a: string)
    requires a != []
    ensures DropHyphens(a[1..]) == [] || DropHyphens(a[1..])[|DropHyphens(a[1..])| - 1] == a[|a| - 1]
  {
    var t := DropHyphens(a[1..]);
    if t != [] {
      DropHyphensCut(a[1..]);
      SuffixLast(a[1..], t);
      assert a[1..][|a| - 2] == a[|a| - 1];
    }
  }

  /** From `x == "-" + y`, `y == z + w` and `u == "-" + z` follows `x == u + w`. */
  lemma PrependChain(x: string, y: string, z: string, w: string, u: string)
    requires x == "-" + y && y == z + w && u == "-" + z
    ensures x == u + w
  {
    ConcatAssoc("-", z, w);
  }

  /** The head and the tail of `a + b` for a non-empty `a`. */
  lemma HeadTailAppend(a: string, b: string)
    requires a != []
    ensures (a + b)[0] == a[0] && (a + b)[1..] == a[1..] + b
  {
  }

  lemma ConcatAssoc(x: string, y: string, z: string)
    ensures x + (y + z) == (x + y) + z
  {
  }

  /** The last character of a non-empty suffix is the last character of the whole. */
  lemma SuffixLast(s: string, t: string)
    requires t != [] && |t| <= |s| && t == s[|s| - |t|..]
    ensures t[|t| - 1] == s[|s| - 1]
  {
    assert t[|t| - 1] == s[|s| - |t|..][|t| - 1];
  }

  /** Leading whitespace of `x + b` is that of `x` when it does not run on into `b`. */
  lemma {:induction false} TrimStartAppend(x: string, b: string)
    requires (x != [] && !IsSpace(x[|x| - 1])) || b == [] || !IsSpace(b[0])
    ensures TrimStart(x + b) == TrimStart(x) + b
  {
    if x == [] {
      assert x + b == b;
    } else if IsSpace(x[0]) {
      var xb := x + b;
      HeadTailAppend(x, b);
      assert TrimStart(xb) == TrimStart(xb[1..]);
      assert TrimStart(x[1..] + b) == TrimStart(x[1..]) + b by {
        TrimStartAppend(x[1..], b);
      }
    } else {
      assert (x + b)[0] == x[0];
    }
  }

  /** Leading hyphens of `x + b` are those of `x` when they do not run on into `b`. */
  lemma {:induction false} DropHyphensAppend(x: string, b: string)
    requires (x != [] && x[|x| - 1] != '-') || b == [] || b[0] != '-'
    ensures DropHyphens(x + b) == DropHyphens(x) + b
  {
    if x != [] {
      HeadTailAppend(x, b);
      if x[0] == '-' {
        DropHyphensAppend(x[1..], b);
      }
    } else {
      assert x + b == b;
    }
  }

  /**
   * Hyphen runs are squeezed one at a time: cutting the text where it does not
   * split a run of `-`, the two halves are squeezed separately.
   */
  lemma {:induction false} SqueezeHyphensAppend(a: string, b: string)
    requires a == [] || b == [] || a[|a| - 1] != '-' || b[0] != '-'
    ensures SqueezeHyphens(a + b) == SqueezeHyphens(a) + SqueezeHyphens(b)
    decreases |a|, 1
  {
    if a == [] {
      assert a + b == b;
    } else if a[0] == '-' {
      SqueezeAppendAfterHyphen(a, b);
    } else {
      HeadTailAppend(a, b);
      SqueezeHyphensAppend(a[1..], b);
      assert SqueezeHyphens(a + b) == [a[0]] + SqueezeHyphens(a[1..] + b);
      ConcatAssoc([a[0]], SqueezeHyphens(a[1..]), SqueezeHyphens(b));
    }
  }

  /** The case of `SqueezeHyphensAppend` where `a` starts with `-`. */
  lemma {:induction false} SqueezeAppendAfterHyphen(a: string, b: string)
    requires a != [] && a[0] == '-'
    requires b == [] || a[|a| - 1] != '-' || b[0] != '-'
    ensures SqueezeHyphens(a + b) == SqueezeHyphens(a) + SqueezeHyphens(b)
    decreases |a|, 0
  {
    var t := DropHyphens(a[1..]);
    SqueezeUnfoldAfterHyphen(a, b);
    DropHyphensTailLast(a);
    SqueezeHyphensAppend(t, b);
    PrependChain(SqueezeHyphens(a + b), SqueezeHyphens(t + b), SqueezeHyphens(t), SqueezeHyphens(b),
                 SqueezeHyphens(a));
  }

  /** The hyphen case of `SqueezeHyphens`, on `a` and on `a + b`. */
  lemma SqueezeUnfoldAfterHyphen(a: string, b: string)
    requires a != [] && a[0] == '-'
    requires b == [] || a[|a| - 1] != '-' || b[0] != '-'
    ensures SqueezeHyphens(a) == "-" + SqueezeHyphens(DropHyphens(a[1..]))
    ensures SqueezeHyphens(a + b) == "-" + SqueezeHyphens(DropHyphens(a[1..]) + b)
  {
    var ab := a + b;
    SqueezeHead(a);
    SqueezeHead(ab);
    HeadTailAppend(a, b);
    if b != [] && a[|a| - 1] != '-' {
      assert a[1..][|a| - 2] == a[|a| - 1];
    }
    DropHyphensAppend(a[1..], b);
  }

  lemma SqueezeHead(s: string)
    requires s != [] && s[0] == '-'
    ensures SqueezeHyphens(s) == "-" + SqueezeHyphens(DropHyphens(s[1..]))
  {
  }

  /** Every character of a suffix occurs in the whole. */
  lemma SuffixChars(s: string, t: string)
    requires |t| <= |s| && t == s[|s| - |t|..]
    ensures forall c :: c in t ==> c in s
  {
    forall c | c in t ensures c in s {
      var k :| 0 <= k < |t| && t[k] == c;
      assert s[|s| - |t| + k] == c;
    }
  }

  /** A run of `-` becomes a single `-`. */
  lemma {:induction false} SqueezeHyphensRun(s: string)
    requires s != [] && forall i :: 0 <= i < |s| ==> s[i] == '-'
    ensures SqueezeHyphens(s) == "-"
  {
    DropHyphensAll(s[1..]);
  }

  // ---------------------------------------------------------------------------
  // What the slug keeps of the name

  /** The squeeze keeps everything but `-`, in order. */
  lemma {:induction false} SqueezeKeepsNonHyphens(s: string)
    ensures NonHyphens(SqueezeHyphens(s)) == NonHyphens(s)
    decreases |s|
  {
    if s != [] {
      if s[0] == '-' {
        var t := DropHyphens(s[1..]);
        DropHyphensKeepsNonHyphens(s[1..]);
        SqueezeKeepsNonHyphens(t);
        NonHyphensAppend("-", SqueezeHyphens(t));
      } else {
        SqueezeKeepsNonHyphens(s[1..]);
        NonHyphensAppend([s[0]], SqueezeHyphens(s[1..]));
      }
    }
  }

  lemma {:induction false} NonHyphensAppend(a: string, b: string)
    ensures NonHyphens(a + b) == NonHyphens(a) + NonHyphens(b)
  {
    if a == [] {
      assert a + b == b;
    } else {
      HeadTailAppend(a, b);
      NonHyphensAppend(a[1..], b);
      assert NonHyphens(a + b) == (if a[0] == '-' then [] else [a[0]]) + NonHyphens(a[1..] + b);
    }
  }

  lemma {:induction false} AlnumOfAppend(a: string, b: string)
    ensures AlnumOf(a + b) == AlnumOf(a) + AlnumOf(b)
  {
    if a == [] {
      assert a + b == b;
    } else {
      HeadTailAppend(a, b);
      AlnumOfAppend(a[1..], b);
      assert AlnumOf(a + b) == (if IsAlnum(a[0]) then [a[0]] else []) + AlnumOf(a[1..] + b);
    }
  }

  /** Whitespace holds no letter, digit or `-`. */
  lemma SpaceNotAlnum(c: char)
    requires IsSpace(c)
    ensures !IsSlugChar(c) && !IsAlnum(c)
  {
  }

  lemma {:induction false} AlnumOfTrimStart(s: string)
    ensures AlnumOf(TrimStart(s)) == AlnumOf(s)
  {
    if s != [] && IsSpace(s[0]) {
      assert AlnumOf(s) == AlnumOf(s[1..]) by {
        SpaceNotAlnum(s[0]);
      }
      AlnumOfTrimStart(s[1..]);
    }
  }

  lemma {:induction false} AlnumOfTrimEnd(s: string)
    ensures AlnumOf(TrimEnd(s)) == AlnumOf(s)
  {
    if s != [] && IsSpace(s[|s| - 1]) {
      var init := s[..|s| - 1];
      assert AlnumOf(s) == AlnumOf(init) by {
        assert s == init + [s[|s| - 1]];
        AlnumOfAppend(init, [s[|s| - 1]]);
        SpaceNotAlnum(s[|s| - 1]);
      }
      AlnumOfTrimEnd(init);
    }
  }

  lemma {:induction false} AlnumOfSpaces(s: string)
    ensures AlnumOf(SpacesToHyphens(s)) == AlnumOf(s)
    decreases |s|
  {
    if s != [] {
      if IsSpace(s[0]) {
        var t := TrimStart(s[1..]);
        assert AlnumOf(SpacesToHyphens(t)) == AlnumOf(t) by {
          AlnumOfSpaces(t);
        }
        assert AlnumOf(t) == AlnumOf(s[1..]) by {
          AlnumOfTrimStart(s[1..]);
        }
        assert AlnumOf(s) == AlnumOf(s[1..]) by {
          SpaceNotAlnum(s[0]);
        }
        assert AlnumOf(SpacesToHyphens(s)) == AlnumOf(SpacesToHyphens(t)) by {
          assert SpacesToHyphens(s) == "-" + SpacesToHyphens(t);
          AlnumOfAppend("-", SpacesToHyphens(t));
        }
      } else {
        AlnumOfSpaces(s[1..]);
        AlnumOfAppend([s[0]], SpacesToHyphens(s[1..]));
      }
    }
  }

  /** Of the characters the filter keeps, the ones that are not `-` are the letters and digits. */
  lemma {:induction false} NonHyphensOfKept(s: string)
    ensures NonHyphens(KeepSlugChars(s)) == AlnumOf(s)
  {
    if s != [] {
      NonHyphensOfKept(s[1..]);
      if IsSlugChar(s[0]) {
        NonHyphensAppend([s[0]], KeepSlugChars(s[1..]));
      }
    }
  }

  lemma StripKeepsNonHyphens(s: string)
    ensures NonHyphens(StripEdgeHyphens(s)) == NonHyphens(s)
  {
    var i: nat, j: nat :| i <= 1 && |s| - 1 <= j <= |s| && i <= j && StripEdgeHyphens(s) == s[i..j] &&
                          (i == 1 ==> s[0] == '-') && (j < |s| ==> s[|s| - 1] == '-');
    assert s == s[..i] + s[i..j] + s[j..];
    NonHyphensAppend(s[..i] + s[i..j], s[j..]);
    NonHyphensAppend(s[..i], s[i..j]);
    assert NonHyphens(s[..i]) == [] && NonHyphens(s[j..]) == [];
  }

  /**
   * The letters and digits of the slug are exactly the ASCII letters
   * (lower-cased) and digits of the name, in order; everything else in the slug
   * is a `-` between them.
   */
  lemma SlugKeepsLettersAndDigits(name: string)
    ensures NonHyphens(SlugPipeline(name)) == AlnumOf(ToLower(name))
  {
    var lowered := ToLower(name);
    var trimmed := Trim(lowered);
    AlnumOfTrimStart(lowered);
    AlnumOfTrimEnd(TrimStart(lowered));
    var spaced := SpacesToHyphens(trimmed);
    AlnumOfSpaces(trimmed);
    NonHyphensOfKept(spaced);
    SqueezeKeepsNonHyphens(KeepSlugChars(spaced));
    StripKeepsNonHyphens(SqueezeHyphens(KeepSlugChars(spaced)));
  }

  /**
   * The slug is empty, and the base id falls back to `theme`, exactly when the
   * name has no ASCII letter or digit (a name written only in Cyrillic, say).
   */
  lemma EmptySlugIffNoAlnum(name: string)
    ensures SlugPipeline(name) == [] <==> AlnumOf(ToLower(name)) == []
    ensures AlnumOf(ToLower(name)) == [] ==> BaseThemeId(name) == "theme"
  {
    SlugKeepsLettersAndDigits(name);
  }

  // ---------------------------------------------------------------------------
  // Uniqueness suffixes

  /** The k-th id tried: the base itself, then `base-1`, `base-2`, ... */
  function Candidate(baseId: string, k: nat): (r: string)
    ensures k == 0 ==> r == baseId
    ensures k > 0 ==> r == baseId + "-" + NatToString(k)
  {
    if k == 0 then baseId else baseId + "-" + NatToString(k)
  }

  /** Different attempts never produce the same id. */
  lemma CandidateInjective(baseId: string, j: nat, k: nat)
    requires Candidate(baseId, j) == Candidate(baseId, k)
    ensures j == k
  {
    if j > 0 && k > 0 {
      var cj, ck := Candidate(baseId, j), Candidate(baseId, k);
      assert cj[|baseId| + 1..] == NatToString(j);
      assert ck[|baseId| + 1..] == NatToString(k);
      NatToStringInjective(j, k);
    }
  }

  /** The result of the suffix search: free, the first free attempt, and found within |themes| + 1 attempts. */
  ghost predicate FirstFreeCandidate(baseId: string, themes: seq<Theme>, id: string)
  {
    && !Taken(themes, id)
    && exists k :: 0 <= k <= |themes| && id == Candidate(baseId, k) &&
         forall j :: 0 <= j < k ==> Taken(themes, Candidate(baseId, j))
  }

  /** The ids of the first n attempts. */
  function Attempts(baseId: string, n: nat): (ids: set<Json>)
    ensures forall j :: 0 <= j < n ==> JString(Candidate(baseId, j)) in ids
  {
    if n == 0 then {} else Attempts(baseId, n - 1) + {JString(Candidate(baseId, n - 1))}
  }

  lemma {:induction false} AttemptsSize(baseId: string, n: nat)
    ensures |Attempts(baseId, n)| == n
    ensures forall x :: x in Attempts(baseId, n) ==> exists j :: 0 <= j < n && x == JString(Candidate(baseId, j))
  {
    if n > 0 {
      AttemptsSize(baseId, n - 1);
      if JString(Candidate(baseId, n - 1)) in Attempts(baseId, n - 1) {
        var j :| 0 <= j < n - 1 && JString(Candidate(baseId, n - 1)) == JString(Candidate(baseId, j));
        CandidateInjective(baseId, j, n - 1);
      }
    }
  }

  /**
   * If the first n attempts are all taken then n <= |themes|: the suffix loop
   * tests at most |themes| + 1 ids.
   */
  lemma AttemptsBounded(baseId: string, themes: seq<Theme>, n: nat)
    requires forall j :: 0 <= j < n ==> Taken(themes, Candidate(baseId, j))
    ensures n <= |themes|
  {
    AttemptsSize(baseId, n);
    forall x | x in Attempts(baseId, n) ensures x in Ids(themes) {
      var j :| 0 <= j < n && x == JString(Candidate(baseId, j));
      assert Taken(themes, Candidate(baseId, j));
    }
    SubsetCardinality(Attempts(baseId, n), Ids(themes));
  }

  /** The loop's step: the attempt just found taken, with all before it, still fits in |themes|. */
  lemma TakenAttemptBounded(baseId: string, themes: seq<Theme>, counter: nat)
    requires 1 <= counter
    requires forall j :: 0 <= j < counter - 1 ==> Taken(themes, Candidate(baseId, j))
    requires FindById(themes, Candidate(baseId, counter - 1)).Some?
    ensures forall j :: 0 <= j < counter ==> Taken(themes, Candidate(baseId, j))
    ensures counter <= |themes|
  {
    FoundIsTaken(themes, Candidate(baseId, counter - 1));
    forall j | 0 <= j < counter ensures Taken(themes, Candidate(baseId, j)) {
    }
    AttemptsBounded(baseId, themes, counter);
  }

  /**
   * `generateThemeId(name, existingThemes)`: the base id when no theme has it,
   * otherwise `base-k` for the smallest k >= 1 that no theme has.
   */
  method GenerateThemeId(name: string, existingThemes: seq<Theme>) returns (finalId: string)
    ensures FirstFreeCandidate(BaseThemeId(name), existingThemes, finalId)
  {
    var baseId := BaseThemeId(name);
    finalId := baseId;
    var counter := 1;
    while FindById(existingThemes, finalId).Some?
      invariant 1 <= counter <= |existingThemes| + 1
      invariant finalId == Candidate(baseId, counter - 1)
      invariant forall j :: 0 <= j < counter - 1 ==> Taken(existingThemes, Candidate(baseId, j))
      decreases |existingThemes| + 1 - counter
    {
      TakenAttemptBounded(baseId, existingThemes, counter);
      finalId := baseId + "-" + NatToString(counter);
      counter := counter + 1;
    }
    FoundIsTaken(existingThemes, finalId);
    StopsAtFirstFree(baseId, existingThemes, counter, finalId);
  }

  /** `find` by id succeeds exactly when the id is taken. */
  lemma FoundIsTaken(themes: seq<Theme>, id: string)
    ensures FindById(themes, id).Some? <==> Taken(themes, id)
  {
  }

  /** The suffix loop stops on the first free attempt. */
  lemma StopsAtFirstFree(baseId: string, themes: seq<Theme>, counter: nat, id: string)
    requires 1 <= counter <= |themes| + 1
    requires id == Candidate(baseId, counter - 1) && !Taken(themes, id)
    requires forall j :: 0 <= j < counter - 1 ==> Taken(themes, Candidate(baseId, j))
    ensures FirstFreeCandidate(baseId, themes, id)
  {
  }

  // ---------------------------------------------------------------------------
  // The form's choice of id and its submission

  /** The route parameter makes the form an edit form: present, non-empty and not `new`. */
  predicate IsEditRoute(routeThemeId: Option<string>)
  {
    routeThemeId.Some? && routeThemeId.value != "" && routeThemeId.value != "new"
  }

  /** The id `onFinish` gives the theme: the route's id when editing, a fresh one otherwise. */
  method ThemeFormId(routeThemeId: Option<string>, name: string, existingThemes: seq<Theme>) returns (id: string)
    ensures IsEditRoute(routeThemeId) ==> id == routeThemeId.value
    ensures !IsEditRoute(routeThemeId) ==> FirstFreeCandidate(BaseThemeId(name), existingThemes, id)
  {
    if IsEditRoute(routeThemeId) {
      id := routeThemeId.value;
    } else {
      id := GenerateThemeId(name, existingThemes);
    }
  }

  datatype FormError = NameNotText

  /**
   * `onFinish(values)`: `{ ...values, id }` is passed to `updateTheme` when
   * editing and to `addTheme` otherwise. A new theme's name must be a string
   * (`toLowerCase` throws otherwise, before anything is written).
   */
  method SubmitThemeForm(store: DataManager.DataStore, routeThemeId: Option<string>, values: map<string, Json>,
                         writeOk: bool) returns (r: Result<Theme, FormError>)
    requires store.Valid()
    modifies store`themesFallback, store`themesCache
    ensures store.Valid()
    ensures r.Err? ==> !IsEditRoute(routeThemeId) && !("name" in values && values["name"].JString?)
    ensures r.Err? ==> store.GetThemes() == old(store.GetThemes())
    ensures r.Ok? ==> r.value.props == values - {"id"}
    ensures r.Ok? && IsEditRoute(routeThemeId) ==> HasId(r.value, routeThemeId.value)
    ensures r.Ok? && IsEditRoute(routeThemeId) ==>
              match FirstIndexWithId(old(store.GetThemes()), routeThemeId.value)
              case Some(k) => store.GetThemes() == old(store.GetThemes())[k := r.value]
              case None => store.GetThemes() == old(store.GetThemes())
    ensures r.Ok? && !IsEditRoute(routeThemeId) ==>
              && store.GetThemes() == old(store.GetThemes()) + [r.value]
              && "name" in values && values["name"].JString? && r.value.id.JString?
              && FirstFreeCandidate(BaseThemeId(values["name"].s), old(store.GetThemes()), r.value.id.s)
    ensures DistinctIds(old(store.GetThemes())) ==> DistinctIds(store.GetThemes())
  {
    var existingThemes := store.GetThemes();
    var id: string;
    if IsEditRoute(routeThemeId) {
      id := routeThemeId.value;
    } else {
      if !("name" in values && values["name"].JString?) {
        return Err(NameNotText);
      }
      id := GenerateThemeId(values["name"].s, existingThemes);
    }
    var themeData := Record(JString(id), values - {"id"});
    if IsEditRoute(routeThemeId) {
      var found := store.UpdateTheme(id, themeData, writeOk);
      if found {
        var k := FirstIndexWithId(existingThemes, id).value;
        assert store.GetThemes() == existingThemes[k := themeData];
      }
    } else {
      var _ := store.AddTheme(themeData, writeOk);
      AppendFreshKeepsDistinct(existingThemes, themeData, id);
    }
    return Ok(themeData);
  }

  /** Appending a theme whose id no theme has keeps the ids distinct. */
  lemma AppendFreshKeepsDistinct(themes: seq<Theme>, theme: Theme, id: string)
    requires HasId(theme, id) && !Taken(themes, id)
    ensures DistinctIds(themes) ==> DistinctIds(themes + [theme])
  {
  }
}
