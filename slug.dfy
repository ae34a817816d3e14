/** The country slug and the district-file URL derived from it: trim, lower-case,
    `&` to `and`, every run of characters outside `[a-z0-9]` to one `_`, and no `_`
    at either end. */
module Slug {
  import opened Wrappers
  import opened JsString
  import opened Seqs

  /** `[a-z0-9]`. */
  predicate IsSlugChar(c: char) {
    ('a' <= c <= 'z') || ('0' <= c <= '9')
  }

  /** Only `[a-z0-9_]`. */
  ghost predicate SlugAlphabet(s: string) {
    forall k :: 0 <= k < |s| ==> IsSlugChar(s[k]) || s[k] == '_'
  }

  /** No two `_` in a row. */
  ghost predicate NoDoubleUnderscore(s: string) {
    forall k :: 0 <= k < |s| - 1 ==> !(s[k] == '_' && s[k + 1] == '_')
  }

  /** What `slugifyCountry` promises of its output. */
  ghost predicate IsSlug(s: string) {
    && SlugAlphabet(s)
    && NoDoubleUnderscore(s)
    && (s != [] ==> s[0] != '_' && s[|s| - 1] != '_')
  }

  /** `.replace(/&/g, "and")`. */
  function ReplaceAmp(s: string): (r: string)
    ensures forall k :: 0 <= k < |r| ==> r[k] != '&'
    ensures (forall k :: 0 <= k < |s| ==> s[k] != '&') ==> r == s
  {
    if s == [] then []
    else
      assert forall k :: 1 <= k < |s| ==> s[1..][k - 1] == s[k];
      (if s[0] == '&' then "and" else [s[0]]) + ReplaceAmp(s[1..])
  }

  /** `ReplaceAmp` works piece by piece ... */
  lemma {:induction false} ReplaceAmpConcat(a: string, b: string)
    ensures ReplaceAmp(a + b) == ReplaceAmp(a) + ReplaceAmp(b)
    decreases |a|
  {
    if a == [] {
      assert a + b == b;
    } else {
      assert (a + b)[0] == a[0] && (a + b)[1..] == a[1..] + b;
      ReplaceAmpConcat(a[1..], b);
    }
  }

  /** ... so each `&` becomes "and" and every other character is kept, in order. */
  lemma ReplaceAmpAt(a: string, c: char, b: string)
    ensures ReplaceAmp(a + [c] + b) == ReplaceAmp(a) + (if c == '&' then "and" else [c]) + ReplaceAmp(b)
  {
    var m := if c == '&' then "and" else [c];
    assert ReplaceAmp([c]) == m by {
      assert [c][0] == c && [c][1..] == [];
    }
    ReplaceAmpConcat(a, [c]);
    ReplaceAmpConcat(a + [c], b);
  }

  /** Drops the leading run of characters outside `[a-z0-9]`. */
  function SkipRun(s: string): (r: string)
    ensures |r| <= |s| && r == s[|s| - |r|..]
    ensures r == [] || IsSlugChar(r[0])
    ensures s == [] || IsSlugChar(s[0]) ==> r == s
  {
    if s == [] || IsSlugChar(s[0]) then s else SkipRun(s[1..])
  }

  /** `.replace(/[^a-z0-9]+/g, "_")`: each maximal run outside `[a-z0-9]` becomes one `_`. */
  function CollapseRuns(s: string): (r: string)
    ensures SlugAlphabet(r)
    ensures NoDoubleUnderscore(r)
    ensures (s == [] || IsSlugChar(s[0])) ==> (r == [] || IsSlugChar(r[0]))
    decreases |s|
  {
    if s == [] then []
    else if IsSlugChar(s[0]) then
      var t := CollapseRuns(s[1..]);
      ConsKeepsSlugShape(s[0], t);
      [s[0]] + t
    else
      var t := CollapseRuns(SkipRun(s[1..]));
      ConsKeepsSlugShape('_', t);
      "_" + t
  }

  predicate NotUnderscore(c: char) {
    c != '_'
  }

  /** Skipping a run drops no slug character. */
  lemma {:induction false} SkipRunKeepsSlugChars(s: string)
    ensures Filter(SkipRun(s), IsSlugChar) == Filter(s, IsSlugChar)
    decreases |s|
  {
    if s != [] && !IsSlugChar(s[0]) {
      SkipRunKeepsSlugChars(s[1..]);
    }
  }

  /** The characters of `CollapseRuns(s)` other than `_` are exactly the `[a-z0-9]`
      characters of `s`, in order. */
  lemma {:induction false} CollapseRunsKeepsSlugChars(s: string)
    ensures Filter(CollapseRuns(s), NotUnderscore) == Filter(s, IsSlugChar)
    decreases |s|
  {
    if s != [] {
      if IsSlugChar(s[0]) {
        var t := CollapseRuns(s[1..]);
        CollapseRunsKeepsSlugChars(s[1..]);
        assert ([s[0]] + t)[0] == s[0] && ([s[0]] + t)[1..] == t;
      } else {
        var t := CollapseRuns(SkipRun(s[1..]));
        CollapseRunsKeepsSlugChars(SkipRun(s[1..]));
        SkipRunKeepsSlugChars(s[1..]);
        assert ("_" + t)[0] == '_' && ("_" + t)[1..] == t;
      }
    }
  }

  /** Skipping a run of characters outside `[a-z0-9]` reaches `b` when `b` starts with a
      slug character. */
  lemma {:induction false} SkipRunOfRun(run: string, b: string)
    requires forall k :: 0 <= k < |run| ==> !IsSlugChar(run[k])
    requires b == [] || IsSlugChar(b[0])
    ensures SkipRun(run + b) == b
    decreases |run|
  {
    if run == [] {
      assert run + b == b;
    } else {
      assert (run + b)[0] == run[0] && (run + b)[1..] == run[1..] + b;
      SkipRunOfRun(run[1..], b);
    }
  }

  /** A `[a-z0-9]` character is kept, and the rest is collapsed on its own. */
  lemma CollapseRunsOfSlugChar(c: char, t: string)
    requires IsSlugChar(c)
    ensures CollapseRuns([c] + t) == [c] + CollapseRuns(t)
  {
    assert ([c] + t)[0] == c && ([c] + t)[1..] == t;
  }

  /** A maximal run of characters outside `[a-z0-9]`, one or more long, becomes one `_`. */
  lemma CollapseRunsOfRun(run: string, b: string)
    requires run != [] && forall k :: 0 <= k < |run| ==> !IsSlugChar(run[k])
    requires b == [] || IsSlugChar(b[0])
    ensures CollapseRuns(run + b) == "_" + CollapseRuns(b)
  {
    var s := run + b;
    assert s[0] == run[0];
    SkipRunOfRun(run, b);
    assert SkipRun(s) == SkipRun(s[1..]);
  }

  /** Putting a slug character, or a `_` before a slug character, in front of a string
      of single-`_`-separated slug characters keeps it so. */
  lemma ConsKeepsSlugShape(c: char, t: string)
    requires IsSlugChar(c) || c == '_'
    requires SlugAlphabet(t) && NoDoubleUnderscore(t)
    requires c == '_' ==> t == [] || IsSlugChar(t[0])
    ensures SlugAlphabet([c] + t) && NoDoubleUnderscore([c] + t)
  {
    var r := [c] + t;
    assert forall k :: 1 <= k < |r| ==> r[k] == t[k - 1];
  }

  /** `.replace(/^_+/, "")`. */
  function DropLeadingUnderscores(s: string): (r: string)
    ensures |r| <= |s|
    // a suffix of `s`, with only `_` removed in front
    ensures r == s[|s| - |r|..] && forall k :: 0 <= k < |s| - |r| ==> s[k] == '_'
    ensures r == [] || r[0] != '_'
    ensures s == [] || s[0] != '_' ==> r == s
    ensures SlugAlphabet(s) && NoDoubleUnderscore(s) ==> SlugAlphabet(r) && NoDoubleUnderscore(r)
  {
    if s != [] && s[0] == '_' then
      SliceKeepsShape(s, 1, |s|);
      var r := DropLeadingUnderscores(s[1..]);
      assert s[1..][|s| - 1 - |r|..] == s[|s| - |r|..];
      assert forall k :: 1 <= k < |s| - |r| ==> s[k] == s[1..][k - 1];
      r
    else s
  }

  /** `.replace(/_+$/, "")`. */
  function DropTrailingUnderscores(s: string): (r: string)
    ensures |r| <= |s|
    // a prefix of `s`, with only `_` removed at the end
    ensures r == s[..|r|] && forall k :: |r| <= k < |s| ==> s[k] == '_'
    ensures r == [] || (r[0] == s[0] && r[|r| - 1] != '_')
    ensures s == [] || s[|s| - 1] != '_' ==> r == s
    ensures SlugAlphabet(s) && NoDoubleUnderscore(s) ==> SlugAlphabet(r) && NoDoubleUnderscore(r)
  {
    if s != [] && s[|s| - 1] == '_' then
      SliceKeepsShape(s, 0, |s| - 1);
      var r := DropTrailingUnderscores(s[..|s| - 1]);
      assert s[..|s| - 1][..|r|] == s[..|r|];
      assert forall k :: |r| <= k < |s| - 1 ==> s[k] == s[..|s| - 1][k];
      r
    else s
  }

  /** `.replace(/^_+|_+$/g, "")`. */
  function StripUnderscores(s: string): (r: string)
    requires SlugAlphabet(s) && NoDoubleUnderscore(s)
    ensures IsSlug(r)
    ensures s == [] || (s[0] != '_' && s[|s| - 1] != '_') ==> r == s
  {
    DropTrailingUnderscores(DropLeadingUnderscores(s))
  }

  /** A slice of a string of single-`_`-separated slug characters is one too. */
  lemma SliceKeepsShape(s: string, i: int, j: int)
    requires 0 <= i <= j <= |s|
    ensures SlugAlphabet(s) && NoDoubleUnderscore(s) ==>
              SlugAlphabet(s[i..j]) && NoDoubleUnderscore(s[i..j])
  {
    assert forall k :: 0 <= k < j - i ==> s[i..j][k] == s[i + k];
  }

  /** `slugifyCountry(name)`. The `String(name || "")` step is the identity on strings. */
  function Slugify(name: string): (r: string)
    ensures IsSlug(r)
  {
    StripUnderscores(CollapseRuns(ReplaceAmp(ToLower(Trim(name)))))
  }

  /** Dropping leading underscores drops nothing else. */
  lemma {:induction false} DropLeadingKeepsRest(s: string)
    ensures Filter(DropLeadingUnderscores(s), NotUnderscore) == Filter(s, NotUnderscore)
    decreases |s|
  {
    if s != [] && s[0] == '_' {
      DropLeadingKeepsRest(s[1..]);
    }
  }

  /** Dropping trailing underscores drops nothing else. */
  lemma {:induction false} DropTrailingKeepsRest(s: string)
    ensures Filter(DropTrailingUnderscores(s), NotUnderscore) == Filter(s, NotUnderscore)
    decreases |s|
  {
    if s != [] && s[|s| - 1] == '_' {
      DropTrailingKeepsRest(s[..|s| - 1]);
      assert s == s[..|s| - 1] + [s[|s| - 1]];
      FilterConcat(s[..|s| - 1], [s[|s| - 1]], NotUnderscore);
    }
  }

  /** The slug keeps the letters and digits of the lower-cased name, with `&` spelled
      "and", in order: its characters other than `_` are exactly those. */
  lemma SlugifyKeepsSlugChars(name: string)
    ensures Filter(Slugify(name), NotUnderscore) == Filter(ReplaceAmp(ToLower(Trim(name))), IsSlugChar)
  {
    var c := CollapseRuns(ReplaceAmp(ToLower(Trim(name))));
    DropLeadingKeepsRest(c);
    DropTrailingKeepsRest(DropLeadingUnderscores(c));
    CollapseRunsKeepsSlugChars(ReplaceAmp(ToLower(Trim(name))));
  }

  /** `CollapseRuns` leaves alone a string that already has single `_` separators. */
  lemma {:induction false} CollapseRunsKeepsSlug(s: string)
    requires SlugAlphabet(s) && NoDoubleUnderscore(s)
    ensures CollapseRuns(s) == s
    decreases |s|
  {
    if s != [] {
      assert SlugAlphabet(s[1..]) && NoDoubleUnderscore(s[1..]) by {
        assert forall k :: 0 <= k < |s| - 1 ==> s[1..][k] == s[k + 1];
      }
      if IsSlugChar(s[0]) {
        CollapseRunsKeepsSlug(s[1..]);
      } else {
        assert s[1..] == [] || IsSlugChar(s[1]);
        assert SkipRun(s[1..]) == s[1..];
        CollapseRunsKeepsSlug(s[1..]);
      }
    }
  }

  /** A slug is its own slug. */
  lemma SlugifyKeepsSlug(s: string)
    requires IsSlug(s)
    ensures Slugify(s) == s
  {
    SlugPrefixSteps(s);
    CollapseRunsKeepsSlug(s);
    StripKeepsSlug(s);
  }

  /** Stripping the edge underscores leaves a slug unchanged. */
  lemma StripKeepsSlug(s: string)
    requires IsSlug(s)
    ensures StripUnderscores(s) == s
  {
  }

  /** Trimming, lower-casing and replacing `&` leave a slug unchanged. */
  lemma SlugPrefixSteps(s: string)
    requires IsSlug(s)
    ensures ReplaceAmp(ToLower(Trim(s))) == s
  {
    assert NoSpaces(s) by {
      forall k | 0 <= k < |s| ensures !IsJsSpace(s[k]) {
        assert IsSlugChar(s[k]) || s[k] == '_';
      }
    }
    TrimNoSpaces(s);
    assert ToLower(s) == s by {
      assert forall k :: 0 <= k < |s| ==> LowerChar(s[k]) == s[k];
    }
    assert forall k :: 0 <= k < |s| ==> s[k] != '&';
  }

  /** `slugifyCountry` is idempotent. */
  lemma SlugifyIdempotent(name: string)
    ensures Slugify(Slugify(name)) == Slugify(name)
  {
    SlugifyKeepsSlug(Slugify(name));
  }

  const UrlPrefix: string := "/data/"
  const UrlSuffix: string := "_districts.geojson"

  /** `getDistrictsUrl(countryName)`. */
  function DistrictsUrl(country: string): (url: string)
    ensures |url| == |UrlPrefix| + |Slugify(country)| + |UrlSuffix|
    ensures url[..|UrlPrefix|] == UrlPrefix && url[|url| - |UrlSuffix|..] == UrlSuffix
  {
    UrlPrefix + Slugify(country) + UrlSuffix
  }

  /** The slug part of a district-file URL, if it has the expected shape. */
  function SlugOfUrl(url: string): Option<string> {
    if |url| >= |UrlPrefix| + |UrlSuffix| && url[..|UrlPrefix|] == UrlPrefix
       && url[|url| - |UrlSuffix|..] == UrlSuffix
    then Some(url[|UrlPrefix|..|url| - |UrlSuffix|])
    else None
  }

  /** The district URL of a country is the data prefix, the country's slug and the
      district suffix; the slug can be read back from it. */
  lemma DistrictsUrlShape(country: string)
    ensures SlugOfUrl(DistrictsUrl(country)) == Some(Slugify(country))
    ensures IsSlug(SlugOfUrl(DistrictsUrl(country)).value)
  {
    SlugOfUrlOfSlug(Slugify(country));
  }

  /** Reading back the middle of prefix, slug and suffix gives the slug. */
  lemma SlugOfUrlOfSlug(slug: string)
    ensures SlugOfUrl(UrlPrefix + slug + UrlSuffix) == Some(slug)
  {
    var url := UrlPrefix + slug + UrlSuffix;
    assert url[..|UrlPrefix|] == UrlPrefix;
    assert url[|url| - |UrlSuffix|..] == UrlSuffix;
    assert url[|UrlPrefix|..|url| - |UrlSuffix|] == slug;
  }

  /** Two countries share a district file exactly when they share a slug. */
  lemma DistrictsUrlSameFile(a: string, b: string)
    ensures DistrictsUrl(a) == DistrictsUrl(b) <==> Slugify(a) == Slugify(b)
  {
    if DistrictsUrl(a) == DistrictsUrl(b) {
      DistrictsUrlShape(a);
      DistrictsUrlShape(b);
    }
  }
}
