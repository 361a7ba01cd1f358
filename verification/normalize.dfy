/** The query-string normaliser shared by the `/ajax` and `/nojs` handlers: an
    ordered, first-match-wins list of substring rules that turns a requested URL into
    the "clean" prefix the UTM tags are appended to. Matching is by substring
    (`str.find` / `in`), not by query-parameter key. */
module Normalizer {
  import opened PyStr

  const From := "from="
  const Utm := "utm_"
  const Openstat := "_openstat="

  /** `'?' + m in url or '&' + m in url`: the marker appears right after a `?` or `&`. */
  predicate Marked(url: string, m: string)
  {
    Contains(url, "?" + m) || Contains(url, "&" + m)
  }

  /** A marked URL contains the bare marker, and its first occurrence leaves room for it. */
  lemma MarkerFound(url: string, m: string)
    requires Marked(url, m)
    ensures Contains(url, m) && Find(url, m) + |m| <= |url|
  {
    if Contains(url, "?" + m) {
      ContainsTail(url, "?", m);
    } else {
      ContainsTail(url, "&", m);
    }
  }

  /** `url[:url.find(m)]`, used only where the marker is known to occur. */
  function CutBefore(url: string, m: string): (r: string)
    requires Contains(url, m)
    ensures CutAtFirst(url, r, m)
  {
    url[..Find(url, m)]
  }

  /** The clean URL computed before tagging. */
  function Normalize(url: string): (r: string)
    ensures (|r| <= |url| && r == url[..|r|]) || r == url + "?" || r == url + "&"
  {
    if Marked(url, From) then
      MarkerFound(url, From); CutBefore(url, From)
    else if !Contains(url, "?") then
      url + "?"
    else if Marked(url, Utm) then
      MarkerFound(url, Utm); CutBefore(url, Utm)
    else if Marked(url, Openstat) then
      MarkerFound(url, Openstat); CutBefore(url, Openstat)
    else
      url + "&"
  }

  /** `r` is what remains of `url` when it is cut just before the first occurrence of
      `m`: `r` is a prefix of `url`, `m` occurs right after it, and nowhere earlier. */
  ghost predicate CutAtFirst(url: string, r: string, m: string)
  {
    && |r| <= |url|
    && url[..|r|] == r
    && OccursAt(url, m, |r|)
    && forall j :: 0 <= j < |r| ==> !OccursAt(url, m, j)
  }

  /** Cutting before the first occurrence satisfies `CutAtFirst`, and what is left
      holds no occurrence of the marker. */
  lemma CutBeforeIsCutAtFirst(url: string, m: string)
    requires |m| > 0 && Contains(url, m)
    ensures CutAtFirst(url, CutBefore(url, m), m)
    ensures !Contains(CutBefore(url, m), m)
  {
    NoneBeforeFirst(url, m);
  }

  /** A cut is the first one when the marker's first character does not occur before it. */
  lemma CutAtLeadChar(url: string, r: string, m: string)
    requires |m| > 0 && |r| <= |url| && url[..|r|] == r && OccursAt(url, m, |r|)
    requires m[0] !in r
    ensures CutAtFirst(url, r, m)
  {
    forall j | 0 <= j < |r|
      ensures !OccursAt(url, m, j)
    {
      assert url[j] == r[j] != m[0];
      if j + |m| <= |url| {
        assert url[j..j + |m|][0] == url[j];
      }
    }
  }

  /** `CutAtFirst` determines the cut completely. */
  lemma CutAtFirstUnique(url: string, r1: string, r2: string, m: string)
    requires CutAtFirst(url, r1, m) && CutAtFirst(url, r2, m)
    ensures r1 == r2
  {
  }

  /** Rule 1: a URL with `?from=` or `&from=` is cut just before its first `from=`
      (wherever that first `from=` is); the result holds no `from=`. */
  lemma NormalizeFromRule(url: string)
    requires Marked(url, From)
    ensures CutAtFirst(url, Normalize(url), From)
    ensures !Contains(Normalize(url), From)
    ensures |Normalize(url)| < |url|
  {
    MarkerFound(url, From);
    CutBeforeIsCutAtFirst(url, From);
  }

  /** Rule 2: otherwise a URL without `?` gets exactly one `?` appended; this fires
      before the `utm_` and `_openstat=` rules. */
  lemma NormalizeNoQueryRule(url: string)
    requires !Marked(url, From) && '?' !in url
    ensures Normalize(url) == url + "?"
  {
    ContainsChar(url, '?');
  }

  /** Rule 3: otherwise a URL with `?utm_` or `&utm_` is cut just before its first `utm_`. */
  lemma NormalizeUtmRule(url: string)
    requires !Marked(url, From) && '?' in url && Marked(url, Utm)
    ensures CutAtFirst(url, Normalize(url), Utm)
    ensures !Contains(Normalize(url), Utm)
    ensures |Normalize(url)| < |url|
  {
    ContainsChar(url, '?');
    MarkerFound(url, Utm);
    CutBeforeIsCutAtFirst(url, Utm);
  }

  /** Rule 4: otherwise a URL with `?_openstat=` or `&_openstat=` is cut just before its
      first `_openstat=`. */
  lemma NormalizeOpenstatRule(url: string)
    requires !Marked(url, From) && '?' in url && !Marked(url, Utm) && Marked(url, Openstat)
    ensures CutAtFirst(url, Normalize(url), Openstat)
    ensures !Contains(Normalize(url), Openstat)
    ensures |Normalize(url)| < |url|
  {
    ContainsChar(url, '?');
    MarkerFound(url, Openstat);
    CutBeforeIsCutAtFirst(url, Openstat);
  }

  /** Rule 5: otherwise `&` is appended, unconditionally. */
  lemma NormalizeFallbackRule(url: string)
    requires !Marked(url, From) && '?' in url && !Marked(url, Utm) && !Marked(url, Openstat)
    ensures Normalize(url) == url + "&"
  {
    ContainsChar(url, '?');
  }

  /** Appending `?` or `&` never creates a marker, since every marker pattern ends in
      `=` or `_`. */
  lemma AppendKeepsUnmarked(url: string, c: char)
    requires c == '?' || c == '&'
    ensures Marked(url + [c], From) <==> Marked(url, From)
    ensures Marked(url + [c], Utm) <==> Marked(url, Utm)
    ensures Marked(url + [c], Openstat) <==> Marked(url, Openstat)
  {
    ContainsAppendChar(url, c, "?" + From);
    ContainsAppendChar(url, c, "&" + From);
    ContainsAppendChar(url, c, "?" + Utm);
    ContainsAppendChar(url, c, "&" + Utm);
    ContainsAppendChar(url, c, "?" + Openstat);
    ContainsAppendChar(url, c, "&" + Openstat);
  }

  /** Normalisation is not idempotent: on a URL with no marker it appends a separator,
      and normalising again appends another `&` (`p` gives `p?` then `p?&`; `p?id=5`
      gives `p?id=5&` then `p?id=5&&`). */
  lemma NormalizeNotIdempotent(url: string)
    requires !Marked(url, From) && !Marked(url, Utm) && !Marked(url, Openstat)
    ensures Normalize(url) == url + "?" || Normalize(url) == url + "&"
    ensures Normalize(Normalize(url)) == Normalize(url) + "&"
  {
    ContainsChar(url, '?');
    var c := if '?' in url then '&' else '?';
    var n := url + [c];
    assert Normalize(url) == n;
    AppendKeepsUnmarked(url, c);
    assert n[|url|] == c;
    assert '?' in n;
    NormalizeFallbackRule(n);
  }

  /** For any page address without an `f`, a `?from=` parameter and all that follows it
      are dropped, leaving the `?`. The module documentation's own example,
      `https://subdomain.domain.ru/category/page-name-some-id?from=somewhere`, is one. */
  lemma NormalizeDropsFrom(page: string, tail: string)
    requires 'f' !in page
    ensures Normalize(page + "?" + From + tail) == page + "?"
  {
    var u := page + "?" + From + tail;
    var c := page + "?";
    assert u[|c|..|c| + |From|] == From;
    assert OccursAt(u, "?" + From, |page|);
    ContainsIff(u, "?" + From, |page|);
    NormalizeFromRule(u);
    assert u[..|c|] == c;
    CutAtLeadChar(u, c, From);
    CutAtFirstUnique(u, c, Normalize(u), From);
  }

  /** Rule 2 fires before rule 3: `a&utm_x` keeps its `utm_` and gains a `?`. */
  lemma NormalizeExamplePrecedence(u: string)
    requires u == "a&utm_x"
    ensures Normalize(u) == u + "?"
  {
    assert !Marked(u, From) && '?' !in u by {
      NotContainsByChar(u, "?" + From, 'f');
      NotContainsByChar(u, "&" + From, 'f');
    }
    NormalizeNoQueryRule(u);
  }

  /** Normalising `a&utm_x?`, the result of the previous example, cuts it down to `a&`. */
  lemma NormalizeExampleSecondPass(v: string)
    requires v == "a&utm_x?"
    ensures Normalize(v) == "a&"
  {
    assert !Marked(v, From) by {
      NotContainsByChar(v, "?" + From, 'f');
      NotContainsByChar(v, "&" + From, 'f');
    }
    assert '?' in v && Marked(v, Utm) by {
      assert v[7] == '?';
      assert OccursAt(v, "&" + Utm, 1) by {
        assert v[1..6] == "&" + Utm;
      }
      ContainsIff(v, "&" + Utm, 1);
    }
    assert |"a&"| <= |v| && v[..2] == "a&" && OccursAt(v, Utm, 2) && Utm[0] !in "a&" by {
      assert v[2..6] == Utm;
    }
    NormalizeUtmRule(v);
    CutAtLeadChar(v, "a&", Utm);
    CutAtFirstUnique(v, "a&", Normalize(v), Utm);
  }

  /** The cut is at the first `utm_` anywhere, even in the path: the clean URL then ends
      in neither `?` nor `&`. */
  lemma NormalizeCutInPath(u: string)
    requires u == "s/utm_a?utm_b"
    ensures Normalize(u) == "s/"
  {
    assert !Marked(u, From) by {
      NotContainsByChar(u, "?" + From, 'f');
      NotContainsByChar(u, "&" + From, 'f');
    }
    assert '?' in u && Marked(u, Utm) by {
      assert u[7] == '?';
      assert OccursAt(u, "?" + Utm, 7) by {
        assert u[7..12] == "?" + Utm;
      }
      ContainsIff(u, "?" + Utm, 7);
    }
    assert |"s/"| <= |u| && u[..2] == "s/" && OccursAt(u, Utm, 2) && Utm[0] !in "s/" by {
      assert u[2..6] == Utm;
    }
    NormalizeUtmRule(u);
    CutAtLeadChar(u, "s/", Utm);
    CutAtFirstUnique(u, "s/", Normalize(u), Utm);
  }
}
