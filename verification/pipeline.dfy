/** The request handlers `/bitlinks/ajax` and `/bitlinks/nojs`, which run the same
    pipeline: cache lookup, then (on a miss) liveness probe and origin/status gate,
    normalisation, tag expansion, three shortenings, and one cache store. They differ in
    the key: `/ajax` uses the submitted form value as it is, `/nojs` (like `/go`) uses its
    `html_escape`d form for the lookup, the probe, the rules and the store. */
module Pipeline {
  import opened Wrappers
  import opened HtmlEscape
  import opened Normalizer
  import opened Tags
  import opened Gate
  import opened Cache
  import opened PyStr

  datatype Handler = Ajax | NoJs

  /** The string each handler works with. */
  function RequestKey(h: Handler, raw: string): (r: string)
    ensures r == raw <==> h == Ajax || forall i :: 0 <= i < |raw| ==> !Special(raw[i])
    ensures h == NoJs ==> forall i :: 0 <= i < |r| ==> !Unsafe(r[i])
  {
    match h
    case Ajax => raw
    case NoJs => EscapeIdentity(raw); Escape(raw)
  }

  /** What one call of the shortening service gives: the `'url'` of its answer, or a
      failure (an exception, or an answer without `'url'`). */
  datatype ShortenOutcome = Shortened(link: string) | Failed

  /** The external calls a request makes, in the order they are issued. */
  datatype Call = Probe(url: string) | Shorten(url: string)

  datatype Response = Served(links: Links) | Rejected | ShorteningFailed

  /** `pool.map(bitly.shorten, urls)` read as all-or-nothing: the results in input
      order when every call succeeded, and a failure as soon as one did not. */
  function ShortenAll(urls: seq<string>, shorten: string -> ShortenOutcome): (r: Option<seq<string>>)
    ensures r.Some? <==> forall i :: 0 <= i < |urls| ==> shorten(urls[i]).Shortened?
    ensures r.Some? ==> |r.value| == |urls|
    ensures r.Some? ==> forall i :: 0 <= i < |urls| ==> r.value[i] == shorten(urls[i]).link
  {
    if urls == [] then Some([])
    else
      match shorten(urls[0])
      case Failed => None
      case Shortened(link) =>
        match ShortenAll(urls[1..], shorten)
        case None => None
        case Some(rest) => Some([link] + rest)
  }

  /** The three shortening calls for a clean URL. */
  function ShortenCalls(clean: string): seq<Call>
  {
    var urls := Expand(clean);
    [Shorten(urls[0]), Shorten(urls[1]), Shorten(urls[2])]
  }

  /** A short link that reads back unchanged from the cache file. */
  predicate LinkSafe(link: string)
  {
    link != [] && '\t' !in link && '\n' !in link && !IsSpace(link[|link| - 1])
  }

  /** One request to `/ajax` (`h == Ajax`) or `/nojs` (`h == NoJs`), gated on the
      configured site address. The probe's answer and the shortening service are
      parameters. */
  method Handle(cache: LinkCache, h: Handler, raw: string,
                probe: string -> ProbeOutcome, shorten: string -> ShortenOutcome)
    returns (resp: Response, calls: seq<Call>)
    requires FirstComplete(Lines(cache.text), RequestKey(h, raw))
    modifies cache
    // A cache hit answers at once: no probe, no shortening, no write.
    ensures var hit := FirstRecord(Lines(old(cache.text)), RequestKey(h, raw));
      hit.Some? ==> resp == Served(hit.value) && calls == [] && cache.text == old(cache.text)
    // On a miss the URL is probed; a URL the gate refuses is rejected without a write.
    ensures var url := RequestKey(h, raw);
      FirstRecord(Lines(old(cache.text)), url).None? ==>
        && |calls| >= 1 && calls[0] == Probe(url)
        && (!Admitted(url, ConfiguredSite, StatusOf(probe(url))) ==>
              resp == Rejected && calls == [Probe(url)] && cache.text == old(cache.text))
    // An admitted URL is normalised, tagged and shortened three times; a failed
    // shortening writes nothing, success appends exactly one record.
    ensures var url := RequestKey(h, raw);
      var urls := Expand(Normalize(url));
      var results := ShortenAll(urls, shorten);
      FirstRecord(Lines(old(cache.text)), url).None? && Admitted(url, ConfiguredSite, StatusOf(probe(url))) ==>
        && calls == [Probe(url)] + ShortenCalls(Normalize(url))
        && (results.None? ==> resp == ShorteningFailed && cache.text == old(cache.text))
        && (results.Some? ==>
              && resp == Served(Links(results.value[0], results.value[1], results.value[2]))
              && cache.text == old(cache.text) + "\n" + RecordLine(url, results.value[0], results.value[1], results.value[2]))
    // Whatever happens, the file is unchanged or has exactly the served record appended.
    ensures cache.text == old(cache.text)
         || (resp.Served? && cache.text == old(cache.text) + "\n" +
               RecordLine(RequestKey(h, raw), resp.links.telegram, resp.links.vk, resp.links.instagram))
    // A served answer is what a later lookup of the same key finds, when it reads back.
    ensures resp.Served? && RecordSafe(RequestKey(h, raw), resp.links.telegram, resp.links.vk, resp.links.instagram) ==>
      FirstComplete(Lines(cache.text), RequestKey(h, raw)) && FirstRecord(Lines(cache.text), RequestKey(h, raw)) == Some(resp.links)
  {
    var url := RequestKey(h, raw);
    var hit := cache.Lookup(url);
    if hit.Some? {
      return Served(hit.value), [];
    }
    var status := StatusOf(probe(url));
    calls := [Probe(url)];
    if !Admitted(url, ConfiguredSite, status) {
      return Rejected, calls;
    }
    var clean := Normalize(url);
    var urls := Expand(clean);
    calls := calls + [Shorten(urls[0]), Shorten(urls[1]), Shorten(urls[2])];
    var results := ShortenAll(urls, shorten);
    if results.None? {
      return ShorteningFailed, calls;
    }
    var links := Links(results.value[0], results.value[1], results.value[2]);
    if RecordSafe(url, links.telegram, links.vk, links.instagram) {
      StoreThenLookup(cache.text, url, links.telegram, links.vk, links.instagram);
    }
    cache.Store(url, links.telegram, links.vk, links.instagram);
    return Served(links), calls;
  }

  /** The cache lookup of `/go`, which uses the escaped URL as key; on a miss the page it
      renders posts to `/ajax` instead. */
  method GoLookup(cache: LinkCache, raw: string) returns (r: Option<Links>)
    requires FirstComplete(Lines(cache.text), Escape(raw))
    ensures r == FirstRecord(Lines(cache.text), Escape(raw))
  {
    r := cache.Lookup(Escape(raw));
  }

  /** A repeated request for a URL that was just served is answered from the cache,
      without any external call, with the same links. Across both requests the file
      gains at most one record, written by whichever request served it first. */
  method RepeatRequest(cache: LinkCache, h: Handler, raw: string,
                       probe: string -> ProbeOutcome, shorten: string -> ShortenOutcome)
    returns (first: Response, second: Response, secondCalls: seq<Call>)
    requires FirstComplete(Lines(cache.text), RequestKey(h, raw))
    requires KeySafe(RequestKey(h, raw))
    requires forall u :: shorten(u).Shortened? ==> LinkSafe(shorten(u).link)
    modifies cache
    ensures first.Served? ==> second == first && secondCalls == []
    ensures first.Served? ==>
      (cache.text == old(cache.text)
       || cache.text == old(cache.text) + "\n" +
            RecordLine(RequestKey(h, raw), first.links.telegram, first.links.vk, first.links.instagram))
    ensures !first.Served? ==>
      (cache.text == old(cache.text)
       || (second.Served? && cache.text == old(cache.text) + "\n" +
            RecordLine(RequestKey(h, raw), second.links.telegram, second.links.vk, second.links.instagram)))
  {
    var url := RequestKey(h, raw);
    ghost var before := cache.text;
    var calls;
    first, calls := Handle(cache, h, raw, probe, shorten);
    if first.Served? {
      var links := first.links;
      assert FirstComplete(Lines(cache.text), url) && FirstRecord(Lines(cache.text), url) == Some(links) by {
        if FirstRecord(Lines(before), url).None? {
          var urls := Expand(Normalize(url));
          assert shorten(urls[0]).Shortened? && shorten(urls[1]).Shortened? && shorten(urls[2]).Shortened?;
          assert RecordSafe(url, links.telegram, links.vk, links.instagram);
        }
      }
    } else {
      assert cache.text == before;
    }
    ghost var mid := cache.text;
    second, secondCalls := Handle(cache, h, raw, probe, shorten);
    assert first.Served? ==> cache.text == mid;
  }

  /** The key mismatch between handlers: a record that reads back as written, stored by
      `/ajax` under a raw URL that holds any of `& " ' < >`, does not change what the
      escaped-key lookup of `/go` or `/nojs` finds for that same URL. */
  lemma AjaxRecordInvisibleToEscapedLookup(text: string, raw: string, telegram: string, vk: string, instagram: string)
    requires RecordSafe(raw, telegram, vk, instagram)
    requires exists i :: 0 <= i < |raw| && Special(raw[i])
    requires FirstComplete(Lines(text), Escape(raw))
    ensures FirstComplete(Lines(text + "\n" + RecordLine(raw, telegram, vk, instagram)), Escape(raw))
    ensures FirstRecord(Lines(text + "\n" + RecordLine(raw, telegram, vk, instagram)), Escape(raw))
         == FirstRecord(Lines(text), Escape(raw))
  {
    EscapeIdentity(raw);
    ScanAfterStore(text, Escape(raw), raw, telegram, vk, instagram);
  }

  /** In an escaped URL a marker that does not start with `a`, `q`, `g` or `l` can follow
      `?` but never `&`, since every `&` there opens an entity. */
  lemma EscapedAmpNeverMarks(raw: string, m: string)
    requires m != [] && m[0] !in "aqgl"
    ensures Marked(Escape(raw), m) <==> Contains(Escape(raw), "?" + m)
  {
    var e, p := Escape(raw), "&" + m;
    EscapeAmpOpensEntity(raw);
    forall k | 0 <= k
      ensures !OccursAt(e, p, k)
    {
      if k + |p| <= |e| && e[k] == '&' {
        assert e[k + 1] in "aqgl";
        assert e[k..k + |p|][1] == e[k + 1] != p[1];
      } else if k + |p| <= |e| {
        assert e[k..k + |p|][0] != p[0];
      }
    }
  }

  /** The rules as `/nojs`, and `/ajax` behind the `/go` loader, apply them to an escaped
      URL: `&from=`, `&utm_` and `&_openstat=` have become `&amp;from=` and so on, so only
      markers right after `?` count. A URL with a query string and none of them after `?`
      gets `&` appended, whatever follows its `&`s. */
  lemma NormalizeEscapedQueryOnly(raw: string)
    requires '?' in Escape(raw)
    requires !Contains(Escape(raw), "?" + From) && !Contains(Escape(raw), "?" + Utm)
      && !Contains(Escape(raw), "?" + Openstat)
    ensures !Marked(Escape(raw), From) && !Marked(Escape(raw), Utm) && !Marked(Escape(raw), Openstat)
    ensures Normalize(Escape(raw)) == Escape(raw) + "&"
  {
    EscapedAmpNeverMarks(raw, From);
    EscapedAmpNeverMarks(raw, Utm);
    EscapedAmpNeverMarks(raw, Openstat);
    ContainsChar(Escape(raw), '?');
  }
}
