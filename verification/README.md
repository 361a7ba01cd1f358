# bitlinks link pipeline, modelled in Dafny

bitlinks is a small Flask service. A user submits a page address of the company's own
site. The service answers with three short links, one per social channel (telegram,
vk, instagram), and each one carries that channel's UTM tags. Three handlers share one
pipeline:

- `/bitlinks/go` answers from the cache or renders a loader page.
- `/bitlinks/ajax` receives the loader's POST.
- `/bitlinks/nojs` does the whole job server-side.

The pipeline runs in this order:

1. **Cache lookup.** It scans an append-only file of tab-separated records
   `url \t telegram \t vk \t instagram` from the top. The first record whose key
   matches wins.
2. **Origin/status gate.** The URL must start with the configured site address, and
   its liveness probe must answer 200.
3. **Normaliser.** An ordered, first-match-wins chain of substring rules cuts off the
   `from=`, `utm_` and `_openstat=` parameters, or appends `?` or `&`.
4. **Tag expander.** It appends three fixed UTM suffixes.
5. **Shortening.** Three calls go to the shortening service.
6. **Cache store.** One record is appended, behind a newline, with no duplicate check.

The modules:

| module | file | content |
|---|---|---|
| `PyStr` | `pystr.dfy` | The Python string operations the pipeline relies on, with their exact semantics. `str.find` returns the first occurrence or `-1`. `in` is `Find(..) >= 0`. `strip()` uses Python's whitespace set. `split(sep)` on a single character. |
| `HtmlEscape` | `escape.dfy` | `html_escape` and its inverse. |
| `Normalizer` | `normalize.dfy` | The five-rule chain. |
| `Tags` | `tags.dfy` | The channels and the three tagged URLs. |
| `Gate` | `gate.dfy` | Python's `url[:len(site)]`, the probe outcome collapsed to a status, and the admission test. |
| `Cache` | `cache.dfy` | The file as text (`LinkCache.text`), its lines and fields, the forward scan (`LinkCache.Lookup`, a loop proved against `FirstRecord`), and the append (`LinkCache.Store`). |
| `Pipeline` | `pipeline.dfy` | The `/ajax` and `/nojs` handlers as one method `Handle`, parameterised by the handler, and the `/go` lookup. |

Two behaviours of the source are kept as written:

- **Substring matching.** Markers are matched by substring (`find`, `in`), not by
  query-parameter key. A cut happens at the first occurrence of the bare marker
  anywhere in the URL, even inside the path or inside another parameter's value.
- **Handler-specific keys.** `/ajax` uses the form value as it is, for the lookup,
  the probe, the rules and the store. `/go` and `/nojs` use its `html_escape`d form
  (`Pipeline.RequestKey`). The loader page of `/go` posts the escaped value to
  `/ajax`, so records made through `/go` are keyed by the escaped URL. Suppose a direct
  POST to `/ajax` stores a record that reads back as written (`RecordSafe`), under a
  raw URL containing `& " ' < >`. That record does not change what `/go` and `/nojs`
  find for that same URL (`Pipeline.AjaxRecordInvisibleToEscapedLookup`). A short link
  holding a newline or a tab can forge a further line, and then it can.
- **Rules on the escaped URL.** `/nojs`, and `/ajax` when the `/go` loader posts to it,
  run the normaliser on the escaped URL, where every `&` has become `&amp;`. The
  `&from=`, `&utm_` and `&_openstat=` tests can then never match, and only markers
  right after `?` count. A URL with a query string and none of the three markers right
  after its `?` gets `&` appended (`Pipeline.NormalizeEscapedQueryOnly`). For example,
  `p?id=1&from=x` comes out as `p?id=1&amp;from=x&`.

The clean URL need not end in `?` or `&`. Once a marked parameter exists, the code cuts
at the first `utm_`, `from=` or `_openstat=` anywhere in the URL, so `s/utm_a?utm_b`
normalises to `s/` (`Normalizer.NormalizeCutInPath`). The module docstring's example
(`bitlinks/bitlinks.py:20-22`) is an instance of `Normalizer.NormalizeDropsFrom`.

The normaliser and the tag expander appear twice in the source, once per handler
(`bitlinks/bitlinks.py:678-698` and `:918-937`). The two copies are identical, and each
is modelled once.

The inputs the model takes as parameters:

- The liveness probe: a `ProbeOutcome`, either a status code or an exception.
- The shortening service: a function from URL to `ShortenOutcome`.

The model records the external calls a request makes (`Pipeline.Call`), so the
contracts can say when no probe or shortening happens.

## Model

| member | source | states |
|---|---|---|
| PyStr.Find | bitlinks/bitlinks.py:679 | `str.find`: `-1` or an index where the pattern occurs and fits, and no occurrence before the answer (none at all when `-1`) |
| PyStr.Contains | bitlinks/bitlinks.py:677-687 | `p in s` holds iff `p` occurs at some index of `s` |
| PyStr.ContainsIff | bitlinks/bitlinks.py:677-678 | `p in s` holds iff `p` occurs somewhere, and then `find` points at an occurrence |
| PyStr.ContainsChar | bitlinks/bitlinks.py:681 | `'?' not in url` is plain character membership |
| PyStr.NoneBeforeFirst | bitlinks/bitlinks.py:679 | the prefix before the first occurrence of a non-empty pattern does not contain it |
| PyStr.ContainsAppendChar | bitlinks/bitlinks.py:678-688 | appending a character that does not end the pattern neither creates nor removes an occurrence |
| PyStr.Strip | bitlinks/bitlinks.py:649 | `strip()` result is no longer than the input and neither starts nor ends with Python whitespace |
| PyStr.StripLeft | bitlinks/bitlinks.py:649 | the result is a suffix of the input, everything removed is whitespace, and it does not start with whitespace |
| PyStr.StripRight | bitlinks/bitlinks.py:649 | the result is a prefix of the input, everything removed is whitespace, and it does not end with whitespace |
| PyStr.StripNoop | bitlinks/bitlinks.py:649 | `strip()` leaves a string that neither starts nor ends with whitespace unchanged |
| PyStr.StripIgnoresTrailingSpace | bitlinks/bitlinks.py:648-649 | a trailing whitespace character, such as the newline a line is read with, does not change `line.strip()` |
| PyStr.Split | bitlinks/bitlinks.py:649 | `split(sep)` gives at least one piece; with `SplitPieces` and `JoinSplit`, the pieces are the separator-free runs that join back to the input |
| PyStr.SplitPieces | bitlinks/bitlinks.py:649 | no piece of `split(sep)` contains `sep`, and the first piece is a prefix of the input |
| PyStr.JoinSplit | bitlinks/bitlinks.py:649 | `sep.join(s.split(sep)) == s`: splitting loses nothing |
| PyStr.SplitConcat | bitlinks/bitlinks.py:716 | splitting `a + sep + b` is splitting `a` followed by splitting `b` |
| PyStr.SplitFour | bitlinks/bitlinks.py:716 | four fields without the separator, joined by it, split back into exactly those four |
| HtmlEscape.EscapeChar | bitlinks/bitlinks.py:218-224 | a character is changed iff it is one of `& " ' > <`, and no replacement contains `" ' > <` |
| HtmlEscape.Escape | bitlinks/bitlinks.py:227-230 | the escaped text is no shorter and contains none of `" ' > <` |
| HtmlEscape.EscapeAppend | bitlinks/bitlinks.py:230 | escaping works character by character: it distributes over concatenation |
| HtmlEscape.EscapeIdentity | bitlinks/bitlinks.py:227-230 | escaping leaves a text unchanged iff it holds none of `& " ' > <` |
| HtmlEscape.UnescapeEscape | bitlinks/bitlinks.py:218-230 | round trip: unescaping the escaped text gives the original back |
| HtmlEscape.EscapeInjective | bitlinks/bitlinks.py:218-230 | distinct texts have distinct escapes, so an escaped key identifies its raw URL |
| Normalizer.MarkerFound | bitlinks/bitlinks.py:678-679 | if `?m` or `&m` occurs, the bare `m` occurs and `find(m)` leaves room for it |
| Normalizer.Normalize | bitlinks/bitlinks.py:678-691 | the clean URL is a prefix of the URL, or the URL with `?` or `&` appended |
| Normalizer.CutBefore | bitlinks/bitlinks.py:679 | `url[:url.find(m)]` is a prefix of the URL that `m` follows directly, with no earlier occurrence of `m` |
| Normalizer.CutBeforeIsCutAtFirst | bitlinks/bitlinks.py:679 | `url[:url.find(m)]` is the cut at the first occurrence of `m`, and what is left contains no `m` |
| Normalizer.CutAtLeadChar | bitlinks/bitlinks.py:679 | a cut is at the first occurrence when the marker's first character does not occur before it |
| Normalizer.CutAtFirstUnique | bitlinks/bitlinks.py:679 | the cut at the first occurrence is unique |
| Normalizer.NormalizeFromRule | bitlinks/bitlinks.py:678-679 | rule 1 (first): `?from=` or `&from=` gives the cut before the first `from=`, strictly shorter and holding no `from=` |
| Normalizer.NormalizeNoQueryRule | bitlinks/bitlinks.py:681-682 | rule 2: otherwise a URL without `?` gets `?` appended, before the `utm_` and `_openstat=` rules are looked at |
| Normalizer.NormalizeUtmRule | bitlinks/bitlinks.py:684-685 | rule 3: otherwise `?utm_` or `&utm_` gives the cut before the first `utm_`, strictly shorter and holding no `utm_` |
| Normalizer.NormalizeOpenstatRule | bitlinks/bitlinks.py:687-688 | rule 4: otherwise `?_openstat=` or `&_openstat=` gives the cut before the first `_openstat=` |
| Normalizer.NormalizeFallbackRule | bitlinks/bitlinks.py:690-691 | rule 5: otherwise `&` is appended, unconditionally |
| Normalizer.AppendKeepsUnmarked | bitlinks/bitlinks.py:678-691 | appending `?` or `&` neither creates nor removes any of the three markers |
| Normalizer.NormalizeNotIdempotent | bitlinks/bitlinks.py:678-691 | on a URL without markers, normalising appends one separator, and normalising again appends another `&` |
| Normalizer.NormalizeDropsFrom | bitlinks/bitlinks.py:678-679 | `page?from=...` normalises to `page?` for any page without an `f` |
| Normalizer.NormalizeExamplePrecedence | bitlinks/bitlinks.py:678-685 | rule 2 wins over rule 3: `a&utm_x` keeps its `utm_` and gains a `?` |
| Normalizer.NormalizeExampleSecondPass | bitlinks/bitlinks.py:684-685 | normalising that result, `a&utm_x?`, again cuts it down to `a&` |
| Normalizer.NormalizeCutInPath | bitlinks/bitlinks.py:684-685 | the cut is at the first bare `utm_`, even in the path: `s/utm_a?utm_b` gives `s/` |
| Tags.Expand | bitlinks/bitlinks.py:694-698 | exactly three tagged URLs, each strictly longer than the clean URL and starting with it |
| Tags.ExpandSpec | bitlinks/bitlinks.py:694-698 | exactly three URLs in the order telegram, vk, instagram; each is the clean URL followed by its channel's suffix, and the channel can be read back from it |
| Tags.SuffixesDiffer | bitlinks/bitlinks.py:695-697 | the three suffixes differ, at the first letter of the `utm_source` value |
| Tags.ExpandDistinct | bitlinks/bitlinks.py:694-698 | the three tagged URLs are pairwise distinct |
| Gate.StatusOf | bitlinks/bitlinks.py:663-666 | the status is 200 exactly when the probe answered 200; a raised exception gives 0 |
| Gate.Admitted | bitlinks/bitlinks.py:669 | the negated rejection test holds iff the site address is a prefix of the URL and the status is 200 |
| Gate.PyPrefix | bitlinks/bitlinks.py:669 | `url[:n]` is the first `n` characters, or the whole URL when it is shorter |
| Gate.AdmittedIff | bitlinks/bitlinks.py:659-669 | admitted iff the site address is a prefix of the URL and the probe answered 200; a shorter URL or a raising probe is rejected |
| Cache.Lines | bitlinks/bitlinks.py:647-648 | the file's lines contain no newline, and an empty file has no lines |
| Cache.Fields | bitlinks/bitlinks.py:649 | `line.strip().split('\t')` has at least one field |
| Cache.LinkCache.Lookup | bitlinks/bitlinks.py:647-657 | the scan loop answers exactly `FirstRecord`: the links of the first line keyed by the URL, or nothing |
| Cache.LinkCache.Store | bitlinks/bitlinks.py:715-716 | the file is the old text, then a newline, then the four tab-separated fields |
| Cache.FirstRecord | bitlinks/bitlinks.py:647-657 | an answer is always the links of some line keyed by the URL that has four fields |
| Cache.FirstCompleteIff | bitlinks/bitlinks.py:648-656 | the scan's precondition (the first line keyed by the URL has four fields) constrains exactly the keyed lines with no keyed line before them, and no later line |
| Cache.FirstRecordIsFirstMatch | bitlinks/bitlinks.py:648-656 | when the first line keyed by the URL has four fields, the scan does not fail and answers with its links, whatever the later lines hold, short ones included |
| Cache.FirstRecordMiss | bitlinks/bitlinks.py:647-657 | the lookup misses iff no line is keyed by the URL |
| Cache.FirstRecordAppend | bitlinks/bitlinks.py:647-657 | scanning a concatenation: the first part answers if it can, otherwise the second, which is read only when the first part holds no line keyed by the URL; so a later duplicate never changes an answer |
| Cache.RecordLine | bitlinks/bitlinks.py:716 | the written record, when no field holds a tab, splits at tabs into exactly its four fields |
| Cache.RecordFields | bitlinks/bitlinks.py:716 | a safe record reads back as exactly its four fields |
| Cache.LinesAfterStore | bitlinks/bitlinks.py:716 | after a store of a record without newlines, the lines are the old newline-split text followed by the record, so at most one blank line comes in between |
| Cache.ScanAfterAppend | bitlinks/bitlinks.py:647-657 | for a non-empty key, after a line without newlines that splits into four fields is appended behind a newline, the lookup gives the old answer if there was one, otherwise the line's links when the key matches, otherwise nothing |
| Cache.ScanAfterStore | bitlinks/bitlinks.py:647-657 | for a record that reads back as written (`RecordSafe`) and a non-empty key, after a store the lookup gives the old answer if there was one, otherwise the new links when the key matches, otherwise nothing |
| Cache.StoreThenLookup | bitlinks/bitlinks.py:715-716 | round trip: after a miss and a store, the lookup of that URL returns the three stored links |
| Pipeline.RequestKey | bitlinks/bitlinks.py:239 | the key `/go` and `/nojs` use (`html_escape`d) equals the one `/ajax` uses (as sent, line 644) iff the URL holds none of `& " ' > <`; an escaped key holds none of `" ' > <` |
| Pipeline.ShortenAll | bitlinks/bitlinks.py:704-712 | results exist iff every shortening succeeded, and then they are the three answers in input order |
| Pipeline.Handle | bitlinks/bitlinks.py:641-722 | gated on the configured site address (line 659): a hit is served with no call and no write. On a miss the URL is probed first; a refusal makes no further call and no write. Otherwise the three shortenings of the tagged clean URLs follow; a failure writes nothing, and success serves the links and appends exactly their record, which a later lookup finds |
| Pipeline.RepeatRequest | bitlinks/bitlinks.py:641-722 | a repeated request for a URL that was just served is answered from the cache with the same links and no external call; across the two requests the file gains at most one record, that of the request that first served the URL |
| Pipeline.GoLookup | bitlinks/bitlinks.py:238-246 | the `/go` lookup answers `FirstRecord` for the escaped URL |
| HtmlEscape.EscapeAmpOpensEntity | bitlinks/bitlinks.py:218-230 | in escaped text every `&` is followed by `a`, `q`, `g` or `l`, as it opens one of the table's entities |
| Pipeline.EscapedAmpNeverMarks | bitlinks/bitlinks.py:918-928 | in an escaped URL, a marker not starting with `a`, `q`, `g` or `l` is found by `'?' + m in url or '&' + m in url` iff it follows a `?` |
| Pipeline.NormalizeEscapedQueryOnly | bitlinks/bitlinks.py:918-931 | an escaped URL with a `?` and none of the three markers right after a `?` is not marked by any rule, and gets `&` appended |
| Pipeline.AjaxRecordInvisibleToEscapedLookup | bitlinks/bitlinks.py:623-645 | a record that reads back as written (`RecordSafe`), stored by `/ajax` under a raw URL holding `& " ' < >`, does not change what the escaped-key lookup of `/go` and `/nojs` finds for that same URL |

## Left out

- Flask routing, request parsing and all HTML and JSON rendering are left out; the handlers return a `Response` value. A missing `url` form field on `/ajax` (an HTTP 400) is not modelled. The `''` default of `/go` and `/nojs` is an ordinary input.
- The liveness probe (`urllib.request.urlopen`) is an input `ProbeOutcome`. Any exception becomes status 0, as in the source.
- The shortening service and its thread pool are an input function. The three calls are modelled in list order and as all-or-nothing. An exception or an answer without `'url'` is `Failed`, and the model then answers `ShorteningFailed` where the source raises. The concurrency of the pool is not modelled.
- File I/O: the cache file is its whole text. Opening, the fixed path and `open` failures are not modelled. Universal-newline translation of `\r` and `\r\n` when reading is not modelled; the model reads lines at `\n` only.
- Two requests running at once (the duplicate-record race) are not modelled; each `Handle` runs alone.
- Cache.LinkCache.Lookup: requires that the first line keyed by the URL, if any, has at least four fields (`FirstComplete`). This is exactly the case where the source's scan does not raise `IndexError`. The raising case is not modelled. The same precondition carries over to `Cache.FirstRecord`, `Pipeline.Handle`, `Pipeline.GoLookup` and `Pipeline.RepeatRequest`.
- Cache.LinesAfterStore: covers only records without a newline. A field holding a newline splits the record over several lines.
- Cache.ScanAfterAppend: covers only non-empty keys and appended lines without a newline. For the key `''`, the blank line a store can add is matched, and the source raises `IndexError` on it.
- Cache.ScanAfterStore: covers only `RecordSafe` records and non-empty keys. A link holding a newline and tabs can forge a line keyed by any URL, which the scan then finds.
- Pipeline.AjaxRecordInvisibleToEscapedLookup: covers only `RecordSafe` records. A short link holding `\n` followed by the escaped URL and tabs forges a line that the escaped-key lookup finds.
- Cache.StoreThenLookup: promises the round trip only for records that read back as written (`RecordSafe`: no tab or newline in a field, and no whitespace at the line's ends). For other records the source's own reading garbles the fields.
- Pipeline.Handle: its round-trip ensures applies only when the stored record is `RecordSafe`, for the same reason.
- Pipeline.RepeatRequest: assumes the shortening service returns links without tabs, newlines or trailing whitespace, and a key without tabs, newlines or leading whitespace.
- The `/go` loader page and its client-side script are not modelled beyond the escaped key they post to `/ajax`.
- The home page, static files and the other routes are not part of this model.
