/** The link cache: an append-only text file of tab-separated records
    `url \t telegram \t vk \t instagram`, one per line. Lookup scans the lines from the
    top and answers with the first record whose key matches; Store appends a record
    behind a newline, without checking for duplicates. */
module Cache {
  import opened Wrappers
  import opened PyStr

  /** The three short links of one record. */
  datatype Links = Links(telegram: string, vk: string, instagram: string)

  /** The lines `for line in file` yields, without their terminating newlines (which
      `strip()` removes anyway, see `PyStr.StripIgnoresTrailingSpace`): the text split at
      each newline, where a final empty piece is not a line. */
  function Lines(text: string): (r: seq<string>)
    ensures forall i :: 0 <= i < |r| ==> '\n' !in r[i]
    ensures text == [] <==> r == []
  {
    var parts := Split(text, '\n');
    SplitPieces(text, '\n');
    if parts[|parts| - 1] == [] then
      (if |parts| == 1 then JoinSplit(text, '\n'); []
       else parts[..|parts| - 1])
    else parts
  }

  /** `line.strip().split('\t')`. */
  function Fields(line: string): (r: seq<string>)
    ensures |r| >= 1
  {
    Split(Strip(line), '\t')
  }

  /** The key of a line: its first field. */
  function Key(line: string): string
  {
    Fields(line)[0]
  }

  /** The first line keyed `key`, if there is one, has at least four fields. The scan
      returns at that line and reads no later one, so this is exactly when its
      `new_line[1]`..`new_line[3]` do not raise. */
  predicate FirstComplete(lines: seq<string>, key: string)
  {
    lines == [] || if Key(lines[0]) == key then |Fields(lines[0])| >= 4 else FirstComplete(lines[1..], key)
  }

  /** Fields 1..3 of a record. */
  function LinksOf(line: string): Links
    requires |Fields(line)| >= 4
  {
    var f := Fields(line);
    Links(f[1], f[2], f[3])
  }

  /** No line before index `i` is keyed `key`. */
  predicate NoKeyBefore(lines: seq<string>, key: string, i: int)
    requires i <= |lines|
  {
    forall j :: 0 <= j < i ==> Key(lines[j]) != key
  }

  /** `FirstComplete` constrains the first keyed line and nothing else: it holds exactly
      when every keyed line with no keyed line before it has four fields. */
  lemma {:induction false} FirstCompleteIff(lines: seq<string>, key: string)
    ensures FirstComplete(lines, key) <==>
      forall i :: 0 <= i < |lines| && Key(lines[i]) == key && NoKeyBefore(lines, key, i) ==> |Fields(lines[i])| >= 4
  {
    if lines == [] {
    } else if Key(lines[0]) == key {
      assert NoKeyBefore(lines, key, 0);
      forall i | 0 < i < |lines|
        ensures !NoKeyBefore(lines, key, i)
      {
        assert Key(lines[0]) == key;
      }
    } else {
      var t := lines[1..];
      FirstCompleteIff(t, key);
      forall i | 1 <= i < |lines|
        ensures lines[i] == t[i - 1]
        ensures NoKeyBefore(lines, key, i) <==> NoKeyBefore(t, key, i - 1)
      {
        NoKeyBeforeTail(lines, key, i);
      }
      if FirstComplete(t, key) {
        forall i | 0 <= i < |lines| && Key(lines[i]) == key && NoKeyBefore(lines, key, i)
          ensures |Fields(lines[i])| >= 4
        {
          assert i > 0 && t[i - 1] == lines[i];
        }
      } else {
        var k :| 0 <= k < |t| && Key(t[k]) == key && NoKeyBefore(t, key, k) && |Fields(t[k])| < 4;
        assert lines[k + 1] == t[k];
      }
    }
  }

  /** Before a first line not keyed `key`, no line is keyed `key`; so the first `i` lines
      hold no keyed line exactly when the `i - 1` after the first do not. */
  lemma NoKeyBeforeTail(lines: seq<string>, key: string, i: int)
    requires 1 <= i <= |lines| && Key(lines[0]) != key
    ensures NoKeyBefore(lines, key, i) <==> NoKeyBefore(lines[1..], key, i - 1)
  {
    assert forall j :: 1 <= j < i ==> lines[j] == lines[1..][j - 1];
  }

  /** The answer of the forward scan: the links of the first line keyed `key`. */
  function FirstRecord(lines: seq<string>, key: string): (r: Option<Links>)
    requires FirstComplete(lines, key)
    ensures r.Some? ==> exists i :: 0 <= i < |lines| && Key(lines[i]) == key && |Fields(lines[i])| >= 4 && r.value == LinksOf(lines[i])
  {
    if lines == [] then None
    else if Key(lines[0]) == key then Some(LinksOf(lines[0]))
    else FirstRecord(lines[1..], key)
  }

  /** The text a store writes after the newline. */
  function RecordLine(url: string, telegram: string, vk: string, instagram: string): (r: string)
    ensures '\t' !in url && '\t' !in telegram && '\t' !in vk && '\t' !in instagram ==>
      Split(r, '\t') == [url, telegram, vk, instagram]
  {
    var r := url + "\t" + telegram + "\t" + vk + "\t" + instagram;
    assert r == url + ['\t'] + telegram + ['\t'] + vk + ['\t'] + instagram;
    if '\t' !in url && '\t' !in telegram && '\t' !in vk && '\t' !in instagram then
      SplitFour(url, telegram, vk, instagram, '\t'); r
    else r
  }

  /** A key that reads back as written: non-empty, no tab or newline, and no leading
      whitespace for `strip()` to remove. */
  predicate KeySafe(url: string)
  {
    url != [] && !IsSpace(url[0]) && '\t' !in url && '\n' !in url
  }

  /** A record that reads back as written: no field holds a tab or a newline, and the
      line neither starts nor ends with whitespace that `strip()` would remove. */
  predicate RecordSafe(url: string, telegram: string, vk: string, instagram: string)
  {
    && KeySafe(url)
    && instagram != [] && !IsSpace(instagram[|instagram| - 1])
    && '\t' !in telegram && '\t' !in vk && '\t' !in instagram
    && '\n' !in telegram && '\n' !in vk && '\n' !in instagram
  }

  class LinkCache {
    /** The whole content of the cache file. */
    var text: string

    constructor (text: string)
      ensures this.text == text
    {
      this.text := text;
    }

    /** The forward scan with early return. */
    method Lookup(key: string) returns (r: Option<Links>)
      requires FirstComplete(Lines(text), key)
      ensures r == FirstRecord(Lines(text), key)
    {
      var lines := Lines(text);
      var n := 0;
      while n < |lines|
        invariant 0 <= n <= |lines|
        invariant FirstComplete(lines[n..], key)
        invariant FirstRecord(lines[n..], key) == FirstRecord(lines, key)
      {
        var fields := Fields(lines[n]);
        assert lines[n..][0] == lines[n] && lines[n..][1..] == lines[n + 1..];
        if fields[0] == key {
          return Some(Links(fields[1], fields[2], fields[3]));
        }
        n := n + 1;
      }
      return None;
    }

    /** Appends `'\n' + url + '\t' + telegram + '\t' + vk + '\t' + instagram`. */
    method Store(url: string, telegram: string, vk: string, instagram: string)
      modifies this
      ensures text == old(text) + "\n" + RecordLine(url, telegram, vk, instagram)
    {
      text := text + "\n" + RecordLine(url, telegram, vk, instagram);
    }
  }

  /** The scan answers with the links of the first line keyed `key`, whatever follows
      it: lines after that one need not even have four fields. */
  lemma {:induction false} FirstRecordIsFirstMatch(lines: seq<string>, key: string, i: nat)
    requires i < |lines| && Key(lines[i]) == key && |Fields(lines[i])| >= 4
    requires forall j :: 0 <= j < i ==> Key(lines[j]) != key
    ensures FirstComplete(lines, key)
    ensures FirstRecord(lines, key) == Some(LinksOf(lines[i]))
  {
    if i > 0 {
      assert forall j :: 0 <= j < |lines| - 1 ==> lines[1..][j] == lines[j + 1];
      FirstRecordIsFirstMatch(lines[1..], key, i - 1);
    }
  }

  /** The scan misses exactly when no line is keyed `key`. */
  lemma {:induction false} FirstRecordMiss(lines: seq<string>, key: string)
    requires FirstComplete(lines, key)
    ensures FirstRecord(lines, key) == None <==> forall i :: 0 <= i < |lines| ==> Key(lines[i]) != key
  {
    if lines != [] && Key(lines[0]) != key {
      FirstRecordMiss(lines[1..], key);
      assert forall i :: 1 <= i < |lines| ==> lines[i] == lines[1..][i - 1];
    }
  }

  /** Scanning a concatenation: the first part answers if it can, otherwise the second
      does. So a later duplicate record never changes an answer, and the second part
      is only read when the first holds no line keyed `key`. */
  lemma {:induction false} FirstRecordAppend(a: seq<string>, b: seq<string>, key: string)
    requires FirstComplete(a, key) && (FirstRecord(a, key).None? ==> FirstComplete(b, key))
    ensures FirstComplete(a + b, key)
    ensures FirstRecord(a + b, key) == if FirstRecord(a, key).Some? then FirstRecord(a, key) else FirstRecord(b, key)
  {
    if a == [] {
      assert a + b == b;
    } else {
      var ab := a + b;
      HeadTailConcat(a, b);
      if Key(a[0]) == key {
        assert FirstRecord(ab, key) == Some(LinksOf(a[0])) == FirstRecord(a, key);
      } else {
        assert FirstRecord(a, key) == FirstRecord(a[1..], key);
        FirstRecordAppend(a[1..], b, key);
        assert FirstRecord(ab, key) == FirstRecord(a[1..] + b, key);
      }
    }
  }

  /** The head and tail of a concatenation whose first part is non-empty. */
  lemma HeadTailConcat(a: seq<string>, b: seq<string>)
    requires a != []
    ensures (a + b)[0] == a[0] && (a + b)[1..] == a[1..] + b
  {
  }

  /** A safe record is read back as exactly its four fields. */
  lemma RecordFields(url: string, telegram: string, vk: string, instagram: string)
    requires RecordSafe(url, telegram, vk, instagram)
    ensures Fields(RecordLine(url, telegram, vk, instagram)) == [url, telegram, vk, instagram]
  {
    var line := RecordLine(url, telegram, vk, instagram);
    assert line == url + ['\t'] + telegram + ['\t'] + vk + ['\t'] + instagram;
    assert line[0] == url[0] && line[|line| - 1] == instagram[|instagram| - 1];
    StripNoop(line);
    SplitFour(url, telegram, vk, instagram, '\t');
  }

  /** After a store, the file's lines are the newline-split old text followed by the new
      record: appending behind `'\n'` ends the old last line, or adds a blank line when
      the old text was empty or already ended with a newline. */
  lemma LinesAfterStore(text: string, record: string)
    requires record != [] && '\n' !in record
    ensures Lines(text + "\n" + record) == Split(text, '\n') + [record]
    ensures Split(text, '\n') == Lines(text) || Split(text, '\n') == Lines(text) + [""]
  {
    var parts := Split(text, '\n') + [record];
    assert Split(text + "\n" + record, '\n') == parts by {
      assert text + "\n" + record == text + ['\n'] + record;
      SplitConcat(text, record, '\n');
      SplitNoSep(record, '\n');
    }
    LinesOfSplit(text + "\n" + record);
    LinesOfSplit(text);
  }

  /** `Lines` drops the last piece of the split exactly when it is empty. */
  lemma LinesOfSplit(text: string)
    ensures var parts := Split(text, '\n');
      if parts[|parts| - 1] == [] then parts == Lines(text) + [""] else parts == Lines(text)
  {
    var parts := Split(text, '\n');
    if parts[|parts| - 1] == [] && |parts| > 1 {
      assert parts == parts[..|parts| - 1] + [parts[|parts| - 1]];
    }
  }

  /** Scanning a lone record finds its links exactly when the key is its first field. */
  lemma ScanRecord(record: string, key: string, url: string, links: Links)
    requires Fields(record) == [url, links.telegram, links.vk, links.instagram]
    ensures FirstComplete([record], key)
    ensures FirstRecord([record], key) == if key == url then Some(links) else None
  {
    assert Key([record][0]) == url && |Fields([record][0])| == 4;
    if key != url {
      assert [record][1..] == [];
    }
  }

  /** A blank line matches no non-empty key, so the scan passes over it. */
  lemma ScanBlank(record: string, key: string)
    requires key != [] && FirstComplete([record], key)
    ensures FirstComplete(["", record], key)
    ensures FirstRecord(["", record], key) == FirstRecord([record], key)
  {
    assert Key("") == [] by {
      assert Strip("") == [];
      assert Split([], '\t') == [[]];
    }
    var ls := ["", record];
    assert ls[0] == "" && ls[1..] == [record];
  }

  /** Scanning what a store appends: possibly a blank line, then the record. */
  lemma ScanStored(record: string, key: string, url: string, links: Links, blank: bool)
    requires Fields(record) == [url, links.telegram, links.vk, links.instagram]
    requires key != []
    ensures FirstComplete(if blank then ["", record] else [record], key)
    ensures FirstRecord(if blank then ["", record] else [record], key)
         == if key == url then Some(links) else None
  {
    ScanRecord(record, key, url, links);
    if blank {
      ScanBlank(record, key);
    }
  }

  /** Scanning after any line is appended behind a newline, given how that line splits. */
  lemma ScanAfterAppend(text: string, record: string, key: string, url: string, links: Links)
    requires record != [] && '\n' !in record
    requires Fields(record) == [url, links.telegram, links.vk, links.instagram]
    requires key != [] && FirstComplete(Lines(text), key)
    ensures FirstComplete(Lines(text + "\n" + record), key)
    ensures FirstRecord(Lines(text + "\n" + record), key)
         == if FirstRecord(Lines(text), key).Some? then FirstRecord(Lines(text), key)
            else if key == url then Some(links)
            else None
  {
    var lines := Lines(text);
    var blank := Split(text, '\n') != lines;
    assert Lines(text + "\n" + record) == lines + (if blank then ["", record] else [record]) by {
      LinesAfterStore(text, record);
    }
    ScanOldThenStored(lines, record, key, url, links, blank);
  }

  /** Scanning the old lines followed by what a store appends. */
  lemma ScanOldThenStored(lines: seq<string>, record: string, key: string, url: string, links: Links, blank: bool)
    requires Fields(record) == [url, links.telegram, links.vk, links.instagram]
    requires key != [] && FirstComplete(lines, key)
    ensures FirstComplete(lines + (if blank then ["", record] else [record]), key)
    ensures FirstRecord(lines + (if blank then ["", record] else [record]), key)
         == if FirstRecord(lines, key).Some? then FirstRecord(lines, key)
            else if key == url then Some(links)
            else None
  {
    ScanStored(record, key, url, links, blank);
    FirstRecordAppend(lines, if blank then ["", record] else [record], key);
  }

  /** What the scan sees after a store: the old answer if there was one, otherwise the
      new record's links when its key is the one asked for. A blank line the store may
      add matches no non-empty key. */
  lemma ScanAfterStore(text: string, key: string, url: string, telegram: string, vk: string, instagram: string)
    requires RecordSafe(url, telegram, vk, instagram)
    requires key != [] && FirstComplete(Lines(text), key)
    ensures FirstComplete(Lines(text + "\n" + RecordLine(url, telegram, vk, instagram)), key)
    ensures FirstRecord(Lines(text + "\n" + RecordLine(url, telegram, vk, instagram)), key)
         == if FirstRecord(Lines(text), key).Some? then FirstRecord(Lines(text), key)
            else if key == url then Some(Links(telegram, vk, instagram))
            else None
  {
    var record := RecordLine(url, telegram, vk, instagram);
    assert record != [] && '\n' !in record;
    RecordFields(url, telegram, vk, instagram);
    ScanAfterAppend(text, record, key, url, Links(telegram, vk, instagram));
  }

  /** Round trip: after storing a safe record for a key the cache did not hold, the scan
      for that key returns the three stored links. */
  lemma StoreThenLookup(text: string, url: string, telegram: string, vk: string, instagram: string)
    requires RecordSafe(url, telegram, vk, instagram)
    requires FirstComplete(Lines(text), url) && FirstRecord(Lines(text), url) == None
    ensures FirstComplete(Lines(text + "\n" + RecordLine(url, telegram, vk, instagram)), url)
    ensures FirstRecord(Lines(text + "\n" + RecordLine(url, telegram, vk, instagram)), url)
         == Some(Links(telegram, vk, instagram))
  {
    ScanAfterStore(text, url, url, telegram, vk, instagram);
  }
}
