/** The few Python `str` operations the link pipeline relies on: `find` and `in`
    (substring search), `strip()` and `split(sep)`, over strings as `seq<char>`. */
module PyStr {

  /** `p` occurs in `s` starting at index `i`. */
  ghost predicate OccursAt(s: string, p: string, i: int)
  {
    0 <= i && i + |p| <= |s| && s[i..i + |p|] == p
  }

  /** `s.find(p, start)`: the lowest index `>= start` at which `p` occurs, or -1. */
  function FindFrom(s: string, p: string, start: nat): (r: int)
    ensures r == -1 || (start <= r && r + |p| <= |s| && OccursAt(s, p, r))
    ensures forall j :: start <= j && (r == -1 || j < r) ==> !OccursAt(s, p, j)
    decreases |s| - start
  {
    if start + |p| > |s| then -1
    else if s[start..start + |p|] == p then start
    else FindFrom(s, p, start + 1)
  }

  /** `s.find(p)`: the first occurrence of `p` in `s`, or -1 when there is none. */
  function Find(s: string, p: string): (r: int)
    ensures r == -1 || (0 <= r && r + |p| <= |s| && OccursAt(s, p, r))
    ensures forall j :: 0 <= j && (r == -1 || j < r) ==> !OccursAt(s, p, j)
  {
    FindFrom(s, p, 0)
  }

  /** `p in s` for strings: substring membership. */
  predicate Contains(s: string, p: string)
    ensures Contains(s, p) <==> exists i :: OccursAt(s, p, i)
  {
    Find(s, p) >= 0
  }

  /** Substring membership is exactly "occurs at some index". */
  lemma ContainsIff(s: string, p: string, i: int)
    ensures OccursAt(s, p, i) ==> Contains(s, p)
    ensures Contains(s, p) ==> OccursAt(s, p, Find(s, p))
  {
  }

  /** A one-character pattern is contained exactly when the character is. */
  lemma ContainsChar(s: string, c: char)
    ensures Contains(s, [c]) <==> c in s
  {
    if c in s {
      var i :| 0 <= i < |s| && s[i] == c;
      assert OccursAt(s, [c], i);
    }
    if Contains(s, [c]) {
      var k := Find(s, [c]);
      assert s[k..k + 1] == [c];
      assert s[k] == c;
    }
  }

  /** A pattern holding a character the string lacks is not contained in it. */
  lemma NotContainsByChar(s: string, p: string, c: char)
    requires c in p && c !in s
    ensures !Contains(s, p)
  {
    var j :| 0 <= j < |p| && p[j] == c;
    forall k | 0 <= k && k + |p| <= |s|
      ensures !OccursAt(s, p, k)
    {
      assert s[k..k + |p|][j] == s[k + j] != c;
    }
  }

  /** Whenever `a + b` occurs, `b` occurs too, no later than `|a|` past it. */
  lemma ContainsTail(s: string, a: string, b: string)
    requires Contains(s, a + b)
    ensures Contains(s, b) && Find(s, b) <= Find(s, a + b) + |a|
  {
    var k := Find(s, a + b);
    assert s[k + |a|..k + |a| + |b|] == s[k..k + |a + b|][|a|..];
    assert OccursAt(s, b, k + |a|);
  }

  /** The part of `s` before the first occurrence of `p` does not contain `p`. */
  lemma NoneBeforeFirst(s: string, p: string)
    requires |p| > 0 && Contains(s, p)
    ensures !Contains(s[..Find(s, p)], p)
  {
    var k := Find(s, p);
    var t := s[..k];
    forall j | 0 <= j && j + |p| <= |t|
      ensures !OccursAt(t, p, j)
    {
      assert j < k;
      assert !OccursAt(s, p, j);
      assert t[j..j + |p|] == s[j..j + |p|];
    }
  }

  /** Appending one character `c` creates no new occurrence of a non-empty pattern
      that does not end in `c`. */
  lemma ContainsAppendChar(s: string, c: char, p: string)
    requires |p| > 0 && p[|p| - 1] != c
    ensures Contains(s + [c], p) <==> Contains(s, p)
  {
    var t := s + [c];
    if Contains(t, p) {
      var k := Find(t, p);
      assert k + |p| < |t| by {
        assert t[k + |p| - 1] == t[k..k + |p|][|p| - 1] == p[|p| - 1];
        assert t[|t| - 1] == c;
      }
      assert OccursAt(s, p, k) by {
        assert s[k..k + |p|] == t[k..k + |p|];
      }
      ContainsIff(s, p, k);
    }
    if Contains(s, p) {
      var k := Find(s, p);
      assert OccursAt(t, p, k) by {
        assert t[k..k + |p|] == s[k..k + |p|];
      }
      ContainsIff(t, p, k);
    }
  }

  /** Python's `str.isspace()` for a single character: the characters `strip()`
      removes when it is given no argument. */
  predicate IsSpace(c: char)
  {
    || ('\U{0009}' <= c <= '\U{000D}')
    || ('\U{001C}' <= c <= '\U{0020}')
    || c == '\U{0085}' || c == '\U{00A0}' || c == '\U{1680}'
    || ('\U{2000}' <= c <= '\U{200A}')
    || c == '\U{2028}' || c == '\U{2029}' || c == '\U{202F}' || c == '\U{205F}' || c == '\U{3000}'
  }

  /** `s.lstrip()`: the suffix of `s` left after dropping its leading whitespace. */
  function StripLeft(s: string): (r: string)
    ensures |r| <= |s| && r == s[|s| - |r|..]
    ensures forall j :: 0 <= j < |s| - |r| ==> IsSpace(s[j])
    ensures r == [] || !IsSpace(r[0])
  {
    if s != [] && IsSpace(s[0]) then StripLeft(s[1..]) else s
  }

  /** `s.rstrip()`: the prefix of `s` left after dropping its trailing whitespace. */
  function StripRight(s: string): (r: string)
    ensures |r| <= |s| && r == s[..|r|]
    ensures forall j :: |r| <= j < |s| ==> IsSpace(s[j])
    ensures r == [] || !IsSpace(r[|r| - 1])
  {
    if s != [] && IsSpace(s[|s| - 1]) then StripRight(s[..|s| - 1]) else s
  }

  /** `s.strip()`. */
  function Strip(s: string): (r: string)
    ensures |r| <= |s|
    ensures r == [] || (!IsSpace(r[0]) && !IsSpace(r[|r| - 1]))
  {
    StripRight(StripLeft(s))
  }

  /** A string with no whitespace at either end is its own `strip()`. */
  lemma StripNoop(s: string)
    requires s == [] || (!IsSpace(s[0]) && !IsSpace(s[|s| - 1]))
    ensures Strip(s) == s
  {
  }

  /** Left-stripping a string with one more character at its end. */
  lemma {:induction false} StripLeftAppend(s: string, c: char)
    ensures StripLeft(s + [c]) == if StripLeft(s) == [] then StripLeft([c]) else StripLeft(s) + [c]
  {
    if s != [] {
      assert (s + [c])[0] == s[0] && (s + [c])[1..] == s[1..] + [c];
      StripLeftAppend(s[1..], c);
    } else {
      assert s + [c] == [c];
    }
  }

  /** Trailing whitespace makes no difference to `strip()`; in particular a line read
      with its terminating newline strips to the same text as the line without it. */
  lemma StripIgnoresTrailingSpace(s: string, c: char)
    requires IsSpace(c)
    ensures Strip(s + [c]) == Strip(s)
  {
    StripLeftAppend(s, c);
    var l := StripLeft(s);
    if l == [] {
      assert StripLeft([c]) == StripLeft([c][1..]) && [c][1..] == [];
      assert StripLeft(s + [c]) == [];
    } else {
      var lc := l + [c];
      assert lc[|lc| - 1] == c && lc[..|lc| - 1] == l;
      assert StripRight(lc) == StripRight(l);
    }
  }

  /** `s.split(sep)`: the pieces between occurrences of `sep`, at least one. */
  function Split(s: string, sep: char): (r: seq<string>)
    ensures |r| >= 1
  {
    if s == [] then [[]]
    else
      var rest := Split(s[1..], sep);
      if s[0] == sep then [[]] + rest
      else [[s[0]] + rest[0]] + rest[1..]
  }

  /** No piece of a split holds the separator, and the first piece is a prefix of the
      string. */
  lemma {:induction false} SplitPieces(s: string, sep: char)
    ensures forall i :: 0 <= i < |Split(s, sep)| ==> sep !in Split(s, sep)[i]
    ensures |Split(s, sep)[0]| <= |s| && Split(s, sep)[0] == s[..|Split(s, sep)[0]|]
  {
    if s != [] {
      SplitPieces(s[1..], sep);
      var rest := Split(s[1..], sep);
      if s[0] == sep {
        assert Split(s, sep) == [[]] + rest;
      } else {
        var r := Split(s, sep);
        assert r == [[s[0]] + rest[0]] + rest[1..];
        assert r[0] == [s[0]] + rest[0] && s == [s[0]] + s[1..];
        assert forall i :: 1 <= i < |r| ==> r[i] == rest[i];
      }
    }
  }

  /** `sep.join(parts)`, the inverse of `Split`. */
  function Join(parts: seq<string>, sep: char): string
    requires |parts| >= 1
  {
    if |parts| == 1 then parts[0] else parts[0] + [sep] + Join(parts[1..], sep)
  }

  /** Splitting loses nothing: joining the pieces gives back the string. */
  lemma {:induction false} JoinSplit(s: string, sep: char)
    ensures Join(Split(s, sep), sep) == s
  {
    if s != [] {
      JoinSplit(s[1..], sep);
      var rest := Split(s[1..], sep);
      var r := Split(s, sep);
      if s[0] == sep {
        assert r == [[]] + rest && r[1..] == rest;
        assert Join(r, sep) == [] + [sep] + Join(rest, sep);
      } else if |rest| == 1 {
        assert r == [[s[0]] + rest[0]];
      } else {
        assert r == [[s[0]] + rest[0]] + rest[1..] && r[1..] == rest[1..];
        assert Join(r, sep) == [s[0]] + rest[0] + [sep] + Join(rest[1..], sep);
        assert Join(rest, sep) == rest[0] + [sep] + Join(rest[1..], sep);
      }
      assert s == [s[0]] + s[1..];
    }
  }

  /** A string without the separator splits into itself alone. */
  lemma {:induction false} SplitNoSep(s: string, sep: char)
    requires sep !in s
    ensures Split(s, sep) == [s]
  {
    if s != [] {
      SplitNoSep(s[1..], sep);
      assert [s[0]] + s[1..] == s;
    }
  }

  /** Splitting distributes over a separator placed between two strings. */
  lemma {:induction false} SplitConcat(a: string, b: string, sep: char)
    ensures Split(a + [sep] + b, sep) == Split(a, sep) + Split(b, sep)
  {
    var s := a + [sep] + b;
    if a == [] {
      assert s[1..] == b;
    } else {
      assert s[1..] == a[1..] + [sep] + b;
      SplitConcat(a[1..], b, sep);
    }
  }

  /** A separator-free field in front of a separator splits off as the first piece. */
  lemma SplitPrepend(a: string, s: string, sep: char)
    requires sep !in a
    ensures Split(a + [sep] + s, sep) == [a] + Split(s, sep)
  {
    SplitNoSep(a, sep);
    SplitConcat(a, s, sep);
  }

  /** Two separator-free fields joined by the separator split back into themselves. */
  lemma SplitTwo(c: string, d: string, sep: char)
    requires sep !in c && sep !in d
    ensures Split(c + [sep] + d, sep) == [c, d]
  {
    SplitNoSep(d, sep);
    SplitPrepend(c, d, sep);
  }

  /** Three separator-free fields joined by the separator split back into themselves. */
  lemma SplitThree(b: string, c: string, d: string, sep: char)
    requires sep !in b && sep !in c && sep !in d
    ensures Split(b + [sep] + c + [sep] + d, sep) == [b, c, d]
  {
    var cd := c + [sep] + d;
    assert b + [sep] + c + [sep] + d == b + [sep] + cd;
    SplitTwo(c, d, sep);
    SplitPrepend(b, cd, sep);
  }

  /** Four separator-free fields joined by the separator split back into themselves. */
  lemma SplitFour(a: string, b: string, c: string, d: string, sep: char)
    requires sep !in a && sep !in b && sep !in c && sep !in d
    ensures Split(a + [sep] + b + [sep] + c + [sep] + d, sep) == [a, b, c, d]
  {
    var bcd := b + [sep] + c + [sep] + d;
    assert a + [sep] + b + [sep] + c + [sep] + d == a + [sep] + bcd;
    SplitThree(b, c, d, sep);
    SplitPrepend(a, bcd, sep);
  }
}
