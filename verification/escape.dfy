/** `html_escape`: the per-character substitution table the handlers apply to a
    requested URL before they show it in a page (and, for `/go` and `/nojs`,
    before they use it as the cache key). */
module HtmlEscape {

  /** The characters the substitution table rewrites. */
  predicate Special(c: char)
  {
    c == '&' || c == '"' || c == '\'' || c == '>' || c == '<'
  }

  /** Characters that may never appear in escaped output. */
  predicate Unsafe(c: char)
  {
    c == '"' || c == '\'' || c == '>' || c == '<'
  }

  /** `HTML_ESCAPE_TABLE.get(c, c)`. */
  function EscapeChar(c: char): (r: string)
    ensures Special(c) <==> r != [c]
    ensures forall i :: 0 <= i < |r| ==> !Unsafe(r[i])
  {
    match c
    case '&' => "&amp;"
    case '"' => "&quot;"
    case '\'' => "&apos;"
    case '>' => "&gt;"
    case '<' => "&lt;"
    case _ => [c]
  }

  /** `html_escape(text)`: every character replaced by its table entry, in order. */
  function Escape(s: string): (r: string)
    ensures |r| >= |s|
    ensures forall i :: 0 <= i < |r| ==> !Unsafe(r[i])
  {
    if s == [] then [] else EscapeChar(s[0]) + Escape(s[1..])
  }

  /** Escaping maps each character independently, so it distributes over concatenation. */
  lemma {:induction false} EscapeAppend(a: string, b: string)
    ensures Escape(a + b) == Escape(a) + Escape(b)
  {
    if a == [] {
      assert a + b == b;
    } else {
      assert (a + b)[0] == a[0] && (a + b)[1..] == a[1..] + b;
      EscapeAppend(a[1..], b);
    }
  }

  /** In escaped text every `&` opens one of the table's entities, so the character after
      it is `a`, `q`, `g` or `l`. */
  lemma {:induction false} EscapeAmpOpensEntity(s: string)
    ensures forall i :: 0 <= i < |Escape(s)| && Escape(s)[i] == '&' ==>
      i + 1 < |Escape(s)| && Escape(s)[i + 1] in "aqgl"
  {
    if s != [] {
      EscapeAmpOpensEntity(s[1..]);
      var e, t := EscapeChar(s[0]), Escape(s[1..]);
      assert Escape(s) == e + t;
      forall i | 0 <= i < |e + t| && (e + t)[i] == '&'
        ensures i + 1 < |e + t| && (e + t)[i + 1] in "aqgl"
      {
        if i < |e| {
          assert i == 0 && |e| >= 2 && e[1] in "aqgl";
        } else {
          assert (e + t)[i] == t[i - |e|];
        }
      }
    }
  }

  /** Escaping leaves a string unchanged exactly when it holds none of `& " ' < >`. */
  lemma {:induction false} EscapeIdentity(s: string)
    ensures Escape(s) == s <==> forall i :: 0 <= i < |s| ==> !Special(s[i])
  {
    if s != [] {
      EscapeIdentity(s[1..]);
      if Special(s[0]) {
        assert |EscapeChar(s[0])| > 1;
      } else {
        assert Escape(s) == [s[0]] + Escape(s[1..]);
        if Escape(s) == s {
          assert Escape(s[1..]) == s[1..];
        }
      }
    }
  }

  /** The table read backwards: each entity turned back into its character. */
  function Unescape(s: string): (r: string)
  {
    if s == [] then []
    else if s[0] != '&' then [s[0]] + Unescape(s[1..])
    else if |s| >= 5 && s[..5] == "&amp;" then "&" + Unescape(s[5..])
    else if |s| >= 6 && s[..6] == "&quot;" then "\"" + Unescape(s[6..])
    else if |s| >= 6 && s[..6] == "&apos;" then "'" + Unescape(s[6..])
    else if |s| >= 4 && s[..4] == "&gt;" then ">" + Unescape(s[4..])
    else if |s| >= 4 && s[..4] == "&lt;" then "<" + Unescape(s[4..])
    else [s[0]] + Unescape(s[1..])
  }

  /** `Unescape` reads each entity at the front back as its character. */
  lemma UnescapeAmp(rest: string)
    ensures Unescape("&amp;" + rest) == "&" + Unescape(rest)
  {
    var t := "&amp;" + rest;
    assert t[..5] == "&amp;" && t[5..] == rest;
  }

  lemma UnescapeQuot(rest: string)
    ensures Unescape("&quot;" + rest) == "\"" + Unescape(rest)
  {
    var t := "&quot;" + rest;
    assert t[1] == 'q' && t[..6] == "&quot;" && t[6..] == rest;
  }

  lemma UnescapeApos(rest: string)
    ensures Unescape("&apos;" + rest) == "'" + Unescape(rest)
  {
    var t := "&apos;" + rest;
    assert t[1] == 'a' && t[2] == 'p' && t[..6] == "&apos;" && t[6..] == rest;
  }

  lemma UnescapeGt(rest: string)
    ensures Unescape("&gt;" + rest) == ">" + Unescape(rest)
  {
    var t := "&gt;" + rest;
    assert t[1] == 'g' && t[..4] == "&gt;" && t[4..] == rest;
  }

  lemma UnescapeLt(rest: string)
    ensures Unescape("&lt;" + rest) == "<" + Unescape(rest)
  {
    var t := "&lt;" + rest;
    assert t[1] == 'l' && t[..4] == "&lt;" && t[4..] == rest;
  }

  /** One step of `Unescape` undoes the escaping of one character. */
  lemma UnescapeStep(c: char, rest: string)
    ensures Unescape(EscapeChar(c) + rest) == [c] + Unescape(rest)
  {
    if c == '&' {
      UnescapeAmp(rest);
    } else if c == '"' {
      UnescapeQuot(rest);
    } else if c == '\'' {
      UnescapeApos(rest);
    } else if c == '>' {
      UnescapeGt(rest);
    } else if c == '<' {
      UnescapeLt(rest);
    } else {
      var t := EscapeChar(c) + rest;
      assert t[0] == c && t[1..] == rest;
    }
  }

  /** Escaping loses no information: `Unescape` recovers the original string, so two
      different URLs never share an escaped cache key. */
  lemma {:induction false} UnescapeEscape(s: string)
    ensures Unescape(Escape(s)) == s
  {
    if s != [] {
      UnescapeEscape(s[1..]);
      UnescapeStep(s[0], Escape(s[1..]));
      assert [s[0]] + s[1..] == s;
    }
  }

  /** Corollary: `html_escape` is injective. */
  lemma EscapeInjective(a: string, b: string)
    requires Escape(a) == Escape(b)
    ensures a == b
  {
    UnescapeEscape(a);
    UnescapeEscape(b);
  }
}
