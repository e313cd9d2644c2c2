/** String utilities of the quote generator: the whitespace set shared by
    JavaScript's String.prototype.trim and the regular expression \s, trimming,
    capitalize, the first whitespace-delimited word, and titleToCategory. */
module Text {

  /** ECMAScript WhiteSpace and LineTerminator code points (tab, vertical tab,
      form feed, space, no-break space, byte order mark, the Unicode space
      separators, line feed, carriage return, line and paragraph separators). */
  predicate IsSpace(c: char)
    ensures c == ' ' || '\t' <= c <= '\r' ==> IsSpace(c)
    ensures '!' <= c <= '~' ==> !IsSpace(c)
  {
    || c == '\t' || c == '\n' || c == '\U{000B}' || c == '\U{000C}' || c == '\r'
    || c == ' ' || c == '\U{00A0}' || c == '\U{1680}' || ('\U{2000}' <= c <= '\U{200A}')
    || c == '\U{2028}' || c == '\U{2029}' || c == '\U{202F}' || c == '\U{205F}'
    || c == '\U{3000}' || c == '\U{FEFF}'
  }

  predicate AllSpace(s: string) {
    forall i :: 0 <= i < |s| ==> IsSpace(s[i])
  }

  predicate NoSpace(s: string) {
    forall i :: 0 <= i < |s| ==> !IsSpace(s[i])
  }

  /** Drops the leading whitespace: the result is the suffix of `s` that
      starts at its first non-whitespace character. */
  function TrimStart(s: string): (r: string)
    ensures |r| <= |s| && r == s[|s| - |r|..]
    ensures AllSpace(s[..|s| - |r|])
    ensures r == [] || !IsSpace(r[0])
  {
    if s != [] && IsSpace(s[0]) then
      var r := TrimStart(s[1..]);
      var k := |s| - |r|;
      assert AllSpace(s[..k]) by {
        forall i | 0 <= i < k ensures IsSpace(s[..k][i]) {
          if i > 0 { assert s[..k][i] == s[1..][..k - 1][i - 1]; }
        }
      }
      r
    else
      s
  }

  /** Drops the trailing whitespace: the result is the prefix of `s` that
      ends at its last non-whitespace character. */
  function TrimEnd(s: string): (r: string)
    ensures |r| <= |s| && r == s[..|r|]
    ensures AllSpace(s[|r|..])
    ensures r == [] || !IsSpace(r[|r| - 1])
  {
    if s != [] && IsSpace(s[|s| - 1]) then
      var r := TrimEnd(s[..|s| - 1]);
      assert AllSpace(s[|r|..]) by {
        forall j | 0 <= j < |s| - |r| ensures IsSpace(s[|r|..][j]) {
          if j < |s| - 1 - |r| { assert s[|r|..][j] == s[..|s| - 1][|r|..][j]; }
        }
      }
      r
    else
      s
  }

  lemma {:induction false} AllSpaceConcat(a: string, b: string)
    requires AllSpace(a) && AllSpace(b)
    ensures AllSpace(a + b)
  {
    forall i | 0 <= i < |a + b| ensures IsSpace((a + b)[i]) {
      if i >= |a| { assert (a + b)[i] == b[i - |a|]; }
    }
  }

  /** String.prototype.trim: neither end of the result is whitespace, and the
      result is empty exactly for whitespace-only input. */
  function Trim(s: string): (r: string)
    ensures r == [] || (!IsSpace(r[0]) && !IsSpace(r[|r| - 1]))
    ensures r == [] <==> AllSpace(s)
  {
    var t := TrimStart(s);
    var r := TrimEnd(t);
    var lead := |s| - |t|;
    assert t != [] ==> t[0] == s[lead];
    assert r == [] ==> AllSpace(s) by {
      if r == [] {
        assert t[0..] == t && s == s[..lead] + t;
        AllSpaceConcat(s[..lead], t);
      }
    }
    r
  }

  /** What trimming removes is whitespace only: the result is the infix of
      `s` after its leading whitespace, followed in `s` by whitespace only. */
  lemma {:induction false} TrimInfix(s: string)
    ensures var lead := |s| - |TrimStart(s)|;
      && lead + |Trim(s)| <= |s| && Trim(s) == s[lead..lead + |Trim(s)|]
      && AllSpace(s[..lead]) && AllSpace(s[lead + |Trim(s)|..])
  {
    var t := TrimStart(s);
    var r := Trim(s);
    var lead := |s| - |t|;
    assert t == s[lead..];
    assert r == t[..|r|] == s[lead..lead + |r|];
    assert s[lead + |r|..] == t[|r|..];
  }

  /** A string that neither starts nor ends with whitespace is its own trim. */
  lemma {:induction false} TrimFixed(s: string)
    requires s == [] || (!IsSpace(s[0]) && !IsSpace(s[|s| - 1]))
    ensures Trim(s) == s
  {
  }

  lemma {:induction false} TrimIdempotent(s: string)
    ensures Trim(Trim(s)) == Trim(s)
  {
    TrimFixed(Trim(s));
  }

  /** ASCII upper-casing; every other character is left alone. */
  function ToUpper(c: char): (r: char)
    ensures 'a' <= c <= 'z' ==> 'A' <= r <= 'Z' && r as int == c as int - 32
    ensures !('a' <= c <= 'z') ==> r == c
    ensures IsSpace(r) <==> IsSpace(c)
  {
    if 'a' <= c <= 'z' then (c as int - 32) as char else c
  }

  /** capitalize: upper-cases the first character and keeps the tail. */
  function Capitalize(s: string): (r: string)
    ensures |r| == |s|
    ensures s != [] ==> r[0] == ToUpper(s[0]) && r[1..] == s[1..]
  {
    if s == [] then [] else [ToUpper(s[0])] + s[1..]
  }

  /** Capitalizing twice is capitalizing once, and it neither adds nor
      removes whitespace. */
  lemma {:induction false} CapitalizeIdempotent(s: string)
    ensures Capitalize(Capitalize(s)) == Capitalize(s)
    ensures NoSpace(s) <==> NoSpace(Capitalize(s))
  {
    if s != [] {
      var r := Capitalize(s);
      assert r == [r[0]] + r[1..];
      assert !IsSpace(s[0]) <==> !IsSpace(r[0]);
      forall i | 0 <= i < |s| ensures IsSpace(s[i]) <==> IsSpace(r[i]) {
        if i > 0 { assert r[i] == r[1..][i - 1] && s[i] == s[1..][i - 1]; }
      }
    }
  }

  /** The first element of `s.split(/\s+/)`: the longest whitespace-free
      prefix of `s` (empty when `s` starts with whitespace or is empty). */
  function FirstWord(s: string): (w: string)
    ensures |w| <= |s| && w == s[..|w|]
    ensures NoSpace(w)
    ensures |w| == |s| || IsSpace(s[|w|])
  {
    if s == [] || IsSpace(s[0]) then [] else [s[0]] + FirstWord(s[1..])
  }

  /** The title used when a server post has none (JavaScript's `title || "Server"`). */
  const DefaultTitle: string := "Server"

  /** The capitalized first word of a trimmed string is empty exactly when
      the string is, is whitespace-free, and matches the string's first word
      except for its upper-cased first character. */
  lemma {:induction false} CapitalizedFirstWord(t: string)
    requires t == [] || !IsSpace(t[0])
    ensures var r := Capitalize(FirstWord(t));
      && |r| <= |t| && NoSpace(r)
      && (r == [] <==> t == [])
      && (r != [] ==> r[0] == ToUpper(t[0]) && r[1..] == t[1..|r|])
      && (|r| == |t| || IsSpace(t[|r|]))
  {
    var w := FirstWord(t);
    CapitalizeIdempotent(w);
    if t != [] {
      assert w != [] && w[0] == t[0];
      assert w[1..] == t[1..|w|];
    }
  }

  lemma {:induction false} DefaultTitleCategory()
    ensures Capitalize(FirstWord(Trim(DefaultTitle))) == DefaultTitle
  {
    var title := DefaultTitle;
    assert title[0] == 'S' && title[|title| - 1] == 'r';
    TrimFixed(title);
    assert NoSpace(title) by {
      forall i | 0 <= i < |title| ensures !IsSpace(title[i]) {
        assert title[i] in "Server";
      }
    }
    FirstWordWhole(title);
    assert Capitalize(title) == [ToUpper('S')] + title[1..];
  }

  /** titleToCategory: the capitalized first word of the trimmed title;
      an empty title is replaced by "Server" first. */
  function TitleToCategory(title: string): (r: string)
    ensures title == [] ==> r == DefaultTitle
    ensures var t := Trim(if title == [] then DefaultTitle else title);
      && |r| <= |t| && NoSpace(r)
      && (r == [] <==> t == [])
      && (r != [] ==> r[0] == ToUpper(t[0]) && r[1..] == t[1..|r|])
      && (|r| == |t| || IsSpace(t[|r|]))
  {
    var t := Trim(if title == [] then DefaultTitle else title);
    CapitalizedFirstWord(t);
    DefaultTitleCategory();
    Capitalize(FirstWord(t))
  }

  /** A whitespace-free string is its own first word. */
  lemma {:induction false} FirstWordWhole(w: string)
    requires NoSpace(w)
    ensures FirstWord(w) == w
  {
    if w != [] {
      assert NoSpace(w[1..]) by {
        forall i | 0 <= i < |w| - 1 ensures !IsSpace(w[1..][i]) { assert w[1..][i] == w[i + 1]; }
      }
      FirstWordWhole(w[1..]);
      assert w == [w[0]] + w[1..];
    }
  }

  /** A category produced by titleToCategory maps to itself when it is
      used as a title again. */
  lemma {:induction false} TitleToCategoryIdempotent(title: string)
    requires TitleToCategory(title) != []
    ensures TitleToCategory(TitleToCategory(title)) == TitleToCategory(title)
  {
    var r := TitleToCategory(title);
    var w := FirstWord(Trim(if title == [] then DefaultTitle else title));
    assert r == Capitalize(w);
    TrimFixed(r);
    FirstWordWhole(r);
    CapitalizeIdempotent(w);
    assert TitleToCategory(r) == Capitalize(FirstWord(Trim(r)));
  }
}
