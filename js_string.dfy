/** The part of ECMAScript's `String.prototype.trim` that the client relies on. */
module JsString {

  /**
   * ECMAScript WhiteSpace and LineTerminator code points: TAB, LF, VT, FF, CR, SPACE,
   * NBSP, the Zs space separators, LINE SEPARATOR, PARAGRAPH SEPARATOR and ZWNBSP.
   */
  predicate IsWhitespace(c: char) {
    var n := c as int;
    n == 0x09 || n == 0x0A || n == 0x0B || n == 0x0C || n == 0x0D || n == 0x20 ||
    n == 0xA0 || n == 0x1680 || (0x2000 <= n <= 0x200A) || n == 0x2028 || n == 0x2029 ||
    n == 0x202F || n == 0x205F || n == 0x3000 || n == 0xFEFF
  }

  ghost predicate AllWhitespace(s: string) {
    forall k :: 0 <= k < |s| ==> IsWhitespace(s[k])
  }

  /** `s` without its leading white space. */
  function TrimStart(s: string): (r: string)
    ensures r == [] || !IsWhitespace(r[0])
    ensures |r| <= |s| && r == s[|s| - |r|..]
  {
    if s != [] && IsWhitespace(s[0]) then TrimStart(s[1..]) else s
  }

  /** `s` without its trailing white space. */
  function TrimEnd(s: string): (r: string)
    ensures r == [] || !IsWhitespace(r[|r| - 1])
    ensures |r| <= |s| && r == s[..|r|]
  {
    if s != [] && IsWhitespace(s[|s| - 1]) then TrimEnd(s[..|s| - 1]) else s
  }

  /** `s.trim()`: neither starts nor ends with white space; TrimCut says what it cuts. */
  function Trim(s: string): (r: string)
    ensures r == [] || (!IsWhitespace(r[0]) && !IsWhitespace(r[|r| - 1]))
  {
    TrimEnd(TrimStart(s))
  }

  /** `s` is `r` with the white space `pre` before it and the white space `post` after it. */
  ghost predicate Splits(s: string, pre: string, r: string, post: string) {
    s == pre + r + post && AllWhitespace(pre) && AllWhitespace(post)
  }

  /** `s.trim()` is a contiguous part of `s`: only white space is cut, from either side. */
  lemma TrimCut(s: string)
    ensures exists pre, post :: Splits(s, pre, Trim(s), post)
  {
    var t := TrimStart(s);
    var r := TrimEnd(t);
    var pre := TrimStartCut(s);
    var post := TrimEndCut(t);
    Regroup(s, pre, t, r, post);
    assert Trim(s) == r;
    assert Splits(s, pre, r, post);
  }

  /** TrimStart cuts only white space: `pre` is what it cuts. */
  lemma {:induction false} TrimStartCut(s: string) returns (pre: string)
    ensures s == pre + TrimStart(s) && AllWhitespace(pre)
  {
    if s != [] && IsWhitespace(s[0]) {
      var rest := TrimStartCut(s[1..]);
      var t := TrimStart(s[1..]);
      pre := [s[0]] + rest;
      assert TrimStart(s) == t;
      ConsConcat(s, rest, t);
      AllWhitespaceCons(s[0], rest);
    } else {
      pre := [];
      assert s == pre + s;
    }
  }

  /** White space in front of a white-space string keeps it white space. */
  lemma AllWhitespaceCons(c: char, t: string)
    requires IsWhitespace(c) && AllWhitespace(t)
    ensures AllWhitespace([c] + t)
  {
    forall k | 0 <= k < |[c] + t| ensures IsWhitespace(([c] + t)[k]) {
      if k > 0 { assert ([c] + t)[k] == t[k - 1]; }
    }
  }

  /** White space after a white-space string keeps it white space. */
  lemma AllWhitespaceSnoc(t: string, c: char)
    requires AllWhitespace(t) && IsWhitespace(c)
    ensures AllWhitespace(t + [c])
  {
    forall k | 0 <= k < |t + [c]| ensures IsWhitespace((t + [c])[k]) {
      if k < |t| { assert (t + [c])[k] == t[k]; }
    }
  }

  // Concatenation steps, stated apart from the trimming functions so each proof stays small.

  lemma Regroup(s: string, pre: string, t: string, r: string, post: string)
    requires s == pre + t && t == r + post
    ensures s == pre + r + post
  {
  }

  lemma ConsConcat(s: string, a: string, b: string)
    requires s != [] && s[1..] == a + b
    ensures s == ([s[0]] + a) + b
  {
    assert s == [s[0]] + s[1..];
  }

  lemma SnocConcat(s: string, a: string, b: string)
    requires s != [] && s[..|s| - 1] == a + b
    ensures s == a + (b + [s[|s| - 1]])
  {
    assert s == s[..|s| - 1] + [s[|s| - 1]];
  }

  /** TrimEnd cuts only white space: `post` is what it cuts. */
  lemma {:induction false} TrimEndCut(s: string) returns (post: string)
    ensures s == TrimEnd(s) + post && AllWhitespace(post)
    decreases |s|
  {
    if s != [] && IsWhitespace(s[|s| - 1]) {
      var u := s[..|s| - 1];
      var rest := TrimEndCut(u);
      var t := TrimEnd(u);
      var c := s[|s| - 1];
      post := rest + [c];
      assert TrimEnd(s) == t;
      SnocConcat(s, t, rest);
      AllWhitespaceSnoc(rest, c);
    } else {
      post := [];
      assert s == s + post;
    }
  }

  lemma {:induction false} TrimStartEmpty(s: string)
    ensures TrimStart(s) == [] <==> AllWhitespace(s)
  {
    if s != [] && IsWhitespace(s[0]) {
      TrimStartEmpty(s[1..]);
      assert AllWhitespace(s[1..]) ==> AllWhitespace(s) by {
        forall k | 0 <= k < |s| && AllWhitespace(s[1..]) ensures IsWhitespace(s[k]) {
          if k > 0 { assert s[k] == s[1..][k - 1]; }
        }
      }
    }
  }

  /** `prompt.trim()` is the empty string exactly when every character of `prompt` is white space. */
  lemma {:induction false} TrimEmptyIff(s: string)
    ensures Trim(s) == [] <==> AllWhitespace(s)
  {
    TrimStartEmpty(s);
    var t := TrimStart(s);
    if t != [] {
      TrimEndEmptyHead(t);
    }
  }

  /** Trimming the end of a string that starts with a non-white-space character leaves that character. */
  lemma {:induction false} TrimEndEmptyHead(t: string)
    requires t != [] && !IsWhitespace(t[0])
    ensures TrimEnd(t) != []
    decreases |t|
  {
    if IsWhitespace(t[|t| - 1]) {
      assert |t| > 1;
      TrimEndEmptyHead(t[..|t| - 1]);
    }
  }
}
