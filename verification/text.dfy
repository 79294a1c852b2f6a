/** String helpers with the meaning the application's JavaScript gives them:
    `trim`, `startsWith`, `includes`, `toLowerCase`, a global `replace`,
    `join`, and the truthiness of a string. Strings are sequences of chars. */
module Text {
  import opened Wrappers

  /** A string is truthy in JavaScript exactly when it is not empty. */
  predicate Truthy(s: string) {
    |s| > 0
  }

  /** An optional string is truthy when it is present and not empty. */
  predicate TruthyOpt(o: Option<string>) {
    o.Some? && Truthy(o.value)
  }

  /** `a || b` on optional strings: `a` when it is truthy, otherwise `b`. */
  function OrElse(a: Option<string>, b: Option<string>): (r: Option<string>)
    ensures TruthyOpt(a) ==> r == a
    ensures !TruthyOpt(a) ==> r == b
  {
    if TruthyOpt(a) then a else b
  }

  /** What a JSX text slot renders: nothing for `undefined`. */
  function Render(o: Option<string>): string {
    o.GetOr("")
  }

  /** The characters `String.prototype.trim` removes: the ECMAScript
      WhiteSpace and LineTerminator code points. */
  predicate IsWhitespace(c: char) {
    || c == '\t' || c == '\n' || c == '\U{0B}' || c == '\U{0C}' || c == '\r'
    || c == ' ' || c == '\U{A0}' || c == '\U{1680}'
    || ('\U{2000}' <= c <= '\U{200A}')
    || c == '\U{2028}' || c == '\U{2029}' || c == '\U{202F}'
    || c == '\U{205F}' || c == '\U{3000}' || c == '\U{FEFF}'
  }

  predicate AllWhitespace(s: string) {
    forall k :: 0 <= k < |s| ==> IsWhitespace(s[k])
  }

  /** Drops leading whitespace: the result is a suffix of `s`, everything
      dropped is whitespace and the result does not start with whitespace. */
  function TrimStart(s: string): (r: string)
    ensures |r| <= |s| && r == s[|s| - |r|..]
    ensures AllWhitespace(s[..|s| - |r|])
    ensures |r| > 0 ==> !IsWhitespace(r[0])
  {
    if |s| > 0 && IsWhitespace(s[0]) then TrimStart(s[1..]) else s
  }

  /** Drops trailing whitespace: the result is a prefix of `s`, everything
      dropped is whitespace and the result does not end with whitespace. */
  function TrimEnd(s: string): (r: string)
    ensures |r| <= |s| && r == s[..|r|]
    ensures AllWhitespace(s[|r|..])
    ensures |r| > 0 ==> !IsWhitespace(r[|r| - 1])
  {
    if |s| > 0 && IsWhitespace(s[|s| - 1]) then TrimEnd(s[..|s| - 1]) else s
  }

  /** `r` is `s` with whitespace-only text removed before `i` and after `i + |r|`. */
  ghost predicate TrimmedAt(s: string, r: string, i: int) {
    0 <= i <= |s| - |r| && r == s[i..i + |r|]
    && AllWhitespace(s[..i]) && AllWhitespace(s[i + |r|..])
  }

  /** `s.trim()`: a contiguous piece of `s` with only whitespace around it
      and no whitespace at either end. */
  function Trim(s: string): (r: string)
    ensures exists i :: TrimmedAt(s, r, i)
    ensures |r| > 0 ==> !IsWhitespace(r[0]) && !IsWhitespace(r[|r| - 1])
  {
    var t := TrimStart(s);
    TrimBothEnds(s, t, TrimEnd(t));
    TrimEnd(t)
  }

  /** Trimming the end of a suffix that follows leading whitespace trims `s`. */
  lemma TrimBothEnds(s: string, t: string, r: string)
    requires |t| <= |s| && t == s[|s| - |t|..] && AllWhitespace(s[..|s| - |t|])
    requires |r| <= |t| && r == t[..|r|] && AllWhitespace(t[|r|..])
    ensures TrimmedAt(s, r, |s| - |t|)
  {
    var i := |s| - |t|;
    assert r == s[i..i + |r|];
    assert s[i + |r|..] == t[|r|..];
  }

  /** A string trims to nothing exactly when it is all whitespace. */
  lemma TrimEmptyIff(s: string)
    ensures Trim(s) == "" <==> AllWhitespace(s)
  {
    var t := TrimStart(s);
    if |t| > 0 {
      assert t[0] == s[|s| - |t|];
      assert t[0..][0] == t[0];
    }
    assert s[..|s|] == s;
  }

  /** Trimming a trimmed string changes nothing. */
  lemma TrimIdempotent(s: string)
    ensures Trim(Trim(s)) == Trim(s)
  {
  }

  /** `s.startsWith(p)`. */
  predicate StartsWith(s: string, p: string) {
    |p| <= |s| && s[..|p|] == p
  }

  /** `s.includes(sub)`, computed by sliding along `s`. */
  function Contains(s: string, sub: string): (r: bool)
    decreases |s|
  {
    if StartsWith(s, sub) then true
    else if |s| == 0 then false
    else Contains(s[1..], sub)
  }

  /** The independent meaning of `Contains`: some window of `s` equals `sub`. */
  ghost predicate OccursAt(s: string, sub: string, i: int) {
    0 <= i && i + |sub| <= |s| && s[i..i + |sub|] == sub
  }

  lemma {:induction false} ContainsIff(s: string, sub: string)
    ensures Contains(s, sub) <==> exists i :: OccursAt(s, sub, i)
    decreases |s|
  {
    if StartsWith(s, sub) {
      assert OccursAt(s, sub, 0);
    } else if |s| > 0 {
      ContainsIff(s[1..], sub);
      if exists i :: OccursAt(s, sub, i) {
        var i :| OccursAt(s, sub, i);
        assert i != 0;
        assert s[1..][i - 1..i - 1 + |sub|] == sub;
        assert OccursAt(s[1..], sub, i - 1);
      }
      if exists i :: OccursAt(s[1..], sub, i) {
        var i :| OccursAt(s[1..], sub, i);
        assert s[i + 1..i + 1 + |sub|] == s[1..][i..i + |sub|];
        assert OccursAt(s, sub, i + 1);
      }
    }
  }

  /** `toLowerCase` on the ASCII letters; every other char is kept. */
  function LowerChar(c: char): (r: char)
    ensures 'A' <= c <= 'Z' ==> 'a' <= r <= 'z' && r as int - c as int == 32
    ensures !('A' <= c <= 'Z') ==> r == c
  {
    if 'A' <= c <= 'Z' then (c as int + 32) as char else c
  }

  function ToLower(s: string): (r: string)
    ensures |r| == |s|
    ensures forall k :: 0 <= k < |s| ==> r[k] == LowerChar(s[k])
  {
    seq(|s|, k requires 0 <= k < |s| => LowerChar(s[k]))
  }

  /** `s.replace(/pat/g, '')`: removes the leftmost occurrence of `pat`,
      then continues scanning after it. */
  function RemoveAll(s: string, pat: string): (r: string)
    requires |pat| > 0
    ensures |r| <= |s|
    decreases |s|
  {
    if |s| < |pat| then s
    else if s[..|pat|] == pat then RemoveAll(s[|pat|..], pat)
    else [s[0]] + RemoveAll(s[1..], pat)
  }

  /** Removing a pattern that does not occur changes nothing. */
  lemma {:induction false} RemoveAllAbsent(s: string, pat: string)
    requires |pat| > 0
    requires !Contains(s, pat)
    ensures RemoveAll(s, pat) == s
    decreases |s|
  {
    if |s| >= |pat| {
      assert s[..|pat|] != pat;
      RemoveAllAbsent(s[1..], pat);
      assert s == [s[0]] + s[1..];
    }
  }

  /** A leading occurrence of the pattern is removed. */
  lemma RemoveAllLeading(pat: string, t: string)
    requires |pat| > 0
    ensures RemoveAll(pat + t, pat) == RemoveAll(t, pat)
  {
    assert (pat + t)[..|pat|] == pat;
    assert (pat + t)[|pat|..] == t;
  }

  /** A piece without the pattern's first char is kept as it is, since no
      occurrence can start inside it. */
  lemma {:induction false} RemoveAllKeepsPiece(u: string, t: string, pat: string)
    requires |pat| > 0
    requires forall k :: 0 <= k < |u| ==> u[k] != pat[0]
    ensures RemoveAll(u + t, pat) == u + RemoveAll(t, pat)
    decreases |u|
  {
    if |u| > 0 {
      var s := u + t;
      RemoveAllKeepsPiece(u[1..], t, pat);
      assert s[1..] == u[1..] + t;
      if |s| >= |pat| {
        assert s[..|pat|][0] != pat[0];
      }
      assert u == [u[0]] + u[1..];
    } else {
      assert u + t == t;
    }
  }

  /** `xs.join(sep)`. */
  function Join(xs: seq<string>, sep: string): (r: string)
    ensures |xs| == 1 ==> r == xs[0]
    ensures |xs| == 0 ==> r == ""
  {
    if |xs| == 0 then ""
    else if |xs| == 1 then xs[0]
    else xs[0] + sep + Join(xs[1..], sep)
  }

  /** With a non-empty separator, a join is empty exactly when there is
      nothing to join or a single empty string. */
  lemma JoinEmptyIff(xs: seq<string>, sep: string)
    requires |sep| > 0
    ensures Join(xs, sep) == "" <==> |xs| == 0 || (|xs| == 1 && xs[0] == "")
  {
    if |xs| >= 2 {
      assert |Join(xs, sep)| >= |sep|;
    }
  }
}
