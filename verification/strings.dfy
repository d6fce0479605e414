/**
 The two text operations the request parser relies on, with the semantics
 of Rust's `str::trim` and `str::split(' ')`.

 Strings are sequences of Unicode scalar values (Dafny's `char`), which is
 what a Rust `&str` iterates over with `chars()`.
 */
module Strings {

  /** Rust's `char::is_whitespace`: the Unicode White_Space property. */
  predicate IsWhitespace(c: char) {
    || ('\t' <= c <= '\r')          // U+0009 .. U+000D
    || c == ' '
    || c == '\U{0085}'
    || c == '\U{00A0}'
    || c == '\U{1680}'
    || ('\U{2000}' <= c <= '\U{200A}')
    || c == '\U{2028}'
    || c == '\U{2029}'
    || c == '\U{202F}'
    || c == '\U{205F}'
    || c == '\U{3000}'
  }

  predicate AllWhitespace(s: string) {
    forall i :: 0 <= i < |s| ==> IsWhitespace(s[i])
  }

  /** Two runs of whitespace make one. */
  lemma WhitespaceAppend(a: string, b: string)
    requires AllWhitespace(a) && AllWhitespace(b)
    ensures AllWhitespace(a + b)
  {
  }

  /** A string that `trim` leaves as it is: empty, or starting and ending
      with a non-whitespace character. */
  predicate Trimmed(t: string) {
    |t| == 0 || (!IsWhitespace(t[0]) && !IsWhitespace(t[|t| - 1]))
  }

  /** Number of leading whitespace characters. */
  function LeadingWhitespace(s: string): (n: nat)
    ensures n <= |s|
    ensures AllWhitespace(s[..n])
    ensures n < |s| ==> !IsWhitespace(s[n])
  {
    if |s| == 0 || !IsWhitespace(s[0]) then 0
    else 1 + LeadingWhitespace(s[1..])
  }

  /** Number of trailing whitespace characters. */
  function TrailingWhitespace(s: string): (n: nat)
    ensures n <= |s|
    ensures AllWhitespace(s[|s| - n..])
    ensures n < |s| ==> !IsWhitespace(s[|s| - 1 - n])
  {
    if |s| == 0 || !IsWhitespace(s[|s| - 1]) then 0
    else
      var m := TrailingWhitespace(s[..|s| - 1]);
      TrailingStep(s, m);
      1 + m
  }

  /** A whitespace character after a run of `m` makes a run of `m + 1`. */
  lemma TrailingStep(s: string, m: nat)
    requires |s| > 0 && IsWhitespace(s[|s| - 1]) && m < |s|
    requires AllWhitespace(s[..|s| - 1][|s| - 1 - m..])
    requires m < |s| - 1 ==> !IsWhitespace(s[..|s| - 1][|s| - 2 - m])
    ensures AllWhitespace(s[|s| - (m + 1)..])
    ensures m + 1 < |s| ==> !IsWhitespace(s[|s| - 1 - (m + 1)])
  {
    var init, last := s[..|s| - 1], s[|s| - 1];
    assert s[|s| - (m + 1)..] == init[|init| - m..] + [last];
    WhitespaceAppend(init[|init| - m..], [last]);
  }

  /** `str::trim`: drops leading and trailing whitespace. The result is a
      trimmed string that sits in `s` between an all-whitespace prefix and
      an all-whitespace suffix. */
  function Trim(s: string): (r: string)
    ensures Trimmed(r)
    ensures exists i :: 0 <= i <= |s| - |r| && s[i..i + |r|] == r
                        && AllWhitespace(s[..i]) && AllWhitespace(s[i + |r|..])
  {
    TrimmedEnds(s);
    TrimSits(s);
    TrimBack(s);
    TrimEnd(TrimStart(s))
  }

  /** The first half of `trim`: the leading whitespace dropped. */
  function TrimStart(s: string): string {
    s[LeadingWhitespace(s)..]
  }

  /** The second half of `trim`: the trailing whitespace dropped. */
  function TrimEnd(s: string): string {
    s[..|s| - TrailingWhitespace(s)]
  }

  /** The first half cuts exactly the leading run. */
  lemma StartBy(s: string, n: nat)
    requires n == LeadingWhitespace(s)
    ensures TrimStart(s) == s[n..]
  {
  }

  /** The second half cuts exactly the trailing run. */
  lemma EndBy(s: string, n: nat)
    requires n == TrailingWhitespace(s)
    ensures TrimEnd(s) == s[..|s| - n]
  {
  }

  /** Trimming both ends leaves no whitespace at either end. */
  lemma TrimmedEnds(s: string)
    ensures Trimmed(TrimEnd(TrimStart(s)))
  {
    var i := LeadingWhitespace(s);
    StartBy(s, i);
    var rest := s[i..];
    var j := TrailingWhitespace(rest);
    EndBy(rest, j);
    var r := rest[..|rest| - j];
    if |r| > 0 {
      assert r[0] == s[i];
      assert r[|r| - 1] == rest[|rest| - 1 - j];
    }
  }

  /** What trimming both ends keeps is a slice of the input. */
  lemma TrimSits(s: string)
    ensures var i := LeadingWhitespace(s);
            var r := TrimEnd(TrimStart(s));
            i <= |s| - |r| && s[i..i + |r|] == r
  {
    var i := LeadingWhitespace(s);
    StartBy(s, i);
    var j := TrailingWhitespace(s[i..]);
    EndBy(s[i..], j);
    CutMiddle(s, i, j);
  }

  /** Only whitespace follows what trimming both ends keeps. */
  lemma TrimBack(s: string)
    ensures var i := LeadingWhitespace(s);
            var r := TrimEnd(TrimStart(s));
            i <= |s| - |r| && AllWhitespace(s[i + |r|..])
  {
    var i := LeadingWhitespace(s);
    StartBy(s, i);
    var j := TrailingWhitespace(s[i..]);
    EndBy(s[i..], j);
    CutMiddle(s, i, j);
  }

  /** Cutting `i` characters from the front and then `j` from the back of
      what is left is one slice, with the input's last `j` characters after
      it. */
  lemma CutMiddle(s: string, i: nat, j: nat)
    requires i <= |s| && j <= |s[i..]|
    requires AllWhitespace(s[i..][|s[i..]| - j..])
    ensures var r := s[i..][..|s[i..]| - j];
            s[i..i + |r|] == r && AllWhitespace(s[i + |r|..])
  {
    var rest := s[i..];
    assert rest[|rest| - j..] == s[|s| - j..];
  }

  /** An all-whitespace prefix adds its length to the leading run. */
  lemma {:induction false} LeadingAfter(p: string, u: string)
    requires AllWhitespace(p)
    ensures LeadingWhitespace(p + u) == |p| + LeadingWhitespace(u)
  {
    if |p| > 0 {
      LeadingAfter(p[1..], u);
      assert (p + u)[1..] == p[1..] + u;
    } else {
      assert p + u == u;
    }
  }

  /** An all-whitespace suffix adds its length to the trailing run. */
  lemma {:induction false} TrailingBefore(u: string, q: string)
    requires AllWhitespace(q)
    ensures TrailingWhitespace(u + q) == TrailingWhitespace(u) + |q|
  {
    if |q| > 0 {
      var q', c := q[..|q| - 1], q[|q| - 1];
      assert q == q' + [c];
      assert u + q == (u + q') + [c];
      TrailingBefore(u, q');
      TrailingDrop(u + q', c);
    } else {
      assert u + q == u;
    }
  }

  /** A whitespace character at the end lengthens the trailing run by one. */
  lemma TrailingDrop(u: string, c: char)
    requires IsWhitespace(c)
    ensures TrailingWhitespace(u + [c]) == TrailingWhitespace(u) + 1
  {
  }

  /** Whitespace around a trimmed string is exactly what `trim` removes. */
  lemma TrimExact(p: string, t: string, q: string)
    requires AllWhitespace(p) && AllWhitespace(q) && Trimmed(t)
    ensures Trim(p + t + q) == t
  {
    if |t| == 0 {
      assert t == [];
      assert p + t == p;
      TrimBlank(p, q);
    } else {
      TrimSolid(p, t, q);
    }
  }

  /** Whitespace alone trims to nothing. */
  lemma TrimBlank(p: string, q: string)
    requires AllWhitespace(p) && AllWhitespace(q)
    ensures Trim(p + q) == ""
  {
    var s := p + q;
    assert LeadingWhitespace(s) == |s| by {
      assert s == p + (q + "");
      LeadingAfter(p, q + "");
      LeadingAfter(q, "");
      assert q + "" == q;
    }
    StartBy(s, |s|);
    EndBy([], 0);
  }

  /** Whitespace around a non-empty trimmed string is cut off exactly. */
  lemma TrimSolid(p: string, t: string, q: string)
    requires AllWhitespace(p) && AllWhitespace(q) && Trimmed(t) && |t| > 0
    ensures Trim(p + t + q) == t
  {
    var s := p + t + q;
    var tq := t + q;
    assert s == p + tq;
    assert LeadingWhitespace(s) == |p| by {
      LeadingAfter(p, tq);
      assert tq[0] == t[0];
    }
    StartBy(s, |p|);
    assert s[|p|..] == tq;
    assert TrailingWhitespace(tq) == |q| by {
      assert TrailingWhitespace(t) == 0;
      TrailingBefore(t, q);
    }
    EndBy(tq, |q|);
    assert tq[..|tq| - |q|] == t;
  }

  /** A split token: contains no space separator. */
  predicate Token(t: string) {
    ' ' !in t
  }

  /** Inverse of `Split`: the tokens glued together with single spaces. */
  function Join(ts: seq<string>): string
    requires |ts| >= 1
  {
    if |ts| == 1 then ts[0] else ts[0] + " " + Join(ts[1..])
  }

  /** `str::split(' ')` collected into a vector: the pieces between single
      spaces, empty pieces kept, so a string with n spaces has n + 1
      pieces and the empty string gives one empty piece. */
  function Split(s: string): (r: seq<string>)
    ensures |r| >= 1
    ensures forall i :: 0 <= i < |r| ==> Token(r[i])
    ensures Join(r) == s
  {
    if |s| == 0 then [""]
    else
      var rest := Split(s[1..]);
      if s[0] == ' ' then
        [""] + rest
      else
        var r := [[s[0]] + rest[0]] + rest[1..];
        assert r[1..] == rest[1..];
        r
  }

  /** Splitting a token followed by a space and more text peels the token. */
  lemma {:induction false} SplitCons(a: string, b: string)
    requires Token(a)
    ensures Split(a + " " + b) == [a] + Split(b)
  {
    var s := a + " " + b;
    if |a| == 0 {
      assert s[0] == ' ' && s[1..] == b;
    } else {
      SplitCons(a[1..], b);
      assert s[0] == a[0] != ' ';
      assert s[1..] == a[1..] + " " + b;
      var rest := Split(s[1..]);
      assert rest == [a[1..]] + Split(b);
      assert Split(s) == [[s[0]] + rest[0]] + rest[1..];
      assert rest[1..] == Split(b);
      assert [s[0]] + rest[0] == a;
    }
  }

  /** A token splits into itself. */
  lemma {:induction false} SplitToken(a: string)
    requires Token(a)
    ensures Split(a) == [a]
  {
    if |a| > 0 {
      SplitToken(a[1..]);
      assert a == [a[0]] + a[1..];
    }
  }

  /** Splitting the join of a non-empty list of tokens gives the list back. */
  lemma {:induction false} SplitJoin(ts: seq<string>)
    requires |ts| >= 1
    requires forall i :: 0 <= i < |ts| ==> Token(ts[i])
    ensures Split(Join(ts)) == ts
  {
    if |ts| == 1 {
      SplitToken(ts[0]);
    } else {
      SplitJoin(ts[1..]);
      SplitCons(ts[0], Join(ts[1..]));
      assert ts == [ts[0]] + ts[1..];
    }
  }

  /** Every space separates two pieces: n spaces give n + 1 pieces, so a
      doubled space yields an extra, empty piece. */
  lemma {:induction false} SplitCount(s: string)
    ensures |Split(s)| == multiset(s)[' '] + 1
  {
    if |s| > 0 {
      SplitCount(s[1..]);
      SplitLengthCons(s);
      SpacesCons(s);
    }
  }

  /** The first character adds a piece exactly when it is a space. */
  lemma SplitLengthCons(s: string)
    requires |s| > 0
    ensures |Split(s)| == |Split(s[1..])| + (if s[0] == ' ' then 1 else 0)
  {
  }

  /** The first character adds to the space count exactly when it is one. */
  lemma SpacesCons(s: string)
    requires |s| > 0
    ensures multiset(s)[' '] == multiset(s[1..])[' '] + (if s[0] == ' ' then 1 else 0)
  {
    assert s == [s[0]] + s[1..];
  }
}
