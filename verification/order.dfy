/**
 Lexicographic order on address texts.

 The election rule compares `SocketAddr::to_string()` values with Rust's
 `>` on `String`, which orders UTF-8 bytes lexicographically. UTF-8
 preserves code-point order, so this is lexicographic order on the
 characters, with a proper prefix sorting first. Dafny's own `<` on
 sequences means "proper prefix", so the order is spelled out here.
 */
module Order {

  /** `a` sorts strictly before `b`. */
  predicate StrLt(a: string, b: string)
    ensures a < b ==> StrLt(a, b)
    ensures StrLt(a, b) ==> !(b <= a)
  {
    if |b| == 0 then false
    else if |a| == 0 then true
    else if a[0] != b[0] then a[0] < b[0]
    else StrLt(a[1..], b[1..])
  }

  /** The textbook definition: `a` is a proper prefix of `b`, or the two
      agree up to a first position where `a` has the smaller character. */
  ghost predicate LexLess(a: string, b: string) {
    || a < b
    || exists i :: 0 <= i < |a| && i < |b| && a[..i] == b[..i] && a[i] < b[i]
  }

  lemma {:induction false} StrLtMeansLexLess(a: string, b: string)
    ensures StrLt(a, b) <==> LexLess(a, b)
  {
    if |b| == 0 {
      // nothing sorts before the empty string
    } else if |a| == 0 {
      assert a < b;
    } else if a[0] != b[0] {
      if a[0] < b[0] {
        assert a[..0] == b[..0];
      } else if LexLess(a, b) {
        LexLessHead(a, b);
        assert false;
      }
    } else {
      StrLtMeansLexLess(a[1..], b[1..]);
      if StrLt(a[1..], b[1..]) {
        if a[1..] < b[1..] {
          assert a == [a[0]] + a[1..];
          assert b[..|a|] == [b[0]] + b[1..][..|a| - 1];
        } else {
          var i :| 0 <= i < |a[1..]| && i < |b[1..]| && a[1..][..i] == b[1..][..i]
                   && a[1..][i] < b[1..][i];
          assert a[..i + 1] == [a[0]] + a[1..][..i];
          assert b[..i + 1] == [b[0]] + b[1..][..i];
        }
      } else if LexLess(a, b) {
        LexLessTail(a, b);
        assert false;
      }
    }
  }

  /** Lexicographically smaller texts do not start with a larger character. */
  lemma LexLessHead(a: string, b: string)
    requires |a| > 0 && |b| > 0
    requires LexLess(a, b)
    ensures a[0] <= b[0]
  {
    if a < b {
      assert a[0] == b[0];
    } else {
      var i :| 0 <= i < |a| && i < |b| && a[..i] == b[..i] && a[i] < b[i];
      if i > 0 {
        assert a[..i][0] == b[..i][0];
      }
    }
  }

  /** Lexicographic order passes to the tails past a common first character. */
  lemma LexLessTail(a: string, b: string)
    requires |a| > 0 && |b| > 0 && a[0] == b[0]
    requires LexLess(a, b)
    ensures LexLess(a[1..], b[1..])
  {
    if !(a < b) {
      var i :| 0 <= i < |a| && i < |b| && a[..i] == b[..i] && a[i] < b[i];
      assert i > 0;
      assert a[1..][..i - 1] == a[..i][1..];
      assert b[1..][..i - 1] == b[..i][1..];
      assert a[1..][i - 1] < b[1..][i - 1];
    }
  }

  lemma {:induction false} StrLtIrreflexive(a: string)
    ensures !StrLt(a, a)
  {
    if |a| > 0 {
      StrLtIrreflexive(a[1..]);
    }
  }

  lemma {:induction false} StrLtTransitive(a: string, b: string, c: string)
    requires StrLt(a, b) && StrLt(b, c)
    ensures StrLt(a, c)
  {
    if |a| > 0 && a[0] == b[0] && b[0] == c[0] {
      StrLtTransitive(a[1..], b[1..], c[1..]);
    }
  }

  /** Any two distinct strings are ordered one way or the other. */
  lemma {:induction false} StrLtTotal(a: string, b: string)
    ensures a == b || StrLt(a, b) || StrLt(b, a)
  {
    if |a| > 0 && |b| > 0 && a[0] == b[0] {
      assert a == [a[0]] + a[1..] && b == [b[0]] + b[1..];
      StrLtTotal(a[1..], b[1..]);
    }
  }

  lemma {:induction false} StrLtAsymmetric(a: string, b: string)
    requires StrLt(a, b)
    ensures !StrLt(b, a)
  {
    if StrLt(b, a) {
      StrLtTransitive(a, b, a);
      StrLtIrreflexive(a);
    }
  }

  /** `m` is one of `xs` and every other entry sorts before it. */
  ghost predicate IsGreatest(m: string, xs: seq<string>) {
    && m in xs
    && forall x :: x in xs ==> x == m || StrLt(x, m)
  }

  /** The lexicographically greatest entry of a non-empty list. */
  function Greatest(xs: seq<string>): (m: string)
    requires |xs| > 0
    ensures IsGreatest(m, xs)
  {
    if |xs| == 1 then xs[0]
    else
      var rest := Greatest(xs[1..]);
      assert forall x :: x in xs ==> x == xs[0] || x in xs[1..];
      if StrLt(rest, xs[0]) then
        assert forall x :: x in xs[1..] && x != rest ==> StrLt(x, xs[0]) by {
          forall x | x in xs[1..] && x != rest
            ensures StrLt(x, xs[0])
          {
            StrLtTransitive(x, rest, xs[0]);
          }
        }
        xs[0]
      else
        StrLtTotal(xs[0], rest);
        rest
  }

  /** Two lists with the same entries have the same greatest entry. */
  lemma GreatestUnique(m1: string, xs: seq<string>, m2: string, ys: seq<string>)
    requires IsGreatest(m1, xs) && IsGreatest(m2, ys)
    requires forall x :: x in xs <==> x in ys
    ensures m1 == m2
  {
    if m1 != m2 {
      assert StrLt(m1, m2) && StrLt(m2, m1);
      StrLtAsymmetric(m1, m2);
    }
  }
}
