/** The string functions the authentication gates rely on: `strings.Contains`,
    `strings.Replace(s, pat, "", -1)`, and the code-point order on strings
    that the store uses to pick the first row by primary key. */
module Text {

  /** `sub` occurs in `s` at index `i`. */
  predicate OccursAt(s: string, sub: string, i: nat) {
    i + |sub| <= |s| && s[i..i + |sub|] == sub
  }

  /** Go's `strings.Contains(s, sub)`: scan `s` left to right for `sub`. */
  function Contains(s: string, sub: string): bool
    decreases |s|
  {
    if sub <= s then true
    else if |s| == 0 then false
    else Contains(s[1..], sub)
  }

  /** `Contains` finds `sub` exactly when it occurs somewhere in `s`. */
  lemma ContainsIffOccurs(s: string, sub: string)
    ensures Contains(s, sub) <==> exists i: nat :: OccursAt(s, sub, i)
  {
    if Contains(s, sub) {
      var i := ContainsWitness(s, sub);
    } else {
      forall i: nat | OccursAt(s, sub, i)
        ensures false
      {
        OccursAtContained(s, sub, i);
      }
    }
  }

  /** An index where `Contains` succeeds. */
  lemma {:induction false} ContainsWitness(s: string, sub: string) returns (i: nat)
    requires Contains(s, sub)
    ensures OccursAt(s, sub, i)
    decreases |s|
  {
    if sub <= s {
      i := 0;
    } else {
      var j := ContainsWitness(s[1..], sub);
      assert s[j + 1..j + 1 + |sub|] == s[1..][j..j + |sub|];
      i := j + 1;
    }
  }

  /** An occurrence at index `i` is found by `Contains`. */
  lemma {:induction false} OccursAtContained(s: string, sub: string, i: nat)
    requires OccursAt(s, sub, i)
    ensures Contains(s, sub)
    decreases i
  {
    if i > 0 && !(sub <= s) {
      assert s[1..][i - 1..i - 1 + |sub|] == s[i..i + |sub|];
      OccursAtContained(s[1..], sub, i - 1);
    }
  }

  /** Go's `strings.Replace(s, pat, "", -1)`: a single left-to-right pass that
      deletes every non-overlapping occurrence of `pat`, leftmost first. With
      an empty `pat` Go inserts the empty string between runes, which leaves
      `s` as it is. */
  function RemoveAll(s: string, pat: string): (r: string)
    ensures |r| <= |s|
    decreases |s|
  {
    if |pat| == 0 then s
    else if pat <= s then RemoveAll(s[|pat|..], pat)
    else if |s| == 0 then s
    else [s[0]] + RemoveAll(s[1..], pat)
  }

  /** Go's `strings.Count(s, pat)` for a non-empty pattern: the number of
      non-overlapping occurrences, found leftmost first. */
  function Count(s: string, pat: string): (n: nat)
    requires |pat| > 0
    decreases |s|
  {
    if pat <= s then 1 + Count(s[|pat|..], pat)
    else if |s| == 0 then 0
    else Count(s[1..], pat)
  }

  /** The result of `RemoveAll` is shorter than its input by `|pat| * Count`. */
  lemma {:induction false} RemoveAllLength(s: string, pat: string)
    requires |pat| > 0
    ensures |RemoveAll(s, pat)| == |s| - |pat| * Count(s, pat)
    decreases |s|
  {
    if pat <= s {
      var t := s[|pat|..];
      RemoveAllLength(t, pat);
      var c := Count(t, pat);
      assert Count(s, pat) == 1 + c;
      assert RemoveAll(s, pat) == RemoveAll(t, pat);
      MulSucc(|pat|, c);
    } else if |s| > 0 {
      RemoveAllLength(s[1..], pat);
      assert Count(s, pat) == Count(s[1..], pat);
      assert RemoveAll(s, pat) == [s[0]] + RemoveAll(s[1..], pat);
    }
  }

  lemma MulSucc(a: int, c: int)
    ensures a * (1 + c) == a + a * c
  {
  }

  /** A string in which the pattern does not occur passes through unchanged. */
  lemma {:induction false} RemoveAllWithoutOccurrence(s: string, pat: string)
    requires !Contains(s, pat)
    ensures RemoveAll(s, pat) == s
    decreases |s|
  {
    if |pat| == 0 || |s| == 0 {
    } else {
      RemoveAllWithoutOccurrence(s[1..], pat);
      assert [s[0]] + s[1..] == s;
    }
  }

  /** When the pattern starts inside `a + pat`, before the occurrence that
      follows `a`, it already occurs in `a + pat[..|pat| - 1]`. */
  lemma EarlyOccurrence(a: string, pat: string, b: string)
    requires |a| > 0 && |pat| > 0 && pat <= a + pat + b
    ensures Contains(a + pat[..|pat| - 1], pat)
  {
  }

  /** The pass copies everything before the first occurrence of the
      pattern, deletes that occurrence, and carries on after it. With
      `RemoveAllWithoutOccurrence` this determines `RemoveAll` on every
      input. */
  lemma {:induction false} RemoveAllSplitsAtFirst(a: string, pat: string, b: string)
    requires |pat| > 0
    requires !Contains(a + pat[..|pat| - 1], pat)
    ensures RemoveAll(a + pat + b, pat) == a + RemoveAll(b, pat)
    decreases |a|
  {
    if |a| == 0 {
      assert a + pat + b == pat + b;
      RemoveAllDropsLeading(pat, b);
    } else {
      CopiesFirstBeforeOccurrence(a, pat, b);
      RemoveAllSplitsAtFirst(a[1..], pat, b);
      ConsAppend(a, RemoveAll(b, pat));
    }
  }

  lemma ConsAppend(a: string, r: string)
    requires |a| > 0
    ensures [a[0]] + (a[1..] + r) == a + r
  {
    assert [a[0]] + a[1..] == a;
  }

  /** One step of `RemoveAllSplitsAtFirst`: the first character of `a` is
      copied, and what is left of `a` is still free of the pattern. */
  lemma CopiesFirstBeforeOccurrence(a: string, pat: string, b: string)
    requires |pat| > 0 && |a| > 0
    requires !Contains(a + pat[..|pat| - 1], pat)
    ensures RemoveAll(a + pat + b, pat) == [a[0]] + RemoveAll(a[1..] + pat + b, pat)
    ensures !Contains(a[1..] + pat[..|pat| - 1], pat)
  {
    var s := a + pat + b;
    if pat <= s {
      EarlyOccurrence(a, pat, b);
    }
    assert s[1..] == a[1..] + pat + b;
    RemoveAllCopiesFirst(s, pat);
    StaysFreeInTail(a, pat);
  }

  /** An occurrence at the front is deleted and the pass resumes after it. */
  lemma RemoveAllDropsLeading(pat: string, b: string)
    requires |pat| > 0
    ensures RemoveAll(pat + b, pat) == RemoveAll(b, pat)
  {
    assert pat <= pat + b;
    assert (pat + b)[|pat|..] == b;
  }

  /** A string that does not start with the pattern keeps its first
      character. */
  lemma RemoveAllCopiesFirst(s: string, pat: string)
    requires |pat| > 0 && |s| > 0 && !(pat <= s)
    ensures RemoveAll(s, pat) == [s[0]] + RemoveAll(s[1..], pat)
  {
  }

  lemma StaysFreeInTail(a: string, pat: string)
    requires |pat| > 0 && |a| > 0
    requires !Contains(a + pat[..|pat| - 1], pat)
    ensures !Contains(a[1..] + pat[..|pat| - 1], pat)
  {
    TailOfAppend(a, pat[..|pat| - 1]);
    FreeTail(a + pat[..|pat| - 1], pat);
  }

  lemma TailOfAppend(a: string, c: string)
    requires |a| > 0
    ensures (a + c)[1..] == a[1..] + c
  {
  }

  /** A string free of the pattern has a tail free of it. */
  lemma FreeTail(x: string, pat: string)
    requires |x| > 0 && !Contains(x, pat)
    ensures !Contains(x[1..], pat)
  {
  }

  /** The pattern followed by a string free of it strips back to that string. */
  lemma RemoveAllLeadingPattern(pat: string, t: string)
    requires |pat| > 0
    requires !Contains(t, pat)
    ensures RemoveAll(pat + t, pat) == t
  {
  }

  /** A string without the character `c` contains no pattern that has `c`. */
  lemma AbsentCharNoOccurrence(t: string, pat: string, k: nat)
    requires k < |pat|
    requires pat[k] !in t
    ensures !Contains(t, pat)
  {
  }

  /** Deleting an occurrence of the pattern that follows the pattern's first
      character, with a tail free of that character, leaves that character
      in front of the tail. */
  lemma RemoveAllJoins(pat: string, rest: string)
    requires |pat| > 1 && pat[1] != pat[0] && pat[0] !in rest
    ensures RemoveAll([pat[0]] + pat + rest, pat) == [pat[0]] + rest
  {
    var s := [pat[0]] + (pat + rest);
    assert [pat[0]] + pat + rest == s;
    assert s[1] == pat[0] != pat[1];
    assert !(pat <= s);
    assert s[1..] == pat + rest;
    AbsentCharNoOccurrence(rest, pat, 0);
    RemoveAllLeadingPattern(pat, rest);
  }

  /** The pass is not idempotent: deleting an occurrence can join the
      characters around it into a new one, which survives. */
  lemma RemoveAllCanLeavePattern()
    ensures RemoveAll("BBearer earer x", "Bearer ") == "Bearer x"
    ensures Contains(RemoveAll("BBearer earer x", "Bearer "), "Bearer ")
  {
    var pat := "Bearer ";
    var rest := "earer x";
    assert "BBearer earer x" == [pat[0]] + pat + rest;
    RemoveAllJoins(pat, rest);
    assert [pat[0]] + rest == "Bearer x";
    assert pat <= "Bearer x";
  }

  /** Code-point lexicographic order on strings. */
  predicate LexLeq(a: string, b: string)
    decreases |a|
  {
    |a| == 0 || (|b| > 0 && (a[0] < b[0] || (a[0] == b[0] && LexLeq(a[1..], b[1..]))))
  }

  lemma {:induction false} LexLeqAntisymmetric(a: string, b: string)
    requires LexLeq(a, b) && LexLeq(b, a)
    ensures a == b
    decreases |a|
  {
    if |a| > 0 {
      LexLeqAntisymmetric(a[1..], b[1..]);
      assert a == [a[0]] + a[1..] && b == [b[0]] + b[1..];
    }
  }

  lemma {:induction false} LexLeqTransitive(a: string, b: string, c: string)
    requires LexLeq(a, b) && LexLeq(b, c)
    ensures LexLeq(a, c)
    decreases |a|
  {
    if |a| > 0 && a[0] == b[0] && b[0] == c[0] {
      LexLeqTransitive(a[1..], b[1..], c[1..]);
    }
  }

  lemma {:induction false} LexLeqTotal(a: string, b: string)
    ensures LexLeq(a, b) || LexLeq(b, a)
    decreases |a|
  {
    if |a| > 0 && |b| > 0 && a[0] == b[0] {
      LexLeqTotal(a[1..], b[1..]);
    }
  }

  /** `m` is the least element of `s`. */
  predicate IsLeast(m: string, s: set<string>) {
    m in s && forall x :: x in s ==> LexLeq(m, x)
  }

  /** Every finite non-empty set of strings has a least element. */
  lemma {:induction false} LeastExists(s: set<string>)
    requires s != {}
    ensures exists m :: IsLeast(m, s)
    decreases |s|
  {
    var x :| x in s;
    if s == {x} {
      assert LexLeq(x, x) by { LexLeqTotal(x, x); }
      assert IsLeast(x, s);
    } else {
      var rest := s - {x};
      LeastExists(rest);
      var m :| IsLeast(m, rest);
      LexLeqTotal(m, x);
      if LexLeq(m, x) {
        assert IsLeast(m, s);
      } else {
        forall y | y in s
          ensures LexLeq(x, y)
        {
          if y == x {
            LexLeqTotal(x, x);
          } else {
            LexLeqTransitive(x, m, y);
          }
        }
        assert IsLeast(x, s);
      }
    }
  }

  /** The least element of a set is unique. */
  lemma LeastUnique(s: set<string>)
    ensures forall m1, m2 :: IsLeast(m1, s) && IsLeast(m2, s) ==> m1 == m2
  {
    forall m1, m2 | IsLeast(m1, s) && IsLeast(m2, s)
      ensures m1 == m2
    {
      LexLeqAntisymmetric(m1, m2);
    }
  }

  /** The least element of a non-empty finite set of strings. */
  function Least(s: set<string>): (m: string)
    requires s != {}
    ensures m in s
    ensures forall x :: x in s ==> LexLeq(m, x)
  {
    LeastExists(s);
    LeastUnique(s);
    var m :| IsLeast(m, s);
    m
  }
}
