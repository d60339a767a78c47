/** The order of strings by their characters, and of sequences of strings by their strings. */
module Ordering {
  import opened Sequences

  /** `a` is a proper prefix of `b`, or has the smaller character where the two first differ. */
  ghost predicate Smaller(a: string, b: string) {
    exists k :: 0 <= k <= |a| && k < |b| && a[..k] == b[..k] && (k == |a| || a[k] < b[k])
  }

  predicate Less(a: string, b: string) {
    b != [] && (a == [] || a[0] < b[0] || (a[0] == b[0] && Less(a[1..], b[1..])))
  }

  /** The comparison from the first character on decides that order. */
  lemma {:induction false} LessMeans(a: string, b: string)
    ensures Less(a, b) <==> Smaller(a, b)
  {
    if b == [] {
    } else if a == [] || a[0] < b[0] {
      assert a[..0] == b[..0];
    } else {
      LessMeans(a[1..], b[1..]);
      if Less(a, b) {
        var k :| 0 <= k < |a| && k < |b| - 1 && a[1..][..k] == b[1..][..k] && (k == |a| - 1 || a[1..][k] < b[1..][k]);
        assert a[..k + 1] == [a[0]] + a[1..][..k] && b[..k + 1] == [b[0]] + b[1..][..k];
      }
      if Smaller(a, b) {
        var k :| 0 <= k <= |a| && k < |b| && a[..k] == b[..k] && (k == |a| || a[k] < b[k]);
        assert k > 0 && a[..k][0] == b[..k][0];
        assert a[1..][..k - 1] == a[..k][1..] == b[..k][1..] == b[1..][..k - 1];
      }
    }
  }

  lemma SmallerTransitive(a: string, b: string, c: string)
    requires Smaller(a, b) && Smaller(b, c)
    ensures Smaller(a, c)
  {
    var j :| 0 <= j <= |a| && j < |b| && a[..j] == b[..j] && (j == |a| || a[j] < b[j]);
    var k :| 0 <= k <= |b| && k < |c| && b[..k] == c[..k] && (k == |b| || b[k] < c[k]);
    var m := if j < k then j else k;
    assert a[..m] == a[..j][..m] == b[..j][..m] == b[..k][..m] == c[..k][..m] == c[..m];
    if j < k {
      assert b[..k][j] == c[..k][j];
    } else if k < j {
      assert a[..j][k] == b[..j][k];
    }
  }

  /** Exactly one of the three holds of any two strings. */
  lemma SmallerTotal(a: string, b: string)
    ensures Smaller(a, b) || a == b || Smaller(b, a)
    ensures !(Smaller(a, b) && Smaller(b, a)) && !Smaller(a, a)
  {
    if Smaller(a, b) && Smaller(b, a) {
      SmallerTransitive(a, b, a);
    }
    var k := 0;
    while k < |a| && k < |b| && a[k] == b[k]
      invariant k <= |a| && k <= |b| && a[..k] == b[..k]
    {
      k := k + 1;
    }
    if a != b {
      assert a[..|a|] == a && b[..|b|] == b;
      assert k < |b| && (k == |a| || a[k] < b[k]) ==> Smaller(a, b);
      assert k < |a| && (k == |b| || b[k] < a[k]) ==> Smaller(b, a);
    }
  }

  /** `s` has the smaller string at the first position where the two differ. */
  ghost predicate LexLess(s: seq<string>, t: seq<string>) {
    exists k :: 0 <= k < |s| && k < |t| && s[..k] == t[..k] && Smaller(s[k], t[k])
  }

  lemma LexLessAsymmetric(s: seq<string>, t: seq<string>)
    requires LexLess(s, t)
    ensures !LexLess(t, s)
  {
    hide Smaller;
    var j :| 0 <= j < |s| && j < |t| && s[..j] == t[..j] && Smaller(s[j], t[j]);
    forall k | 0 <= k < |t| && k < |s| && t[..k] == s[..k]
      ensures !Smaller(t[k], s[k])
    {
      SmallerTotal(s[k], t[k]);
      if k < j {
        assert s[..j][k] == t[..j][k];
      } else if j < k {
        assert s[..k][j] == t[..k][j];
        SmallerTotal(s[j], t[j]);
      }
    }
  }

  ghost predicate Sorted(s: seq<string>) {
    forall i, j :: 0 <= i < j < |s| ==> s[i] == s[j] || Smaller(s[i], s[j])
  }

  /** Sorts into ascending order. */
  method Sort(s: seq<string>) returns (r: seq<string>)
    ensures multiset(r) == multiset(s) && Sorted(r)
  {
    hide Smaller;
    r := [];
    for n := 0 to |s|
      invariant multiset(r) == multiset(s[..n]) && Sorted(r)
    {
      var at := |r|;
      while at > 0 && Less(s[n], r[at - 1])
        invariant 0 <= at <= |r|
        invariant forall i :: at <= i < |r| ==> Smaller(s[n], r[i])
      {
        LessMeans(s[n], r[at - 1]);
        at := at - 1;
      }
      if at > 0 {
        LessMeans(s[n], r[at - 1]);
        SmallerTotal(s[n], r[at - 1]);
      }
      InsertSorted(r, at, s[n]);
      assert s[..n + 1] == s[..n] + [s[n]];
      r := r[..at] + [s[n]] + r[at..];
    }
    assert s[..|s|] == s;
  }

  lemma InsertSorted(r: seq<string>, at: nat, x: string)
    requires Sorted(r) && at <= |r|
    requires at > 0 ==> r[at - 1] == x || Smaller(r[at - 1], x)
    requires forall i :: at <= i < |r| ==> Smaller(x, r[i])
    ensures Sorted(r[..at] + [x] + r[at..])
    ensures multiset(r[..at] + [x] + r[at..]) == multiset(r) + multiset{x}
  {
    hide Smaller;
    forall i | 0 <= i < at
      ensures r[i] == x || Smaller(r[i], x)
    {
      if i < at - 1 && r[i] != r[at - 1] && r[at - 1] != x {
        SmallerTransitive(r[i], r[at - 1], x);
      }
    }
    assert r == r[..at] + r[at..];
  }
}
