/** Sequences without repetition, and how many elements they have. */
module Sequences {
  ghost predicate AllDifferent(s: seq<string>) {
    forall i, j :: 0 <= i < j < |s| ==> s[i] != s[j]
  }

  function Elements(s: seq<string>): set<string> {
    set x | x in s
  }

  lemma NoElements()
    ensures AllDifferent([]) && Elements([]) == {}
  {
  }

  lemma Append(s: seq<string>, x: string)
    ensures Elements(s + [x]) == Elements(s) + {x}
    ensures AllDifferent(s) && x !in Elements(s) ==> AllDifferent(s + [x])
  {
  }

  lemma NotBefore(s: seq<string>, i: nat)
    requires AllDifferent(s) && i < |s|
    ensures s[i] !in Elements(s[..i]) && Elements(s[..i + 1]) == Elements(s[..i]) + {s[i]}
  {
    assert s[..i + 1] == s[..i] + [s[i]];
  }

  lemma {:induction false} DifferentCount(s: seq<string>)
    requires AllDifferent(s)
    ensures |Elements(s)| == |s|
  {
    if s != [] {
      var rest := s[..|s| - 1];
      DifferentCount(rest);
      assert Elements(s) == Elements(rest) + {s[|s| - 1]};
    }
  }

  /** A sequence longer than the set it draws from repeats an element. */
  lemma {:induction false} Pigeonhole(s: seq<string>, u: set<string>) returns (i: nat, j: nat)
    requires |s| > |u| && forall x :: x in s ==> x in u
    ensures i < j < |s| && s[i] == s[j]
  {
    if AllDifferent(s) {
      DifferentCount(s);
      SubsetCount(Elements(s), u);
    }
    i, j :| 0 <= i < j < |s| && s[i] == s[j];
  }

  lemma {:induction false} SubsetCount(a: set<string>, b: set<string>)
    requires a <= b
    ensures |a| <= |b|
    ensures |a| == |b| ==> a == b
  {
    if a != {} {
      var x :| x in a;
      SubsetCount(a - {x}, b - {x});
    }
  }

  lemma SameElements(s: seq<string>, t: seq<string>)
    requires multiset(s) == multiset(t)
    ensures |s| == |t| && forall x :: x in s <==> x in t
    ensures AllDifferent(s) ==> AllDifferent(t)
  {
    assert |multiset(s)| == |s| && |multiset(t)| == |t|;
    forall x
      ensures x in s <==> x in t
    {
      assert x in s <==> x in multiset(s);
      assert x in t <==> x in multiset(t);
    }
    if AllDifferent(s) {
      if !AllDifferent(t) {
        DifferentCount(s);
        var i, j :| 0 <= i < j < |t| && t[i] == t[j];
        assert Elements(t) == Elements(t[..j] + t[j + 1..]);
        assert Elements(s) == Elements(t);
        ElementsBound(t[..j] + t[j + 1..]);
      }
    }
  }

  lemma {:induction false} ElementsBound(s: seq<string>)
    ensures |Elements(s)| <= |s|
  {
    if s != [] {
      ElementsBound(s[1..]);
      assert Elements(s) == {s[0]} + Elements(s[1..]);
    }
  }
}
