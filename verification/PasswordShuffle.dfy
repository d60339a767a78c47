/** The in-place Fisher-Yates shuffle, and why each permutation comes from exactly one way of picking. */
module PasswordShuffle {
  import opened Wrappers

  function Swap<T>(s: seq<T>, i: nat, j: nat): (r: seq<T>)
    requires i < |s| && j < |s|
    ensures |r| == |s|
  {
    s[i := s[j]][j := s[i]]
  }

  /**
   The picks made so far, the latest first: `picks[k]` is the partner drawn for
   position `n - |picks| + k`, a position not above it. Position 0 draws nothing.
   */
  ghost predicate ValidPicks(n: nat, picks: seq<nat>) {
    && (|picks| < n || picks == [])
    && forall k :: 0 <= k < |picks| ==> picks[k] <= n - |picks| + k
  }

  /** The sequence after those picks. */
  function Shuffled<T>(s: seq<T>, picks: seq<nat>): (r: seq<T>)
    requires ValidPicks(|s|, picks)
    ensures |r| == |s|
    decreases |picks|
  {
    if picks == [] then s
    else
      assert forall k :: 0 <= k < |picks| - 1 ==> picks[1..][k] == picks[k + 1];
      Swap(Shuffled(s, picks[1..]), |s| - |picks|, picks[0])
  }

  /** Picks for every position. */
  ghost predicate AllPicks(n: nat, picks: seq<nat>) {
    ValidPicks(n, picks) && |picks| == if n == 0 then 0 else n - 1
  }

  lemma EarlierPicks(n: nat, picks: seq<nat>)
    requires ValidPicks(n, picks) && picks != []
    ensures ValidPicks(n, picks[1..])
  {
    assert forall k :: 0 <= k < |picks| - 1 ==> picks[1..][k] == picks[k + 1];
  }

  lemma NextPick(n: nat, picks: seq<nat>, j: nat)
    requires ValidPicks(n, picks) && |picks| + 1 < n && j < n - |picks|
    ensures ValidPicks(n, [j] + picks)
    ensures ([j] + picks)[1..] == picks
  {
  }

  lemma SwapKeepsElements<T>(s: seq<T>, i: nat, j: nat)
    requires i < |s| && j < |s|
    ensures multiset(Swap(s, i, j)) == multiset(s)
  {
  }

  /** Shuffling neither adds nor loses an element. */
  lemma {:induction false} ShuffledKeepsElements<T>(s: seq<T>, picks: seq<nat>)
    requires ValidPicks(|s|, picks)
    ensures multiset(Shuffled(s, picks)) == multiset(s)
    decreases |picks|
  {
    if picks != [] {
      EarlierPicks(|s|, picks);
      ShuffledKeepsElements(s, picks[1..]);
      SwapKeepsElements(Shuffled(s, picks[1..]), |s| - |picks|, picks[0]);
    }
  }

  ghost predicate Distinct<T>(s: seq<T>) {
    forall i, j :: 0 <= i < j < |s| ==> s[i] != s[j]
  }

  lemma SwapKeepsDistinct<T>(s: seq<T>, i: nat, j: nat)
    requires i < |s| && j < |s| && Distinct(s)
    ensures Distinct(Swap(s, i, j))
  {
  }

  lemma {:induction false} ShuffledKeepsDistinct<T>(s: seq<T>, picks: seq<nat>)
    requires ValidPicks(|s|, picks) && Distinct(s)
    ensures Distinct(Shuffled(s, picks))
    decreases |picks|
  {
    if picks != [] {
      EarlierPicks(|s|, picks);
      ShuffledKeepsDistinct(s, picks[1..]);
      SwapKeepsDistinct(Shuffled(s, picks[1..]), |s| - |picks|, picks[0]);
    }
  }

  /** Different picks show in the positions already settled, so equal outcomes had equal picks. */
  lemma {:induction false} PicksAreDetermined<T>(s: seq<T>, p: seq<nat>, q: seq<nat>)
    requires Distinct(s) && ValidPicks(|s|, p) && ValidPicks(|s|, q) && |p| == |q|
    requires forall k :: |s| - |p| <= k < |s| ==> Shuffled(s, p)[k] == Shuffled(s, q)[k]
    ensures p == q
    decreases |p|
  {
    if p != [] {
      var i := |s| - |p|;
      EarlierPicks(|s|, p);
      EarlierPicks(|s|, q);
      var x, y := Shuffled(s, p[1..]), Shuffled(s, q[1..]);
      forall k | i < k < |s|
        ensures x[k] == y[k]
      {
        assert Shuffled(s, p)[k] == x[k] && Shuffled(s, q)[k] == y[k];
      }
      PicksAreDetermined(s, p[1..], q[1..]);
      ShuffledKeepsDistinct(s, p[1..]);
      assert Shuffled(s, p)[i] == x[p[0]] && Shuffled(s, q)[i] == x[q[0]];
      assert p == [p[0]] + p[1..] && q == [q[0]] + q[1..];
    }
  }

  /** For a permutation of the input there are picks that settle the last `count` positions like it. */
  lemma {:induction false} PicksTowards<T>(s: seq<T>, t: seq<T>, count: nat) returns (picks: seq<nat>)
    requires multiset(s) == multiset(t) && |s| == |t| && (count < |s| || count == 0)
    ensures |picks| == count && ValidPicks(|s|, picks)
    ensures Shuffled(s, picks)[|s| - count..] == t[|s| - count..]
  {
    hide Swap;
    picks := [];
    if count > 0 {
      var earlier := PicksTowards(s, t, count - 1);
      var i := |s| - count;
      var x := Shuffled(s, earlier);
      ShuffledKeepsElements(s, earlier);
      var j := FindUnsettled(x, t, i);
      NextPick(|s|, earlier, j);
      picks := [j] + earlier;
      SwapSettles(x, t, i, j);
    }
  }

  lemma FindUnsettled<T>(x: seq<T>, t: seq<T>, i: nat) returns (j: nat)
    requires multiset(x) == multiset(t) && i < |x| == |t| && x[i + 1..] == t[i + 1..]
    ensures j <= i && x[j] == t[i]
  {
    UnsettledAgree(x, t, i + 1);
    assert t[..i + 1][i] in multiset(t[..i + 1]);
    assert t[i] in x[..i + 1];
    j :| 0 <= j <= i && x[..i + 1][j] == t[i];
  }

  lemma SwapSettles<T>(x: seq<T>, t: seq<T>, i: nat, j: nat)
    requires j <= i < |x| == |t| && x[i + 1..] == t[i + 1..] && x[j] == t[i]
    ensures Swap(x, i, j)[i..] == t[i..]
  {
    var y := Swap(x, i, j);
    assert y[i] == t[i] && y[i + 1..] == x[i + 1..];
    assert y[i..] == [y[i]] + y[i + 1..] && t[i..] == [t[i]] + t[i + 1..];
  }

  lemma UnsettledAgree<T>(x: seq<T>, t: seq<T>, n: nat)
    requires multiset(x) == multiset(t) && n <= |x| && n <= |t| && x[n..] == t[n..]
    ensures multiset(x[..n]) == multiset(t[..n])
  {
    assert x == x[..n] + x[n..] && t == t[..n] + t[n..];
    assert multiset(x[..n]) == multiset(x) - multiset(x[n..]);
    assert multiset(t[..n]) == multiset(t) - multiset(t[n..]);
  }

  lemma FirstSettled<T>(x: seq<T>, t: seq<T>)
    requires multiset(x) == multiset(t) && |x| == |t| > 0 && x[1..] == t[1..]
    ensures x == t
  {
    var j := FindUnsettled(x, t, 0);
    assert x == [x[0]] + x[1..] && t == [t[0]] + t[1..];
  }

  /** Every permutation of the input comes from some picks. */
  lemma PermutationHasPicks<T>(s: seq<T>, t: seq<T>) returns (picks: seq<nat>)
    requires multiset(s) == multiset(t)
    ensures AllPicks(|s|, picks) && Shuffled(s, picks) == t
  {
    assert |multiset(s)| == |s| && |multiset(t)| == |t|;
    if s == [] {
      picks := [];
    } else {
      picks := PicksTowards(s, t, |s| - 1);
      var x := Shuffled(s, picks);
      ShuffledKeepsElements(s, picks);
      FirstSettled(x, t);
    }
  }

  /** For distinct elements, picks and permutations correspond one to one. */
  lemma PicksArePermutations<T>(s: seq<T>, t: seq<T>) returns (picks: seq<nat>)
    requires Distinct(s) && multiset(s) == multiset(t)
    ensures AllPicks(|s|, picks) && Shuffled(s, picks) == t
    ensures forall other :: AllPicks(|s|, other) && Shuffled(s, other) == t ==> other == picks
  {
    picks := PermutationHasPicks(s, t);
    forall other | AllPicks(|s|, other) && Shuffled(s, other) == t
      ensures other == picks
    {
      PicksAreDetermined(s, other, picks);
    }
  }

  /** A number below `bound`, unless the random source fails; a reliable one does not. */
  method RandomBelow(bound: nat, reliable: bool) returns (ok: bool, j: nat)
    requires bound > 0
    ensures ok ==> j < bound
    ensures reliable ==> ok
  {
    ok := Attempt(reliable);
    j := *;
    if j >= bound {
      j := 0;
    }
  }

  /** Applies the picks drawn; a failing random source leaves the positions above settled. */
  method Shuffle(a: array<char>, reliable: bool) returns (ok: bool, ghost picks: seq<nat>)
    modifies a
    ensures ValidPicks(a.Length, picks) && a[..] == Shuffled(old(a[..]), picks)
    ensures ok ==> AllPicks(a.Length, picks)
    ensures reliable ==> ok
  {
    picks := [];
    var i := a.Length - 1;
    while i > 0
      invariant if a.Length == 0 then i == -1 && picks == [] else 0 <= i == a.Length - 1 - |picks|
      invariant ValidPicks(a.Length, picks) && a[..] == Shuffled(old(a[..]), picks)
    {
      var drawn, j := RandomBelow(i + 1, reliable);
      if !drawn {
        return false, picks;
      }
      ghost var before := a[..];
      a[i], a[j] := a[j], a[i];
      NextPick(a.Length, picks, j);
      assert a[..] == Swap(before, i, j);
      picks := [j] + picks;
      i := i - 1;
    }
    return true, picks;
  }
}
