/** Strings cut at a separator character and put together again; decimal numerals. */
module Text {
  /** The pieces of `s` between occurrences of `sep`; always at least one. */
  function Split(s: string, sep: char): (r: seq<string>)
    ensures r != []
  {
    if s == "" then [""]
    else
      var rest := Split(s[1..], sep);
      if s[0] == sep then [""] + rest else [[s[0]] + rest[0]] + rest[1..]
  }

  function Join(pieces: seq<string>, sep: char): string {
    if pieces == [] then ""
    else if |pieces| == 1 then pieces[0]
    else pieces[0] + [sep] + Join(pieces[1..], sep)
  }

  lemma {:induction false} JoinSplit(s: string, sep: char)
    ensures Join(Split(s, sep), sep) == s
    ensures forall p :: p in Split(s, sep) ==> sep !in p
    ensures forall c, p :: p in Split(s, sep) && c in p ==> c in s
  {
    if s != "" {
      var rest := Split(s[1..], sep);
      JoinSplit(s[1..], sep);
      assert s == [s[0]] + s[1..];
      if s[0] == sep {
        assert ([""] + rest)[1..] == rest;
        assert forall p :: p in [""] + rest ==> p == "" || p in rest;
      } else {
        JoinFirst(rest, s[0], sep);
        assert rest[0] in rest;
        assert forall p :: p in [[s[0]] + rest[0]] + rest[1..] ==> p == [s[0]] + rest[0] || p in rest;
      }
    }
  }

  lemma JoinFirst(pieces: seq<string>, c: char, sep: char)
    requires pieces != []
    ensures Join([[c] + pieces[0]] + pieces[1..], sep) == [c] + Join(pieces, sep)
  {
    assert ([[c] + pieces[0]] + pieces[1..])[1..] == pieces[1..];
  }

  /** Every character is the separator or belongs to a piece. */
  lemma {:induction false} SplitCovers(s: string, sep: char, c: char)
    requires c in s && c != sep
    ensures exists p :: p in Split(s, sep) && c in p
  {
    var rest := Split(s[1..], sep);
    var r := Split(s, sep);
    if s[0] == c {
      assert c in r[0];
    } else {
      assert s == [s[0]] + s[1..];
      SplitCovers(s[1..], sep, c);
      var k :| 0 <= k < |rest| && c in rest[k];
      if s[0] == sep {
        assert r[k + 1] == rest[k];
      } else {
        assert c in r[k];
      }
    }
  }

  lemma {:induction false} SplitOnce(s: string, rest: string, sep: char)
    requires sep !in s
    ensures Split(s + [sep] + rest, sep) == [s] + Split(rest, sep)
  {
    var t := s + [sep] + rest;
    if s == "" {
      assert t[1..] == rest;
    } else {
      assert s[0] in s;
      SplitOnce(s[1..], rest, sep);
      assert [s[0]] + s[1..] == s;
      assert t[1..] == s[1..] + [sep] + rest;
    }
  }

  lemma FirstPiece(pieces: seq<string>, more: seq<string>)
    requires pieces != []
    ensures (pieces + more)[0] == pieces[0] && (pieces + more)[1..] == pieces[1..] + more
    ensures [""] + (pieces + more) == [""] + pieces + more
    ensures forall first :: [first] + (pieces + more)[1..] == [first] + pieces[1..] + more
  {
  }

  /** Cutting at one separator, the pieces on both sides stay as they are. */
  lemma {:induction false} SplitAt(s: string, rest: string, sep: char)
    ensures Split(s + [sep] + rest, sep) == Split(s, sep) + Split(rest, sep)
  {
    var t := s + [sep] + rest;
    if s == "" {
      assert t[1..] == rest;
    } else {
      SplitAt(s[1..], rest, sep);
      assert t[0] == s[0] && t[1..] == s[1..] + [sep] + rest;
      FirstPiece(Split(s[1..], sep), Split(rest, sep));
    }
  }

  lemma {:induction false} SplitNone(s: string, sep: char)
    requires sep !in s
    ensures Split(s, sep) == [s]
  {
    if s != "" {
      assert s[0] in s && [s[0]] + s[1..] == s;
      SplitNone(s[1..], sep);
    }
  }

  lemma {:induction false} SplitJoin(pieces: seq<string>, sep: char)
    requires pieces != [] && forall p :: p in pieces ==> sep !in p
    ensures Split(Join(pieces, sep), sep) == pieces
  {
    if |pieces| == 1 {
      SplitNone(pieces[0], sep);
    } else {
      SplitJoin(pieces[1..], sep);
      SplitOnce(pieces[0], Join(pieces[1..], sep), sep);
    }
  }

  /** Strings that split alike are equal. */
  lemma SplitInjective(s: string, t: string, sep: char)
    requires Split(s, sep) == Split(t, sep)
    ensures s == t
  {
    JoinSplit(s, sep);
    JoinSplit(t, sep);
  }

  /** The part before the first `sep`, and the part after it (empty when there is none). */
  function Before(s: string, sep: char): string {
    if s == "" || s[0] == sep then "" else [s[0]] + Before(s[1..], sep)
  }

  function After(s: string, sep: char): string {
    if s == "" then "" else if s[0] == sep then s[1..] else After(s[1..], sep)
  }

  lemma {:induction false} Partition(s: string, sep: char)
    ensures sep !in Before(s, sep)
    ensures sep in s ==> s == Before(s, sep) + [sep] + After(s, sep)
    ensures sep !in s ==> s == Before(s, sep) && After(s, sep) == ""
  {
    if s != "" && s[0] == sep {
      assert s == [] + [sep] + s[1..];
    } else if s != "" {
      var rest := s[1..];
      Partition(rest, sep);
      assert s == [s[0]] + rest && (sep in s <==> sep in rest);
      if sep in rest {
        assert s == [s[0]] + (Before(rest, sep) + [sep] + After(rest, sep));
      }
    }
  }

  /** A separator after a part without it is the first one. */
  lemma {:induction false} PartitionAt(s: string, rest: string, sep: char)
    requires sep !in s
    ensures Before(s + [sep] + rest, sep) == s && After(s + [sep] + rest, sep) == rest
  {
    var t := s + [sep] + rest;
    if s != "" {
      assert s[0] in s;
      PartitionAt(s[1..], rest, sep);
      assert t[1..] == s[1..] + [sep] + rest;
    }
  }

  predicate IsDigit(c: char) { '0' <= c <= '9' }

  predicate AllDigits(s: string) {
    s != "" && forall c :: c in s ==> IsDigit(c)
  }

  function DigitValue(c: char): (d: nat)
    requires IsDigit(c)
    ensures d < 10 && c == "0123456789"[d]
  {
    c as int - '0' as int
  }

  function ToNat(s: string): nat
    requires forall c :: c in s ==> IsDigit(c)
  {
    if s == "" then 0
    else
      assert s[|s| - 1] in s;
      10 * ToNat(s[..|s| - 1]) + DigitValue(s[|s| - 1])
  }

  /** A decimal numeral without leading zeros. */
  predicate Canonical(s: string) {
    AllDigits(s) && (s[0] == '0' ==> |s| == 1)
  }

  lemma {:induction false} CanonicalPositive(s: string)
    requires AllDigits(s) && s[0] != '0'
    ensures ToNat(s) >= 1
  {
    assert s[0] in s && s[|s| - 1] in s;
    if |s| > 1 {
      assert s[..|s| - 1][0] == s[0];
      CanonicalPositive(s[..|s| - 1]);
    }
  }

  /** A numeral is its leading part and its last digit, and so is its number. */
  lemma LastDigit(s: string) returns (p: string, d: nat)
    requires AllDigits(s)
    ensures p == s[..|s| - 1] && d < 10 && ToNat(s) == 10 * ToNat(p) + d
    ensures s == p + [s[|s| - 1]] && d == DigitValue(s[|s| - 1])
    ensures p != "" ==> AllDigits(p) && p[0] == s[0]
  {
    assert s[|s| - 1] in s;
    p, d := s[..|s| - 1], DigitValue(s[|s| - 1]);
  }

  /** Equal numbers have equal numerals once leading zeros are excluded. */
  lemma {:induction false} ToNatInjective(s: string, t: string)
    requires Canonical(s) && Canonical(t) && ToNat(s) == ToNat(t)
    ensures s == t
    decreases |s|
  {
    hide ToNat, DigitValue, IsDigit;
    var p, c := LastDigit(s);
    var q, d := LastDigit(t);
    assert ToNat(p) == ToNat(q) && c == d;
    SameDigit(s[|s| - 1], t[|t| - 1]);
    ToNatEmpty();
    if p == "" && q != "" {
      CanonicalPositive(q);
    } else if p != "" && q == "" {
      CanonicalPositive(p);
    } else if p != "" {
      ToNatInjective(p, q);
    }
  }

  lemma SameDigit(c: char, d: char)
    requires IsDigit(c) && IsDigit(d) && DigitValue(c) == DigitValue(d)
    ensures c == d
  {
  }

  lemma ToNatEmpty()
    ensures ToNat("") == 0
  {
  }

  // ----- separators of more than one character -----

  predicate OccursAt(text: string, sep: string, k: nat) {
    k + |sep| <= |text| && text[k..k + |sep|] == sep
  }

  /** The first occurrence of `sep` at or after `k`, or the end of the text. */
  function Find(text: string, sep: string, k: nat): (r: nat)
    requires k <= |text|
    ensures k <= r <= |text|
    ensures r < |text| ==> OccursAt(text, sep, r)
    decreases |text| - k
  {
    if k == |text| || OccursAt(text, sep, k) then k else Find(text, sep, k + 1)
  }

  /** The parts of the text between occurrences of `sep`, found from left to right. */
  function SplitOn(text: string, sep: string): seq<string>
    requires sep != ""
    decreases |text|
  {
    var k := Find(text, sep, 0);
    if k == |text| then [text] else [text[..k]] + SplitOn(text[k + |sep|..], sep)
  }

  function JoinWith(pieces: seq<string>, sep: string): string {
    if pieces == [] then ""
    else if |pieces| == 1 then pieces[0]
    else pieces[0] + sep + JoinWith(pieces[1..], sep)
  }

  /** No separator starts inside the piece, even when one follows it. */
  ghost predicate Separable(piece: string, sep: string) {
    forall k :: 0 <= k < |piece| ==> !OccursAt(piece + sep, sep, k)
  }

  lemma {:induction false} FindsEnd(piece: string, sep: string, rest: string, k: nat)
    requires Separable(piece, sep) && k <= |piece|
    ensures Find(piece + sep + rest, sep, k) == |piece|
    decreases |piece| - k
  {
    var text := piece + sep + rest;
    if k == |piece| {
      assert text[k..k + |sep|] == sep;
    } else {
      assert text[k..k + |sep|] == (piece + sep)[k..k + |sep|];
      assert !OccursAt(piece + sep, sep, k);
      FindsEnd(piece, sep, rest, k + 1);
    }
  }

  lemma {:induction false} FindsNone(piece: string, sep: string, k: nat)
    requires Separable(piece, sep) && k <= |piece|
    ensures Find(piece, sep, k) == |piece|
    decreases |piece| - k
  {
    if k < |piece| {
      assert !OccursAt(piece + sep, sep, k);
      assert k + |sep| <= |piece| ==> piece[k..k + |sep|] == (piece + sep)[k..k + |sep|];
      FindsNone(piece, sep, k + 1);
    }
  }

  /** Pieces are split exactly where they were joined. */
  lemma {:induction false} SplitJoinWith(pieces: seq<string>, sep: string)
    requires pieces != [] && sep != "" && forall p :: p in pieces ==> Separable(p, sep)
    ensures SplitOn(JoinWith(pieces, sep), sep) == pieces
  {
    if |pieces| == 1 {
      FindsNone(pieces[0], sep, 0);
    } else {
      var rest := JoinWith(pieces[1..], sep);
      FindsEnd(pieces[0], sep, rest, 0);
      var text := pieces[0] + sep + rest;
      assert text[..|pieces[0]|] == pieces[0] && text[|pieces[0]| + |sep|..] == rest;
      SplitJoinWith(pieces[1..], sep);
    }
  }

  lemma {:induction false} JoinSplitOn(text: string, sep: string)
    requires sep != ""
    ensures JoinWith(SplitOn(text, sep), sep) == text && SplitOn(text, sep) != []
    decreases |text|
  {
    var k := Find(text, sep, 0);
    if k < |text| {
      JoinSplitOn(text[k + |sep|..], sep);
      assert text == text[..k] + sep + text[k + |sep|..];
    }
  }

  lemma {:induction false} JoinWithLast(pieces: seq<string>, last: string, sep: string)
    requires pieces != []
    ensures JoinWith(pieces + [last], sep) == JoinWith(pieces, sep) + sep + last
  {
    var longer := pieces + [last];
    if |pieces| == 1 {
      assert longer[1..] == [last];
    } else {
      JoinWithLast(pieces[1..], last, sep);
      assert longer[1..] == pieces[1..] + [last];
    }
  }

  /** The first occurrence after `k` is the one before which there is none. */
  lemma {:induction false} FindIs(text: string, sep: string, k: nat, at: nat)
    requires k <= at <= |text| && (at < |text| ==> OccursAt(text, sep, at))
    requires forall i :: k <= i < at ==> !OccursAt(text, sep, i)
    ensures Find(text, sep, k) == at
    decreases at - k
  {
    if k < at {
      FindIs(text, sep, k + 1, at);
    }
  }

  lemma {:induction false} FindIsFirst(text: string, sep: string, k: nat)
    requires k <= |text|
    ensures forall i :: k <= i < Find(text, sep, k) ==> !OccursAt(text, sep, i)
    decreases |text| - k
  {
    if k < |text| && !OccursAt(text, sep, k) {
      FindIsFirst(text, sep, k + 1);
    }
  }
}
