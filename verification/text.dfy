/** Python's `str.startswith` and `str.replace` on strings, the two string
    primitives the application relies on, together with a split/join
    reference semantics for `replace`. */
module Text {

  /** `s.startswith(prefix)`: `s` is `prefix` followed by the rest of `s`,
      character by character. */
  function StartsWith(s: string, prefix: string): (b: bool)
    ensures b <==> |prefix| <= |s| && forall i | 0 <= i < |prefix| :: s[i] == prefix[i]
    ensures b ==> |prefix| <= |s| && s == prefix + s[|prefix|..]
  {
    |prefix| <= |s| && s[..|prefix|] == prefix
  }

  /** The window of `s` starting at `k` spells `tok`. */
  predicate OccursAt(s: string, tok: string, k: nat) {
    k + |tok| <= |s| && s[k..k + |tok|] == tok
  }

  /** `tok in s`: some window of `s` spells `tok`. */
  predicate Contains(s: string, tok: string) {
    exists k: nat | k <= |s| :: OccursAt(s, tok, k)
  }

  /** The number of occurrences `s.replace(tok, _)` rewrites: occurrences are
      found leftmost first and a found occurrence is skipped as a whole, so
      occurrences never overlap (`s.count(tok)`). */
  function Count(s: string, tok: string): nat
    requires |tok| > 0
    decreases |s|
  {
    if |s| < |tok| then 0
    else if s[..|tok|] == tok then 1 + Count(s[|tok|..], tok)
    else Count(s[1..], tok)
  }

  lemma MulSucc(c: int, d: int)
    ensures (1 + c) * d == d + c * d
  {
  }

  /** `s.replace(tok, rep)`: every non-overlapping occurrence of `tok`, found
      left to right, is replaced by `rep`, so each one changes the length by
      the difference between the replacement and the token, and a string in
      which the scan finds nothing comes back unchanged. */
  function Replace(s: string, tok: string, rep: string): (r: string)
    requires |tok| > 0
    ensures |r| == |s| + Count(s, tok) * (|rep| - |tok|)
    ensures Count(s, tok) == 0 ==> r == s
    decreases |s|
  {
    if |s| < |tok| then s
    else if s[..|tok|] == tok then
      MulSucc(Count(s[|tok|..], tok), |rep| - |tok|);
      rep + Replace(s[|tok|..], tok, rep)
    else
      assert s == [s[0]] + s[1..];
      [s[0]] + Replace(s[1..], tok, rep)
  }

  /** `s.split(tok)`: the pieces of `s` between the occurrences `Replace`
      rewrites. */
  function Split(s: string, tok: string): (parts: seq<string>)
    requires |tok| > 0
    ensures |parts| == Count(s, tok) + 1
    decreases |s|
  {
    if |s| < |tok| then [s]
    else if s[..|tok|] == tok then [""] + Split(s[|tok|..], tok)
    else
      var rest := Split(s[1..], tok);
      [[s[0]] + rest[0]] + rest[1..]
  }

  /** `sep.join(parts)`. */
  function Join(parts: seq<string>, sep: string): string
    requires |parts| > 0
    decreases |parts|
  {
    if |parts| == 1 then parts[0] else parts[0] + sep + Join(parts[1..], sep)
  }

  lemma JoinConsHead(c: char, parts: seq<string>, sep: string)
    requires |parts| > 0
    ensures Join([[c] + parts[0]] + parts[1..], sep) == [c] + Join(parts, sep)
  {
  }

  /** Joining the pieces back with the token itself gives the input back:
      `tok.join(s.split(tok)) == s`. */
  lemma {:induction false} SplitJoinRoundTrip(s: string, tok: string)
    requires |tok| > 0
    ensures Join(Split(s, tok), tok) == s
    decreases |s|
  {
    if |s| < |tok| {
      assert Split(s, tok) == [s];
    } else if s[..|tok|] == tok {
      var t := s[|tok|..];
      SplitJoinRoundTrip(t, tok);
      var ps := [""] + Split(t, tok);
      assert Split(s, tok) == ps;
      assert ps[1..] == Split(t, tok);
      assert Join(ps, tok) == "" + tok + Join(Split(t, tok), tok);
      assert s == s[..|tok|] + t;
    } else {
      var t := s[1..];
      var rest := Split(t, tok);
      SplitJoinRoundTrip(t, tok);
      assert Split(s, tok) == [[s[0]] + rest[0]] + rest[1..];
      JoinConsHead(s[0], rest, tok);
      assert s == [s[0]] + t;
    }
  }

  /** `s.replace(tok, rep) == rep.join(s.split(tok))`: replacing is exactly
      re-joining the pieces with the replacement in place of the token. */
  lemma {:induction false} ReplaceIsJoinOfSplit(s: string, tok: string, rep: string)
    requires |tok| > 0
    ensures Replace(s, tok, rep) == Join(Split(s, tok), rep)
    decreases |s|
  {
    if |s| < |tok| {
    } else if s[..|tok|] == tok {
      ReplaceIsJoinOfSplit(s[|tok|..], tok, rep);
      var ps := [""] + Split(s[|tok|..], tok);
      assert ps[1..] == Split(s[|tok|..], tok);
    } else {
      ReplaceIsJoinOfSplit(s[1..], tok, rep);
      JoinConsHead(s[0], Split(s[1..], tok), rep);
    }
  }

  /** The first piece of the split is a prefix of the input. */
  lemma {:induction false} SplitHeadIsPrefix(s: string, tok: string)
    requires |tok| > 0
    ensures |Split(s, tok)[0]| <= |s|
    ensures Split(s, tok)[0] == s[..|Split(s, tok)[0]|]
    decreases |s|
  {
    if |s| < |tok| {
      assert Split(s, tok) == [s];
    } else if s[..|tok|] == tok {
      assert Split(s, tok)[0] == "";
    } else {
      var t := s[1..];
      SplitHeadIsPrefix(t, tok);
      var p := Split(t, tok)[0];
      assert Split(s, tok)[0] == [s[0]] + p;
      assert p == t[..|p|];
      assert s[..|p| + 1] == [s[0]] + t[..|p|];
    }
  }

  lemma ContainsShift(c: char, p: string, tok: string)
    requires Contains([c] + p, tok)
    requires !StartsWith([c] + p, tok)
    ensures Contains(p, tok)
  {
    var q := [c] + p;
    var k: nat :| k <= |q| && OccursAt(q, tok, k);
    if k == 0 {
      assert false;
    }
    assert p[k - 1..k - 1 + |tok|] == q[k..k + |tok|];
    assert OccursAt(p, tok, k - 1);
  }

  /** No occurrence of the token lies wholly inside a piece of the split:
      every occurrence in `s` either is one the scan found or overlaps one.
      For a token that cannot overlap itself, such as each of the six
      function names, this means the scan finds every occurrence. */
  lemma {:induction false} SplitPiecesAreTokenFree(s: string, tok: string)
    requires |tok| > 0
    ensures forall i | 0 <= i < |Split(s, tok)| :: !Contains(Split(s, tok)[i], tok)
    decreases |s|
  {
    var parts := Split(s, tok);
    if |s| < |tok| {
      assert parts == [s];
      assert !Contains(s, tok);
    } else if s[..|tok|] == tok {
      SplitPiecesAreTokenFree(s[|tok|..], tok);
      var rest := Split(s[|tok|..], tok);
      assert parts == [""] + rest;
      forall i | 0 <= i < |parts|
        ensures !Contains(parts[i], tok)
      {
        if i > 0 {
          assert parts[i] == rest[i - 1];
        }
      }
    } else {
      SplitPiecesAreTokenFree(s[1..], tok);
      SplitHeadIsPrefix(s[1..], tok);
      var rest := Split(s[1..], tok);
      assert parts == [[s[0]] + rest[0]] + rest[1..];
      forall i | 0 <= i < |parts|
        ensures !Contains(parts[i], tok)
      {
        if i == 0 {
          var h := [s[0]] + rest[0];
          if Contains(h, tok) {
            if StartsWith(h, tok) {
              assert false;
            }
            ContainsShift(s[0], rest[0], tok);
            assert false;
          }
        } else {
          assert parts[i] == rest[i];
        }
      }
    }
  }

  /** The scan finds an occurrence exactly when there is one. */
  lemma {:induction false} CountZeroIffAbsent(s: string, tok: string)
    requires |tok| > 0
    ensures Count(s, tok) == 0 <==> !Contains(s, tok)
    decreases |s|
  {
    if |s| < |tok| {
    } else if s[..|tok|] == tok {
      assert OccursAt(s, tok, 0);
    } else {
      CountZeroIffAbsent(s[1..], tok);
      if Contains(s[1..], tok) {
        var k: nat :| k <= |s[1..]| && OccursAt(s[1..], tok, k);
        assert s[k + 1..k + 1 + |tok|] == s[1..][k..k + |tok|];
        assert OccursAt(s, tok, k + 1);
      }
      if Contains(s, tok) {
        assert s == [s[0]] + s[1..];
        ContainsShift(s[0], s[1..], tok);
      }
    }
  }

  /** A string without the token comes out of `replace` unchanged. */
  lemma ReplaceAbsentIsIdentity(s: string, tok: string, rep: string)
    requires |tok| > 0
    requires !Contains(s, tok)
    ensures Replace(s, tok, rep) == s
  {
    CountZeroIffAbsent(s, tok);
  }
}
