/** The e-mail format check `re.match(r"[^@]+@[^@]+\.[^@]+", email)`.
    `re.match` anchors only at the start, so anything may follow the match. */
module EmailFormat {

  /** No `'@'` in `s[lo..hi]`. */
  predicate NoAt(s: string, lo: nat, hi: nat)
    requires lo <= hi <= |s|
  {
    forall i | lo <= i < hi :: s[i] != '@'
  }

  /** The pattern matches a prefix of `s` with its `'@'` at `a` and its
      literal `'.'` at `b`: a non-empty `'@'`-free local part, the `'@'`, a
      non-empty `'@'`-free stretch, the `'.'`, and one more non-`'@'`. */
  predicate MatchAt(s: string, a: nat, b: nat) {
    && 0 < a && a + 1 < b && b + 1 < |s|
    && s[a] == '@' && NoAt(s, 0, a)
    && s[b] == '.' && NoAt(s, a + 1, b)
    && s[b + 1] != '@'
  }

  /** The format accepted at registration and at profile update. */
  predicate IsEmail(s: string) {
    exists a: nat, b: nat | a < b < |s| :: MatchAt(s, a, b)
  }

  /** Once the scan after the first `'@'` reaches another `'@'` or the end of
      the string without a match, no match exists. */
  lemma NoMatchBeyond(s: string, first: nat, b: nat)
    requires first < b <= |s|
    requires s[first] == '@' && NoAt(s, 0, first)
    requires forall c: nat | c < b :: !MatchAt(s, first, c)
    requires b == |s| || s[b] == '@'
    ensures !IsEmail(s)
  {
  }

  /** A left-to-right scan deciding the pattern: find the first `'@'`, then
      look for a `'.'` that is at least two places after it, is followed by a
      non-`'@'`, and has no `'@'` between it and the first `'@'`. */
  method MatchEmail(s: string) returns (ok: bool)
    ensures ok <==> IsEmail(s)
  {
    var a := 0;
    while a < |s| && s[a] != '@'
      invariant a <= |s|
      invariant NoAt(s, 0, a)
    {
      a := a + 1;
    }
    if a == |s| || a == 0 {
      // no '@' at all, or an empty local part
      RejectsMissingOrLeadingAt(s);
      return false;
    }
    var b := a + 1;
    while b < |s| && s[b] != '@'
      invariant a + 1 <= b <= |s|
      invariant NoAt(s, a + 1, b)
      invariant forall c: nat | c < b :: !MatchAt(s, a, c)
    {
      if a + 1 < b && s[b] == '.' && b + 1 < |s| && s[b + 1] != '@' {
        assert MatchAt(s, a, b);
        return true;
      }
      b := b + 1;
    }
    NoMatchBeyond(s, a, b);
    return false;
  }

  /** The bootstrap address is well formed; the sample malformed one is not. */
  lemma SampleAddresses()
    ensures IsEmail("admin@admin.com")
    ensures !IsEmail("not-an-email")
  {
    assert MatchAt("admin@admin.com", 5, 11);
    RejectsMissingOrLeadingAt("not-an-email");
  }

  /** A string without `'@'`, or one starting with `'@'`, is never accepted. */
  lemma RejectsMissingOrLeadingAt(s: string)
    requires (forall i | 0 <= i < |s| :: s[i] != '@') || (|s| > 0 && s[0] == '@')
    ensures !IsEmail(s)
  {
  }
}
