/** The two regular-expression shapes the Markdown preprocessors use to
    find their delimiters: `^\s*M`, a marker after optional leading
    whitespace, and `M\s*$`, a marker followed by nothing but whitespace.
    `M` is three backticks or `\[` for openers, three backticks or `\]`
    for closers. */
module Patterns {
  import opened Text

  /** The scan of `^\s*marker` from position `i` on: where the match ends. */
  function LeadingFrom(s: string, marker: string, i: nat): (r: Option<nat>)
    requires i <= |s|
    ensures r.Some? ==> i + |marker| <= r.value <= |s|
    decreases |s| - i
  {
    if i < |s| && IsSpace(s[i]) then LeadingFrom(s, marker, i + 1)
    else if i + |marker| <= |s| && s[i..i + |marker|] == marker then Some(i + |marker|)
    else None
  }

  /** Where the match of `^\s*marker` ends, if `s` matches. */
  function Leading(s: string, marker: string): (r: Option<nat>)
    ensures r.Some? ==> |marker| <= r.value <= |s|
  {
    LeadingFrom(s, marker, 0)
  }

  lemma {:induction false} LeadingFromSkips(s: string, marker: string, i: nat)
    requires i <= |s|
    ensures LeadingFrom(s, marker, i) == var j := SkipSpace(s, i);
      if j + |marker| <= |s| && s[j..j + |marker|] == marker then Some(j + |marker|) else None
    decreases |s| - i
  {
    if i < |s| && IsSpace(s[i]) {
      LeadingFromSkips(s, marker, i + 1);
    }
  }

  /** Both directions of what `^\s*marker` finds, for a marker that does
      not itself start with whitespace: a match is whitespace and then the
      marker, and without a match no whitespace prefix is followed by the
      marker. */
  lemma LeadingMeaning(s: string, marker: string)
    requires marker != [] && !IsSpace(marker[0])
    ensures var r := Leading(s, marker);
      r.Some? ==> AllSpace(s[..r.value - |marker|]) && s[r.value - |marker|..r.value] == marker
    ensures Leading(s, marker).None? ==>
      forall k :: 0 <= k <= |s| - |marker| && AllSpace(s[..k]) ==> s[k..k + |marker|] != marker
  {
    var i := SkipSpace(s, 0);
    LeadingFromSkips(s, marker, 0);
    assert s[..i] == s[0..i];
    if Leading(s, marker).None? {
      forall k | 0 <= k <= |s| - |marker| && AllSpace(s[..k]) ensures s[k..k + |marker|] != marker {
        if k < i {
          assert IsSpace(s[..i][k]);
          assert s[k..k + |marker|][0] == s[k];
        }
      }
    }
  }

  /** Whether `marker\s*$` matches somewhere in `s`. */
  predicate Trailing(s: string, marker: string)
  {
    var n := TrimEndLength(s);
    n >= |marker| && s[n - |marker|..n] == marker
  }

  /** The marker at `p` with only whitespace after it. */
  predicate TrailingAt(s: string, marker: string, p: int)
  {
    0 <= p <= |s| - |marker| && s[p..p + |marker|] == marker && AllSpace(s[p + |marker|..])
  }

  /** Both directions of what `marker\s*$` finds, for a marker that does
      not end in whitespace. */
  lemma TrailingMeaning(s: string, marker: string)
    requires marker != [] && !IsSpace(marker[|marker| - 1])
    ensures Trailing(s, marker) <==> exists p :: TrailingAt(s, marker, p)
  {
    var n, m := TrimEndLength(s), |marker|;
    if Trailing(s, marker) {
      assert TrailingAt(s, marker, n - m);
    }
    forall p | TrailingAt(s, marker, p)
      ensures Trailing(s, marker)
    {
      assert s[p..p + m][m - 1] == s[p + m - 1];
      SpacesFrom(s, n);
      SpacesFrom(s, p + m);
    }
  }

  lemma SpacesFrom(s: string, q: nat)
    requires q <= |s| && AllSpace(s[q..])
    ensures forall i :: q <= i < |s| ==> IsSpace(s[i])
  {
    forall i | q <= i < |s| ensures IsSpace(s[i]) {
      assert s[q..][i - q] == s[i];
    }
  }

  /** `re.sub(r'marker\s*$', '', s)`: `s` less its closing marker and the
      whitespace after it. */
  function BeforeTrailing(s: string, marker: string): (r: string)
    requires Trailing(s, marker)
    ensures |r| + |marker| <= |s|
  {
    s[..TrimEndLength(s) - |marker|]
  }

  /** What `BeforeTrailing` takes off is the marker and whitespace. */
  lemma BeforeTrailingSplit(s: string, marker: string)
    requires Trailing(s, marker)
    ensures var r := BeforeTrailing(s, marker);
      s == r + marker + s[|r| + |marker|..] && AllSpace(s[|r| + |marker|..])
  {
    var n, m := TrimEndLength(s), |marker|;
    var r := s[..n - m];
    assert s[..n] == r + marker;
    assert s == s[..n] + s[n..];
    assert |r| + m == n;
  }
}
