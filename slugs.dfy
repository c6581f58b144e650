/** URL slugs for tags and article titles (`_sanitise_tag`,
    `_url_sanitise_title` in lib/hbar.py).  Transliteration of non-ASCII text
    is not modelled: such characters are dropped, which is what the source
    does to ASCII punctuation. */
module Slugs {
  import opened Text

  /** `s.lower()` on ASCII letters. */
  function Lower(s: string): (r: string)
    ensures |r| == |s|
    ensures forall i :: 0 <= i < |s| ==> r[i] == LowerChar(s[i])
  {
    if s == [] then [] else [LowerChar(s[0])] + Lower(s[1..])
  }

  /** `s.replace(" ", "-")`. */
  function SpacesToHyphens(s: string): (r: string)
    ensures |r| == |s|
    ensures forall i :: 0 <= i < |s| ==> r[i] == (if s[i] == ' ' then '-' else s[i])
  {
    if s == [] then [] else [if s[0] == ' ' then '-' else s[0]] + SpacesToHyphens(s[1..])
  }

  predicate Kept(c: char)
  {
    IsAsciiAlnum(c) || c == '-'
  }

  /** `"".join(char for char in s if char.isalnum() or char == "-")`. */
  function KeepSlugChars(s: string): (r: string)
    ensures forall i :: 0 <= i < |r| ==> Kept(r[i])
    ensures |r| <= |s|
  {
    if s == [] then [] else (if Kept(s[0]) then [s[0]] else []) + KeepSlugChars(s[1..])
  }

  /** `_sanitise_tag(tag)`. */
  function SanitiseTag(tag: string): string
  {
    KeepSlugChars(SpacesToHyphens(Lower(tag)))
  }

  /** The characters a slug may hold. */
  predicate SlugChar(c: char)
  {
    IsAsciiLower(c) || IsAsciiDigit(c) || c == '-'
  }

  predicate IsSlug(s: string)
  {
    forall i :: 0 <= i < |s| ==> SlugChar(s[i])
  }

  /** What one input character contributes to the slug, as an independent
      per-character definition. */
  function SlugOf(c: char): string
  {
    if c == ' ' || c == '-' then "-"
    else if IsAsciiUpper(c) then [LowerChar(c)]
    else if IsAsciiLower(c) || IsAsciiDigit(c) then [c]
    else ""
  }

  function SlugOfEach(s: string): string
  {
    if s == [] then "" else SlugOf(s[0]) + SlugOfEach(s[1..])
  }

  /** The sanitiser works character by character: each space becomes `-`,
      each ASCII letter is lowercased, digits and `-` are kept and every
      other character is dropped. */
  lemma {:induction false} SanitiseTagPerCharacter(tag: string)
    ensures SanitiseTag(tag) == SlugOfEach(tag)
  {
    if tag != [] {
      SanitiseTagPerCharacter(tag[1..]);
      assert Lower(tag) == [LowerChar(tag[0])] + Lower(tag[1..]);
      var l := Lower(tag);
      assert l[1..] == Lower(tag[1..]);
      assert SpacesToHyphens(l)[1..] == SpacesToHyphens(l[1..]);
    }
  }

  /** Slugs hold only lowercase letters, digits and `-`. */
  lemma {:induction false} SanitiseTagIsSlug(tag: string)
    ensures IsSlug(SanitiseTag(tag))
  {
    var r := SanitiseTag(tag);
    var h := SpacesToHyphens(Lower(tag));
    assert forall i :: 0 <= i < |h| ==> !IsAsciiUpper(h[i]);
    KeepNoUpper(h);
  }

  lemma {:induction false} KeepNoUpper(s: string)
    requires forall i :: 0 <= i < |s| ==> !IsAsciiUpper(s[i])
    ensures IsSlug(KeepSlugChars(s))
  {
    if s != [] {
      KeepNoUpper(s[1..]);
    }
  }

  lemma {:induction false} SlugFixed(s: string)
    requires IsSlug(s)
    ensures SlugOfEach(s) == s
  {
    if s != [] {
      SlugFixed(s[1..]);
      assert s == [s[0]] + s[1..];
    }
  }

  /** Sanitising a slug again changes nothing. */
  lemma SanitiseTagIdempotent(tag: string)
    ensures SanitiseTag(SanitiseTag(tag)) == SanitiseTag(tag)
  {
    SanitiseTagIsSlug(tag);
    SanitiseTagPerCharacter(SanitiseTag(tag));
    SlugFixed(SanitiseTag(tag));
  }

  /** Slugging distributes over concatenation, so a space between two
      words becomes a `-` between their slugs. */
  lemma {:induction false} SlugOfEachAppend(a: string, b: string)
    ensures SlugOfEach(a + b) == SlugOfEach(a) + SlugOfEach(b)
  {
    if a != [] {
      assert (a + b)[1..] == a[1..] + b;
      SlugOfEachAppend(a[1..], b);
    } else {
      assert a + b == b;
    }
  }

  lemma SanitiseTagOfWords(a: string, b: string)
    ensures SanitiseTag(a + " " + b) == SanitiseTag(a) + "-" + SanitiseTag(b)
  {
    SanitiseTagPerCharacter(a + " " + b);
    SanitiseTagPerCharacter(a);
    SanitiseTagPerCharacter(b);
    SlugOfEachAppend(a + " ", b);
    SlugOfEachAppend(a, " ");
    assert SlugOfEach(" ") == "-" by {
      assert " "[1..] == "";
    }
  }
}
