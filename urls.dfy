/** Canonical URL paths and the slash clean-up applied to `href` attributes
    of every emitted HTML page (lib/hbar.py). */
module Urls {
  import opened Text

  const SITE: string := "https://binhbar.com"

  /** `path.lstrip("/")`. */
  function StripLeadingSlashes(s: string): (r: string)
    ensures r == "" || r[0] != '/'
  {
    if s != [] && s[0] == '/' then StripLeadingSlashes(s[1..]) else s
  }

  /** `path.rstrip("/")`. */
  function StripTrailingSlashes(s: string): (r: string)
    ensures r == "" || r[|r| - 1] != '/'
  {
    if s != [] && s[|s| - 1] == '/' then StripTrailingSlashes(s[..|s| - 1]) else s
  }

  /** `path.strip("/")`. */
  function StripSlashes(s: string): (r: string)
    ensures r == "" || (r[0] != '/' && r[|r| - 1] != '/')
  {
    var t := StripLeadingSlashes(s);
    StripTrailingKeepsHead(t);
    StripTrailingSlashes(t)
  }

  lemma {:induction false} StripTrailingKeepsHead(t: string)
    requires t == "" || t[0] != '/'
    ensures var r := StripTrailingSlashes(t); r == "" || r[0] == t[0]
  {
    if t != [] && t[|t| - 1] == '/' {
      StripTrailingKeepsHead(t[..|t| - 1]);
    }
  }

  /** Stripping leaves a path without edge slashes as it is. */
  lemma StripSlashesKeeps(s: string)
    requires s == "" || (s[0] != '/' && s[|s| - 1] != '/')
    ensures StripSlashes(s) == s
  {
  }

  lemma {:induction false} StripLeadingSlashCons(s: string)
    ensures StripLeadingSlashes("/" + s) == StripLeadingSlashes(s)
  {
    assert ("/" + s)[1..] == s;
  }

  lemma {:induction false} StripTrailingSlashSnoc(s: string)
    ensures StripTrailingSlashes(s + "/") == StripTrailingSlashes(s)
  {
    assert (s + "/")[..|s + "/"| - 1] == s;
  }

  lemma {:induction false} StripLeadingOfSnoc(s: string)
    ensures StripLeadingSlashes(s + "/") ==
            if StripLeadingSlashes(s) == "" then "" else StripLeadingSlashes(s) + "/"
    decreases |s|
  {
    if s == [] {
      assert s + "/" == "/" + "";
      StripLeadingSlashCons("");
    } else if s[0] == '/' {
      assert s + "/" == "/" + (s[1..] + "/");
      StripLeadingSlashCons(s[1..] + "/");
      StripLeadingOfSnoc(s[1..]);
    }
  }

  lemma StripSlashesOfSnoc(s: string)
    ensures StripSlashes(s + "/") == StripSlashes(s)
  {
    StripLeadingOfSnoc(s);
    if StripLeadingSlashes(s) != "" {
      StripTrailingSlashSnoc(StripLeadingSlashes(s));
    }
  }

  /** `_canonical_abs(path, site, file)`: the absolute URL path of `path`,
      rooted at the site (`SITE/`) when `site` holds and at `/` otherwise,
      with a trailing slash unless `file` holds. */
  function CanonicalAbs(path: string, site: bool := false, file: bool := false): (r: string)
    ensures StartsWith(r, Base(site))
    ensures StripSlashes(path) == "" || StripSlashes(path) == "." ==> r == Base(site)
  {
    var suffix := if file then "" else "/";
    var base := Base(site);
    var p := StripSlashes(path);
    if p == "" || p == "." then base else base + p + suffix
  }

  function Base(site: bool): string
  {
    (if site then SITE else "") + "/"
  }

  /** With default flags the result is `/` or `/segment/`, where the segment
      neither starts nor ends with a slash and is the stripped path. */
  lemma CanonicalAbsShape(path: string)
    ensures var r := CanonicalAbs(path);
            var p := StripSlashes(path);
            || (r == "/" && (p == "" || p == "."))
            || (r == "/" + p + "/" && p != "" && p != "." && p[0] != '/' && p[|p| - 1] != '/')
  {
  }

  /** Applying `_canonical_abs` to its own result changes nothing. */
  lemma CanonicalAbsIdempotent(path: string)
    ensures CanonicalAbs(CanonicalAbs(path)) == CanonicalAbs(path)
  {
    var p := StripSlashes(path);
    if p != "" && p != "." {
      assert CanonicalAbs(path) == "/" + p + "/";
      CanonicalAbsOfWrapped(p);
    } else {
      assert CanonicalAbs(path) == "/";
      CanonicalAbsOfRoot();
    }
  }

  lemma CanonicalAbsOfWrapped(p: string)
    requires p != "" && p != "." && p[0] != '/' && p[|p| - 1] != '/'
    ensures CanonicalAbs("/" + p + "/") == "/" + p + "/"
  {
    StripSlashesOfWrapped(p);
  }

  lemma CanonicalAbsOfRoot()
    ensures CanonicalAbs("/") == "/"
  {
    assert "/"[1..] == "";
    assert StripSlashes("/") == "";
  }

  lemma StripSlashesOfWrapped(p: string)
    requires p != "" && p[0] != '/' && p[|p| - 1] != '/'
    ensures StripSlashes("/" + p + "/") == p
  {
    assert "/" + p + "/" == "/" + (p + "/");
    StripLeadingSlashCons(p + "/");
    assert (p + "/")[0] == p[0];
    assert StripLeadingSlashes(p + "/") == p + "/";
    StripTrailingSlashSnoc(p);
  }

  /** Leading and trailing slashes of the argument make no difference. */
  lemma CanonicalAbsIgnoresEdgeSlashes(path: string, site: bool, file: bool)
    ensures CanonicalAbs("/" + path, site, file) == CanonicalAbs(path, site, file)
    ensures CanonicalAbs(path + "/", site, file) == CanonicalAbs(path, site, file)
  {
    StripLeadingSlashCons(path);
    StripSlashesOfSnoc(path);
  }

  // ---------------------------------------------------------------------
  // _url_tidyup: re.sub(r'href\s*=\s*(['"])(.*?)\1', ...) applying
  // re.sub(r'([^:])/+', r'\1/', ...) to every match.

  /** Drops the leading run of `/` characters. */
  function DropSlashRun(s: string): (r: string)
    ensures |r| <= |s|
    ensures r == "" || r[0] != '/'
  {
    if s != [] && s[0] == '/' then DropSlashRun(s[1..]) else s
  }

  /** `re.sub(r'([^:])/+', r'\1/', s)`: scanning left to right, a character
      other than `:` followed by a run of slashes keeps one slash of the run. */
  function CollapseSlashes(s: string): string
    decreases |s|
  {
    if |s| >= 2 && s[0] != ':' && s[1] == '/' then
      [s[0], '/'] + CollapseSlashes(DropSlashRun(s[1..]))
    else if s == [] then ""
    else [s[0]] + CollapseSlashes(s[1..])
  }

  lemma {:induction false} CollapseHead(s: string)
    requires s != []
    ensures CollapseSlashes(s) != [] && CollapseSlashes(s)[0] == s[0]
  {
  }

  ghost predicate DoubleSlashesFollowColon(r: string)
  {
    forall i :: 1 <= i < |r| - 1 && r[i] == '/' && r[i + 1] == '/' ==> r[i - 1] == ':'
  }

  /** In the collapsed text, two adjacent slashes other than at the very
      start always follow a colon, as in `https://`. */
  lemma {:induction false} CollapseLeavesNoDoubleSlash(s: string)
    ensures DoubleSlashesFollowColon(CollapseSlashes(s))
    decreases |s|
  {
    if |s| >= 2 && s[0] != ':' && s[1] == '/' {
      var t := DropSlashRun(s[1..]);
      CollapseLeavesNoDoubleSlash(t);
      if t != [] {
        CollapseHead(t);
      }
      assert CollapseSlashes(s) == [s[0], '/'] + CollapseSlashes(t);
      FollowAfterRun(s[0], CollapseSlashes(t));
    } else if s != [] {
      var t := s[1..];
      CollapseLeavesNoDoubleSlash(t);
      if t != [] {
        CollapseHead(t);
      }
      assert CollapseSlashes(s) == [s[0]] + CollapseSlashes(t);
      FollowAfterChar(s[0], CollapseSlashes(t));
    }
  }

  lemma FollowAfterRun(c: char, u: string)
    requires DoubleSlashesFollowColon(u) && (u == "" || u[0] != '/')
    ensures DoubleSlashesFollowColon([c, '/'] + u)
  {
    var r := [c, '/'] + u;
    forall i | 1 <= i < |r| - 1 && r[i] == '/' && r[i + 1] == '/'
      ensures r[i - 1] == ':'
    {
      assert i >= 3;
      assert r[i] == u[i - 2] && r[i + 1] == u[i - 1] && r[i - 1] == u[i - 3];
    }
  }

  lemma FollowAfterChar(c: char, u: string)
    requires DoubleSlashesFollowColon(u) && (u != "" && u[0] == '/' ==> c == ':')
    ensures DoubleSlashesFollowColon([c] + u)
  {
    var r := [c] + u;
    forall i | 1 <= i < |r| - 1 && r[i] == '/' && r[i + 1] == '/'
      ensures r[i - 1] == ':'
    {
      if i > 1 {
        assert r[i] == u[i - 1] && r[i + 1] == u[i] && r[i - 1] == u[i - 2];
      }
    }
  }

  /** The text with every slash removed. */
  function WithoutSlashes(s: string): string
  {
    if s == [] then "" else (if s[0] == '/' then "" else [s[0]]) + WithoutSlashes(s[1..])
  }

  lemma {:induction false} WithoutSlashesOfRun(s: string)
    ensures WithoutSlashes(DropSlashRun(s)) == WithoutSlashes(s)
  {
    if s != [] && s[0] == '/' {
      WithoutSlashesOfRun(s[1..]);
    }
  }

  lemma WithoutSlashesCons(c: char, s: string)
    ensures WithoutSlashes([c] + s) == (if c == '/' then "" else [c]) + WithoutSlashes(s)
  {
    assert ([c] + s)[1..] == s;
  }

  /** Collapsing removes slashes and nothing else: every other character
      survives, in order. */
  lemma {:induction false} CollapseRemovesOnlySlashes(s: string)
    ensures WithoutSlashes(CollapseSlashes(s)) == WithoutSlashes(s)
    decreases |s|, 1
  {
    if |s| >= 2 && s[0] != ':' && s[1] == '/' {
      CollapseRunRemovesOnlySlashes(s);
    } else if s != [] {
      CollapseRemovesOnlySlashes(s[1..]);
      WithoutSlashesCons(s[0], CollapseSlashes(s[1..]));
      assert s == [s[0]] + s[1..];
      WithoutSlashesCons(s[0], s[1..]);
    }
  }

  /** `CollapseRemovesOnlySlashes` where a run of slashes is collapsed. */
  lemma {:induction false} CollapseRunRemovesOnlySlashes(s: string)
    requires |s| >= 2 && s[0] != ':' && s[1] == '/'
    ensures WithoutSlashes(CollapseSlashes(s)) == WithoutSlashes(s)
    decreases |s|, 0
  {
    var t := DropSlashRun(s[1..]);
    var u := CollapseSlashes(t);
    CollapseRemovesOnlySlashes(t);
    WithoutSlashesOfRun(s[1..]);
    assert CollapseSlashes(s) == [s[0], '/'] + u;
    assert s == [s[0]] + s[1..];
    SlashAfter(s[0], u, s[1..]);
  }

  lemma SlashAfter(c: char, u: string, v: string)
    requires WithoutSlashes(u) == WithoutSlashes(v)
    ensures WithoutSlashes([c, '/'] + u) == WithoutSlashes([c] + v)
  {
    assert [c, '/'] + u == [c] + (['/'] + u);
    WithoutSlashesCons(c, ['/'] + u);
    WithoutSlashesCons('/', u);
    WithoutSlashesCons(c, v);
  }

  ghost predicate NoDoubleSlash(s: string)
  {
    forall i :: 0 <= i < |s| - 1 ==> !(s[i] == '/' && s[i + 1] == '/')
  }

  /** A text without two adjacent slashes is left as it is. */
  lemma {:induction false} CollapseKeepsSingleSlashes(s: string)
    requires NoDoubleSlash(s)
    ensures CollapseSlashes(s) == s
    decreases |s|
  {
    if |s| >= 2 && s[0] != ':' && s[1] == '/' {
      var t := s[2..];
      assert s[1..][1..] == t;
      assert t == "" || t[0] != '/';
      assert DropSlashRun(s[1..]) == t;
      assert NoDoubleSlash(t) by {
        forall i | 0 <= i < |t| - 1 ensures !(t[i] == '/' && t[i + 1] == '/') {
          assert t[i] == s[i + 2] && t[i + 1] == s[i + 3];
        }
      }
      CollapseKeepsSingleSlashes(t);
      assert s == [s[0], '/'] + t;
    } else if s != [] {
      var t := s[1..];
      assert NoDoubleSlash(t) by {
        forall i | 0 <= i < |t| - 1 ensures !(t[i] == '/' && t[i + 1] == '/') {
          assert t[i] == s[i + 1] && t[i + 1] == s[i + 2];
        }
      }
      CollapseKeepsSingleSlashes(t);
      assert s == [s[0]] + t;
    }
  }

  /** A run of `n` slashes. */
  function Slashes(n: nat): (r: string)
    ensures |r| == n
  {
    if n == 0 then "" else "/" + Slashes(n - 1)
  }

  /** One step of `CollapseSlashes` where a run of slashes starts after `c`. */
  lemma CollapseRunStep(c: char, t: string)
    requires c != ':' && t != [] && t[0] == '/'
    ensures CollapseSlashes([c] + t) == [c, '/'] + CollapseSlashes(DropSlashRun(t))
  {
    var s := [c] + t;
    assert s[0] == c && s[1] == '/' && s[1..] == t;
  }

  /** One step of `CollapseSlashes` where `c` is copied as it is. */
  lemma CollapseCharStep(c: char, t: string)
    requires c == ':' || t == [] || t[0] != '/'
    ensures CollapseSlashes([c] + t) == [c] + CollapseSlashes(t)
  {
    var s := [c] + t;
    assert s[0] == c && s[1..] == t;
  }

  lemma {:induction false} DropSlashRunAppend(a: string, b: string)
    requires b == "" || b[0] != '/'
    ensures DropSlashRun(a + b) == DropSlashRun(a) + b
  {
    if a == [] {
      assert a + b == b;
    } else if a[0] == '/' {
      assert (a + b)[1..] == a[1..] + b;
      DropSlashRunAppend(a[1..], b);
    }
  }

  lemma SlashesCons(n: nat, q: string)
    requires n > 0
    ensures Slashes(n) + q == ['/'] + (Slashes(n - 1) + q)
  {
    assert Slashes(n) == ['/'] + Slashes(n - 1);
  }

  lemma DropSlashCons(x: string)
    ensures DropSlashRun(['/'] + x) == DropSlashRun(x)
  {
    assert (['/'] + x)[1..] == x;
  }

  /** A whole run of slashes is dropped, up to the next other character. */
  lemma {:induction false} DropSlashRunOfRun(n: nat, q: string)
    requires q == "" || q[0] != '/'
    ensures DropSlashRun(Slashes(n) + q) == q
  {
    if n == 0 {
      assert Slashes(n) + q == q;
    } else {
      calc {
        DropSlashRun(Slashes(n) + q);
        { SlashesCons(n, q); }
        DropSlashRun(['/'] + (Slashes(n - 1) + q));
        { DropSlashCons(Slashes(n - 1) + q); }
        DropSlashRun(Slashes(n - 1) + q);
        { DropSlashRunOfRun(n - 1, q); }
        q;
      }
    }
  }

  /** Collapsing works on either side of a point where no slash follows:
      no run of slashes reaches across it, so text after a `:` (as in
      `https://`) is collapsed independently of what precedes it. */
  lemma {:induction false} CollapseAppend(p: string, r: string)
    requires r == "" || r[0] != '/'
    ensures CollapseSlashes(p + r) == CollapseSlashes(p) + CollapseSlashes(r)
    decreases |p|
  {
    if p == [] {
      assert p + r == r;
    } else {
      var c, t := p[0], p[1..];
      assert p == [c] + t;
      assert p + r == [c] + (t + r);
      if c != ':' && t != [] && t[0] == '/' {
        var d := DropSlashRun(t);
        calc {
          CollapseSlashes(p + r);
          { CollapseRunStep(c, t + r); }
          [c, '/'] + CollapseSlashes(DropSlashRun(t + r));
          { DropSlashRunAppend(t, r); }
          [c, '/'] + CollapseSlashes(d + r);
          { CollapseAppend(d, r); }
          [c, '/'] + (CollapseSlashes(d) + CollapseSlashes(r));
          { CollapseRunStep(c, t); }
          CollapseSlashes(p) + CollapseSlashes(r);
        }
      } else {
        calc {
          CollapseSlashes(p + r);
          { assert t == [] ==> t + r == r;
            CollapseCharStep(c, t + r); }
          [c] + CollapseSlashes(t + r);
          { CollapseAppend(t, r); }
          [c] + (CollapseSlashes(t) + CollapseSlashes(r));
          { CollapseCharStep(c, t); }
          CollapseSlashes(p) + CollapseSlashes(r);
        }
      }
    }
  }

  /** A run of one or more slashes after any character but `:` becomes a
      single slash, whatever its length. */
  lemma RunCollapsesToOne(c: char, n: nat, q: string)
    requires c != ':' && n >= 1 && (q == "" || q[0] != '/')
    ensures CollapseSlashes([c] + Slashes(n) + q) == [c, '/'] + CollapseSlashes(q)
  {
    assert [c] + Slashes(n) + q == [c] + (Slashes(n) + q);
    CollapseRunStep(c, Slashes(n) + q);
    DropSlashRunOfRun(n, q);
  }

  /** After a colon a run of slashes is cut to at most two: `://` and `:/`
      survive as they are, `:///` becomes `://`. */
  lemma ColonRun(n: nat, q: string)
    requires n >= 1 && (q == "" || q[0] != '/')
    ensures CollapseSlashes([':'] + (Slashes(n) + q))
      == [':'] + (Slashes(if n == 1 then 1 else 2) + CollapseSlashes(q))
  {
    var u := Slashes(n - 1) + q;
    SlashesCons(n, q);
    CollapseCharStep(':', ['/'] + u);
    AfterColon(n, q);
  }

  lemma AfterColon(n: nat, q: string)
    requires n >= 1 && (q == "" || q[0] != '/')
    ensures CollapseSlashes(['/'] + (Slashes(n - 1) + q))
      == Slashes(if n == 1 then 1 else 2) + CollapseSlashes(q)
  {
    if n == 1 {
      assert Slashes(0) + q == q;
      SingleSlash(q);
    } else {
      RunAfterSlash(n - 1, q);
    }
  }

  lemma SingleSlash(q: string)
    requires q == "" || q[0] != '/'
    ensures CollapseSlashes(['/'] + q) == Slashes(1) + CollapseSlashes(q)
  {
    CollapseCharStep('/', q);
  }

  lemma RunAfterSlash(m: nat, q: string)
    requires m >= 1 && (q == "" || q[0] != '/')
    ensures CollapseSlashes(['/'] + (Slashes(m) + q)) == Slashes(2) + CollapseSlashes(q)
  {
    CollapseRunStep('/', Slashes(m) + q);
    DropSlashRunOfRun(m, q);
  }

  /** `https://` survives: the two slashes after a colon are kept, and the
      text on either side is collapsed on its own. */
  lemma SchemeSlashesKept(p: string, q: string)
    requires q == "" || q[0] != '/'
    ensures CollapseSlashes(p + "://" + q) == CollapseSlashes(p) + "://" + CollapseSlashes(q)
  {
    var tail := [':'] + (Slashes(2) + q);
    TwoSlashes();
    calc {
      CollapseSlashes(p + "://" + q);
      { assert p + "://" + q == p + tail; }
      CollapseSlashes(p + tail);
      { CollapseAppend(p, tail); }
      CollapseSlashes(p) + CollapseSlashes(tail);
      { ColonRun(2, q); }
      CollapseSlashes(p) + ([':'] + ("//" + CollapseSlashes(q)));
      CollapseSlashes(p) + "://" + CollapseSlashes(q);
    }
  }

  lemma TwoSlashes()
    ensures Slashes(2) == "//"
  {
    assert Slashes(0) == "";
  }

  /** The closing quote of a `(.*?)\1` group opened before `from`: the first
      `q` at or after `from`, provided no newline comes first (`.` does not
      match a newline). */
  function ClosingQuote(text: string, from: nat, q: char): (r: Option<nat>)
    requires from <= |text|
    ensures r.Some? ==> from <= r.value < |text| && text[r.value] == q
    ensures r.Some? ==> forall k :: from <= k < r.value ==> text[k] != q && text[k] != '\n'
    ensures r.None? ==> forall k :: from <= k < |text| && text[k] == q ==>
              exists j :: from <= j < k && text[j] == '\n'
    decreases |text| - from
  {
    if from == |text| then None
    else if text[from] == q then Some(from)
    else if text[from] == '\n' then None
    else ClosingQuote(text, from + 1, q)
  }

  /** End of the match of `href\s*=\s*(['"])(.*?)\1` that starts at `i`, if any. */
  function HrefMatchEnd(text: string, i: nat): (r: Option<nat>)
    requires i <= |text|
    ensures r.Some? ==> i < r.value <= |text|
  {
    if !(i + 4 <= |text| && text[i..i + 4] == "href") then None
    else
      var a := SkipSpace(text, i + 4);
      if a == |text| || text[a] != '=' then None
      else
        var b := SkipSpace(text, a + 1);
        if b == |text| || (text[b] != '"' && text[b] != '\'') then None
        else
          match ClosingQuote(text, b + 1, text[b])
          case None => None
          case Some(k) => Some(k + 1)
  }

  /** `re.sub` of the `href` pattern from position `i` on: every match is
      replaced by its collapsed form, every other character is copied. */
  function TidyFrom(text: string, i: nat): string
    requires i <= |text|
    decreases |text| - i
  {
    if i == |text| then ""
    else
      match HrefMatchEnd(text, i)
      case Some(e) => CollapseSlashes(text[i..e]) + TidyFrom(text, e)
      case None => [text[i]] + TidyFrom(text, i + 1)
  }

  /** `_url_tidyup(text)`. */
  function UrlTidyup(text: string): string
  {
    TidyFrom(text, 0)
  }

  /** Text in which no `href` attribute starts is copied unchanged up to the
      next attribute. */
  lemma {:induction false} TidyCopiesUnmatched(text: string, i: nat, j: nat)
    requires i <= j <= |text|
    requires forall k :: i <= k < j ==> HrefMatchEnd(text, k).None?
    ensures TidyFrom(text, i) == text[i..j] + TidyFrom(text, j)
    decreases j - i
  {
    if i < j {
      TidyCopiesUnmatched(text, i + 1, j);
      TidyCopiesOne(text, i);
      assert text[i..j] == [text[i]] + text[i + 1..j];
      ConsPrefix(TidyFrom(text, i), text[i], TidyFrom(text, i + 1), text[i + 1..j], TidyFrom(text, j), text[i..j]);
    }
  }

  /** A character where no `href` attribute starts is copied. */
  lemma TidyCopiesOne(text: string, i: nat)
    requires i < |text| && HrefMatchEnd(text, i).None?
    ensures TidyFrom(text, i) == [text[i]] + TidyFrom(text, i + 1)
  {
  }

  /** A page without any `href` attribute is left as it is. */
  lemma UrlTidyupWithoutLinks(text: string)
    requires forall k :: 0 <= k < |text| ==> HrefMatchEnd(text, k).None?
    ensures UrlTidyup(text) == text
  {
    TidyCopiesUnmatched(text, 0, |text|);
    assert text[0..|text|] == text;
  }

  /** A page whose text never holds two adjacent slashes is left as it is. */
  lemma {:induction false} TidyKeepsSingleSlashes(text: string, i: nat)
    requires i <= |text|
    requires NoDoubleSlash(text)
    ensures TidyFrom(text, i) == text[i..]
    decreases |text| - i
  {
    if i < |text| {
      match HrefMatchEnd(text, i)
      case Some(e) =>
        var m := text[i..e];
        assert NoDoubleSlash(m) by {
          forall k | 0 <= k < |m| - 1 ensures !(m[k] == '/' && m[k + 1] == '/') {
            assert m[k] == text[i + k] && m[k + 1] == text[i + k + 1];
          }
        }
        CollapseKeepsSingleSlashes(m);
        TidyKeepsSingleSlashes(text, e);
        assert text[i..] == m + text[e..];
      case None =>
        TidyKeepsSingleSlashes(text, i + 1);
        assert text[i..] == [text[i]] + text[i + 1..];
    }
  }
}
