/** Shared vocabulary: optional values, results, Python's character classes
    and the few string operations every other module needs. */
module Text {

  datatype Option<+T> = None | Some(value: T)

  datatype Result<+T, +E> = Ok(value: T) | Err(error: E)

  /** Python's `str.isspace()`, which is also what `\s` matches in a `str` regex. */
  predicate IsSpace(c: char)
  {
    || c == ' ' || ('\t' <= c <= '\r') || ('\U{1c}' <= c <= '\U{1f}')
    || c == '\U{85}' || c == '\U{a0}' || c == '\U{1680}'
    || ('\U{2000}' <= c <= '\U{200a}') || c == '\U{2028}' || c == '\U{2029}'
    || c == '\U{202f}' || c == '\U{205f}' || c == '\U{3000}'
  }

  predicate AllSpace(s: string)
  {
    forall i :: 0 <= i < |s| ==> IsSpace(s[i])
  }

  predicate IsAsciiUpper(c: char) { 'A' <= c <= 'Z' }

  predicate IsAsciiLower(c: char) { 'a' <= c <= 'z' }

  predicate IsAsciiDigit(c: char) { '0' <= c <= '9' }

  /** `str.isalnum()` restricted to ASCII. */
  predicate IsAsciiAlnum(c: char)
  {
    IsAsciiUpper(c) || IsAsciiLower(c) || IsAsciiDigit(c)
  }

  /** What `\w` matches, restricted to ASCII. */
  predicate IsWordChar(c: char)
  {
    IsAsciiAlnum(c) || c == '_'
  }

  /** `str.lower()` on one ASCII character; other characters are kept. */
  function LowerChar(c: char): (r: char)
    ensures IsAsciiUpper(c) ==> IsAsciiLower(r)
    ensures !IsAsciiUpper(c) ==> r == c
  {
    if IsAsciiUpper(c) then (c as int + 32) as char else c
  }

  /** Number of occurrences of `c` in `s`. */
  function Count(c: char, s: string): nat
  {
    if s == [] then 0 else (if s[|s| - 1] == c then 1 else 0) + Count(c, s[..|s| - 1])
  }

  lemma {:induction false} CountAppend(c: char, a: string, b: string)
    ensures Count(c, a + b) == Count(c, a) + Count(c, b)
  {
    if b == [] {
      assert a + b == a;
    } else {
      assert (a + b)[..|a + b| - 1] == a + b[..|b| - 1];
      CountAppend(c, a, b[..|b| - 1]);
    }
  }

  lemma CountAbsent(c: char, s: string)
    requires c !in s
    ensures Count(c, s) == 0
  {
    if s != [] {
      assert c !in s[..|s| - 1];
      CountAbsent(c, s[..|s| - 1]);
    }
  }

  /** `"".join(parts)`. */
  function Concat(parts: seq<string>): string
  {
    if parts == [] then "" else Concat(parts[..|parts| - 1]) + parts[|parts| - 1]
  }

  lemma {:induction false} ConcatAppend(a: seq<string>, b: seq<string>)
    ensures Concat(a + b) == Concat(a) + Concat(b)
  {
    if b == [] {
      assert a + b == a;
    } else {
      var b', p := b[..|b| - 1], b[|b| - 1];
      assert (a + b)[..|a + b| - 1] == a + b' && (a + b)[|a + b| - 1] == p;
      assert Concat(a + b) == Concat(a + b') + p;
      ConcatAppend(a, b');
      assert Concat(b) == Concat(b') + p;
    }
  }

  /** `sep.join(parts)`. */
  function Join(sep: string, parts: seq<string>): string
  {
    if parts == [] then ""
    else if |parts| == 1 then parts[0]
    else Join(sep, parts[..|parts| - 1]) + sep + parts[|parts| - 1]
  }

  lemma JoinSnoc(sep: string, parts: seq<string>, p: string)
    requires parts != []
    ensures Join(sep, parts + [p]) == Join(sep, parts) + sep + p
  {
    assert (parts + [p])[..|parts + [p]| - 1] == parts;
  }

  /** Joining two non-empty lists puts one separator between them. */
  lemma {:induction false} JoinAppend(sep: string, a: seq<string>, b: seq<string>)
    requires a != [] && b != []
    ensures Join(sep, a + b) == Join(sep, a) + sep + Join(sep, b)
    decreases |b|
  {
    if |b| == 1 {
      JoinSnoc(sep, a, b[0]);
    } else {
      var b', p := b[..|b| - 1], b[|b| - 1];
      assert a + b == (a + b') + [p];
      JoinSnoc(sep, a + b', p);
      JoinAppend(sep, a, b');
    }
  }

  /** Text added to the last part lands at the end of the join. */
  lemma JoinExtendLast(sep: string, parts: seq<string>, p: string, x: string)
    ensures Join(sep, parts + [p + x]) == Join(sep, parts + [p]) + x
  {
    if parts != [] {
      JoinSnoc(sep, parts, p);
      JoinSnoc(sep, parts, p + x);
    }
  }

  /** Text added before the first part lands at the front of the join. */
  lemma {:induction false} JoinExtendFirst(sep: string, x: string, p: string, rest: seq<string>)
    ensures Join(sep, [x + p] + rest) == x + Join(sep, [p] + rest)
    decreases |rest|
  {
    if rest == [] {
      assert [x + p] + rest == [x + p];
      assert [p] + rest == [p];
    } else {
      var r', q := rest[..|rest| - 1], rest[|rest| - 1];
      JoinExtendFirst(sep, x, p, r');
      assert [x + p] + rest == ([x + p] + r') + [q];
      assert [p] + rest == ([p] + r') + [q];
      JoinSnoc(sep, [x + p] + r', q);
      JoinSnoc(sep, [p] + r', q);
    }
  }

  /** Text added around a join of at least two parts lands at its ends. */
  lemma JoinWrap(sep: string, x: string, p: string, mid: seq<string>, q: string, y: string)
    ensures Join(sep, [x + p] + mid + [q + y]) == x + Join(sep, [p] + mid + [q]) + y
  {
    JoinExtendLast(sep, [x + p] + mid, q, y);
    JoinExtendFirst(sep, x, p, mid + [q]);
    assert [x + p] + mid + [q] == [x + p] + (mid + [q]);
    assert [p] + mid + [q] == [p] + (mid + [q]);
  }

  /** An element put before `a + b` is put before `a`. */
  lemma ConsPrefix<T>(whole: seq<T>, x: T, after: seq<T>, a: seq<T>, b: seq<T>, xa: seq<T>)
    requires whole == [x] + after && after == a + b && xa == [x] + a
    ensures whole == xa + b
  {
  }

  /** Decimal digits of a natural number, as Python's `str(n)` prints them. */
  function NatToString(n: nat): (r: string)
    ensures |r| > 0
    ensures forall i :: 0 <= i < |r| ==> IsAsciiDigit(r[i])
  {
    var d := ['0' + (n % 10) as char];
    if n < 10 then d else NatToString(n / 10) + d
  }

  /** Python's `str(i)` for an integer. */
  function IntToString(i: int): (r: string)
    ensures |r| > 0
  {
    if i < 0 then "-" + NatToString(-i) else NatToString(i)
  }

  predicate StartsWith(s: string, prefix: string)
  {
    |prefix| <= |s| && s[..|prefix|] == prefix
  }

  predicate EndsWith(s: string, suffix: string)
  {
    |suffix| <= |s| && s[|s| - |suffix|..] == suffix
  }

  /** Index of the first character of `s` at or after `from` that is not whitespace. */
  function SkipSpace(s: string, from: nat): (r: nat)
    requires from <= |s|
    ensures from <= r <= |s|
    ensures AllSpace(s[from..r])
    ensures r < |s| ==> !IsSpace(s[r])
    decreases |s| - from
  {
    if from < |s| && IsSpace(s[from]) then SkipSpace(s, from + 1) else from
  }

  /** Length of `s` once its trailing whitespace is removed (`str.rstrip()`). */
  function TrimEndLength(s: string): (r: nat)
    ensures r <= |s|
    ensures AllSpace(s[r..])
    ensures r > 0 ==> !IsSpace(s[r - 1])
  {
    if s != [] && IsSpace(s[|s| - 1]) then TrimEndLength(s[..|s| - 1]) else |s|
  }

  /** Python's `str.strip()` with no argument. */
  function StripSpace(s: string): (r: string)
    ensures r == "" || (!IsSpace(r[0]) && !IsSpace(r[|r| - 1]))
    ensures exists i, j :: 0 <= i <= j <= |s| && r == s[i..j] && AllSpace(s[..i]) && AllSpace(s[j..])
  {
    var i := SkipSpace(s, 0);
    var t := s[i..];
    var n := TrimEndLength(t);
    assert t[..n] == s[i..i + n];
    assert s[i + n..] == t[n..];
    s[i..i + n]
  }
}
