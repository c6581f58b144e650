/** Fenced-code preprocessing of lib/highlight.py: `_span`,
    `_format_lines`, the page structure `tohtml` builds around the lines,
    and the fence finder `CodeBlock.run`.  The Pygments lexer and its token
    classes are parameters; `escape_html` is Pygments' translation table. */
module Highlight {
  import opened Text
  import Patterns

  /** Pygments' `escape_html` on one character: its translation table
      replaces `&`, `<`, `>`, `"` and `'` by entities. */
  function EscapeChar(c: char): string
  {
    if c == '&' then "&amp;"
    else if c == '<' then "&lt;"
    else if c == '>' then "&gt;"
    else if c == '"' then "&quot;"
    else if c == '\'' then "&#39;"
    else [c]
  }

  /** `escape_html(text)`, that is `text.translate(_escape_html_table)`. */
  function Escape(s: string): string
  {
    if s == [] then "" else EscapeChar(s[0]) + Escape(s[1..])
  }

  /** Escaping leaves the newlines where they were: it adds none, removes
      none, keeps an empty text empty and a trailing newline trailing. */
  lemma {:induction false} EscapeNewlines(s: string)
    ensures Count('\n', Escape(s)) == Count('\n', s)
    ensures Escape(s) == "" <==> s == ""
    ensures Escape(s) != "" ==> (Escape(s)[|Escape(s)| - 1] == '\n' <==> s[|s| - 1] == '\n')
  {
    if s != [] {
      var c, rest := s[0], s[1..];
      assert s == [c] + rest;
      EscapeNewlines(rest);
      CountAppend('\n', EscapeChar(c), Escape(rest));
      CountAppend('\n', [c], rest);
      assert Count('\n', [c]) == Count('\n', EscapeChar(c)) by {
        if c != '\n' {
          CountAbsent('\n', EscapeChar(c));
          CountAbsent('\n', [c]);
        }
      }
    }
  }

  lemma {:induction false} EscapeAppend(a: string, b: string)
    ensures Escape(a + b) == Escape(a) + Escape(b)
  {
    if a == [] {
      assert a + b == b;
    } else {
      assert (a + b)[1..] == a[1..] + b;
      EscapeAppend(a[1..], b);
    }
  }

  /** `s.split('\n')`. */
  function Split(s: string): (r: seq<string>)
    ensures |r| >= 1
  {
    if s == [] then [""]
    else
      var r := Split(s[..|s| - 1]);
      var c := s[|s| - 1];
      if c == '\n' then r + [""] else r[..|r| - 1] + [r[|r| - 1] + [c]]
  }

  function Last<T>(s: seq<T>): T
    requires |s| > 0
  {
    s[|s| - 1]
  }

  /** The pieces hold no newline; there is one more piece than newlines;
      the last piece is empty exactly when the text is empty or ends in a
      newline. */
  lemma {:induction false} SplitPieces(s: string)
    ensures forall k :: 0 <= k < |Split(s)| ==> '\n' !in Split(s)[k]
    ensures |Split(s)| == Count('\n', s) + 1
    ensures Last(Split(s)) == "" <==> s == "" || s[|s| - 1] == '\n'
  {
    if s != [] {
      SplitPieces(s[..|s| - 1]);
    }
  }

  /** Joining the pieces with newlines gives the text back. */
  lemma {:induction false} SplitJoin(s: string)
    ensures Join("\n", Split(s)) == s
  {
    if s != [] {
      var p, c := s[..|s| - 1], s[|s| - 1];
      assert s == p + [c];
      var r := Split(p);
      SplitJoin(p);
      if c == '\n' {
        assert Split(s) == r + [""];
        JoinSnoc("\n", r, "");
      } else if |r| == 1 {
        assert Split(s) == [r[0] + [c]];
      } else {
        var init, l := r[..|r| - 1], r[|r| - 1];
        assert Split(s) == init + [l + [c]];
        assert r == init + [l];
        JoinSnoc("\n", init, l);
        JoinSnoc("\n", init, l + [c]);
      }
    }
  }

  /** Text without a newline is one piece. */
  lemma SplitSingle(s: string)
    requires |Split(s)| == 1
    ensures Split(s) == [s]
  {
    SplitJoin(s);
  }

  /** A lexer token: its Pygments token type and its text. */
  datatype Token = Token(kind: string, text: string)

  /** `_span(class_, code)`. */
  function Span(class_: string, code: string): seq<string>
  {
    if code == "" then []
    else if class_ == "" then [code]
    else ["<span class=\"" + class_ + "\">", code, "</span>"]
  }

  /** A span is nothing for empty code, the bare code for an empty class,
      and otherwise the code wrapped in a `span` element of that class. */
  lemma SpanWraps(class_: string, code: string)
    ensures Span(class_, code) == [] <==> code == ""
    ensures Concat(Span(class_, code))
      == if code == "" || class_ == "" then code else "<span class=\"" + class_ + "\">" + code + "</span>"
  {
    if code != "" && class_ != "" {
      var o, c := "<span class=\"" + class_ + "\">", "</span>";
      assert [o, code, c][..2] == [o, code];
      assert [o, code][..1] == [o];
      assert [o][..0] == [];
      assert Concat([o]) == o;
      assert Concat([o, code]) == o + code;
      assert Concat([o, code, c]) == o + code + c;
    } else if code != "" {
      assert [code][..0] == [];
    }
  }

  /** A token as `_format_lines` consumes it: its class and its escaped
      text. */
  datatype Piece = Piece(class_: string, text: string)

  function Pieces(tokens: seq<Token>, classOf: string -> string): (r: seq<Piece>)
    ensures |r| == |tokens|
  {
    seq(|tokens|, k requires 0 <= k < |tokens| => Piece(classOf(tokens[k].kind), Escape(tokens[k].text)))
  }

  /** The state of the `_format_lines` generator between tokens: the lines
      yielded so far and the pieces of the line under construction. */
  datatype LineState = LineState(done: seq<string>, line: seq<string>)

  function Middles(class_: string, ms: seq<string>): seq<string>
  {
    seq(|ms|, k requires 0 <= k < |ms| => Concat(Span(class_, ms[k])))
  }

  /** One iteration of the `for token, text in tokens` loop, `escaped` being
      the escaped text split at newlines. */
  function Step(st: LineState, class_: string, escaped: seq<string>): LineState
    requires |escaped| >= 1
  {
    if |escaped| == 1 then LineState(st.done, st.line + Span(class_, escaped[0]))
    else
      LineState(st.done + [Concat(st.line + Span(class_, escaped[0]))] + Middles(class_, escaped[1..|escaped| - 1]),
                Span(class_, Last(escaped)))
  }

  /** The state after the loop has consumed `ps`. */
  function Fold(ps: seq<Piece>): LineState
  {
    if ps == [] then LineState([], [])
    else Step(Fold(ps[..|ps| - 1]), Last(ps).class_, Split(Last(ps).text))
  }

  /** Everything `_format_lines(tokens)` yields. */
  function FormatLinesSpec(tokens: seq<Token>, classOf: string -> string): seq<string>
  {
    var st := Fold(Pieces(tokens, classOf));
    st.done + (if st.line != [] then [Concat(st.line)] else [])
  }

  /** `_format_lines(tokens)`, the generator's output collected in order;
      `classOf` is `_token_to_class`. */
  method FormatLines(tokens: seq<Token>, classOf: string -> string) returns (lines: seq<string>)
    ensures lines == FormatLinesSpec(tokens, classOf)
  {
    ghost var ps := Pieces(tokens, classOf);
    var line: seq<string> := [];
    lines := [];
    for i := 0 to |tokens|
      invariant LineState(lines, line) == Fold(ps[..i])
    {
      var class_ := classOf(tokens[i].kind);
      var escaped := Split(Escape(tokens[i].text));
      FoldNext(ps, i);
      assert ps[i] == Piece(class_, Escape(tokens[i].text));
      if |escaped| == 1 {
        line := line + Span(class_, escaped[0]);
        continue;
      }
      var first, middle, last := escaped[0], escaped[1..|escaped| - 1], escaped[|escaped| - 1];
      lines := lines + [Concat(line + Span(class_, first))];
      lines := lines + Middles(class_, middle);
      line := Span(class_, last);
    }
    assert ps[..|tokens|] == ps;
    if line != [] {
      lines := lines + [Concat(line)];
    }
  }

  lemma FoldNext(ps: seq<Piece>, i: nat)
    requires i < |ps|
    ensures Fold(ps[..i + 1]) == Step(Fold(ps[..i]), ps[i].class_, Split(ps[i].text))
  {
    assert ps[..i + 1][..i] == ps[..i];
  }

  /** The concatenated texts of the tokens. */
  function Texts(tokens: seq<Token>): string
  {
    if tokens == [] then "" else Texts(tokens[..|tokens| - 1]) + Last(tokens).text
  }

  /** The concatenated escaped texts of the pieces. */
  function PieceTexts(ps: seq<Piece>): string
  {
    if ps == [] then "" else PieceTexts(ps[..|ps| - 1]) + Last(ps).text
  }

  lemma {:induction false} PiecesText(tokens: seq<Token>, classOf: string -> string)
    ensures PieceTexts(Pieces(tokens, classOf)) == Escape(Texts(tokens))
  {
    if tokens != [] {
      var pre := tokens[..|tokens| - 1];
      assert Pieces(tokens, classOf)[..|tokens| - 1] == Pieces(pre, classOf);
      PiecesText(pre, classOf);
      EscapeAppend(Texts(pre), Last(tokens).text);
    }
  }

  function NoNewlines(parts: seq<string>): bool
  {
    forall k :: 0 <= k < |parts| ==> '\n' !in parts[k]
  }

  lemma {:induction false} ConcatNoNewline(parts: seq<string>)
    requires NoNewlines(parts)
    ensures '\n' !in Concat(parts)
  {
    if parts != [] {
      ConcatNoNewline(parts[..|parts| - 1]);
    }
  }

  lemma SpanNoNewline(class_: string, code: string)
    requires '\n' !in class_ && '\n' !in code
    ensures NoNewlines(Span(class_, code))
  {
  }

  /** What the loop keeps true about its state, in terms of the escaped
      text `e` consumed so far: one finished line per newline in `e`, and a
      line under construction exactly when `e` does not end at a
      newline. */
  lemma {:induction false} FoldCounts(ps: seq<Piece>)
    ensures var st, e := Fold(ps), PieceTexts(ps);
      && |st.done| == Count('\n', e)
      && (st.line == [] <==> e == "" || e[|e| - 1] == '\n')
  {
    if ps != [] {
      var pre := ps[..|ps| - 1];
      FoldCounts(pre);
      StepCounts(Fold(pre), Last(ps).class_, PieceTexts(pre), Last(ps).text);
    }
  }

  /** `FoldCounts` for one more piece of text `x`. */
  lemma StepCounts(st: LineState, c: string, e: string, x: string)
    requires |st.done| == Count('\n', e)
    requires st.line == [] <==> e == "" || e[|e| - 1] == '\n'
    ensures var st', e' := Step(st, c, Split(x)), e + x;
      && |st'.done| == Count('\n', e')
      && (st'.line == [] <==> e' == "" || e'[|e'| - 1] == '\n')
  {
    CountAppend('\n', e, x);
    SplitPieces(x);
    if x != "" {
      assert (e + x)[|e + x| - 1] == x[|x| - 1];
    } else {
      assert e + x == e;
    }
    if |Split(x)| == 1 {
      StepCountsOne(st, c, x);
    } else {
      StepCountsMany(st, c, x);
    }
  }

  /** A piece of text without a newline extends the current line. */
  lemma StepCountsOne(st: LineState, c: string, x: string)
    requires |Split(x)| == 1
    ensures var st' := Step(st, c, Split(x));
      && st'.done == st.done && Count('\n', x) == 0
      && (st'.line == [] <==> st.line == [] && x == "")
      && (x != "" ==> x[|x| - 1] != '\n')
  {
    SplitPieces(x);
    SplitSingle(x);
    SpanWraps(c, x);
    if x != "" {
      assert x[|x| - 1] in x;
    }
  }

  /** A piece of text with newlines finishes one line per newline. */
  lemma StepCountsMany(st: LineState, c: string, x: string)
    requires |Split(x)| > 1
    ensures var st' := Step(st, c, Split(x));
      && |st'.done| == |st.done| + Count('\n', x)
      && x != ""
      && (st'.line == [] <==> x[|x| - 1] == '\n')
  {
    SplitPieces(x);
    SpanWraps(c, Last(Split(x)));
  }

  predicate Unclassed(ps: seq<Piece>)
  {
    forall k :: 0 <= k < |ps| ==> ps[k].class_ == ""
  }

  lemma MiddlesUnclassed(ms: seq<string>)
    ensures Middles("", ms) == ms
  {
    forall k | 0 <= k < |ms| ensures Middles("", ms)[k] == ms[k] {
      SpanWraps("", ms[k]);
    }
  }

  /** With no classes, the lines so far joined with newlines, the line
      under construction last, are the escaped text so far. */
  lemma {:induction false} FoldPlain(ps: seq<Piece>)
    requires Unclassed(ps)
    ensures var st := Fold(ps);
      Join("\n", st.done + [Concat(st.line)]) == PieceTexts(ps)
  {
    if ps != [] {
      var pre := ps[..|ps| - 1];
      assert Unclassed(pre) by {
        forall k | 0 <= k < |pre| ensures pre[k].class_ == "" {
          assert pre[k] == ps[k];
        }
      }
      FoldPlain(pre);
      var st := Fold(pre);
      var x := Last(ps).text;
      var sx := Split(x);
      assert Last(ps).class_ == "";
      SpanWraps("", sx[0]);
      var l := Concat(st.line);
      ConcatAppend(st.line, Span("", sx[0]));
      SplitJoin(x);
      if |sx| == 1 {
        SplitSingle(x);
        JoinExtendLast("\n", st.done, l, x);
      } else {
        PlainStepMany(st.done, l, sx);
      }
    }
  }

  lemma PlainStepMany(done: seq<string>, l: string, sx: seq<string>)
    requires |sx| > 1
    ensures Join("\n", done + [l + sx[0]] + Middles("", sx[1..|sx| - 1]) + [Concat(Span("", Last(sx)))])
      == Join("\n", done + [l]) + Join("\n", sx)
  {
    var ms := sx[1..|sx| - 1];
    MiddlesUnclassed(ms);
    SpanWraps("", Last(sx));
    var tail := ms + [Last(sx)];
    assert sx == [sx[0]] + tail;
    assert done + [l + sx[0]] + Middles("", ms) + [Concat(Span("", Last(sx)))] == done + [l + sx[0]] + tail;
    JoinAcross(done, l, sx[0], tail);
  }

  lemma JoinAcross(done: seq<string>, l: string, first: string, tail: seq<string>)
    requires tail != []
    ensures Join("\n", done + [l + first] + tail) == Join("\n", done + [l]) + Join("\n", [first] + tail)
  {
    JoinAppend("\n", [first], tail);
    JoinExtendLast("\n", done, l, first);
    JoinAppend("\n", done + [l + first], tail);
  }

  /** No yielded line holds a newline, provided no class does. */
  lemma {:induction false} FoldNoNewline(ps: seq<Piece>)
    requires forall k :: 0 <= k < |ps| ==> '\n' !in ps[k].class_
    ensures NoNewlines(Fold(ps).done)
    ensures NoNewlines(Fold(ps).line)
  {
    if ps != [] {
      var pre := ps[..|ps| - 1];
      assert forall k :: 0 <= k < |pre| ==> '\n' !in pre[k].class_ by {
        forall k | 0 <= k < |pre| ensures '\n' !in pre[k].class_ {
          assert pre[k] == ps[k];
        }
      }
      FoldNoNewline(pre);
      StepNoNewline(Fold(pre), Last(ps).class_, Last(ps).text);
    }
  }

  /** `FoldNoNewline` for one more piece of text `x`. */
  lemma StepNoNewline(st: LineState, c: string, x: string)
    requires '\n' !in c && NoNewlines(st.done) && NoNewlines(st.line)
    ensures NoNewlines(Step(st, c, Split(x)).done) && NoNewlines(Step(st, c, Split(x)).line)
  {
    var sx := Split(x);
    SplitPieces(x);
    SpanNoNewline(c, sx[0]);
    SpanNoNewline(c, Last(sx));
    if |sx| > 1 {
      var l := st.line + Span(c, sx[0]);
      assert NoNewlines(l) by {
        forall k | 0 <= k < |l| ensures '\n' !in l[k] {
          if k >= |st.line| {
            assert l[k] == Span(c, sx[0])[k - |st.line|];
          }
        }
      }
      ConcatNoNewline(l);
      var ms := sx[1..|sx| - 1];
      var m := Middles(c, ms);
      forall k | 0 <= k < |ms| ensures '\n' !in m[k] {
        assert ms[k] == sx[k + 1];
        SpanNoNewline(c, ms[k]);
        ConcatNoNewline(Span(c, ms[k]));
      }
      var d := st.done + [Concat(l)] + m;
      forall k | 0 <= k < |d| ensures '\n' !in d[k] {
        if k < |st.done| {
          assert d[k] == st.done[k];
        } else if k == |st.done| {
          assert d[k] == Concat(l);
        } else {
          assert d[k] == m[k - |st.done| - 1];
        }
      }
    }
  }

  /** No line `_format_lines` yields holds a newline (token classes never
      do). */
  lemma FormatLinesNoNewline(tokens: seq<Token>, classOf: string -> string)
    requires forall t :: 0 <= t < |tokens| ==> '\n' !in classOf(tokens[t].kind)
    ensures NoNewlines(FormatLinesSpec(tokens, classOf))
  {
    var ps := Pieces(tokens, classOf);
    FoldNoNewline(ps);
    ConcatNoNewline(Fold(ps).line);
  }

  /** `_format_lines` yields one line per newline of the token texts, and
      one more when text follows the last newline. */
  lemma FormatLinesCount(tokens: seq<Token>, classOf: string -> string)
    ensures var s := Texts(tokens);
      |FormatLinesSpec(tokens, classOf)| == Count('\n', s) + (if s != "" && s[|s| - 1] != '\n' then 1 else 0)
  {
    FoldCounts(Pieces(tokens, classOf));
    PiecesText(tokens, classOf);
    EscapeNewlines(Texts(tokens));
  }

  /** With no token classes, joining the yielded lines with newlines gives
      the escaped text back, less one final newline. */
  lemma FormatLinesPlain(tokens: seq<Token>, classOf: string -> string)
    requires forall t :: 0 <= t < |tokens| ==> classOf(tokens[t].kind) == ""
    ensures var e := Escape(Texts(tokens));
      Join("\n", FormatLinesSpec(tokens, classOf)) == if e != "" && e[|e| - 1] == '\n' then e[..|e| - 1] else e
  {
    var ps := Pieces(tokens, classOf);
    var st := Fold(ps);
    var e := PieceTexts(ps);
    PiecesText(tokens, classOf);
    FoldCounts(ps);
    assert Unclassed(ps);
    FoldPlain(ps);
    var lines := FormatLinesSpec(tokens, classOf);
    if st.line != [] {
      assert lines == st.done + [Concat(st.line)];
    } else {
      assert lines == st.done;
      assert Join("\n", st.done + [""]) == e;
      if st.done != [] {
        JoinSnoc("\n", st.done, "");
        assert e == Join("\n", st.done) + "\n";
        assert e[..|e| - 1] == Join("\n", st.done);
      }
    }
  }
  /** A newline-free list joined with newlines holds one newline fewer
      than it has parts. */
  lemma {:induction false} JoinCount(parts: seq<string>)
    requires parts != [] && NoNewlines(parts)
    ensures Count('\n', Join("\n", parts)) == |parts| - 1
  {
    if |parts| == 1 {
      CountAbsent('\n', parts[0]);
    } else {
      var init := parts[..|parts| - 1];
      assert parts == init + [Last(parts)];
      JoinCount(init);
      JoinSnoc("\n", init, Last(parts));
      CountAppend('\n', Join("\n", init), "\n");
      CountAppend('\n', Join("\n", init) + "\n", Last(parts));
      CountAbsent('\n', Last(parts));
    }
  }

  /** The Pygments lexers as `tohtml` uses them: whether
      `get_lexer_by_name` knows a language, the tokens a lexer produces for
      some code, and `_token_to_class`. */
  datatype Lexers = Lexers(known: string -> bool, tokens: (string, string) -> seq<Token>, classOf: string -> string)

  /** The CSS class of the `pre` element. */
  const Class := "chl"

  /** The line numbers `start_line`, `start_line + 1`, ... of the gutter. */
  function Gutter(startLine: int, n: nat): seq<string>
  {
    seq(n, k requires 0 <= k < n => IntToString(startLine + k))
  }

  /** The highlighted lines of `code`, lexed as `language` when Pygments
      knows it and as plain text otherwise. */
  function HighlightedLines(code: string, language: string, lx: Lexers): seq<string>
  {
    var name := if lx.known(language) then language else "text";
    FormatLinesSpec(lx.tokens(name, code), lx.classOf)
  }

  /** `tohtml(code, language, start_line)`. */
  function ToHtml(code: string, language: string, startLine: int, lx: Lexers): string
  {
    var lines := HighlightedLines(code, language, lx);
    "<pre class=\"" + Class + "\">"
    + "<code class=\"line-numbers\">" + Join("\n", Gutter(startLine, |lines|)) + "</code>"
    + "<code class=\"highlighted-code\">" + Join("\n", lines) + "</code>"
    + "</pre>"
  }

  /** An unknown language is highlighted as plain text. */
  lemma ToHtmlUnknownLanguage(code: string, language: string, startLine: int, lx: Lexers)
    requires !lx.known(language) && lx.known("text")
    ensures ToHtml(code, language, startLine, lx) == ToHtml(code, "text", startLine, lx)
  {
  }

  /** The gutter and the highlighted code have the same number of text
      lines, so every line has its number beside it (token classes never
      hold newlines). */
  lemma GutterMatchesLines(code: string, language: string, startLine: int, lx: Lexers)
    requires forall k :: '\n' !in lx.classOf(k)
    ensures var lines := HighlightedLines(code, language, lx);
      Count('\n', Join("\n", Gutter(startLine, |lines|))) == Count('\n', Join("\n", lines))
  {
    var lines := HighlightedLines(code, language, lx);
    var name := if lx.known(language) then language else "text";
    FormatLinesNoNewline(lx.tokens(name, code), lx.classOf);
    var g := Gutter(startLine, |lines|);
    if lines != [] {
      forall k | 0 <= k < |g| ensures '\n' !in g[k] {
        var n := startLine + k;
        assert g[k] == IntToString(n);
        if n < 0 {
          var d := NatToString(-n);
          assert g[k] == "-" + d;
          assert forall j :: 0 <= j < |d| ==> d[j] != '\n';
        }
      }
      JoinCount(g);
      JoinCount(lines);
    }
  }

  // ---------------------------------------------------------------------
  // CodeBlock.run

  const Fence := "```"

  /** Where the text after the opening fence of `line` starts, when `line`
      matches `^\s*```` (optional whitespace, then three backticks). */
  function FenceStart(line: string): Option<nat>
  {
    Patterns.Leading(line, Fence)
  }

  /** Whether `line` matches ```` ```\s*$ ````, that is, ends with a
      closing fence. */
  predicate EndsFence(line: string)
  {
    Patterns.Trailing(line, Fence)
  }

  /** `self._end.sub('', line)`: the closing line less its fence and the
      whitespace after it. */
  function CloserCode(line: string): string
    requires EndsFence(line)
  {
    Patterns.BeforeTrailing(line, Fence)
  }

  /** Length of the longest prefix of word characters (what `\w*` takes). */
  function WordLength(s: string): (r: nat)
    ensures r <= |s|
    ensures forall k :: 0 <= k < r ==> IsWordChar(s[k])
    ensures r < |s| ==> !IsWordChar(s[r])
  {
    if s != [] && IsWordChar(s[0]) then 1 + WordLength(s[1..]) else 0
  }

  /** `config.group('language') or 'text'`: the word right after the
      opening fence, `text` when there is none. */
  function Language(line: string): (r: string)
    requires FenceStart(line).Some?
    ensures r != "" && forall k :: 0 <= k < |r| ==> IsWordChar(r[k])
  {
    var rest := line[FenceStart(line).value..];
    var word := rest[..WordLength(rest)];
    if word == "" then "text" else word
  }

  /** What `run` emits: an input line, or the placeholder
      `htmlStash.store(tohtml(code, language))` returns, represented by the
      code and language whose html the stash holds. */
  datatype Emitted = Line(text: string) | Stash(code: string, language: string)

  /** The html the stash holds for a placeholder. */
  function StashedHtml(e: Emitted, lx: Lexers): string
    requires e.Stash?
  {
    ToHtml(e.code, e.language, 1, lx)
  }

  /** Index of the first closing fence. */
  function FirstCloser(ls: seq<string>): (r: Option<nat>)
    ensures r.Some? ==> r.value < |ls| && EndsFence(ls[r.value]) && forall j :: 0 <= j < r.value ==> !EndsFence(ls[j])
    ensures r.None? ==> forall j :: 0 <= j < |ls| ==> !EndsFence(ls[j])
  {
    if ls == [] then None
    else if EndsFence(ls[0]) then Some(0)
    else
      match FirstCloser(ls[1..])
      case None => None
      case Some(j) => Some(j + 1)
  }

  /** The placeholder for a fenced block: the lines up to the closer, the
      closer less its fence last, in the opener's language. */
  function Fenced(opener: string, body: seq<string>, closer: string): Emitted
    requires FenceStart(opener).Some? && EndsFence(closer)
  {
    Stash(Join("\n", body + [CloserCode(closer)]), Language(opener))
  }

  /** What `run` emits for the line on top of the stack `ls`, and how many
      lines that consumes: a line that opens no fence is kept; an opener
      with a later closing fence turns, with everything up to that closer,
      into one stashed block; an opener with no later closer is kept as it
      is, and the lines after it are processed again. */
  function NextItem(ls: seq<string>): (r: (Emitted, nat))
    requires ls != []
    ensures 1 <= r.1 <= |ls|
  {
    if FenceStart(ls[0]).None? then (Line(ls[0]), 1)
    else
      var rest := ls[1..];
      match FirstCloser(rest)
      case None => (Line(ls[0]), 1)
      case Some(j) => (Fenced(ls[0], rest[..j], rest[j]), j + 2)
  }

  /** What `CodeBlock.run` produces, defined on the input front to back. */
  function Fences(ls: seq<string>): seq<Emitted>
    decreases |ls|
  {
    if ls == [] then [] else
    var next := NextItem(ls);
    [next.0] + Fences(ls[next.1..])
  }

  lemma FencesPlainLine(ls: seq<string>)
    requires ls != [] && FenceStart(ls[0]).None?
    ensures Fences(ls) == [Line(ls[0])] + Fences(ls[1..])
  {
    assert NextItem(ls) == (Line(ls[0]), 1);
  }

  lemma FencesUnclosed(ls: seq<string>)
    requires ls != [] && FenceStart(ls[0]).Some? && FirstCloser(ls[1..]).None?
    ensures Fences(ls) == [Line(ls[0])] + Fences(ls[1..])
  {
    assert NextItem(ls) == (Line(ls[0]), 1);
  }

  lemma FencesClosed(ls: seq<string>, j: nat)
    requires ls != [] && FenceStart(ls[0]).Some? && FirstCloser(ls[1..]) == Some(j)
    ensures Fences(ls) == [Fenced(ls[0], ls[1..][..j], ls[1..][j])] + Fences(ls[1..][j + 1..])
  {
    assert NextItem(ls) == (Fenced(ls[0], ls[1..][..j], ls[1..][j]), j + 2);
    assert ls[j + 2..] == ls[1..][j + 1..];
  }

  lemma FirstCloserAt(ls: seq<string>, j: nat)
    requires j < |ls| && EndsFence(ls[j]) && forall i :: 0 <= i < j ==> !EndsFence(ls[i])
    ensures FirstCloser(ls) == Some(j)
  {
  }

  /** `CodeBlock.run(lines)`.  The pending lines form a stack whose top,
      the next line to read, is its first element. */
  method Run(lines: seq<string>) returns (out: seq<Emitted>)
    ensures out == Fences(lines)
  {
    out := [];
    var pending := lines;
    while pending != []
      invariant out + Fences(pending) == Fences(lines)
      decreases |pending|
    {
      ghost var before := out;
      ghost var whole := pending;
      var line := pending[0];
      pending := pending[1..];
      var emitted;
      if FenceStart(line).None? {
        FencesPlainLine(whole);
        emitted := Line(line);
      } else {
        assert whole == [line] + pending;
        emitted, pending := ReadFence(line, pending);
      }
      out := out + [emitted];
      Resume(before, emitted, pending, whole, lines);
    }
  }

  lemma Resume(out: seq<Emitted>, e: Emitted, pending: seq<string>, whole: seq<string>, lines: seq<string>)
    requires out + Fences(whole) == Fences(lines)
    requires [e] + Fences(pending) == Fences(whole)
    ensures (out + [e]) + Fences(pending) == Fences(lines)
  {
  }

  /** The inner `while True` loop of `run`, entered after the opener
      `firstLine`: what it emits and the stack it leaves. */
  method ReadFence(firstLine: string, pending0: seq<string>) returns (emitted: Emitted, pending: seq<string>)
    requires FenceStart(firstLine).Some?
    ensures |pending| <= |pending0|
    ensures [emitted] + Fences(pending) == Fences([firstLine] + pending0)
  {
    ghost var whole := [firstLine] + pending0;
    assert whole[1..] == pending0;
    var language := Language(firstLine);
    var code: seq<string> := [];
    pending := pending0;
    while true
      invariant |code| <= |pending0| && code == pending0[..|code|] && pending == pending0[|code|..]
      invariant forall j :: 0 <= j < |code| ==> !EndsFence(pending0[j])
      decreases |pending|
    {
      if pending == [] {
        // Failed to find closing code block.
        assert code == pending0;
        assert [Line(firstLine)] + Fences(pending0) == Fences(whole) by {
          assert FirstCloser(whole[1..]).None?;
          FencesUnclosed(whole);
        }
        emitted := Line(firstLine);
        pending := code;
        return;
      }
      var line := pending[0];
      pending := pending[1..];
      if EndsFence(line) {
        ghost var j := |code|;
        assert pending0[j] == line && pending0[j + 1..] == pending;
        assert [Stash(Join("\n", code + [CloserCode(line)]), language)] + Fences(pending) == Fences(whole) by {
          ClosedAt(firstLine, pending0, j);
        }
        code := code + [CloserCode(line)];
        emitted := Stash(Join("\n", code), language);
        return;
      }
      assert pending0[..|code| + 1] == code + [line];
      code := code + [line];
    }
  }

  /** The exit of the inner loop at the closing fence `rest[j]`. */
  lemma ClosedAt(firstLine: string, rest: seq<string>, j: nat)
    requires FenceStart(firstLine).Some?
    requires j < |rest| && EndsFence(rest[j]) && forall i :: 0 <= i < j ==> !EndsFence(rest[i])
    ensures [Stash(Join("\n", rest[..j] + [CloserCode(rest[j])]), Language(firstLine))] + Fences(rest[j + 1..])
      == Fences([firstLine] + rest)
  {
    var whole := [firstLine] + rest;
    assert whole[1..] == rest;
    FirstCloserAt(rest, j);
    FencesClosed(whole, j);
  }

  /** The lines as they are, one `Line` each. */
  function AsLines(ls: seq<string>): seq<Emitted>
  {
    if ls == [] then [] else [Line(ls[0])] + AsLines(ls[1..])
  }

  predicate NoOpeners(ls: seq<string>)
  {
    forall k :: 0 <= k < |ls| ==> FenceStart(ls[k]).None?
  }

  lemma NoOpenersTail(ls: seq<string>)
    requires ls != [] && NoOpeners(ls)
    ensures NoOpeners(ls[1..])
  {
    forall k | 0 <= k < |ls| - 1 ensures FenceStart(ls[1..][k]).None? {
      assert ls[1..][k] == ls[k + 1];
    }
  }

  /** Lines that open no fence pass through unchanged and in order: the
      first `n` lines, when none of them opens a fence. */
  lemma {:induction false} PlainLinesKept(ls: seq<string>, n: nat)
    requires n <= |ls| && NoOpeners(ls[..n])
    ensures Fences(ls) == AsLines(ls[..n]) + Fences(ls[n..])
  {
    if n > 0 {
      var tail := ls[1..];
      assert Fences(ls) == [Line(ls[0])] + Fences(tail) by {
        assert ls[..n][0] == ls[0];
        FencesPlainLine(ls);
      }
      assert Fences(tail) == AsLines(tail[..n - 1]) + Fences(tail[n - 1..]) by {
        NoOpenersTail(ls[..n]);
        assert ls[..n][1..] == tail[..n - 1];
        PlainLinesKept(tail, n - 1);
      }
      assert AsLines(ls[..n]) == [Line(ls[0])] + AsLines(tail[..n - 1]) by {
        assert ls[..n][1..] == tail[..n - 1];
      }
      assert tail[n - 1..] == ls[n..];
      ConsPrefix(Fences(ls), Line(ls[0]), Fences(tail), AsLines(tail[..n - 1]), Fences(ls[n..]), AsLines(ls[..n]));
    }
  }


  /** A closed fence, from its opener to the first closing fence after it,
      becomes exactly one stashed block of the code between them. */
  lemma ClosedFence(opener: string, body: seq<string>, closer: string, after: seq<string>)
    requires FenceStart(opener).Some? && EndsFence(closer)
    requires forall k :: 0 <= k < |body| ==> !EndsFence(body[k])
    ensures Fences([opener] + body + [closer] + after)
      == [Fenced(opener, body, closer)] + Fences(after)
  {
    var ls := [opener] + body + [closer] + after;
    var rest := ls[1..];
    assert rest == body + [closer] + after;
    assert rest[|body|] == closer;
    assert FirstCloser(rest) == Some(|body|);
    assert rest[..|body|] == body;
    assert rest[|body| + 1..] == after;
  }

  /** Input without a closing fence comes back as it is. */
  lemma {:induction false} NoCloserUnchanged(ls: seq<string>)
    requires forall k :: 0 <= k < |ls| ==> !EndsFence(ls[k])
    ensures Fences(ls) == AsLines(ls)
    decreases |ls|
  {
    if ls != [] {
      var rest := ls[1..];
      assert forall k :: 0 <= k < |rest| ==> !EndsFence(rest[k]) by {
        forall k | 0 <= k < |rest| ensures !EndsFence(rest[k]) {
          assert rest[k] == ls[k + 1];
        }
      }
      NoCloserUnchanged(rest);
    }
  }
}
