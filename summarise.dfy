/** The summary tree processor of lib/summarise.py: every heading of an
    article is moved one level down, and the summary keeps the leading
    children of the article's root up to its third block (paragraph, list
    or quotation), stopping early at a heading or rule that follows a
    block.  Elements are tree values: a tag, attributes and children. */
module Summarise {
  import opened Text

  datatype Element = Element(tag: string, attrib: map<string, string>, children: seq<Element>)

  const MinBlocks: nat := 1
  const MaxBlocks: nat := 3

  /** `f'h{n}'`. */
  function Heading(n: nat): string
  {
    "h" + NatToString(n)
  }

  /** The level of a tag `h1` to `h6`, and 0 for every other tag. */
  function Level(tag: string): (r: nat)
    ensures r <= 6
  {
    if |tag| == 2 && tag[0] == 'h' && '1' <= tag[1] <= '6' then (tag[1] - '0') as nat else 0
  }

  lemma LevelOfHeading(n: nat)
    requires 1 <= n <= 6
    ensures Level(Heading(n)) == n
    ensures forall t :: Level(t) == n ==> t == Heading(n)
  {
    assert Heading(n) == ['h', '0' + n as char];
    forall t | Level(t) == n ensures t == Heading(n) {
      assert t == [t[0], t[1]];
    }
  }

  // ---------------------------------------------------------------------
  // Lowering heading levels

  /** A tag after the first `i` passes of the loop over levels 5, 4, 3, 2:
      the levels from `6 - i` to 5 have moved one down. */
  function Shifted(tag: string, i: nat): string
  {
    var l := Level(tag);
    if 6 - i <= l <= 5 then Heading(l + 1) else tag
  }

  /** A tag after all four passes. */
  function Demote(tag: string): string
  {
    Shifted(tag, 4)
  }

  /** h2 to h5 move down exactly one level, not further; h1, h6 and every
      other tag stay as they are. */
  lemma DemoteMeaning(tag: string)
    ensures 2 <= Level(tag) <= 5 ==> Demote(tag) == Heading(Level(tag) + 1)
    ensures !(2 <= Level(tag) <= 5) ==> Demote(tag) == tag
    ensures forall n :: 2 <= n <= 5 ==> Demote(Heading(n)) == Heading(n + 1)
    ensures Demote(Heading(1)) == Heading(1) && Demote(Heading(6)) == Heading(6)
  {
    forall n | 2 <= n <= 5 ensures Demote(Heading(n)) == Heading(n + 1) {
      LevelOfHeading(n);
    }
    LevelOfHeading(1);
    LevelOfHeading(6);
  }

  /** Every element of the tree after the first `i` passes. */
  function ShiftedTree(e: Element, i: nat): Element
    decreases e
  {
    Element(Shifted(e.tag, i), e.attrib,
            seq(|e.children|, k requires 0 <= k < |e.children| => ShiftedTree(e.children[k], i)))
  }

  /** The tree `_lower_heading_levels` leaves behind. */
  function Lowered(root: Element): Element
  {
    ShiftedTree(root, 4)
  }

  /** `for element in root.iter(old): element.tag = new`: every element of
      the tree, the root included, tagged `from` is retagged `to`. */
  function Rename(e: Element, from: string, to: string): Element
    decreases e
  {
    Element(if e.tag == from then to else e.tag, e.attrib,
            seq(|e.children|, k requires 0 <= k < |e.children| => Rename(e.children[k], from, to)))
  }

  /** One pass, on one tag: only the tags at the pass's level carry its
      name, so renaming them is the next shift. */
  lemma ShiftStep(tag: string, i: nat)
    requires i < 4
    ensures (if Shifted(tag, i) == Heading(5 - i) then Heading(6 - i) else Shifted(tag, i)) == Shifted(tag, i + 1)
  {
    var l := Level(tag);
    LevelOfHeading(5 - i);
    LevelOfHeading(6 - i);
    if 6 - i <= l <= 5 {
      LevelOfHeading(l + 1);
    }
  }

  /** One pass, on the whole tree. */
  lemma {:induction false} ShiftTreeStep(e: Element, i: nat)
    requires i < 4
    ensures Rename(ShiftedTree(e, i), Heading(5 - i), Heading(6 - i)) == ShiftedTree(e, i + 1)
    decreases e
  {
    ShiftStep(e.tag, i);
    forall k | 0 <= k < |e.children|
      ensures Rename(ShiftedTree(e.children[k], i), Heading(5 - i), Heading(6 - i)) == ShiftedTree(e.children[k], i + 1)
    {
      ShiftTreeStep(e.children[k], i);
    }
  }

  lemma {:induction false} ShiftedNone(e: Element)
    ensures ShiftedTree(e, 0) == e
    decreases e
  {
    forall k | 0 <= k < |e.children| ensures ShiftedTree(e.children[k], 0) == e.children[k] {
      ShiftedNone(e.children[k]);
    }
  }

  /** `SummariseTreeprocessor._lower_heading_levels`. */
  method LowerHeadingLevels(root: Element) returns (lowered: Element)
    ensures lowered == Lowered(root)
  {
    ShiftedNone(root);
    lowered := root;
    var levels := [5, 4, 3, 2];
    for i := 0 to |levels|
      invariant lowered == ShiftedTree(root, i)
    {
      var n := levels[i];
      ShiftTreeStep(root, i);
      lowered := Rename(lowered, Heading(n), Heading(n + 1));
    }
  }

  /** Whether no element of the tree is tagged `tag`. */
  predicate Lacks(e: Element, tag: string)
    decreases e
  {
    e.tag != tag && forall k :: 0 <= k < |e.children| ==> Lacks(e.children[k], tag)
  }

  /** After lowering, no h2 is left anywhere in the tree. */
  lemma {:induction false} LoweredLacksTopHeading(root: Element)
    ensures Lacks(Lowered(root), Heading(2))
    decreases root
  {
    LevelOfHeading(2);
    LevelOfHeading(3);
    var l := Level(root.tag);
    if 2 <= l <= 5 {
      LevelOfHeading(l + 1);
    }
    forall k | 0 <= k < |root.children| ensures Lacks(Lowered(root.children[k]), Heading(2)) {
      LoweredLacksTopHeading(root.children[k]);
    }
  }

  /** Lowering keeps the shape of the tree and the attributes of every
      element, and demotes every tag. */
  lemma LoweredShape(root: Element)
    ensures Lowered(root).tag == Demote(root.tag) && Lowered(root).attrib == root.attrib
    ensures |Lowered(root).children| == |root.children|
    ensures forall k :: 0 <= k < |root.children| ==> Lowered(root).children[k] == Lowered(root.children[k])
  {
  }

  // ---------------------------------------------------------------------
  // Summarising

  predicate IsBlock(tag: string)
  {
    tag in ["p", "ol", "ul", "blockquote"]
  }

  /** `limiters`: h1 to h6 and hr. */
  predicate IsLimiter(tag: string)
  {
    tag == "hr" || 1 <= Level(tag) <= 6
  }

  /** Number of blocks among `cs`. */
  function Blocks(cs: seq<Element>): nat
  {
    if cs == [] then 0 else Blocks(cs[..|cs| - 1]) + (if IsBlock(cs[|cs| - 1].tag) then 1 else 0)
  }

  /** The condition on which the loop of `_summarise` breaks before `child`,
      having seen `seen` blocks. */
  predicate StopsAt(child: Element, seen: nat)
  {
    (IsLimiter(child.tag) && seen >= MinBlocks) || seen >= MaxBlocks
  }

  /** Number of children the summary keeps, looking from index `i` on. */
  function CutFrom(cs: seq<Element>, i: nat): (r: nat)
    requires i <= |cs|
    ensures i <= r <= |cs|
    decreases |cs| - i
  {
    if i == |cs| || StopsAt(cs[i], Blocks(cs[..i])) then i else CutFrom(cs, i + 1)
  }

  function Cut(cs: seq<Element>): nat
  {
    CutFrom(cs, 0)
  }

  /** The element `_summarise` builds: the root's tag, a copy of its
      attributes and its first `Cut` children. */
  function Summary(root: Element): Element
  {
    Element(root.tag, root.attrib, root.children[..Cut(root.children)])
  }

  /** `SummariseTreeprocessor._summarise`. */
  method Summarise(root: Element) returns (out: Element)
    ensures out == Summary(root)
  {
    var seenBlocks := 0;
    out := Element(root.tag, root.attrib, []);
    var cs := root.children;
    for i := 0 to |cs|
      invariant out == Element(root.tag, root.attrib, cs[..i])
      invariant seenBlocks == Blocks(cs[..i])
      invariant CutFrom(cs, i) == Cut(cs)
    {
      var child := cs[i];
      if (IsLimiter(child.tag) && seenBlocks >= MinBlocks) || seenBlocks >= MaxBlocks {
        break;
      }
      if IsBlock(child.tag) {
        seenBlocks := seenBlocks + 1;
      }
      assert cs[..i + 1][..i] == cs[..i];
      out := out.(children := out.children + [child]);
    }
  }

  /** `SummariseTreeprocessor.run`. */
  method Run(root: Element) returns (out: Element)
    ensures out == Summary(Lowered(root))
  {
    var lowered := LowerHeadingLevels(root);
    out := Summarise(lowered);
  }

  /** The cut point, characterised without recursion: no child before it
      meets the break condition, and the child at it (if any) does. */
  lemma {:induction false} CutFromMeaning(cs: seq<Element>, i: nat)
    requires i <= |cs|
    ensures forall j :: i <= j < CutFrom(cs, i) ==> !StopsAt(cs[j], Blocks(cs[..j]))
    ensures CutFrom(cs, i) < |cs| ==> StopsAt(cs[CutFrom(cs, i)], Blocks(cs[..CutFrom(cs, i)]))
    decreases |cs| - i
  {
    if !(i == |cs| || StopsAt(cs[i], Blocks(cs[..i]))) {
      CutFromMeaning(cs, i + 1);
    }
  }

  lemma CutMeaning(cs: seq<Element>)
    ensures forall j :: 0 <= j < Cut(cs) ==> !StopsAt(cs[j], Blocks(cs[..j]))
    ensures Cut(cs) < |cs| ==> StopsAt(cs[Cut(cs)], Blocks(cs[..Cut(cs)]))
  {
    CutFromMeaning(cs, 0);
  }

  /** The characterisation determines the cut point. */
  lemma {:induction false} CutFromUnique(cs: seq<Element>, i: nat, n: nat)
    requires i <= n <= |cs|
    requires forall j :: i <= j < n ==> !StopsAt(cs[j], Blocks(cs[..j]))
    requires n == |cs| || StopsAt(cs[n], Blocks(cs[..n]))
    ensures CutFrom(cs, i) == n
    decreases n - i
  {
    if i < n {
      CutFromUnique(cs, i + 1, n);
    }
  }

  lemma {:induction false} BlocksPrefix(cs: seq<Element>, n: nat, j: nat)
    requires j <= n <= |cs|
    ensures Blocks(cs[..n][..j]) == Blocks(cs[..j])
  {
    assert cs[..n][..j] == cs[..j];
  }

  lemma {:induction false} BlocksMonotone(cs: seq<Element>, j: nat)
    requires j < |cs|
    ensures Blocks(cs[..j + 1]) == Blocks(cs[..j]) + (if IsBlock(cs[j].tag) then 1 else 0)
  {
    assert cs[..j + 1][..j] == cs[..j];
  }

  /** At most three blocks are kept, and the summary ends right after the
      third one. */
  lemma SummaryBlocks(root: Element)
    ensures Blocks(Summary(root).children) <= MaxBlocks
    ensures Blocks(Summary(root).children) == MaxBlocks ==>
      var s := Summary(root).children; IsBlock(s[|s| - 1].tag)
  {
    var cs := root.children;
    var n := Cut(cs);
    CutMeaning(cs);
    if n > 0 {
      BlocksMonotone(cs, n - 1);
      assert !StopsAt(cs[n - 1], Blocks(cs[..n - 1]));
    }
  }

  /** A heading or rule is kept only before the first block, and a child
      that is neither a block nor a limiter never ends the summary. */
  lemma SummaryLimiters(root: Element)
    ensures var s := Summary(root).children;
      forall j :: 0 <= j < |s| && IsLimiter(s[j].tag) ==> Blocks(s[..j]) < MinBlocks
    ensures var cs, n := root.children, |Summary(root).children|;
      n < |cs| ==> IsLimiter(cs[n].tag) || Blocks(cs[..n]) >= MaxBlocks
  {
    var cs := root.children;
    var n := Cut(cs);
    CutMeaning(cs);
    forall j | 0 <= j < n ensures Blocks(cs[..n][..j]) == Blocks(cs[..j]) {
      BlocksPrefix(cs, n, j);
    }
  }

  /** With fewer than three blocks and no heading or rule after the first
      block, the summary is the whole of the root. */
  lemma SummaryWhole(root: Element)
    requires Blocks(root.children) < MaxBlocks
    requires forall j :: 0 <= j < |root.children| && IsLimiter(root.children[j].tag) ==> Blocks(root.children[..j]) < MinBlocks
    ensures Summary(root) == Element(root.tag, root.attrib, root.children)
  {
    var cs := root.children;
    forall j | 0 <= j < |cs| ensures !StopsAt(cs[j], Blocks(cs[..j])) {
      BlocksAtMost(cs, j);
    }
    CutFromUnique(cs, 0, |cs|);
    assert cs[..|cs|] == cs;
  }

  lemma {:induction false} BlocksAtMost(cs: seq<Element>, j: nat)
    requires j <= |cs|
    ensures Blocks(cs[..j]) <= Blocks(cs)
    decreases |cs| - j
  {
    if j < |cs| {
      BlocksMonotone(cs, j);
      BlocksAtMost(cs, j + 1);
    } else {
      assert cs[..j] == cs;
    }
  }

  /** Summarising a summary changes nothing. */
  lemma SummaryIdempotent(root: Element)
    ensures Summary(Summary(root)) == Summary(root)
  {
    var cs := root.children;
    var n := Cut(cs);
    var s := cs[..n];
    CutMeaning(cs);
    forall j | 0 <= j < n ensures !StopsAt(s[j], Blocks(s[..j])) {
      BlocksPrefix(cs, n, j);
    }
    CutFromUnique(s, 0, n);
    assert s[..n] == s;
  }
}
