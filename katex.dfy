/** The KaTeX block processor of lib/katex.py: a Markdown block that starts
    with `\[` opens display math, which runs up to the first block ending
    in `\]`.  The blocks in between are consumed and replaced by one
    element holding the rendered math.  Rendering (the `katex` executable
    followed by `etree.fromstring`) is the parameter `render`, which answers
    None where the executable fails. */
module KaTeX {
  import opened Text
  import Patterns

  const Opener := "\\["
  const Closer := "\\]"

  /** `KaTeXBlock.test`: the block matches `^\s*\\\[`. */
  predicate Test(block: string)
  {
    Patterns.Leading(block, Opener).Some?
  }

  /** The opener at `k`, after nothing but whitespace. */
  predicate OpensAt(block: string, k: int)
  {
    0 <= k <= |block| - |Opener| && AllSpace(block[..k]) && block[k..k + |Opener|] == Opener
  }

  /** A block passes the test exactly when some whitespace prefix of it is
      followed by `\[`. */
  lemma TestMeaning(block: string)
    ensures Test(block) <==> exists k :: OpensAt(block, k)
  {
    Patterns.LeadingMeaning(block, Opener);
    var r := Patterns.Leading(block, Opener);
    if r.Some? {
      assert OpensAt(block, r.value - |Opener|);
    }
  }

  /** `self._start.sub('', block)`: the block less its leading whitespace
      and opener; a block without an opener is returned as it is. */
  function StripOpener(block: string): (r: string)
    ensures Test(block) ==> |r| + |Opener| <= |block|
    ensures !Test(block) ==> r == block
  {
    match Patterns.Leading(block, Opener)
    case Some(i) => block[i..]
    case None => block
  }

  /** `self._end.search(block)`: the block ends in `\]` and whitespace. */
  predicate EndsMath(block: string)
  {
    Patterns.Trailing(block, Closer)
  }

  /** `self._end.sub('', block)`. */
  function StripCloser(block: string): string
    requires EndsMath(block)
  {
    Patterns.BeforeTrailing(block, Closer)
  }

  /** The blocks as the loop of `run` sees them: the first with its opener
      stripped. */
  function Opened(blocks: seq<string>): (r: seq<string>)
    requires blocks != []
    ensures |r| == |blocks| && r[1..] == blocks[1..]
  {
    [StripOpener(blocks[0])] + blocks[1..]
  }

  /** Index of the first block that ends the math, if any. */
  function FirstEnd(blocks: seq<string>): (r: Option<nat>)
    ensures r.Some? ==> r.value < |blocks| && EndsMath(blocks[r.value])
    ensures r.Some? ==> forall j :: 0 <= j < r.value ==> !EndsMath(blocks[j])
    ensures r.None? ==> forall j :: 0 <= j < |blocks| ==> !EndsMath(blocks[j])
  {
    if blocks == [] then None
    else if EndsMath(blocks[0]) then Some(0)
    else match FirstEnd(blocks[1..])
      case Some(k) => Some(k + 1)
      case None => None
  }

  /** The LaTeX handed to the renderer: the blocks up to the closing one,
      joined by newlines, the last one less its closer. */
  function MathSource(seen: seq<string>, k: nat): string
    requires k < |seen| && EndsMath(seen[k])
  {
    Join("\n", MathLines(seen, k))
  }

  /** The lines of the math source: the blocks up to the closing one, the
      last one less its closer. */
  function MathLines(seen: seq<string>, k: nat): seq<string>
    requires k < |seen| && EndsMath(seen[k])
  {
    seen[..k] + [StripCloser(seen[k])]
  }

  /** A Python list of Markdown blocks, changed in place by `run`. */
  class Blocks {
    var items: seq<string>

    constructor (items: seq<string>)
      ensures this.items == items
    {
      this.items := items;
    }
  }

  /** The parent element; its children are the rendered elements appended
      to it. */
  class Parent {
    var children: seq<string>

    constructor (children: seq<string>)
      ensures this.children == children
    {
      this.children := children;
    }
  }

  /** How `KaTeXBlock.run` ends: `return False`, `return True`, or the
      `OSError` that `tohtml` raises when the renderer fails. */
  datatype RunOutcome = NotClosed | Appended | RenderFailed

  /** `KaTeXBlock.run`.  With a closing block the first `k + 1` blocks are
      deleted, where `k` is the index of the first block (the first one
      already stripped of its opener) that ends in `\]`, and the rendered
      math is appended to `parent`; otherwise both are left as they were.
      The blocks are deleted before rendering, so when the renderer fails
      they stay deleted and nothing is appended. */
  method Run(parent: Parent, blocks: Blocks, render: string -> Option<string>) returns (r: RunOutcome)
    requires blocks.items != []
    modifies parent, blocks
    ensures r.NotClosed? <==> FirstEnd(Opened(old(blocks.items))).None?
    ensures !r.NotClosed? ==> var k := FirstEnd(Opened(old(blocks.items))).value;
      && blocks.items == old(blocks.items)[k + 1..]
      && (r.RenderFailed? <==> render(MathSource(Opened(old(blocks.items)), k)).None?)
      && parent.children == old(parent.children) +
           (if r.Appended? then [render(MathSource(Opened(old(blocks.items)), k)).value] else [])
    ensures r.NotClosed? ==> blocks.items == old(blocks.items) && parent.children == old(parent.children)
  {
    var originalFirst := blocks.items[0];
    blocks.items := blocks.items[0 := StripOpener(blocks.items[0])];
    assert blocks.items == Opened(old(blocks.items));
    var out, nBlocks, ended := Scan(blocks.items);
    if !ended {
      // the for loop ran out of blocks: its `else` clause
      blocks.items := blocks.items[0 := originalFirst];
      assert blocks.items == old(blocks.items);
      return NotClosed;
    }
    blocks.items := blocks.items[nBlocks..];
    match render(Join("\n", out)) {
      case None =>
        return RenderFailed;
      case Some(el) =>
        parent.children := parent.children + [el];
        return Appended;
    }
  }

  /** The `for block in blocks` loop of `run`: it counts the blocks it visits
      and collects them, up to and including the first that ends the math,
      which it collects less its closer. */
  method Scan(items: seq<string>) returns (out: seq<string>, nBlocks: nat, ended: bool)
    ensures ended <==> FirstEnd(items).Some?
    ensures ended ==> nBlocks == FirstEnd(items).value + 1 && out == MathLines(items, nBlocks - 1)
  {
    nBlocks := 0;
    out := [];
    ended := false;
    for i := 0 to |items|
      invariant nBlocks == i && out == items[..i]
      invariant forall j :: 0 <= j < i ==> !EndsMath(items[j])
    {
      var block := items[i];
      nBlocks := nBlocks + 1;
      if EndsMath(block) {
        out := out + [StripCloser(block)];
        ended := true;
        break;
      }
      out := out + [block];
    }
    if ended {
      assert FirstEnd(items) == Some(nBlocks - 1);
    }
  }

  /** When one block holds both `\[` and `\]`, exactly that block is consumed. */
  lemma SameBlock(blocks: seq<string>)
    requires blocks != [] && EndsMath(StripOpener(blocks[0]))
    ensures FirstEnd(Opened(blocks)) == Some(0)
  {
  }

  /** The whitespace before the opener of a block that passes the test. */
  function Lead(block: string): string
    requires Test(block)
  {
    block[..Patterns.Leading(block, Opener).value - |Opener|]
  }

  /** The whitespace after the closer of a block that ends the math. */
  function Trail(block: string): string
    requires EndsMath(block)
  {
    block[|StripCloser(block)| + |Closer|..]
  }

  /** Stripping the opener takes off whitespace and `\[` and nothing else. */
  lemma OpenerSplit(block: string)
    requires Test(block)
    ensures AllSpace(Lead(block)) && block == Lead(block) + Opener + StripOpener(block)
  {
    Patterns.LeadingMeaning(block, Opener);
  }

  /** Stripping the closer takes off `\]` and whitespace and nothing else. */
  lemma CloserSplit(block: string)
    requires EndsMath(block)
    ensures AllSpace(Trail(block)) && block == StripCloser(block) + Closer + Trail(block)
  {
    Patterns.BeforeTrailingSplit(block, Closer);
  }

  /** The consumed blocks, joined by newlines, are the math source wrapped in
      the opener and closer, with only whitespace before and after them. */
  lemma ConsumedText(blocks: seq<string>, k: nat)
    requires k < |blocks| && Test(blocks[0])
    requires EndsMath(Opened(blocks)[k])
    ensures var o := Opened(blocks);
      Join("\n", blocks[..k + 1]) == Lead(blocks[0]) + Opener + MathSource(o, k) + Closer + Trail(o[k])
  {
    if k == 0 {
      ConsumedOne(blocks);
    } else {
      ConsumedMany(blocks, k);
    }
  }

  /** `ConsumedText` when the opener and closer share the first block. */
  lemma ConsumedOne(blocks: seq<string>)
    requires blocks != [] && Test(blocks[0]) && EndsMath(Opened(blocks)[0])
    ensures var o := Opened(blocks);
      Join("\n", blocks[..1]) == Lead(blocks[0]) + Opener + MathSource(o, 0) + Closer + Trail(o[0])
  {
    var b0, o0 := blocks[0], Opened(blocks)[0];
    var c := StripCloser(o0);
    OpenerSplit(b0);
    CloserSplit(o0);
    assert blocks[..1] == [b0];
    assert MathLines(Opened(blocks), 0) == [c];
    WrappedBlock(b0, Lead(b0), o0, c, Trail(o0));
  }

  /** `ConsumedText` when the closer is in a later block. */
  lemma ConsumedMany(blocks: seq<string>, k: nat)
    requires 0 < k < |blocks| && Test(blocks[0])
    requires EndsMath(Opened(blocks)[k])
    ensures var o := Opened(blocks);
      Join("\n", blocks[..k + 1]) == Lead(blocks[0]) + Opener + MathSource(o, k) + Closer + Trail(o[k])
  {
    var o := Opened(blocks);
    var b0, bk := blocks[0], blocks[k];
    assert o[0] == StripOpener(b0) && o[k] == bk;
    assert MathLines(o, k) == [o[0]] + blocks[1..k] + [StripCloser(bk)];
    OpenerSplit(b0);
    CloserSplit(bk);
    WrappedBlocks(blocks, k, Lead(b0), o[0], StripCloser(bk), Trail(bk));
  }

  lemma WrappedBlock(b0: string, lead: string, o0: string, c: string, trail: string)
    requires b0 == lead + Opener + o0 && o0 == c + Closer + trail
    ensures Join("\n", [b0]) == lead + Opener + Join("\n", [c]) + Closer + trail
  {
  }

  lemma WrappedBlocks(blocks: seq<string>, k: nat, lead: string, p: string, c: string, trail: string)
    requires 0 < k < |blocks| && blocks[0] == lead + Opener + p && blocks[k] == c + Closer + trail
    ensures Join("\n", blocks[..k + 1]) == lead + Opener + Join("\n", [p] + blocks[1..k] + [c]) + Closer + trail
  {
    var x, y := lead + Opener, Closer + trail;
    assert c + y == blocks[k];
    assert blocks[..k + 1] == [x + p] + blocks[1..k] + [c + y];
    JoinWrap("\n", x, p, blocks[1..k], c, y);
    var j := Join("\n", [p] + blocks[1..k] + [c]);
    assert x + j + y == lead + Opener + j + Closer + trail;
  }
}
