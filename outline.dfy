/**
  The table-of-contents panel: the headings found in the rendered HTML become
  TocItems (level, title, line number, anchor id), and one left-to-right pass
  with a stack folds that flat list into a forest in which every heading hangs
  under the nearest earlier heading of a smaller level.

  Markdown rendering, the heading regex and HTML entity decoding are library
  calls; they enter as the parameters `headingsOf` and `decode`.
*/
module Outline {
  import opened Text

  // ---------------------------------------------------------------------
  // Extraction: heading matches to TocItems
  // ---------------------------------------------------------------------

  /** The digit captured from a heading tag `<h1>` … `<h6>`. */
  type HeadingDigit = c: char | '1' <= c <= '6' witness '1'

  /** One match of the heading pattern: the tag digit, the optional id attribute, the inner text. */
  datatype HeadingMatch = HeadingMatch(digit: HeadingDigit, id: Option<string>, text: string)

  datatype TocItem = TocItem(level: int, title: string, lineNumber: int, id: string)

  /** int.Parse of the tag digit. */
  function Level(d: HeadingDigit): (n: int)
    ensures 1 <= n <= 6
    ensures DigitChar(n) == d
  {
    d as int - '0' as int
  }

  const HeadingIdPrefix := "heading-"

  /** The anchor id given to the heading at `index` when its tag has none. */
  function SynthesizedId(index: nat): string
  {
    HeadingIdPrefix + NatToString(index)
  }

  /** Two headings without an explicit id never share an anchor. */
  lemma SynthesizedIdsDistinct(i: nat, j: nat)
    requires i != j
    ensures SynthesizedId(i) != SynthesizedId(j)
  {
    NatToStringInjective(i, j);
    var a, b := SynthesizedId(i), SynthesizedId(j);
    assert a[|HeadingIdPrefix|..] == NatToString(i);
    assert b[|HeadingIdPrefix|..] == NatToString(j);
  }

  /** The TocItem made from match number `index` (0-based). */
  function ItemOf(m: HeadingMatch, index: nat, decode: string -> string): TocItem
  {
    TocItem(Level(m.digit), decode(Trim(m.text)), index + 1,
            if m.id.Some? then m.id.value else SynthesizedId(index))
  }

  /**
    What the item for match number i carries: the level of its tag digit, the
    line number i + 1, its trimmed and decoded text as title, and its
    explicit id or else "heading-i".
  */
  predicate DescribesMatch(item: TocItem, m: HeadingMatch, i: nat, decode: string -> string)
  {
    1 <= item.level <= 6 && DigitChar(item.level) == m.digit &&
    item.lineNumber == i + 1 &&
    item.title == decode(Trim(m.text)) &&
    item.id == (if m.id.Some? then m.id.value else SynthesizedId(i))
  }

  /** DescribesMatch pins the item down: only ItemOf describes a match. */
  lemma DescribesMatchUnique(item: TocItem, m: HeadingMatch, i: nat, decode: string -> string)
    requires DescribesMatch(item, m, i, decode)
    ensures item == ItemOf(m, i, decode)
  {
    assert item.level == Level(m.digit) by {
      assert item.level == DigitChar(item.level) as int - '0' as int;
    }
  }

  /** The items ExtractHeadingsFromHtml returns for `matches`, in match order. */
  function Extracted(matches: seq<HeadingMatch>, decode: string -> string): seq<TocItem>
  {
    if matches == [] then []
    else Extracted(matches[..|matches| - 1], decode) + [ItemOf(matches[|matches| - 1], |matches| - 1, decode)]
  }

  /** One item per match. */
  lemma {:induction false} ExtractedLength(matches: seq<HeadingMatch>, decode: string -> string)
    ensures |Extracted(matches, decode)| == |matches|
  {
    if matches != [] {
      ExtractedLength(matches[..|matches| - 1], decode);
    }
  }

  /** Item number i is made from match number i. */
  lemma {:induction false} ExtractedAt(matches: seq<HeadingMatch>, decode: string -> string, i: nat)
    requires i < |matches|
    ensures |Extracted(matches, decode)| == |matches|
    ensures Extracted(matches, decode)[i] == ItemOf(matches[i], i, decode)
  {
    var init := matches[..|matches| - 1];
    ExtractedLength(matches, decode);
    ExtractedLength(init, decode);
    if i < |init| {
      ExtractedAt(init, decode, i);
      assert init[i] == matches[i];
    }
  }

  /** Item number i of the extraction describes match number i. */
  lemma ExtractedDescribes(matches: seq<HeadingMatch>, decode: string -> string)
    ensures |Extracted(matches, decode)| == |matches|
    ensures forall i :: 0 <= i < |matches| ==>
              DescribesMatch(Extracted(matches, decode)[i], matches[i], i, decode)
  {
    ExtractedLength(matches, decode);
    forall i | 0 <= i < |matches|
      ensures DescribesMatch(Extracted(matches, decode)[i], matches[i], i, decode)
    {
      ExtractedAt(matches, decode, i);
    }
  }

  /** Headings without an explicit id get pairwise different anchors. */
  lemma ExtractedIdsDistinct(matches: seq<HeadingMatch>, decode: string -> string, i: nat, j: nat)
    requires i < j < |matches| && matches[i].id == None && matches[j].id == None
    ensures |Extracted(matches, decode)| == |matches|
    ensures Extracted(matches, decode)[i].id != Extracted(matches, decode)[j].id
  {
    ExtractedAt(matches, decode, i);
    ExtractedAt(matches, decode, j);
    SynthesizedIdsDistinct(i, j);
  }

  /** The body of the foreach: the level, the id and the title of match number `index`. */
  method MakeItem(m: HeadingMatch, index: nat, decode: string -> string) returns (item: TocItem)
    ensures DescribesMatch(item, m, index, decode)
  {
    var level := Level(m.digit);
    var id := if m.id.Some? then m.id.value else SynthesizedId(index);
    var title := decode(Trim(m.text));
    item := TocItem(level, title, index + 1, id);
  }

  /** ExtractHeadingsFromHtml: one item per match, counting matches with a running index. */
  method ExtractHeadings(matches: seq<HeadingMatch>, decode: string -> string) returns (items: seq<TocItem>)
    ensures items == Extracted(matches, decode)
  {
    items := [];
    var index := 0;
    while index < |matches|
      invariant 0 <= index <= |matches|
      invariant items == Extracted(matches[..index], decode)
    {
      var item := MakeItem(matches[index], index, decode);
      DescribesMatchUnique(item, matches[index], index, decode);
      assert matches[..index + 1][..index] == matches[..index];
      items := items + [item];
      index := index + 1;
    }
    assert matches[..index] == matches;
  }

  // ---------------------------------------------------------------------
  // The outline forest and its reading as parent positions
  // ---------------------------------------------------------------------

  /**
    A node of the outline and the list of its children. A Forest is a list
    that grows at its end, as the fold appends nodes with List.Add.
  */
  datatype TocNode = TocNode(item: TocItem, children: Forest)
  datatype Forest = Empty | Snoc(init: Forest, last: TocNode)

  /** Pre-order: each node, then its children, left to right. */
  function Flatten(f: Forest): seq<TocItem>
  {
    match f
    case Empty => []
    case Snoc(init, last) => Flatten(init) + [last.item] + Flatten(last.children)
  }

  function Size(f: Forest): nat
  {
    |Flatten(f)|
  }

  /** The length of the rightmost path: the last root, its last child, and so on. */
  function Depth(f: Forest): nat
  {
    match f
    case Empty => 0
    case Snoc(_, last) => 1 + Depth(last.children)
  }

  /**
    For each pre-order position of `f` (numbered from `base`), the position
    of its parent node; the roots get `p`. With base 0 and p = -1 this is the
    parent of every heading in the outline, -1 for a root.
  */
  function Parents(f: Forest, base: int, p: int): seq<int>
  {
    match f
    case Empty => []
    case Snoc(init, last) =>
      var pos := base + Size(init);
      Parents(init, base, p) + [p] + Parents(last.children, pos + 1, pos)
  }

  lemma {:induction false} ParentsLength(f: Forest, base: int, p: int)
    ensures |Parents(f, base, p)| == Size(f)
  {
    match f
    case Empty =>
    case Snoc(init, last) =>
      ParentsLength(init, base, p);
      ParentsLength(last.children, base + Size(init) + 1, base + Size(init));
  }

  /** The pre-order positions of the nodes on the rightmost path, top down. */
  function SpineIdx(f: Forest, base: int): (r: seq<int>)
    ensures |r| == Depth(f)
  {
    match f
    case Empty => []
    case Snoc(init, last) =>
      var pos := base + Size(init);
      [pos] + SpineIdx(last.children, pos + 1)
  }

  /** The items on the rightmost path, top down. */
  function SpineItems(f: Forest): (r: seq<TocItem>)
    ensures |r| == Depth(f)
  {
    match f
    case Empty => []
    case Snoc(_, last) => [last.item] + SpineItems(last.children)
  }

  /** Every node of the list `f` (not below it) has a level above `level`. */
  predicate RootsAbove(f: Forest, level: int)
  {
    match f
    case Empty => true
    case Snoc(init, last) => RootsAbove(init, level) && last.item.level > level
  }

  /** Every child has a strictly greater level than its parent, throughout the forest. */
  predicate ChildrenDeeper(f: Forest)
  {
    match f
    case Empty => true
    case Snoc(init, last) =>
      ChildrenDeeper(init) && RootsAbove(last.children, last.item.level) && ChildrenDeeper(last.children)
  }

  /**
    Adding `x` as a new node on the rightmost path at depth `d`: a new root
    when d is 0, otherwise the last child of the path node at depth d - 1.
  */
  function Graft(f: Forest, d: nat, x: TocItem): Forest
    requires d <= Depth(f)
  {
    if d == 0 then Snoc(f, TocNode(x, Empty))
    else Snoc(f.init, TocNode(f.last.item, Graft(f.last.children, d - 1, x)))
  }

  lemma {:induction false} GraftFlatten(f: Forest, d: nat, x: TocItem)
    requires d <= Depth(f)
    ensures Flatten(Graft(f, d, x)) == Flatten(f) + [x]
  {
    if d > 0 {
      GraftFlatten(f.last.children, d - 1, x);
    }
  }

  lemma {:induction false} GraftSpine(f: Forest, d: nat, x: TocItem, base: int)
    requires d <= Depth(f)
    ensures Depth(Graft(f, d, x)) == d + 1
    ensures SpineIdx(Graft(f, d, x), base) == SpineIdx(f, base)[..d] + [base + Size(f)]
    ensures SpineItems(Graft(f, d, x)) == SpineItems(f)[..d] + [x]
  {
    if d > 0 {
      var pos := base + Size(f.init);
      GraftSpine(f.last.children, d - 1, x, pos + 1);
      var s, t := SpineIdx(f.last.children, pos + 1), SpineItems(f.last.children);
      assert ([pos] + s)[..d] == [pos] + s[..d - 1];
      assert ([f.last.item] + t)[..d] == [f.last.item] + t[..d - 1];
    }
  }

  lemma {:induction false} GraftParents(f: Forest, d: nat, x: TocItem, base: int, p: int)
    requires d <= Depth(f)
    ensures Parents(Graft(f, d, x), base, p)
         == Parents(f, base, p) + [if d == 0 then p else SpineIdx(f, base)[d - 1]]
  {
    if d == 0 {
      var front := Parents(f, base, p);
      assert Parents(Graft(f, d, x), base, p) == front + [p] + Parents(Empty, base + Size(f) + 1, base + Size(f));
      assert front + [p] + [] == front + [p];
    } else {
      var pos := base + Size(f.init);
      var children := f.last.children;
      var inner := Graft(children, d - 1, x);
      GraftParents(children, d - 1, x, pos + 1, pos);
      var q := if d == 1 then pos else SpineIdx(children, pos + 1)[d - 2];
      assert SpineIdx(f, base)[d - 1] == q;
      var front := Parents(f.init, base, p) + [p];
      assert Parents(Graft(f, d, x), base, p) == front + Parents(inner, pos + 1, pos);
      assert Parents(f, base, p) == front + Parents(children, pos + 1, pos);
      assert front + (Parents(children, pos + 1, pos) + [q]) == (front + Parents(children, pos + 1, pos)) + [q];
    }
  }

  lemma {:induction false} GraftRootsAbove(f: Forest, d: nat, x: TocItem, level: int)
    requires d <= Depth(f) && RootsAbove(f, level)
    requires d == 0 ==> x.level > level
    ensures RootsAbove(Graft(f, d, x), level)
  {
  }

  lemma {:induction false} GraftDeeper(f: Forest, d: nat, x: TocItem)
    requires d <= Depth(f) && ChildrenDeeper(f)
    requires d > 0 ==> SpineItems(f)[d - 1].level < x.level
    ensures ChildrenDeeper(Graft(f, d, x))
  {
    if d > 0 {
      var last := f.last;
      if d > 1 {
        assert SpineItems(last.children)[d - 2] == SpineItems(f)[d - 1];
      }
      GraftDeeper(last.children, d - 1, x);
      GraftRootsAbove(last.children, d - 1, x, last.item.level);
    }
  }

  // ---------------------------------------------------------------------
  // Reference: the parent a heading should get
  // ---------------------------------------------------------------------

  /** Searching down from position j - 1: the first heading with a level below `level`, or -1. */
  function NearestBelow(items: seq<TocItem>, level: int, j: nat): (r: int)
    requires j <= |items|
    ensures -1 <= r < j
    decreases j
  {
    if j == 0 then -1
    else if items[j - 1].level < level then j - 1
    else NearestBelow(items, level, j - 1)
  }

  /** The parent heading k should have: the nearest earlier heading of a smaller level, or -1 for a root. */
  function RefParent(items: seq<TocItem>, k: nat): int
    requires k < |items|
  {
    NearestBelow(items, items[k].level, k)
  }

  lemma {:induction false} NearestBelowSpec(items: seq<TocItem>, level: int, j: nat)
    requires j <= |items|
    ensures var r := NearestBelow(items, level, j);
            (r == -1 && forall m :: 0 <= m < j ==> items[m].level >= level) ||
            (0 <= r && items[r].level < level && forall m :: r < m < j ==> items[m].level >= level)
    decreases j
  {
    if j > 0 && items[j - 1].level >= level {
      NearestBelowSpec(items, level, j - 1);
    }
  }

  /** A heading becomes a root exactly when no earlier heading has a smaller level. */
  lemma RootIffNoSmallerBefore(items: seq<TocItem>, k: nat)
    requires k < |items|
    ensures RefParent(items, k) == -1 <==> forall j :: 0 <= j < k ==> items[j].level >= items[k].level
  {
    NearestBelowSpec(items, items[k].level, k);
  }

  /** A parent comes earlier and has a strictly smaller level; nothing between them is smaller than the child. */
  lemma ParentIsNearestSmaller(items: seq<TocItem>, k: nat)
    requires k < |items| && RefParent(items, k) != -1
    ensures 0 <= RefParent(items, k) < k
    ensures items[RefParent(items, k)].level < items[k].level
    ensures forall m :: RefParent(items, k) < m < k ==> items[m].level >= items[k].level
  {
    NearestBelowSpec(items, items[k].level, k);
  }

  /** A heading with the same level as the one before it is that heading's sibling, never its child. */
  lemma EqualLevelsAreSiblings(items: seq<TocItem>, k: nat)
    requires 0 < k < |items| && items[k - 1].level == items[k].level
    ensures RefParent(items, k) == RefParent(items, k - 1)
    ensures RefParent(items, k) != k - 1
  {
    NearestBelowSpec(items, items[k].level, k);
  }

  // ---------------------------------------------------------------------
  // The fold
  // ---------------------------------------------------------------------

  /** Heading j is still open after the first k headings: everything after it so far is deeper. */
  ghost predicate Open(items: seq<TocItem>, j: nat, k: nat)
    requires j < k <= |items|
  {
    forall m :: j < m < k ==> items[m].level > items[j].level
  }

  /**
    The stack after k headings: positions below k, increasing, with strictly
    increasing levels, holding exactly the open headings.
  */
  ghost predicate StackInv(items: seq<TocItem>, k: nat, stack: seq<int>)
    requires k <= |items|
  {
    (forall t :: 0 <= t < |stack| ==> 0 <= stack[t] < k) &&
    (forall a, b :: 0 <= a < b < |stack| ==> stack[a] < stack[b] && items[stack[a]].level < items[stack[b]].level) &&
    (forall j :: 0 <= j < k ==> (j in stack <==> Open(items, j, k)))
  }

  /** Heading j stays open after heading k exactly when it was open and k is deeper. */
  lemma OpenExtend(items: seq<TocItem>, j: nat, k: nat)
    requires j < k < |items|
    ensures Open(items, j, k + 1) <==> Open(items, j, k) && items[k].level > items[j].level
  {
  }

  /**
    After popping every stack entry whose level is at least that of heading
    k, the top of what remains is heading k's reference parent.
  */
  lemma PopStepParent(items: seq<TocItem>, k: nat, spine: seq<int>, d: nat)
    requires k < |items| && StackInv(items, k, spine) && Popped(items, k, spine, d)
    ensures RefParent(items, k) == if d == 0 then -1 else spine[d - 1]
  {
    NearestBelowSpec(items, items[k].level, k);
    var r := RefParent(items, k);
    if r != -1 {
      assert Open(items, r, k);
      var t :| 0 <= t < |spine| && spine[t] == r;
      assert t < d;
    }
  }

  /** Pushing heading k on what remains after the pops gives the stack after k + 1 headings. */
  lemma PopStepStack(items: seq<TocItem>, k: nat, spine: seq<int>, d: nat)
    requires k < |items| && StackInv(items, k, spine) && Popped(items, k, spine, d)
    ensures StackInv(items, k + 1, spine[..d] + [k])
  {
    var level := items[k].level;
    var s := spine[..d] + [k];
    assert forall t :: 0 <= t < d ==> s[t] == spine[t];
    assert s[d] == k;
    forall t | 0 <= t < d ensures items[spine[t]].level < level {
      if t < d - 1 {
        assert items[spine[t]].level < items[spine[d - 1]].level;
      }
    }
    forall j | 0 <= j < k + 1 ensures j in s <==> Open(items, j, k + 1) {
      if j < k {
        OpenExtend(items, j, k);
        if j in s {
          var t :| 0 <= t < |s| && s[t] == j;
          assert spine[t] == j;
        }
        if Open(items, j, k + 1) {
          assert j in spine;
          var t :| 0 <= t < |spine| && spine[t] == j;
          assert t < d;
          assert s[t] == j;
        }
      }
    }
  }

  /**
    The state of the fold after the first k headings: the forest holds them in
    pre-order, the stack is its rightmost path, every heading so far has its
    reference parent, and children are deeper than their parents.
  */
  ghost predicate FoldInv(items: seq<TocItem>, k: nat, roots: Forest, stack: seq<int>)
    requires k <= |items|
  {
    Flatten(roots) == items[..k] &&
    stack == SpineIdx(roots, 0) &&
    StackInv(items, k, stack) &&
    (forall t :: 0 <= t < |stack| ==> SpineItems(roots)[t] == items[stack[t]]) &&
    |Parents(roots, 0, -1)| == k &&
    (forall m :: 0 <= m < k ==> Parents(roots, 0, -1)[m] == RefParent(items, m)) &&
    ChildrenDeeper(roots)
  }

  /** What the pops leave: a prefix of the stack below heading k's level, the rest at or above it. */
  ghost predicate Popped(items: seq<TocItem>, k: nat, spine: seq<int>, d: nat)
    requires k < |items| && StackInv(items, k, spine)
  {
    d <= |spine| &&
    (forall t :: d <= t < |spine| ==> items[spine[t]].level >= items[k].level) &&
    (d > 0 ==> items[spine[d - 1]].level < items[k].level)
  }

  lemma FoldStepTree(items: seq<TocItem>, k: nat, roots: Forest, spine: seq<int>, d: nat)
    requires k < |items| && FoldInv(items, k, roots, spine) && Popped(items, k, spine, d)
    ensures d <= Depth(roots)
    ensures Flatten(Graft(roots, d, items[k])) == items[..k + 1]
    ensures ChildrenDeeper(Graft(roots, d, items[k]))
  {
    GraftFlatten(roots, d, items[k]);
    assert items[..k + 1] == items[..k] + [items[k]];
    if d > 0 {
      assert SpineItems(roots)[d - 1] == items[spine[d - 1]];
    }
    GraftDeeper(roots, d, items[k]);
  }

  lemma FoldStepSpine(items: seq<TocItem>, k: nat, roots: Forest, spine: seq<int>, d: nat)
    requires k < |items| && FoldInv(items, k, roots, spine) && Popped(items, k, spine, d)
    ensures d <= Depth(roots)
    ensures spine[..d] + [k] == SpineIdx(Graft(roots, d, items[k]), 0)
    ensures StackInv(items, k + 1, spine[..d] + [k])
    ensures forall t :: 0 <= t < d + 1 ==> SpineItems(Graft(roots, d, items[k]))[t] == items[(spine[..d] + [k])[t]]
  {
    PopStepStack(items, k, spine, d);
    GraftSpine(roots, d, items[k], 0);
    assert |Flatten(roots)| == k;
  }

  lemma FoldStepParents(items: seq<TocItem>, k: nat, roots: Forest, spine: seq<int>, d: nat)
    requires k < |items| && FoldInv(items, k, roots, spine) && Popped(items, k, spine, d)
    ensures d <= Depth(roots)
    ensures |Parents(Graft(roots, d, items[k]), 0, -1)| == k + 1
    ensures forall m :: 0 <= m < k + 1 ==> Parents(Graft(roots, d, items[k]), 0, -1)[m] == RefParent(items, m)
  {
    PopStepParent(items, k, spine, d);
    GraftParents(roots, d, items[k], 0, -1);
    var ps := Parents(roots, 0, -1);
    var q := if d == 0 then -1 else SpineIdx(roots, 0)[d - 1];
    forall m | 0 <= m < k + 1 ensures (ps + [q])[m] == RefParent(items, m) {
      if m < k {
        assert (ps + [q])[m] == ps[m];
      }
    }
  }

  /** One iteration of the fold, once the pops are done, keeps FoldInv. */
  lemma FoldStep(items: seq<TocItem>, k: nat, roots: Forest, spine: seq<int>, d: nat)
    requires k < |items| && FoldInv(items, k, roots, spine) && Popped(items, k, spine, d)
    ensures d <= Depth(roots)
    ensures FoldInv(items, k + 1, Graft(roots, d, items[k]), spine[..d] + [k])
  {
    FoldStepTree(items, k, roots, spine, d);
    FoldStepSpine(items, k, roots, spine, d);
    FoldStepParents(items, k, roots, spine, d);
  }

  /** The while loop popping every stack entry whose level is at least heading k's. */
  method PopAtLeast(items: seq<TocItem>, k: nat, stack: seq<int>) returns (rest: seq<int>)
    requires k < |items| && StackInv(items, k, stack)
    ensures |rest| <= |stack| && rest == stack[..|rest|]
    ensures Popped(items, k, stack, |rest|)
  {
    var level := items[k].level;
    rest := stack;
    while |rest| > 0 && items[rest[|rest| - 1]].level >= level
      invariant |rest| <= |stack| && rest == stack[..|rest|]
      invariant forall t :: |rest| <= t < |stack| ==> items[stack[t]].level >= level
      decreases |rest|
    {
      rest := rest[..|rest| - 1];
    }
  }

  /** The fold's invariant after the last heading gives BuildOutline's postcondition. */
  lemma FoldDone(items: seq<TocItem>, roots: Forest, stack: seq<int>)
    requires FoldInv(items, |items|, roots, stack)
    ensures Flatten(roots) == items
    ensures |Parents(roots, 0, -1)| == |items|
    ensures forall k :: 0 <= k < |items| ==> Parents(roots, 0, -1)[k] == RefParent(items, k)
    ensures ChildrenDeeper(roots)
  {
    assert items[..|items|] == items;
  }

  /**
    One pass of the fold's foreach: pop the entries of level at least heading
    k's, attach heading k as a root (empty stack) or as the last child of the
    stack top, and push it.
  */
  method FoldOne(items: seq<TocItem>, k: nat, roots: Forest, stack: seq<int>)
    returns (roots': Forest, stack': seq<int>)
    requires k < |items| && FoldInv(items, k, roots, stack)
    ensures FoldInv(items, k + 1, roots', stack')
  {
    var rest := PopAtLeast(items, k, stack);
    FoldStep(items, k, roots, stack, |rest|);
    roots' := Graft(roots, |rest|, items[k]);
    stack' := rest + [k];
  }

  /**
    UpdateTableOfContents's fold over the headings, with a stack of the
    pre-order positions of the open headings.
  */
  method BuildOutline(items: seq<TocItem>) returns (roots: Forest)
    ensures Flatten(roots) == items
    ensures |Parents(roots, 0, -1)| == |items|
    ensures forall k :: 0 <= k < |items| ==> Parents(roots, 0, -1)[k] == RefParent(items, k)
    ensures ChildrenDeeper(roots)
  {
    roots := Empty;
    var stack: seq<int> := [];
    for k := 0 to |items|
      invariant FoldInv(items, k, roots, stack)
    {
      roots, stack := FoldOne(items, k, roots, stack);
    }
    FoldDone(items, roots, stack);
  }

  /**
    The outline panel for the editor text: nothing for blank text or when no
    heading is found, otherwise the folded forest of the extracted headings.
    `headingsOf` stands for rendering the text and matching heading tags.
  */
  method UpdateTableOfContents(text: string, headingsOf: string -> seq<HeadingMatch>, decode: string -> string)
    returns (roots: Forest)
    ensures IsNullOrWhiteSpace(text) ==> roots == Empty
    ensures !IsNullOrWhiteSpace(text) ==>
      var items := Extracted(headingsOf(text), decode);
      Flatten(roots) == items && |Parents(roots, 0, -1)| == |items| &&
      (forall k :: 0 <= k < |items| ==> Parents(roots, 0, -1)[k] == RefParent(items, k)) &&
      ChildrenDeeper(roots)
  {
    if IsNullOrWhiteSpace(text) {
      return Empty;
    }
    var items := ExtractHeadings(headingsOf(text), decode);
    if |items| == 0 {
      return Empty;
    }
    roots := BuildOutline(items);
  }
}
