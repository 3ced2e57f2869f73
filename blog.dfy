/** The home page carousel: the active tool index moves circularly, and the
    page shows the active tool with its two neighbours. */
module Blog {
  /** The ids of the tools, in carousel order. */
  const ToolIds: seq<string> := ["receipt", "mixtape", "polaroid", "game", "mixer"]

  /** `(prev + 1) % total`. */
  function NextIndex(i: nat, total: nat): (r: nat)
    requires total > 0
    ensures r < total
    ensures i < total - 1 ==> r == i + 1
    ensures i == total - 1 ==> r == 0
  {
    (i + 1) % total
  }

  /** `(prev - 1 + total) % total`; the operand is never negative, so the
      truncating remainder of the source and the Euclidean one agree. */
  function PrevIndex(i: nat, total: nat): (r: nat)
    requires total > 0
    ensures r < total
    ensures 0 < i < total ==> r == i - 1
    ensures i == 0 ==> r == total - 1
  {
    (i - 1 + total) % total
  }

  /** Each move undoes the other on an index in range. */
  lemma NextPrevInverse(i: nat, total: nat)
    requires i < total
    ensures NextIndex(PrevIndex(i, total), total) == i
    ensures PrevIndex(NextIndex(i, total), total) == i
  {
  }

  /** `k` presses of the next button. */
  function NextTimes(i: nat, total: nat, k: nat): (r: nat)
    requires total > 0 && i < total
    ensures r < total
  {
    if k == 0 then i else NextIndex(NextTimes(i, total, k - 1), total)
  }

  /** Without wrapping, `k` presses advance the index by `k`. */
  lemma {:induction false} NextTimesNoWrap(i: nat, total: nat, k: nat)
    requires i + k < total
    ensures NextTimes(i, total, k) == i + k
  {
    if k > 0 {
      NextTimesNoWrap(i, total, k - 1);
    }
  }

  /** Presses compose: `a + b` presses are `a` presses, then `b` more. */
  lemma {:induction false} NextTimesCompose(i: nat, total: nat, a: nat, b: nat)
    requires total > 0 && i < total
    ensures NextTimes(i, total, a + b) == NextTimes(NextTimes(i, total, a), total, b)
  {
    if b > 0 {
      NextTimesCompose(i, total, a, b - 1);
    }
  }

  /** Going all the way round the carousel returns to the start. */
  lemma FullCycle(i: nat, total: nat)
    requires total > 0 && i < total
    ensures NextTimes(i, total, total) == i
  {
    var toLast := total - 1 - i;
    NextTimesNoWrap(i, total, toLast);
    NextTimesCompose(i, total, toLast, 1);
    assert NextTimes(i, total, toLast + 1) == 0;
    NextTimesCompose(i, total, toLast + 1, i);
    NextTimesNoWrap(0, total, i);
  }

  /** The previous, current and next tools shown by the page. */
  datatype Visible = Visible(prev: string, current: string, next: string)

  /** `getVisibleTools` at an active index. */
  function VisibleTools(activeIndex: nat): (v: Visible)
    requires activeIndex < |ToolIds|
    ensures v.current == ToolIds[activeIndex]
    ensures v.prev == ToolIds[PrevIndex(activeIndex, |ToolIds|)]
    ensures v.next == ToolIds[NextIndex(activeIndex, |ToolIds|)]
  {
    var total := |ToolIds|;
    Visible(ToolIds[(activeIndex - 1 + total) % total], ToolIds[activeIndex], ToolIds[(activeIndex + 1) % total])
  }

  /** With at least three tools the neighbours and the active index are
      three different positions. */
  lemma VisibleIndicesDistinct(i: nat, total: nat)
    requires 3 <= total && i < total
    ensures PrevIndex(i, total) != i && NextIndex(i, total) != i
    ensures PrevIndex(i, total) != NextIndex(i, total)
  {
  }

  /** The five tools have different ids, so the page shows three different
      tools. */
  lemma VisibleToolsDistinct(activeIndex: nat)
    requires activeIndex < |ToolIds|
    ensures var v := VisibleTools(activeIndex); v.prev != v.current && v.current != v.next && v.prev != v.next
  {
    VisibleIndicesDistinct(activeIndex, |ToolIds|);
    assert forall a, b :: 0 <= a < b < |ToolIds| ==> ToolIds[a] != ToolIds[b];
  }

  /** The component's `activeIndex` state. */
  class Carousel {
    var activeIndex: nat

    ghost predicate Valid()
      reads this
    {
      activeIndex < |ToolIds|
    }

    constructor()
      ensures Valid() && activeIndex == 0
    {
      activeIndex := 0;
    }

    /** `nextSlide`. */
    method NextSlide()
      requires Valid()
      modifies this
      ensures Valid() && activeIndex == NextIndex(old(activeIndex), |ToolIds|)
    {
      activeIndex := (activeIndex + 1) % |ToolIds|;
    }

    /** `prevSlide`. */
    method PrevSlide()
      requires Valid()
      modifies this
      ensures Valid() && activeIndex == PrevIndex(old(activeIndex), |ToolIds|)
    {
      activeIndex := (activeIndex - 1 + |ToolIds|) % |ToolIds|;
    }
  }
}
