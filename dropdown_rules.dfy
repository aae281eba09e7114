/**
 * The pure arithmetic of the dropdown: which row the pointer is over, which
 * choice a committed row stands for, the order in which the open panel lists
 * the choices, and what the closed widget shows.
 */
module DropdownRules {
  import opened Wrappers
  import opened ConfigSelection

  /** The background panel is never narrower than this. */
  const MinBackgroundWidth: int := 15

  function Min(a: int, b: int): int { if a <= b then a else b }
  function Max(a: int, b: int): int { if a >= b then a else b }

  /**
   * The hovered row for a pointer at height `y` over a panel whose top is
   * `top`, with rows `rowHeight` tall and `n` choices: the row under the
   * pointer, clamped into the list. The host divides with truncation toward
   * zero; a negative quotient is clamped to 0 either way, so Euclidean
   * division gives the same row.
   */
  function HoverRow(y: int, top: int, rowHeight: int, n: int): (r: int)
    requires rowHeight > 0
    ensures 0 <= r
    ensures n >= 1 ==> r < n
    ensures y < top ==> r == 0
    ensures top <= y < top + rowHeight * n ==> top + rowHeight * r <= y < top + rowHeight * (r + 1)
    ensures n >= 1 && top + rowHeight * n <= y ==> r == n - 1
  {
    QuotientBounds(y - top, rowHeight, n);
    Max(Min((y - top) / rowHeight, n - 1), 0)
  }

  /** Where the Euclidean quotient `d / h` lies for an offset `d` below, inside or past `n` rows of height `h`. */
  lemma QuotientBounds(d: int, h: int, n: int)
    requires h > 0
    ensures d < 0 ==> d / h < 0
    ensures 0 <= d < h * n ==> 0 <= d / h < n && h * (d / h) <= d < h * (d / h + 1)
    ensures h * n <= d ==> d / h >= n
  {
  }

  /**
   * The commit rule: the choice index that the hovered row of the open panel
   * stands for, given the currently selected index. Row 0 shows the selection
   * itself; the other rows list the remaining choices in order.
   */
  function Commit(hovered: int, selected: int): int {
    if hovered == 0 then selected
    else if hovered > selected then hovered
    else hovered - 1
  }

  /** The indices 0 .. n-1 other than `selected`, in ascending order. */
  function Others(n: nat, selected: int): (r: seq<int>)
    ensures |r| == if 0 <= selected < n then n - 1 else n
    ensures forall k :: 0 <= k < |r| ==> 0 <= r[k] < n && r[k] != selected
  {
    if n == 0 then []
    else Others(n - 1, selected) + (if n - 1 == selected then [] else [n - 1])
  }

  /** The choice index listed at each row of the open panel: the selection first, then the rest. */
  function VisualOrder(n: nat, selected: int): (r: seq<int>)
    ensures 0 <= selected < n ==> |r| == n
  {
    [selected] + Others(n, selected)
  }

  /** The row of the open panel at which choice `i` is listed (the inverse of VisualOrder). */
  function RowOf(i: int, selected: int): int {
    if i == selected then 0
    else if i < selected then i + 1
    else i
  }

  lemma {:induction false} OthersAt(n: nat, selected: int)
    ensures forall k :: 0 <= k < |Others(n, selected)| ==>
      Others(n, selected)[k] == if 0 <= selected <= k then k + 1 else k
  {
    if n > 0 {
      OthersAt(n - 1, selected);
    }
  }

  /** Row `p` of the open panel lists exactly the choice that committing row `p` selects. */
  lemma CommitPicksDrawnRow(n: nat, selected: int, p: int)
    requires 0 <= selected < n
    requires 0 <= p < n
    ensures |VisualOrder(n, selected)| == n
    ensures VisualOrder(n, selected)[p] == Commit(p, selected)
  {
    OthersAt(n, selected);
    if p > 0 {
      assert VisualOrder(n, selected)[p] == Others(n, selected)[p - 1];
    }
  }

  /** The open panel lists every choice exactly once: the selected one first, the rest ascending. */
  lemma VisualOrderIsPermutation(n: nat, selected: int)
    requires 0 <= selected < n
    ensures |VisualOrder(n, selected)| == n
    ensures VisualOrder(n, selected)[0] == selected
    ensures forall p :: 0 <= p < n ==> 0 <= VisualOrder(n, selected)[p] < n
    ensures forall p, q :: 1 <= p < q < n ==> VisualOrder(n, selected)[p] < VisualOrder(n, selected)[q]
    ensures forall p, q :: 0 <= p < q < n ==> VisualOrder(n, selected)[p] != VisualOrder(n, selected)[q]
    ensures forall i :: 0 <= i < n ==> 0 <= RowOf(i, selected) < n && VisualOrder(n, selected)[RowOf(i, selected)] == i
  {
    OthersAt(n, selected);
    var v := VisualOrder(n, selected);
    assert forall p :: 1 <= p < n ==> v[p] == Others(n, selected)[p - 1];
  }

  /**
   * A commit from any row but the first picks a choice inside the list and
   * different from the previous selection, whatever the previous index was.
   */
  lemma CommitInRange(n: nat, hovered: int, selected: int)
    requires 1 <= hovered < n
    ensures 0 <= Commit(hovered, selected) < n
    ensures Commit(hovered, selected) != selected
  {
  }

  /** Committing the row that lists choice `i` selects `i`: every choice can be reached. */
  lemma CommitReachesEveryChoice(n: nat, selected: int, i: int)
    requires 0 <= selected < n
    requires 0 <= i < n
    ensures 0 <= RowOf(i, selected) < n
    ensures Commit(RowOf(i, selected), selected) == i
  {
  }

  /** An example: choices A..E with C selected are listed C, A, B, D, E. */
  lemma FiveChoiceExample()
    ensures VisualOrder(5, 2) == [2, 0, 1, 3, 4]
    ensures Commit(3, 2) == 3 && Commit(2, 2) == 1
  {
  }

  // ---- the closed widget -------------------------------------------------

  /** What the closed widget shows: the selection's label and, when hovered, its help text. */
  datatype ClosedFace = ClosedFace(text: string, tooltip: Option<string>)

  /** A draw either produces a face or fails on an index outside the choice list. */
  datatype Drawn = Shown(face: ClosedFace) | IndexOutOfRange

  /**
   * The closed-state draw as written: the label read is guarded against an
   * index past the end of the list (but not against a negative one), while
   * the help-text read for a hovered, enabled widget is not guarded at all.
   */
  function ClosedFaceAsWritten(choices: seq<Choice>, selected: int, enabled: bool, pointerInside: bool): Drawn {
    if selected < 0 then IndexOutOfRange
    else
      var text := if selected >= |choices| then "" else choices[selected].text;
      if enabled && pointerInside then
        if selected >= |choices| then IndexOutOfRange
        else Shown(ClosedFace(text, choices[selected].hoverText))
      else Shown(ClosedFace(text, None))
  }

  /** The closed-state draw with both reads guarded: a stale index shows a blank label and no help. */
  function ClosedView(choices: seq<Choice>, selected: int, enabled: bool, pointerInside: bool): (f: ClosedFace)
    ensures f.tooltip.Some? ==> enabled && pointerInside && 0 <= selected < |choices|
  {
    var known := 0 <= selected < |choices|;
    ClosedFace(
      if known then choices[selected].text else "",
      if known && enabled && pointerInside then choices[selected].hoverText else None)
  }

  /** The label guard: blank past the end of the list, otherwise the selected choice's label. */
  lemma ClosedLabelGuard(choices: seq<Choice>, selected: int, enabled: bool, pointerInside: bool)
    requires selected >= 0
    requires !(enabled && pointerInside)
    ensures ClosedFaceAsWritten(choices, selected, enabled, pointerInside).Shown?
    ensures var f := ClosedFaceAsWritten(choices, selected, enabled, pointerInside).face;
      f.tooltip == None &&
      f.text == if selected >= |choices| then "" else choices[selected].text
  {
  }

  /** A stale index survives the label guard and then fails on the help-text read. */
  lemma StaleIndexTooltipFails()
    ensures ClosedFaceAsWritten([Choice("A", None)], 1, true, true) == IndexOutOfRange
  {
  }

  /** The guarded draw agrees with the code as written wherever that does not fail. */
  lemma ClosedViewAgrees(choices: seq<Choice>, selected: int, enabled: bool, pointerInside: bool)
    ensures ClosedFaceAsWritten(choices, selected, enabled, pointerInside).Shown? ==>
      ClosedFaceAsWritten(choices, selected, enabled, pointerInside).face == ClosedView(choices, selected, enabled, pointerInside)
    ensures ClosedFaceAsWritten(choices, selected, enabled, pointerInside).IndexOutOfRange? <==>
      selected < 0 || (enabled && pointerInside && selected >= |choices|)
  {
  }
}
