/**
 * The dropdown widget of the configuration menu: a button beside a background
 * panel that opens into a list of the bound selection's choices.
 *
 * The host's pointer position, viewport height and "available for selection"
 * test are parameters; its single-active-component registry is the `active`
 * field of the widget.
 */
module Components {
  import opened Wrappers
  import opened Rectangles
  import opened ConfigSelection
  import opened DropdownRules

  /** What Draw puts on screen, reduced to indices and strings. */
  datatype Frame =
    | Open(rows: seq<int>, highlighted: Option<int>)
    | Closed(face: ClosedFace)

  class ConfigDropdown {
    const modData: Selection
    var hoveredIndex: int
    var button: Rect
    var background: Rect
    var active: bool

    /**
     * The layout the setters and handlers maintain: the button sits flush
     * against the panel's right edge, the panel is at least
     * MinBackgroundWidth wide, it is one row tall when closed and one row per
     * choice when open, and an open panel's hovered row is inside the list.
     * The host is assumed not to change the choice list while the panel is open.
     */
    ghost predicate Valid()
      reads this, modData
    {
      button.height > 0 &&
      background.width >= MinBackgroundWidth &&
      button.x == background.Right() &&
      0 <= hoveredIndex &&
      (active ==> hoveredIndex < |modData.choices| && background.height == button.height * |modData.choices|) &&
      (!active ==> background.height == button.height)
    }

    function X(): int reads this { background.x }
    function Y(): int reads this { button.y }
    function Height(): int reads this { button.height }
    function Width(): int reads this { background.width + button.width }

    predicate Enabled()
      reads this, modData
    {
      |modData.choices| > 0 && modData.enabled
    }

    predicate ContainsPoint(x: int, y: int)
      reads this
    {
      background.Contains(x, y) || button.Contains(x, y)
    }

    /** The button's size is the host's tile size, given here as parameters. */
    constructor (option: Selection, width: int, x: int, y: int, buttonWidth: int, buttonHeight: int)
      requires buttonHeight > 0
      ensures Valid()
      ensures modData == option && !active && hoveredIndex == 0
      ensures X() == x && Y() == y && Height() == buttonHeight
      ensures Width() == Max(width - buttonWidth, MinBackgroundWidth) + buttonWidth
      ensures background == Rect(x, y, Max(width - buttonWidth, MinBackgroundWidth), buttonHeight)
      ensures button == Rect(background.Right(), y, buttonWidth, buttonHeight)
    {
      modData := option;
      hoveredIndex := 0;
      active := false;
      button := Rect(MinBackgroundWidth, 0, buttonWidth, buttonHeight);
      background := Rect(0, 0, MinBackgroundWidth, buttonHeight);
      new;
      SetX(x);
      SetY(y);
      SetWidth(width);
      background := background.(height := button.height);
    }

    /** Moves the panel's left edge to `v`; the button follows the panel's right edge. */
    method SetX(v: int)
      requires Valid()
      modifies this
      ensures Valid()
      ensures X() == v && button.x == background.Right()
      ensures background == old(background).(x := v)
      ensures button == old(button).(x := v + background.width)
      ensures active == old(active) && hoveredIndex == old(hoveredIndex)
    {
      background := background.(x := v);
      button := button.(x := background.Right());
    }

    /** Moves both the panel and the button to top edge `v`. */
    method SetY(v: int)
      requires Valid()
      modifies this
      ensures Valid()
      ensures Y() == v && background.y == v
      ensures background == old(background).(y := v)
      ensures button == old(button).(y := v)
      ensures active == old(active) && hoveredIndex == old(hoveredIndex)
    {
      background := background.(y := v);
      button := button.(y := v);
    }

    /**
     * Sets the total width to `v` where the panel can take it, otherwise to
     * the narrowest panel plus the button; the button follows the panel's
     * right edge.
     */
    method SetWidth(v: int)
      requires Valid()
      modifies this
      ensures Valid()
      ensures background.width == Max(v - button.width, MinBackgroundWidth)
      ensures Width() >= MinBackgroundWidth + button.width
      ensures v - button.width >= MinBackgroundWidth ==> Width() == v
      ensures button.x == background.Right()
      ensures background == old(background).(width := background.width)
      ensures button == old(button).(x := background.Right())
      ensures active == old(active) && hoveredIndex == old(hoveredIndex)
    {
      var width := Max(v - button.width, MinBackgroundWidth);
      background := background.(width := width);
      button := button.(x := background.Right());
    }

    /**
     * A press: when the widget is enabled, available and hit, it becomes the
     * active component, opens to one row per choice, and handles the press
     * point as a drag starting from row 0. Otherwise nothing changes.
     */
    method ReceiveLeftClick(x: int, y: int, available: bool, viewportHeight: int)
      requires Valid()
      modifies this
      ensures Valid()
      ensures !old(Enabled() && available && ContainsPoint(x, y)) ==> unchanged(this)
      ensures old(Enabled() && available && ContainsPoint(x, y)) ==>
        var expanded := old(background).(height := old(button.height) * |modData.choices|);
        active && button == old(button) &&
        background.height == button.height * |modData.choices| &&
        0 <= hoveredIndex < |modData.choices| &&
        if expanded.Contains(x, y) then
          background == expanded.(y := Min(expanded.y, viewportHeight - expanded.height)) &&
          hoveredIndex == HoverRow(y, background.y, button.height, |modData.choices|)
        else
          background == expanded && hoveredIndex == 0
      ensures background.y <= old(background.y)
      ensures modData.selectedIndex == old(modData.selectedIndex)
    {
      if !Enabled() || !available {
        return;
      }
      if ContainsPoint(x, y) {
        active := true;
        background := background.(height := button.height * |modData.choices|);
        hoveredIndex := 0;
        LeftClickHeld(x, y, viewportHeight);
      }
    }

    /**
     * A drag while active and over the panel: the panel is pulled up so that
     * it ends inside the viewport, and the hovered row follows the pointer.
     * Otherwise nothing changes.
     */
    method LeftClickHeld(x: int, y: int, viewportHeight: int)
      requires Valid()
      modifies this
      ensures Valid()
      ensures !old(Enabled() && active && background.Contains(x, y)) ==> unchanged(this)
      ensures old(Enabled() && active && background.Contains(x, y)) ==>
        active && button == old(button) &&
        background == old(background).(y := Min(old(background.y), viewportHeight - old(background.height))) &&
        hoveredIndex == HoverRow(y, background.y, button.height, |modData.choices|) &&
        0 <= hoveredIndex < |modData.choices|
      ensures background.y <= old(background.y)
      ensures modData.selectedIndex == old(modData.selectedIndex)
    {
      if !Enabled() || !active {
        return;
      }
      if background.Contains(x, y) {
        background := background.(y := Min(background.y, viewportHeight - background.height));
        hoveredIndex := HoverRow(y, background.y, button.height, |modData.choices|);
      }
    }

    /**
     * A release while active: the widget stops being the active component;
     * over the panel of an enabled widget it commits the hovered row; the
     * panel always closes to one row. Inactive, nothing changes.
     */
    method ReleaseLeftClick(x: int, y: int)
      requires Valid()
      modifies this, modData`selectedIndex
      ensures Valid()
      ensures !old(active) ==> unchanged(this) && unchanged(modData)
      ensures old(active) ==>
        !active && background == old(background).(height := button.height) &&
        button == old(button) && hoveredIndex == old(hoveredIndex)
      ensures modData.selectedIndex ==
        if old(active && background.Contains(x, y) && Enabled())
        then Commit(old(hoveredIndex), old(modData.selectedIndex))
        else old(modData.selectedIndex)
      ensures old(active && 0 <= modData.selectedIndex < |modData.choices|) ==>
        0 <= modData.selectedIndex < |modData.choices|
      ensures old(active && background.Contains(x, y) && Enabled() && 0 <= modData.selectedIndex < |modData.choices|) ==>
        modData.selectedIndex == VisualOrder(|modData.choices|, old(modData.selectedIndex))[old(hoveredIndex)]
    {
      if !active {
        return;
      }
      active := false;
      ghost var n, sel, hovered := |modData.choices|, modData.selectedIndex, hoveredIndex;
      if background.Contains(x, y) {
        if Enabled() && |modData.choices| > 0 {
          SelectHoveredOption();
        }
      }
      background := background.(height := button.height);
      if 0 <= sel < n {
        CommitPicksDrawnRow(n, sel, hovered);
        if hovered > 0 {
          CommitInRange(n, hovered, sel);
        }
      }
    }

    /** Writes the choice index that the hovered row stands for back to the bound selection. */
    method SelectHoveredOption()
      modifies modData`selectedIndex
      ensures modData.selectedIndex == Commit(hoveredIndex, old(modData.selectedIndex))
    {
      if hoveredIndex == 0 {
        return;
      }
      modData.selectedIndex := if hoveredIndex > modData.selectedIndex then hoveredIndex else hoveredIndex - 1;
    }

    /**
     * What a draw shows. Open: the choice index listed at each row, built by
     * walking the choices with a separate row counter, and the row under a
     * highlight when the pointer is over the panel. Closed: the face of the
     * closed widget, with a stale selected index shown blank.
     */
    method Draw(mouseX: int, mouseY: int) returns (f: Frame)
      requires Valid()
      requires active ==> 0 <= modData.selectedIndex < |modData.choices|
      ensures active ==> f == Open(
        VisualOrder(|modData.choices|, modData.selectedIndex),
        if background.Contains(mouseX, mouseY) then Some(hoveredIndex) else None)
      ensures active && background.Contains(mouseX, mouseY) ==>
        f.rows[hoveredIndex] == Commit(hoveredIndex, modData.selectedIndex)
      ensures !active ==> f == Closed(ClosedView(modData.choices, modData.selectedIndex, Enabled(), background.Contains(mouseX, mouseY)))
    {
      var n := |modData.choices|;
      var selected := modData.selectedIndex;
      var inside := background.Contains(mouseX, mouseY);
      if !active {
        return Closed(ClosedView(modData.choices, selected, Enabled(), inside));
      }
      var highlighted: Option<int> := None;
      if 0 == hoveredIndex && inside {
        highlighted := Some(hoveredIndex);
      }
      var rows := [selected];
      var drawnPosition := 1;
      for i := 0 to n
        invariant rows == [selected] + Others(i, selected)
        invariant drawnPosition == |rows|
        invariant highlighted == if inside && hoveredIndex < drawnPosition then Some(hoveredIndex) else None
      {
        if i == selected {
          continue;
        }
        if drawnPosition == hoveredIndex && inside {
          highlighted := Some(drawnPosition);
        }
        rows := rows + [i];
        drawnPosition := drawnPosition + 1;
      }
      OthersAt(n, selected);
      CommitPicksDrawnRow(n, selected, hoveredIndex);
      f := Open(rows, highlighted);
    }
  }

  /** An example driven through the handlers: choices A..E, C selected, release over D. */
  method FiveChoiceScenario() {
    var choices := [Choice("A", None), Choice("B", None), Choice("C", None), Choice("D", None), Choice("E", None)];
    var selection := new Selection("Mode", true, 2, choices);
    var dropdown := new ConfigDropdown(selection, 200, 0, 100, 40, 44);
    dropdown.ReceiveLeftClick(10, 110, true, 1000);
    assert dropdown.active && dropdown.background.y == 100 && dropdown.hoveredIndex == 0;
    dropdown.LeftClickHeld(10, 240, 1000);
    assert dropdown.hoveredIndex == 3;
    dropdown.ReleaseLeftClick(10, 240);
    assert selection.selectedIndex == 3 && !dropdown.active;
  }
}
