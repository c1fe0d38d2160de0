/**
  The interaction core of the timeline grid panel: zoom, the maximum time
  bookkeeping, and the pointer and keyboard handlers with their gesture
  state machine.

  A Java null dereference (a `switch` on a null state, a null selection
  rectangle or a null hovered element) ends a handler early; here the
  handler then returns `NullDereference`, with the effects it had made
  before that point.
 */
module Grid {
  import opened Options
  import opened Mapper
  import opened NodeLists
  import opened Timeline

  datatype MouseState = Idle | DrawSelection | DragCursor | DragNodes | DragTrack

  /** A java.awt.Rectangle: a corner and a size that may be negative while it is drawn. */
  datatype Rect = Rect(x: int, y: int, width: int, height: int)

  /** What the grid panel sends to its callback. */
  datatype Notification = LengthChanged | ScrollRequired(amount: int)

  datatype Outcome = Completed | NullDereference

  const Button1: int := 1
  const VkDelete: int := 127
  const WheelStep: int := 40

  function Max(a: int, b: int): int
  {
    if a >= b then a else b
  }

  /** The same rectangle with the corner moved so that width and height are non-negative. */
  function Normalized(r: Rect): (n: Rect)
    ensures n.width >= 0 && n.height >= 0
    ensures {n.x, n.x + n.width} == {r.x, r.x + r.width}
    ensures {n.y, n.y + n.height} == {r.y, r.y + r.height}
  {
    Rect(if r.width < 0 then r.x + r.width else r.x,
         if r.height < 0 then r.y + r.height else r.y,
         if r.width < 0 then -r.width else r.width,
         if r.height < 0 then -r.height else r.height)
  }

  /**
    Rectangle.contains: a point of the half-open box of a rectangle of
    non-negative size; a rectangle without area contains no point.
   */
  predicate Contains(r: Rect, px: int, py: int)
    ensures Contains(r, px, py) ==> r.width > 0 && r.height > 0
    ensures Contains(r, px, py) ==> r.x <= px && r.y <= py
  {
    r.width >= 0 && r.height >= 0 && r.x <= px < r.x + r.width && r.y <= py < r.y + r.height
  }

  /** Whether node h of the model is among the nodes a sweep has passed when it reaches node k of row `line`. */
  ghost predicate Visited(elements: seq<Element>, h: Handle, line: int, k: int)
  {
    && h.elem < |elements| && h in elements[h.elem].nodes
    && (h.elem < line
        || (h.elem == line && 0 <= k <= |elements[line].nodes| && h in elements[line].nodes[..k]))
  }

  /**
    The selection `sel` of a sweep that has passed what `Visited(_, line, k)`
    names: a passed node of `hits` is selected (with ctrl: toggled), any
    other node keeps its membership of `before`.
   */
  ghost predicate Swept(sel: seq<Handle>, before: seq<Handle>, elements: seq<Element>, hits: set<Handle>,
                        ctrl: bool, line: int, k: int)
  {
    forall h :: h in sel <==>
      if Visited(elements, h, line, k) && h in hits then (ctrl ==> h !in before) else h in before
  }

  /** Visiting node k of row `line` (nodes of a row appear once) advances the sweep by that node. */
  lemma SweptAdvance(sel0: seq<Handle>, sel1: seq<Handle>, before: seq<Handle>, elements: seq<Element>,
                     hits: set<Handle>, ctrl: bool, line: nat, k: nat)
    requires line < |elements| && k < |elements[line].nodes|
    requires NoDup(elements[line].nodes) && elements[line].nodes[k].elem == line
    requires Swept(sel0, before, elements, hits, ctrl, line, k)
    requires var n := elements[line].nodes[k];
      forall h :: h in sel1 <==> if h == n && n in hits then (ctrl ==> n !in sel0) else h in sel0
    ensures Swept(sel1, before, elements, hits, ctrl, line, k + 1)
  {
    var nodes := elements[line].nodes;
    var n := nodes[k];
    assert nodes[..k + 1] == nodes[..k] + [n];
    assert n !in nodes[..k];
    assert !Visited(elements, n, line, k) && Visited(elements, n, line, k + 1);
    forall h | h != n
      ensures Visited(elements, h, line, k + 1) <==> Visited(elements, h, line, k)
    {
    }
  }

  /** Having passed every node of row `line` is having passed all rows before `line + 1`. */
  lemma SweptNextLine(sel: seq<Handle>, before: seq<Handle>, elements: seq<Element>, hits: set<Handle>,
                      ctrl: bool, line: nat)
    requires line < |elements|
    requires Swept(sel, before, elements, hits, ctrl, line, |elements[line].nodes|)
    ensures Swept(sel, before, elements, hits, ctrl, line + 1, 0)
  {
    var nodes := elements[line].nodes;
    assert nodes[..|nodes|] == nodes;
    forall h
      ensures Visited(elements, h, line, |nodes|) <==> Visited(elements, h, line + 1, 0)
    {
    }
  }

  class GridPanel {
    const parent: TimelinePanel
    var timeScale: Scale
    var hOffset: int
    var vOffset: int
    var maxTime: int
    /** The hovered element, by index. */
    var mouseOverElement: Option<nat>
    var mouseOverNode: Option<Handle>
    var isOverTrack: bool
    var selectionRect: Option<Rect>
    // The gesture fields of the mouse adapter; `state` starts out null.
    var state: Option<MouseState>
    var isPressed: bool
    var lastTime: int
    /** Everything sent to the callback, oldest first. */
    var notifications: seq<Notification>

    ghost predicate Valid()
      reads this, parent
    {
      && parent.Valid()
      && (mouseOverElement.Some? ==> mouseOverElement.value < |parent.elements|)
      && (mouseOverNode.Some? ==> mouseOverNode.value in parent.times && mouseOverNode.value.elem < |parent.elements|)
    }

    /** The time under pixel column x at the current zoom and scroll. */
    function TimeAt(x: int): int
      reads this
    {
      TimeFromX(x, timeScale, hOffset)
    }

    /** Whether the drawn position of node h, its column at its row's middle, lies in r. */
    ghost predicate InRect(r: Rect, h: Handle)
      reads this, parent
    {
      h in parent.times &&
      Contains(r, XFromTime(parent.times[h], timeScale, hOffset), YFromLine(h.elem, vOffset) + LineHeight / 2)
    }

    constructor (parent: TimelinePanel)
      requires parent.Valid()
      ensures Valid() && this.parent == parent
      ensures timeScale == Ratio(1, 1) && hOffset == 0 && vOffset == 0 && maxTime == 0
      ensures mouseOverElement == None && mouseOverNode == None && !isOverTrack && selectionRect == None
      ensures state == None && !isPressed && lastTime == 0 && notifications == []
    {
      this.parent := parent;
      timeScale := Ratio(1, 1);
      hOffset, vOffset, maxTime := 0, 0, 0;
      mouseOverElement, mouseOverNode, isOverTrack, selectionRect := None, None, false, None;
      state, isPressed, lastTime := None, false, 0;
      notifications := [];
    }

    // -------------------------------------------------------------------------
    // Zoom and length bookkeeping
    // -------------------------------------------------------------------------

    /** Zooms in: the time per pixel is divided by 1.2; the length always changes. */
    method RequestMagnification()
      modifies this`timeScale, this`notifications
      ensures timeScale == Ratio(old(timeScale.num) * 5, old(timeScale.den) * 6)
      ensures notifications == old(notifications) + [LengthChanged]
    {
      timeScale := Ratio(timeScale.num * 5, timeScale.den * 6);
      notifications := notifications + [LengthChanged];
    }

    /** Zooms out: the time per pixel is multiplied by 1.2; the length always changes. */
    method RequestMinification()
      modifies this`timeScale, this`notifications
      ensures timeScale == Ratio(old(timeScale.num) * 6, old(timeScale.den) * 5)
      ensures notifications == old(notifications) + [LengthChanged]
    {
      timeScale := Ratio(timeScale.num * 6, timeScale.den * 5);
      notifications := notifications + [LengthChanged];
    }

    /**
      The maximum time kept after each repaint: the later of the model's
      duration and the current time. The callback hears of it only when it
      changes; without a model nothing happens.
     */
    method RefreshMaxTime(duration: int)
      modifies this`maxTime, this`notifications
      ensures !parent.hasModel ==> maxTime == old(maxTime) && notifications == old(notifications)
      ensures parent.hasModel ==> maxTime == Max(duration, parent.currentTime)
      ensures parent.hasModel ==> notifications == old(notifications) + (if maxTime != old(maxTime) then [LengthChanged] else [])
    {
      if !parent.hasModel {
        return;
      }
      var oldMaxTime := maxTime;
      maxTime := Max(duration, parent.currentTime);
      if maxTime != oldMaxTime {
        notifications := notifications + [LengthChanged];
      }
    }

    // -------------------------------------------------------------------------
    // Pointer: press
    // -------------------------------------------------------------------------

    /**
      A press starts a gesture: on the ruler it drags the time cursor, on a
      hovered node it drags the selection (selecting the node first), and
      elsewhere it anchors a selection rectangle.
     */
    method MousePressed(x: int, y: int, button: int, ctrl: bool)
      requires Valid()
      modifies this`state, this`isPressed, this`lastTime, this`selectionRect, parent
      ensures Valid()
      ensures parent.hasModel == old(parent.hasModel) && parent.playing == old(parent.playing)
      ensures parent.elements == old(parent.elements) && parent.times == old(parent.times)
      ensures !parent.hasModel || parent.playing || button != Button1 ==> unchanged(this, parent)
      ensures parent.hasModel && !parent.playing && button == Button1 ==>
        var eTime, eLine := TimeAt(x), LineFromY(y, vOffset);
        && isPressed && lastTime == eTime
        && (eLine < 0 ==>
              && state == Some(DragCursor) && parent.currentTime == eTime
              && parent.selected == old(parent.selected) && selectionRect == old(selectionRect))
        && (eLine >= 0 && mouseOverNode.Some? ==>
              var n := mouseOverNode.value;
              && state == Some(DragNodes) && n in parent.selected
              && parent.selected == (if n in old(parent.selected) then old(parent.selected)
                                     else if ctrl then old(parent.selected) + [n] else [n])
              && parent.currentTime == old(parent.currentTime) && selectionRect == old(selectionRect))
        && (eLine >= 0 && mouseOverNode.None? ==>
              && state == Some(Idle) && selectionRect == Some(Rect(x, y, 0, 0))
              && parent.selected == old(parent.selected) && parent.currentTime == old(parent.currentTime))
    {
      if !parent.hasModel || parent.playing {
        return;
      }
      if button != Button1 {
        return;
      }
      var eTime := TimeAt(x);
      var eLine := LineFromY(y, vOffset);
      if eLine < 0 {
        state := Some(DragCursor);
        parent.SetCurrentTime(eTime);
      } else if mouseOverNode.Some? {
        state := Some(DragNodes);
        var n := mouseOverNode.value;
        if n !in parent.selected {
          if ctrl {
            parent.AddSelectedNode(n);
          } else {
            parent.SetSelectedNode(n);
          }
        }
      } else {
        state := Some(Idle);
        selectionRect := Some(Rect(x, y, 0, 0));
      }
      isPressed := true;
      lastTime := eTime;
    }

    // -------------------------------------------------------------------------
    // Pointer: release
    // -------------------------------------------------------------------------

    /**
      A release of the primary button ends the gesture the state names. It
      checks neither for a model nor for playback, and it leaves `state`
      as it is: only `isPressed` is cleared.
     */
    method MouseReleased(x: int, y: int, button: int, ctrl: bool) returns (outcome: Outcome)
      requires Valid()
      modifies this`isPressed, this`selectionRect, parent
      ensures Valid()
      ensures parent.hasModel == old(parent.hasModel) && parent.playing == old(parent.playing)
      ensures parent.times == old(parent.times)
      ensures button == Button1 && outcome == Completed ==> !isPressed
      ensures outcome == NullDereference ==> isPressed == old(isPressed)
      ensures button != Button1 ==> outcome == Completed && unchanged(this, parent)
      ensures button == Button1 && state == None ==> outcome == NullDereference && unchanged(this, parent)
      ensures button == Button1 && state == Some(Idle) ==>
        && outcome == Completed
        && parent.selected == [] && parent.currentTime == TimeAt(x)
        && parent.elements == old(parent.elements) && selectionRect == old(selectionRect)
      ensures button == Button1 && state == Some(DragNodes) && !parent.hasModel ==>
        outcome == NullDereference && unchanged(this, parent)
      ensures button == Button1 && state == Some(DragNodes) && parent.hasModel ==>
        && outcome == Completed
        && |parent.elements| == |old(parent.elements)|
        && (forall i :: 0 <= i < |parent.elements| ==>
              parent.elements[i] == Element(old(parent.elements[i].selectable), KeepLast(old(parent.elements[i].nodes), parent.times)))
        && parent.selected == old(parent.selected) && parent.currentTime == TimeAt(x)
        && selectionRect == old(selectionRect)
      ensures button == Button1 && (state == Some(DragCursor) || state == Some(DragTrack)) ==>
        && outcome == Completed && unchanged(parent) && selectionRect == old(selectionRect)
      ensures button == Button1 && state == Some(DrawSelection) ==>
        && parent.elements == old(parent.elements) && parent.currentTime == old(parent.currentTime)
        && (old(selectionRect).None? ==> outcome == NullDereference && selectionRect == None)
        && (old(selectionRect).Some? ==> selectionRect == None)
        && (old(selectionRect).Some? && !parent.hasModel ==> outcome == NullDereference)
        && (old(selectionRect).None? || !parent.hasModel ==>
              parent.selected == if ctrl then old(parent.selected) else [])
        && (old(selectionRect).Some? && parent.hasModel ==>
              var r := Normalized(old(selectionRect).value);
              && outcome == Completed
              && (!ctrl ==> forall h :: h in parent.selected <==> parent.InModel(h) && InRect(r, h))
              && (ctrl ==> forall h :: h in parent.selected <==>
                    if parent.InModel(h) && InRect(r, h) then h !in old(parent.selected) else h in old(parent.selected)))
    {
      if button != Button1 {
        return Completed;
      }
      var eTime := TimeAt(x);
      match state {
        case None =>
          return NullDereference;
        case Some(Idle) =>
          parent.ClearSelectedNodes();
          parent.SetCurrentTime(eTime);
        case Some(DragNodes) =>
          if !parent.hasModel {
            return NullDereference;
          }
          CorrectTimeline();
          parent.SetCurrentTime(eTime);
        case Some(DrawSelection) =>
          outcome := ReleaseSelection(ctrl);
          if outcome == NullDereference {
            return;
          }
        case Some(_) =>
      }
      isPressed := false;
      outcome := Completed;
    }

    /**
      The end of a rubber-band gesture: without ctrl the selection becomes
      the nodes drawn inside the normalised rectangle; with ctrl exactly
      those nodes change their selection status.
     */
    method ReleaseSelection(ctrl: bool) returns (outcome: Outcome)
      requires Valid()
      modifies this`selectionRect, parent
      ensures Valid()
      ensures parent.hasModel == old(parent.hasModel) && parent.playing == old(parent.playing)
      ensures parent.elements == old(parent.elements) && parent.times == old(parent.times)
      ensures parent.currentTime == old(parent.currentTime)
      ensures selectionRect == None
      ensures old(selectionRect).None? || !parent.hasModel ==>
        outcome == NullDereference && parent.selected == if ctrl then old(parent.selected) else []
      ensures old(selectionRect).Some? && parent.hasModel ==>
        var r := Normalized(old(selectionRect).value);
        && outcome == Completed
        && (!ctrl ==> forall h :: h in parent.selected <==> parent.InModel(h) && InRect(r, h))
        && (ctrl ==> forall h :: h in parent.selected <==>
              if parent.InModel(h) && InRect(r, h) then h !in old(parent.selected) else h in old(parent.selected))
    {
      if !ctrl {
        parent.ClearSelectedNodes();
      }
      if selectionRect.None? {
        return NullDereference;
      }
      var rect := Normalized(selectionRect.value);
      selectionRect := None;
      if !parent.hasModel {
        return NullDereference;
      }
      ghost var before := parent.selected;
      SelectInRect(rect, ctrl);
      outcome := Completed;
    }

    /** Visits every node of every element and selects (or toggles, with ctrl) those drawn inside r. */
    method SelectInRect(r: Rect, ctrl: bool)
      requires Valid()
      modifies parent
      ensures Valid()
      ensures parent.hasModel == old(parent.hasModel) && parent.playing == old(parent.playing)
      ensures parent.elements == old(parent.elements) && parent.times == old(parent.times)
      ensures parent.currentTime == old(parent.currentTime)
      ensures forall h :: h in parent.selected <==>
        if parent.InModel(h) && InRect(r, h) then (ctrl ==> h !in old(parent.selected)) else h in old(parent.selected)
    {
      ghost var before := parent.selected;
      ghost var hits := set h | h in parent.times && InRect(r, h);
      var line := 0;
      while line < |parent.elements|
        invariant 0 <= line <= |parent.elements|
        invariant Valid()
        invariant parent.hasModel == old(parent.hasModel) && parent.playing == old(parent.playing)
        invariant parent.elements == old(parent.elements) && parent.times == old(parent.times)
        invariant parent.currentTime == old(parent.currentTime)
        invariant Swept(parent.selected, before, parent.elements, hits, ctrl, line, 0)
      {
        SweepRow(r, ctrl, before, hits, line);
        SweptNextLine(parent.selected, before, parent.elements, hits, ctrl, line);
        line := line + 1;
      }
      forall h
        ensures h in parent.selected <==>
          if parent.InModel(h) && InRect(r, h) then (ctrl ==> h !in before) else h in before
      {
        assert Visited(parent.elements, h, line, 0) <==> parent.InModel(h);
        if parent.InModel(h) {
          assert parent.WellFormedElement(h.elem, parent.elements[h.elem].nodes);
          assert h in parent.times;
        }
      }
    }

    /** The sweep over the nodes of row `line`, in list order. */
    method SweepRow(r: Rect, ctrl: bool, ghost before: seq<Handle>, ghost hits: set<Handle>, line: nat)
      requires Valid() && line < |parent.elements|
      requires forall h :: h in parent.times ==> (h in hits <==> InRect(r, h))
      requires Swept(parent.selected, before, parent.elements, hits, ctrl, line, 0)
      modifies parent
      ensures Valid()
      ensures parent.hasModel == old(parent.hasModel) && parent.playing == old(parent.playing)
      ensures parent.elements == old(parent.elements) && parent.times == old(parent.times)
      ensures parent.currentTime == old(parent.currentTime)
      ensures Swept(parent.selected, before, parent.elements, hits, ctrl, line, |parent.elements[line].nodes|)
    {
      var nodes := parent.elements[line].nodes;
      assert parent.WellFormedElement(line, nodes);
      for k := 0 to |nodes|
        invariant Valid()
        invariant parent.hasModel == old(parent.hasModel) && parent.playing == old(parent.playing)
        invariant parent.elements == old(parent.elements) && parent.times == old(parent.times)
        invariant parent.currentTime == old(parent.currentTime)
        invariant Swept(parent.selected, before, parent.elements, hits, ctrl, line, k)
      {
        var n := nodes[k];
        ghost var sel0 := parent.selected;
        assert n in parent.times && n.elem == line;
        SweepStep(r, ctrl, n);
        SweptAdvance(sel0, parent.selected, before, parent.elements, hits, ctrl, line, k);
      }
    }

    /**
      One node of the sweep: a node drawn inside r is added, or with ctrl
      toggled; every other membership stays as it was.
     */
    method SweepStep(r: Rect, ctrl: bool, n: Handle)
      requires Valid() && n in parent.times && n.elem < |parent.elements|
      modifies parent
      ensures Valid()
      ensures parent.hasModel == old(parent.hasModel) && parent.playing == old(parent.playing)
      ensures parent.elements == old(parent.elements) && parent.times == old(parent.times)
      ensures parent.currentTime == old(parent.currentTime)
      ensures forall h :: h in parent.selected <==>
        if h == n && InRect(r, n) then (ctrl ==> n !in old(parent.selected)) else h in old(parent.selected)
    {
      var px := XFromTime(parent.times[n], timeScale, hOffset);
      var py := YFromLine(n.elem, vOffset) + LineHeight / 2;
      if Contains(r, px, py) && ctrl {
        if n in parent.selected {
          parent.RemoveSelectedNode(n);
        } else {
          parent.AddSelectedNode(n);
        }
      } else if Contains(r, px, py) {
        parent.AddSelectedNode(n);
      }
    }

    // -------------------------------------------------------------------------
    // Pointer: drag
    // -------------------------------------------------------------------------

    /**
      A drag step: a pending press becomes a track drag over a track and a
      rubber band elsewhere; then the cursor follows, the selected nodes or
      the hovered element's nodes move by one clamped shift, or the
      rectangle follows the pointer.
     */
    method MouseDragged(x: int, y: int) returns (outcome: Outcome)
      requires Valid()
      modifies this`state, this`lastTime, this`selectionRect, parent
      ensures Valid()
      ensures parent.hasModel == old(parent.hasModel) && parent.playing == old(parent.playing)
      ensures parent.selected == old(parent.selected) && parent.elements == old(parent.elements)
      ensures !parent.hasModel || parent.playing ==> outcome == Completed && unchanged(this, parent)
      ensures parent.hasModel && !parent.playing ==>
        var eTime := TimeAt(x);
        var delta := eTime - old(lastTime);
        && state == (if old(state) == Some(Idle) then Some(if isOverTrack then DragTrack else DrawSelection) else old(state))
        && (outcome == Completed ==> lastTime == eTime)
        && (outcome == NullDereference ==> lastTime == old(lastTime) && unchanged(parent) && selectionRect == old(selectionRect))
        && (state == None ==> outcome == NullDereference)
        && (state == Some(DragCursor) ==>
              outcome == Completed && parent.currentTime == eTime && parent.times == old(parent.times)
              && selectionRect == old(selectionRect))
        && (state == Some(DragNodes) ==>
              && outcome == Completed && parent.currentTime == old(parent.currentTime) && selectionRect == old(selectionRect)
              && parent.times == Shifted(old(parent.times), parent.selected,
                                         ClampDelta(delta, Earliest(TimesOf(parent.selected, old(parent.times))))))
        && (state == Some(DragTrack) && mouseOverElement.None? ==> outcome == NullDereference)
        && (state == Some(DragTrack) && mouseOverElement.Some? ==>
              var nodes := parent.elements[mouseOverElement.value].nodes;
              && outcome == Completed && parent.currentTime == old(parent.currentTime) && selectionRect == old(selectionRect)
              && parent.times == Shifted(old(parent.times), nodes, ClampDelta(delta, Earliest(TimesOf(nodes, old(parent.times))))))
        && (state == Some(DrawSelection) && old(selectionRect).None? ==> outcome == NullDereference)
        && (state == Some(DrawSelection) && old(selectionRect).Some? ==>
              var r := old(selectionRect).value;
              && outcome == Completed && unchanged(parent)
              && selectionRect == Some(Rect(r.x, r.y, x - r.x, y - r.y)))
    {
      if !parent.hasModel || parent.playing {
        return Completed;
      }
      var eTime := TimeAt(x);
      var deltaTime := eTime - lastTime;
      if state == Some(Idle) && isOverTrack {
        state := Some(DragTrack);
      } else if state == Some(Idle) {
        state := Some(DrawSelection);
      }
      outcome := DragStep(x, y, eTime, deltaTime);
      if outcome == Completed {
        lastTime := eTime;
      }
    }

    /** What one drag step does in the gesture `state` names, once the state is settled. */
    method DragStep(x: int, y: int, eTime: int, delta: int) returns (outcome: Outcome)
      requires Valid()
      modifies this`selectionRect, parent
      ensures Valid()
      ensures parent.hasModel == old(parent.hasModel) && parent.playing == old(parent.playing)
      ensures parent.selected == old(parent.selected) && parent.elements == old(parent.elements)
      ensures outcome == NullDereference ==> unchanged(parent) && selectionRect == old(selectionRect)
      ensures state == None || state == Some(Idle) ==> unchanged(parent) && selectionRect == old(selectionRect)
      ensures state == None ==> outcome == NullDereference
      ensures state == Some(Idle) ==> outcome == Completed
      ensures state == Some(DragCursor) ==>
        outcome == Completed && parent.currentTime == eTime && parent.times == old(parent.times)
        && selectionRect == old(selectionRect)
      ensures state == Some(DragNodes) ==>
        && outcome == Completed && parent.currentTime == old(parent.currentTime) && selectionRect == old(selectionRect)
        && parent.times == Shifted(old(parent.times), parent.selected,
                                   ClampDelta(delta, Earliest(TimesOf(parent.selected, old(parent.times)))))
      ensures state == Some(DragTrack) && mouseOverElement.None? ==> outcome == NullDereference
      ensures state == Some(DragTrack) && mouseOverElement.Some? ==>
        var nodes := parent.elements[mouseOverElement.value].nodes;
        && outcome == Completed && parent.currentTime == old(parent.currentTime) && selectionRect == old(selectionRect)
        && parent.times == Shifted(old(parent.times), nodes, ClampDelta(delta, Earliest(TimesOf(nodes, old(parent.times)))))
      ensures state == Some(DrawSelection) && old(selectionRect).None? ==> outcome == NullDereference
      ensures state == Some(DrawSelection) && old(selectionRect).Some? ==>
        var r := old(selectionRect).value;
        && outcome == Completed && unchanged(parent)
        && selectionRect == Some(Rect(r.x, r.y, x - r.x, y - r.y))
    {
      outcome := Completed;
      match state {
        case None =>
          return NullDereference;
        case Some(DragCursor) =>
          parent.SetCurrentTime(eTime);
        case Some(DragNodes) =>
          ShiftNodes(parent.selected, delta);
        case Some(DragTrack) =>
          if mouseOverElement.None? {
            return NullDereference;
          }
          ShiftNodes(parent.elements[mouseOverElement.value].nodes, delta);
        case Some(DrawSelection) =>
          if selectionRect.None? {
            return NullDereference;
          }
          var r := selectionRect.value;
          selectionRect := Some(Rect(r.x, r.y, x - r.x, y - r.y));
        case Some(Idle) =>
      }
    }

    /**
      Moves every node of `moved` by one shift: `delta`, or less far to the
      left when the earliest of them would otherwise pass time 0.
     */
    method ShiftNodes(moved: seq<Handle>, delta: int)
      requires Valid()
      requires NoDup(moved) && Timed(moved, parent.times)
      modifies parent
      ensures Valid()
      ensures parent.hasModel == old(parent.hasModel) && parent.playing == old(parent.playing)
      ensures parent.selected == old(parent.selected) && parent.elements == old(parent.elements)
      ensures parent.currentTime == old(parent.currentTime)
      ensures parent.times == Shifted(old(parent.times), moved, ClampDelta(delta, Earliest(TimesOf(moved, old(parent.times)))))
    {
      ghost var times0 := parent.times;
      var d := delta;
      if delta < 0 {
        var ts := TimesOf(moved, parent.times);
        var minTime := MinTime(ts);
        assert NonNegative(ts);
        d := if delta > -minTime then delta else -minTime;
        ClampedShiftSafe(times0, moved, delta, minTime);
      }
      assert d == ClampDelta(delta, Earliest(TimesOf(moved, times0)));
      forall j | 0 <= j < |moved|
        ensures times0[moved[j]] + d >= 0
      {
        assert moved[j] in Shifted(times0, moved, d);
      }
      MoveBy(moved, d);
      ShiftedPointwise(times0, parent.times, moved, d);
    }

    /** The loop of a drag step: every node of `moved` in turn gets its time plus d. */
    method MoveBy(moved: seq<Handle>, d: int)
      requires Valid()
      requires NoDup(moved) && Timed(moved, parent.times)
      requires forall j :: 0 <= j < |moved| ==> parent.times[moved[j]] + d >= 0
      modifies parent
      ensures Valid()
      ensures parent.hasModel == old(parent.hasModel) && parent.playing == old(parent.playing)
      ensures parent.selected == old(parent.selected) && parent.elements == old(parent.elements)
      ensures parent.currentTime == old(parent.currentTime)
      ensures parent.times.Keys == old(parent.times).Keys
      ensures forall h :: h in old(parent.times) ==>
        parent.times[h] == if h in moved then old(parent.times)[h] + d else old(parent.times)[h]
    {
      ghost var times0 := parent.times;
      assert moved[..0] == [];
      for k := 0 to |moved|
        invariant Valid()
        invariant parent.hasModel == old(parent.hasModel) && parent.playing == old(parent.playing)
        invariant parent.selected == old(parent.selected) && parent.elements == old(parent.elements)
        invariant parent.currentTime == old(parent.currentTime)
        invariant parent.times.Keys == times0.Keys
        invariant forall h :: h in times0 ==> parent.times[h] == if h in moved[..k] then times0[h] + d else times0[h]
      {
        var n := moved[k];
        assert moved[..k + 1] == moved[..k] + [n];
        assert n !in moved[..k];
        parent.SetTime(n, parent.times[n] + d);
      }
      assert moved[..|moved|] == moved;
    }

    // -------------------------------------------------------------------------
    // Pointer: hover, exit, wheel
    // -------------------------------------------------------------------------

    /**
      Hover: the element on the pointer's row, the first of its nodes at the
      pointer's time, and whether the pointer is over its track instead.
     */
    method MouseMoved(x: int, y: int)
      requires Valid()
      modifies this`mouseOverElement, this`mouseOverNode, this`isOverTrack
      ensures Valid()
      ensures !parent.hasModel || parent.playing ==> unchanged(this)
      ensures parent.hasModel && !parent.playing ==>
        var eTime, eLine := TimeAt(x), LineFromY(y, vOffset);
        && mouseOverElement == (if 0 <= eLine < |parent.elements| then Some(eLine) else None)
        && (mouseOverElement.None? ==> mouseOverNode == None && !isOverTrack)
        && (mouseOverElement.Some? ==>
              var nodes := parent.elements[mouseOverElement.value].nodes;
              && mouseOverNode == FirstAt(nodes, parent.times, eTime)
              && isOverTrack == (mouseOverNode.None? && |nodes| > 1 && 0 <= eTime <= parent.times[nodes[|nodes| - 1]]))
    {
      if !parent.hasModel || parent.playing {
        return;
      }
      var eTime := TimeAt(x);
      var eLine := LineFromY(y, vOffset);
      Hover(eTime, eLine);
    }

    /** The hover fields for the pointer at time eTime on row eLine. */
    method Hover(eTime: int, eLine: int)
      requires Valid()
      modifies this`mouseOverElement, this`mouseOverNode, this`isOverTrack
      ensures Valid()
      ensures mouseOverElement == (if 0 <= eLine < |parent.elements| then Some(eLine) else None)
      ensures mouseOverElement.None? ==> mouseOverNode == None && !isOverTrack
      ensures mouseOverElement.Some? ==>
        var nodes := parent.elements[mouseOverElement.value].nodes;
        && mouseOverNode == FirstAt(nodes, parent.times, eTime)
        && isOverTrack == (mouseOverNode.None? && |nodes| > 1 && 0 <= eTime <= parent.times[nodes[|nodes| - 1]])
    {
      var element := HoveredElement(eLine);
      var node: Option<Handle> := None;
      var overTrack := false;
      if element.Some? {
        var nodes := parent.elements[element.value].nodes;
        assert parent.WellFormedElement(element.value, nodes);
        node := FindFirstAt(nodes, parent.times, eTime);
        if node.None? && |nodes| > 1 {
          var n := nodes[|nodes| - 1];
          overTrack := 0 <= eTime && eTime <= parent.times[n];
        }
      }
      mouseOverElement, mouseOverNode, isOverTrack := element, node, overTrack;
    }

    /** The scan over the rows for the one under the pointer. */
    method HoveredElement(eLine: int) returns (element: Option<nat>)
      ensures element == if 0 <= eLine < |parent.elements| then Some(eLine) else None
    {
      element := None;
      var line := 0;
      while line < |parent.elements|
        invariant 0 <= line <= |parent.elements|
        invariant eLine < 0 || eLine >= line
      {
        if eLine == line {
          return Some(line);
        }
        line := line + 1;
      }
    }

    /** Leaving the panel forgets the hover, unless a button is held. */
    method MouseExited()
      modifies this`mouseOverElement, this`mouseOverNode, this`isOverTrack
      ensures isPressed ==> unchanged(this)
      ensures !isPressed ==> mouseOverElement == None && mouseOverNode == None && !isOverTrack
    {
      if !isPressed {
        mouseOverElement := None;
        mouseOverNode := None;
        isOverTrack := false;
      }
    }

    /** The wheel asks the callback to scroll 40 pixels per notch. */
    method MouseWheelMoved(rotation: int)
      modifies this`notifications
      ensures notifications == old(notifications) + [ScrollRequired(rotation * WheelStep)]
    {
      notifications := notifications + [ScrollRequired(rotation * WheelStep)];
    }

    // -------------------------------------------------------------------------
    // Keyboard
    // -------------------------------------------------------------------------

    /**
      The delete key removes every selected node from its owning element
      and leaves the selection empty; every other node stays where it was.
     */
    method KeyPressed(key: int)
      requires Valid()
      modifies parent
      ensures Valid()
      ensures !old(parent.hasModel) || old(parent.playing) || key != VkDelete ==> unchanged(parent)
      ensures parent.hasModel == old(parent.hasModel) && parent.playing == old(parent.playing)
      ensures parent.times == old(parent.times) && parent.currentTime == old(parent.currentTime)
      ensures |parent.elements| == |old(parent.elements)|
      ensures parent.hasModel && !parent.playing && key == VkDelete ==>
        && parent.selected == []
        && (forall i :: 0 <= i < |parent.elements| ==>
              parent.elements[i] == Element(old(parent.elements[i].selectable), Without(old(parent.elements[i].nodes), old(parent.selected))))
        && (forall h :: parent.InModel(h) <==> old(parent.InModel(h)) && h !in old(parent.selected))
    {
      if !parent.hasModel || parent.playing {
        return;
      }
      if key != VkDelete {
        return;
      }
      var nodes := parent.selected;
      ghost var elements0 := parent.elements;
      parent.ClearSelectedNodes();
      assert nodes[..0] == [];
      forall i | 0 <= i < |elements0|
        ensures Without(elements0[i].nodes, []) == elements0[i].nodes
      {
        WithoutNothing(elements0[i].nodes);
      }
      for k := 0 to |nodes|
        invariant Valid()
        invariant parent.hasModel == old(parent.hasModel) && parent.playing == old(parent.playing)
        invariant parent.times == old(parent.times) && parent.currentTime == old(parent.currentTime)
        invariant parent.selected == []
        invariant |parent.elements| == |elements0|
        invariant forall i :: 0 <= i < |parent.elements| ==>
          parent.elements[i] == Element(elements0[i].selectable, Without(elements0[i].nodes, nodes[..k]))
      {
        var h := nodes[k];
        assert nodes[..k + 1] == nodes[..k] + [h];
        parent.RemoveNode(h);
        forall i | 0 <= i < |parent.elements|
          ensures parent.elements[i].nodes == Without(elements0[i].nodes, nodes[..k + 1])
        {
          if i == h.elem {
            WithoutOneMore(elements0[i].nodes, nodes[..k], h);
          } else {
            assert old(parent.WellFormedElement(i, elements0[i].nodes));
            WithoutAbsent(elements0[i].nodes, nodes[..k], h);
          }
        }
      }
      assert nodes[..|nodes|] == nodes;
    }

    // -------------------------------------------------------------------------
    // Correction pass
    // -------------------------------------------------------------------------

    /**
      After a node drag: in every element, a node is dropped when a later
      node of the same element has the same time. The selection is left as
      it is, dropped nodes included.
     */
    method CorrectTimeline()
      requires Valid()
      modifies parent
      ensures Valid()
      ensures parent.hasModel == old(parent.hasModel) && parent.playing == old(parent.playing)
      ensures parent.selected == old(parent.selected) && parent.times == old(parent.times)
      ensures parent.currentTime == old(parent.currentTime)
      ensures |parent.elements| == |old(parent.elements)|
      ensures forall i :: 0 <= i < |parent.elements| ==>
        parent.elements[i] == Element(old(parent.elements[i].selectable), KeepLast(old(parent.elements[i].nodes), parent.times))
    {
      ghost var elements0 := parent.elements;
      for i := 0 to |parent.elements|
        invariant Valid()
        invariant parent.hasModel == old(parent.hasModel) && parent.playing == old(parent.playing)
        invariant parent.selected == old(parent.selected) && parent.times == old(parent.times)
        invariant parent.currentTime == old(parent.currentTime)
        invariant |parent.elements| == |elements0|
        invariant forall j :: 0 <= j < i ==>
          parent.elements[j] == Element(elements0[j].selectable, KeepLast(elements0[j].nodes, parent.times))
        invariant forall j :: i <= j < |elements0| ==> parent.elements[j] == elements0[j]
      {
        var nodes := parent.elements[i].nodes;
        assert parent.WellFormedElement(i, nodes);
        var kept := CorrectNodes(nodes, parent.times);
        KeepLastSpec(nodes, parent.times);
        forall k | 0 <= k < |kept|
          ensures kept[k].elem == i
        {
          assert kept[k] in kept;
          var j :| 0 <= j < |nodes| && nodes[j] == kept[k];
        }
        parent.SetNodes(i, kept);
      }
    }
  }
}
