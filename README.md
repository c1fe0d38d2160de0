# Timeline grid interaction core and property registry, in Dafny

This project models two parts of the Universal Tween Studio editor.

**The timeline grid panel** (`GridPanel`) is the canvas where every tweened element has a row and every keyframe (a *node*) is a dot at its time. The model covers:

- The pixel ↔ time mapping. Time is clamped to be non-negative and snapped to 100 ms. `timeScale` is the zoom factor.
- The pixel ↔ row mapping. The ruler above the rows is the sentinel row −1.
- The mouse gesture state machine (`IDLE`, `DRAW_SELECTION`, `DRAG_CURSOR`, `DRAG_NODES`, `DRAG_TRACK`):
  - pressing starts a gesture;
  - dragging moves the time cursor, the selected nodes or a whole track, or grows a rubber-band rectangle;
  - releasing ends the gesture: it sets the time, runs the correction pass, or selects or toggles the nodes inside the rectangle;
  - hovering finds the element, node or track under the pointer.
- The delete key, which removes the selected nodes.
- The zoom requests.
- The `maxTime` bookkeeping done at repaint time.
- The correction pass `correctTimeline`. In each element it drops every node that a later node of the same element shares a time with.

**The editor's property registry** (`Editor`) maps each tweenable type to the ordered list of properties registered for it. It supports:

- registration, which appends to the list;
- lookup of a type's list;
- lookup of the first property with a given id.

## Layout

| file | module | what it holds |
|---|---|---|
| `options.dfy` | `Options` | `Option` |
| `mapper.dfy` | `Mapper` | panel constants; `TimeFromX`, `XFromTime`, `LineFromY`, `YFromLine` and their lemmas |
| `node_lists.dfy` | `NodeLists` | node handles and times; `MinTime`; the clamped drag shift; the hover search; the correction pass (`CorrectNodes` against `KeepLast`); removal (`Without`) |
| `timeline.dfy` | `Timeline` | `TimelinePanel`: the state of the timeline panel and its model that the grid panel reads and changes |
| `grid_panel.dfy` | `Grid` | `GridPanel`: zoom, `maxTime`, and every mouse and key handler |
| `editor.dfy` | `Editors` | `Editor`: the registry, its specification by registration history, and its lemmas |

### Modelling choices

- **Node identity.** A node is a `Handle(elem, id)`: the index of its owning element and a stable id.
  - All node times live in one map owned by `TimelinePanel`.
  - A node dropped by the correction pass keeps its time. It can stay selected, exactly as the Java object stays in the selection list.
- **The selection** is a list without repetitions, used as a set.
- **`timeScale`** is an exact positive ratio `num/den`.
  - Zooming in multiplies it by 5/6; zooming out multiplies it by 6/5.
  - Every `(int)` cast is a truncation toward zero (`JavaDiv`).
  - `Math.round(t / 100f) * 100` on a non-negative `t` is round-half-up to a multiple of 100.
- **Gesture state.** The gesture field `state` starts out `null` in Java. Here it is an `Option<MouseState>` that starts as `None`.
- **Null dereferences end a handler early.** This happens on:
  - a `switch` on a null state;
  - a null `selectionRect`;
  - a null hovered element;
  - a null model in the `DRAG_NODES` or `DRAW_SELECTION` release.

  The handler then returns `NullDereference`. The effects it made before that point are kept, and the contracts state them.
- **`mouseReleased`** checks neither for a model nor for playback. It never resets `state`; only `isPressed` is cleared. Both are modelled as written.
- **Ties in the correction pass.** When nodes share a time, the code keeps the **last** of them, not the first. This holds even when the dropped node is the one just dragged. The model follows the code; `CollisionDropsEarlierNode` shows a concrete case.
- **Notifications.** The callback's `lengthChanged` and `scrollRequired` calls are recorded, in order, in the panel's `notifications` list.
- **The registry** is specified by a ghost registration history `log`. Each type's list is `PropertiesFor(log, type)`.

## Model

| member | source | states |
|---|---|---|
| `Mapper.JavaDiv` | api/src/aurelienribon/tweenstudio/ui/timeline/GridPanel.java:510 | the `(int)` cast of a quotient: the multiple of the divisor nearest the dividend on the dividend's side of zero (truncation toward zero), with the dividend's sign |
| `Mapper.RawTime` | api/src/aurelienribon/tweenstudio/ui/timeline/GridPanel.java:510 | the exact time under column x, (x − paddingLeft + hOffset)·1000/70·timeScale, truncated toward zero; non-negative right of the left padding |
| `Mapper.RoundToHundred` | api/src/aurelienribon/tweenstudio/ui/timeline/GridPanel.java:512 | `Math.round(t / 100f) * 100` on t ≥ 0: a multiple of 100 within 50 ms of t, halves rounding up |
| `Mapper.TimeFromX` | api/src/aurelienribon/tweenstudio/ui/timeline/GridPanel.java:509-514 | the time under a pixel column is ≥ 0 and a multiple of 100, and it lies within 50 ms of the truncated raw time clamped at 0 (round half up) |
| `Mapper.TimeXRoundTrip` | api/src/aurelienribon/tweenstudio/ui/timeline/GridPanel.java:509-518 | for every zoom factor up to 3.5 (one pixel spans at most 50 ms) and every horizontal offset, a time on the 100 ms grid maps to a column that maps back to the same time |
| `Mapper.XFromTime` | api/src/aurelienribon/tweenstudio/ui/timeline/GridPanel.java:516-518 | the column of a time is the exact column millis/1000·70/timeScale + paddingLeft − hOffset truncated toward zero |
| `Mapper.LineFromY` | api/src/aurelienribon/tweenstudio/ui/timeline/GridPanel.java:520-523 | −1 above the ruler line; below it, the number of whole 21-pixel row pitches between the first row's top and y |
| `Mapper.YFromLine` | api/src/aurelienribon/tweenstudio/ui/timeline/GridPanel.java:525-527 | the top line of a row; it lies below the ruler exactly when 21·line ≥ vOffset, and the next row's top is 21 pixels lower |
| `Mapper.LineFromYSentinel` | api/src/aurelienribon/tweenstudio/ui/timeline/GridPanel.java:520-523 | for vOffset ≥ 0 the row is −1 exactly when y is above the rows, and ≥ 0 otherwise |
| `Mapper.RowBand` | api/src/aurelienribon/tweenstudio/ui/timeline/GridPanel.java:520-527 | every pixel line of the 21-pixel band of row `line` maps back to `line` |
| `Mapper.RowRoundTrip` | api/src/aurelienribon/tweenstudio/ui/timeline/GridPanel.java:520-527 | the top line of a row below the ruler maps back to that row |
| `NodeLists.Earliest` | api/src/aurelienribon/tweenstudio/ui/timeline/GridPanel.java:529-534 | reference minimum: −1 for no times, else a member of the list that is ≤ every member |
| `NodeLists.MinTime` | api/src/aurelienribon/tweenstudio/ui/timeline/GridPanel.java:529-534 | the scan returns −1 on an empty list and is −1 or a member; on non-negative times it is the minimum, equal to `Earliest` |
| `NodeLists.ClampDelta` | api/src/aurelienribon/tweenstudio/ui/timeline/GridPanel.java:407 | the applied shift is never below the requested one, equals it unless the request passes −minTime, and is then exactly −minTime |
| `NodeLists.Shifted` | api/src/aurelienribon/tweenstudio/ui/timeline/GridPanel.java:408 | the times after the drag loop: the same nodes, moved nodes keeping their spacing, other nodes their times |
| `NodeLists.ClampedShiftSafe` | api/src/aurelienribon/tweenstudio/ui/timeline/GridPanel.java:406-414 | after a clamped shift every node time is still ≥ 0, moved nodes keep their pairwise differences, unmoved nodes keep their times, no node appears or vanishes |
| `NodeLists.FirstAt` | api/src/aurelienribon/tweenstudio/ui/timeline/GridPanel.java:449-456 | None exactly when no node of the list has time t; otherwise a node of the list at time t with no earlier node at t |
| `NodeLists.FindFirstAt` | api/src/aurelienribon/tweenstudio/ui/timeline/GridPanel.java:449-456 | the scan with early exit returns `FirstAt` |
| `NodeLists.KeepLast` | api/src/aurelienribon/tweenstudio/ui/timeline/GridPanel.java:538-555 | the list one element is left with: no longer than before, made of its own nodes, and its last node always stays |
| `NodeLists.CorrectNodes` | api/src/aurelienribon/tweenstudio/ui/timeline/GridPanel.java:538-553 | the nested scans of one element build exactly `KeepLast` of its nodes |
| `NodeLists.KeptIndicesSpec` | api/src/aurelienribon/tweenstudio/ui/timeline/GridPanel.java:540-553 | the kept nodes sit at strictly increasing positions (order preserved), each is the last of its time, and every such position is kept |
| `NodeLists.LastOfItsTime` | api/src/aurelienribon/tweenstudio/ui/timeline/GridPanel.java:540-553 | every node has a node at or after it with the same time that is the last of that time |
| `NodeLists.KeptDistinct` | api/src/aurelienribon/tweenstudio/ui/timeline/GridPanel.java:536-557 | the kept list has no repeated node and no two kept nodes share a time |
| `NodeLists.KeptExactlyAlone` | api/src/aurelienribon/tweenstudio/ui/timeline/GridPanel.java:540-553 | kept nodes come from the list, and node i is kept exactly when no later node has its time |
| `NodeLists.KeptTimeSet` | api/src/aurelienribon/tweenstudio/ui/timeline/GridPanel.java:536-557 | the set of occupied times is unchanged by the pass |
| `NodeLists.KeepLastSpec` | api/src/aurelienribon/tweenstudio/ui/timeline/GridPanel.java:536-557 | for a list without repeats: the kept nodes are timed, repeat no node and no time, come from the list, node i is kept exactly when no later node shares its time, and the set of occupied times is unchanged (the facts of `KeptDistinct`, `KeptExactlyAlone` and `KeptTimeSet`) |
| `NodeLists.KeepLastOfDistinct` | api/src/aurelienribon/tweenstudio/ui/timeline/GridPanel.java:536-557 | a list whose times are already distinct is left unchanged |
| `NodeLists.KeepLastIdempotent` | api/src/aurelienribon/tweenstudio/ui/timeline/GridPanel.java:536-557 | running the pass twice is running it once |
| `NodeLists.CollisionDropsEarlierNode` | api/src/aurelienribon/tweenstudio/ui/timeline/GridPanel.java:540-553 | of two nodes at the same time the earlier one is dropped, the later one kept |
| `NodeLists.Without` | api/src/aurelienribon/tweenstudio/ui/timeline/GridPanel.java:499 | a node is in the result exactly when it is in the list and not removed; the result is no longer |
| `NodeLists.WithoutOneMore` | api/src/aurelienribon/tweenstudio/ui/timeline/GridPanel.java:497-499 | removing one more node after a batch is removing the larger batch |
| `NodeLists.WithoutAbsent` | api/src/aurelienribon/tweenstudio/ui/timeline/GridPanel.java:499 | removing a node a list does not hold leaves the list as it was |
| `Timeline.TimelinePanel.SetCurrentTime` | api/src/aurelienribon/tweenstudio/ui/timeline/GridPanel.java:320 | the current time becomes t; nothing else changes |
| `Timeline.TimelinePanel.SetSelectedNode` | api/src/aurelienribon/tweenstudio/ui/timeline/GridPanel.java:326 | the selection becomes the one node; nothing else changes |
| `Timeline.TimelinePanel.AddSelectedNode` | api/src/aurelienribon/tweenstudio/ui/timeline/GridPanel.java:325 | the node is appended unless already selected; nothing else changes |
| `Timeline.TimelinePanel.RemoveSelectedNode` | api/src/aurelienribon/tweenstudio/ui/timeline/GridPanel.java:374 | the node leaves the selection, the rest stays in order |
| `Timeline.TimelinePanel.ClearSelectedNodes` | api/src/aurelienribon/tweenstudio/ui/timeline/GridPanel.java:346 | the selection becomes empty |
| `Timeline.TimelinePanel.SetTime` | api/src/aurelienribon/tweenstudio/ui/timeline/GridPanel.java:408 | only that node's time changes |
| `Timeline.TimelinePanel.SetNodes` | api/src/aurelienribon/tweenstudio/ui/timeline/GridPanel.java:555 | only that element's node list changes |
| `Timeline.TimelinePanel.RemoveNode` | api/src/aurelienribon/tweenstudio/ui/timeline/GridPanel.java:499 | the node leaves its owning element's list; every other element is untouched |
| `Grid.Normalized` | api/src/aurelienribon/tweenstudio/ui/timeline/GridPanel.java:358-362 | the normalised rectangle has non-negative size and spans the same x and y intervals as the drawn one |
| `Grid.Contains` | api/src/aurelienribon/tweenstudio/ui/timeline/GridPanel.java:373-376 | `Rectangle.contains` on the normalised rectangle (a half-open box): a rectangle without area contains no point, and a contained point lies at or right of and at or below its corner |
| `Grid.GridPanel.constructor` | api/src/aurelienribon/tweenstudio/ui/timeline/GridPanel.java:37-44 | unit zoom, zero offsets and maximum time, nothing hovered, no rectangle; and, as the mouse adapter's fields at lines 306-308 start, a null gesture state, no button held, lastTime 0 |
| `Grid.GridPanel.RequestMagnification` | api/src/aurelienribon/tweenstudio/ui/timeline/GridPanel.java:77-81 | the zoom factor is divided by 1.2 and `lengthChanged` is always sent |
| `Grid.GridPanel.RequestMinification` | api/src/aurelienribon/tweenstudio/ui/timeline/GridPanel.java:83-87 | the zoom factor is multiplied by 1.2 and `lengthChanged` is always sent |
| `Grid.GridPanel.RefreshMaxTime` | api/src/aurelienribon/tweenstudio/ui/timeline/GridPanel.java:149-151 | without a model nothing happens; otherwise maxTime becomes max(duration, current time) and `lengthChanged` is sent exactly when it changed |
| `Grid.GridPanel.MousePressed` | api/src/aurelienribon/tweenstudio/ui/timeline/GridPanel.java:311-336 | a no-op without a model, during playback or for another button; otherwise `DRAG_CURSOR` on the ruler (time set), `DRAG_NODES` on a hovered node (kept, added with ctrl, or made the sole selection), else `IDLE` with a rectangle anchored at the press; pressed and lastTime = eTime in every accepted case |
| `Grid.GridPanel.MouseReleased` | api/src/aurelienribon/tweenstudio/ui/timeline/GridPanel.java:339-386 | per state: `IDLE` clears the selection and sets the time; `DRAG_NODES` runs the correction pass on every element, then sets the time; `DRAW_SELECTION` selects or toggles the nodes drawn in the normalised rectangle; the state is never reset; the null dereferences and their partial effects |
| `Grid.GridPanel.ReleaseSelection` | api/src/aurelienribon/tweenstudio/ui/timeline/GridPanel.java:355-381 | without ctrl the selection becomes exactly the model's nodes drawn inside the normalised rectangle; with ctrl exactly those change status; the rectangle is cleared |
| `Grid.GridPanel.SelectInRect` | api/src/aurelienribon/tweenstudio/ui/timeline/GridPanel.java:364-380 | after the sweep over all rows a node is selected iff (inside ? (ctrl ⇒ it was unselected) : it was selected) |
| `Grid.GridPanel.SweepRow` | api/src/aurelienribon/tweenstudio/ui/timeline/GridPanel.java:368-379 | the sweep over one row extends the swept region by that whole row |
| `Grid.GridPanel.SweepStep` | api/src/aurelienribon/tweenstudio/ui/timeline/GridPanel.java:371-377 | a node inside the rectangle is added, or with ctrl toggled; every other membership stays |
| `Grid.SweptAdvance` | api/src/aurelienribon/tweenstudio/ui/timeline/GridPanel.java:370-378 | visiting one more node of a row advances the sweep invariant by that node |
| `Grid.SweptNextLine` | api/src/aurelienribon/tweenstudio/ui/timeline/GridPanel.java:366-379 | finishing a row is starting the next one |
| `Grid.GridPanel.MouseDragged` | api/src/aurelienribon/tweenstudio/ui/timeline/GridPanel.java:389-423 | no-op without a model or during playback; `IDLE` becomes `DRAG_TRACK` over a track and `DRAW_SELECTION` elsewhere, other states persist; lastTime = eTime unless a null is dereferenced |
| `Grid.GridPanel.DragStep` | api/src/aurelienribon/tweenstudio/ui/timeline/GridPanel.java:401-420 | per state: the cursor follows; the selected nodes, or the hovered element's nodes, take one clamped shift; the rectangle's far corner follows the pointer |
| `Grid.GridPanel.ShiftNodes` | api/src/aurelienribon/tweenstudio/ui/timeline/GridPanel.java:406-414 | node times become `Shifted(old, moved, ClampDelta(delta, earliest moved time))`; selection, elements and current time are unchanged |
| `Grid.GridPanel.MoveBy` | api/src/aurelienribon/tweenstudio/ui/timeline/GridPanel.java:408 | every listed node gets its time plus d, every other node keeps its time |
| `Grid.GridPanel.MouseMoved` | api/src/aurelienribon/tweenstudio/ui/timeline/GridPanel.java:426-461 | no-op without a model or during playback; otherwise the hover fields as `Hover` states them for the pointer's time and row |
| `Grid.GridPanel.Hover` | api/src/aurelienribon/tweenstudio/ui/timeline/GridPanel.java:432-461 | the hovered element is row eLine if it exists, the hovered node is the first of its nodes at eTime, and over-track holds exactly when no node is hovered, the element has more than one node and 0 ≤ eTime ≤ its last node's time |
| `Grid.GridPanel.HoveredElement` | api/src/aurelienribon/tweenstudio/ui/timeline/GridPanel.java:438-447 | the row scan finds row eLine exactly when 0 ≤ eLine < number of elements |
| `Grid.GridPanel.MouseExited` | api/src/aurelienribon/tweenstudio/ui/timeline/GridPanel.java:471-478 | the hover is forgotten unless a button is held |
| `Grid.GridPanel.MouseWheelMoved` | api/src/aurelienribon/tweenstudio/ui/timeline/GridPanel.java:481-483 | `scrollRequired(rotation * 40)` is sent |
| `Grid.GridPanel.KeyPressed` | api/src/aurelienribon/tweenstudio/ui/timeline/GridPanel.java:492-502 | delete (with a model, not playing) empties the selection and removes exactly the previously selected nodes from their elements; every other node remains; any other key, no model or playback changes nothing |
| `Grid.GridPanel.CorrectTimeline` | api/src/aurelienribon/tweenstudio/ui/timeline/GridPanel.java:536-557 | every element's list becomes `KeepLast` of its old list; selection, times and current time are untouched |
| `Editors.PropertiesFor` | api/src/aurelienribon/tweenstudio/Editor.java:33-37 | the list a sequence of registrations builds for one type: every property on it was registered for that type |
| `Editors.FindFirst` | api/src/aurelienribon/tweenstudio/Editor.java:24-31 | None exactly when no property has the id; otherwise one with that id and no earlier one with it |
| `Editors.Editor.constructor` | api/src/aurelienribon/tweenstudio/Editor.java:13 | the registry starts empty |
| `Editors.Editor.RegisterProperty` | api/src/aurelienribon/tweenstudio/Editor.java:33-37 | the property is appended to the type's list (a one-element list for a new type); every other type's list is unchanged; the registry keeps matching its history |
| `Editors.Editor.GetProperties` | api/src/aurelienribon/tweenstudio/Editor.java:19-22 | for a registered type, its non-empty list in registration order |
| `Editors.Editor.GetProperty` | api/src/aurelienribon/tweenstudio/Editor.java:24-31 | the earliest registered property of the type with the id, or None where the code asserts false |
| `Editors.AppendRegistration` | api/src/aurelienribon/tweenstudio/Editor.java:33-37 | one more registration extends its own type's list by its property and no other list |
| `Editors.PropertiesForMembers` | api/src/aurelienribon/tweenstudio/Editor.java:33-37 | a property is on a type's list exactly when it was registered for that type |
| `Editors.RegistrationOrder` | api/src/aurelienribon/tweenstudio/Editor.java:33-37 | consecutive registrations for one type appear in call order |
| `Editors.OtherRegistrationsInvisible` | api/src/aurelienribon/tweenstudio/Editor.java:33-37 | registrations for other types leave a type's list unchanged |
| `Editors.FirstWins` | api/src/aurelienribon/tweenstudio/Editor.java:26-28 | a property found in a list is still the one found after more properties are appended |
| `Editors.RegisteringAgainKeepsLookup` | api/src/aurelienribon/tweenstudio/Editor.java:24-37 | registering a duplicate id later never changes the lookup result |
| `Editors.LookupComplete` | api/src/aurelienribon/tweenstudio/Editor.java:24-31 | the lookup succeeds exactly when some property with that id was registered for the type |
| `Editors.InitializeSprite` | demo/src/aurelienribon/tweenstudiotest/LibGdxTweenStudioEditor.java:17-22 | the demo's four registrations come back in order: position, rotation, opacity, scale |

## Left out

- Painting (`paintSections`, `paintNodesTracks`, `paintNodes`, `paintTimeline`, `paintTimeCursor`, `paintSelectionRect`), `repaint`, `setCursor`, and listener registration. These are Swing and Graphics2D calls with no state the model needs.
- `getLength`, `getViewLength`, `getOffset`, `setOffset`, `setVerticalOffset`, `modelChanged`, `themeChanged`, `setCallback`. These are scroll-bar and Swing plumbing. The offsets are plain fields the handlers read.
- Mapper.TimeFromX: float arithmetic and float rounding are not modelled. `timeScale` is an exact ratio and the float products are exact rational ones. Only the sign and 100 ms properties are claimed.
- Mapper.XFromTime: computed with exact rationals and a truncating cast. There is no float round-trip claim.
- Mapper.TimeXRoundTrip: proved for zoom factors num/den ≤ 3.5 only. Past that one pixel spans more than 50 ms and the round trip can lose a step; for example at a factor of 10 the time 100 maps to column 15, which maps back to 0.
- Node times supplied by the timeline model are assumed non-negative (`TimelinePanel.Valid`); the grid panel never checks this. On a negative time, `getMinTime`'s −1 "nothing seen" sentinel would misread a node at −1, and `MinTime` equals `Earliest` only on non-negative times.
- Integer overflow: Java `int` wrap-around is not modelled; times, pixels and shifts are unbounded integers.
- Grid.GridPanel.RefreshMaxTime: the model's duration is a parameter, because `TimelineModel.getDuration` is not part of this model.
- Timeline.TimelinePanel: `TimelinePanel` and `TimelineModel` are not part of this model. Each operation states only the effect the grid panel relies on. Their listener events and repaints are left out.
- Timeline.TimelinePanel.RemoveNode: removing a node that is no longer in its element is modelled as a no-op. This case arises when a dropped node is still selected and then deleted. The real element's behaviour in that case is not part of this model.
- The `Callback` is assumed installed. A null callback would throw on zoom, on the wheel and on a length change; that case is not modelled.
- Pointer and key events become plain parameters: x, y, the button, the ctrl flag, the wheel rotation and the key code.
- Editors.Editor.GetProperties: the Java `assert` that the type is registered becomes a precondition. With assertions disabled, the JVM would return null instead.
- Editors.Editor.GetProperty: with assertions enabled, the final `assert false` throws. Here it is the `None` result.
- `Editor.initialize`, `setFileContent`, `getFileContent`: abstract persistence hooks, and the demo's file I/O through libGDX.
- Editors.InitializeSprite: the sprite type tag and the property id constants are parameters, because `TweenSprite` is not part of this model.
