/**
  The timeline panel and its model as the grid panel sees them: whether a
  model is loaded, whether playback runs, the current time, the selected
  nodes, the elements with their node lists, and the node times.

  The panel's and the model's own code is not part of this model; each
  mutator below states only what the grid panel relies on.
 */
module Timeline {
  import opened NodeLists

  class TimelinePanel {
    var hasModel: bool
    var playing: bool
    var currentTime: int
    /** The selected nodes: a list without repetitions, used as a set. */
    var selected: seq<Handle>
    var elements: seq<Element>
    /** The time of every node ever known, including nodes no longer in any element. */
    var times: Times

    /** Nodes of element i name i as their owner, appear once and have a time. */
    ghost predicate WellFormedElement(i: nat, nodes: seq<Handle>)
      reads this
    {
      && NoDup(nodes)
      && Timed(nodes, times)
      && forall k :: 0 <= k < |nodes| ==> nodes[k].elem == i
    }

    ghost predicate Valid()
      reads this
    {
      && NoDup(selected)
      && Timed(selected, times)
      && (forall k :: 0 <= k < |selected| ==> selected[k].elem < |elements|)
      && (forall i :: 0 <= i < |elements| ==> WellFormedElement(i, elements[i].nodes))
      && (forall h :: h in times ==> times[h] >= 0)
    }

    /** Whether node h currently belongs to its owning element. */
    ghost predicate InModel(h: Handle)
      reads this
    {
      h.elem < |elements| && h in elements[h.elem].nodes
    }

    constructor (elements: seq<Element>, times: Times)
      requires forall i :: 0 <= i < |elements| ==>
        NoDup(elements[i].nodes) && Timed(elements[i].nodes, times) &&
        forall k :: 0 <= k < |elements[i].nodes| ==> elements[i].nodes[k].elem == i
      requires forall h :: h in times ==> times[h] >= 0
      ensures Valid()
      ensures hasModel && !playing && currentTime == 0 && selected == []
      ensures this.elements == elements && this.times == times
    {
      hasModel := true;
      playing := false;
      currentTime := 0;
      selected := [];
      this.elements := elements;
      this.times := times;
    }

    method SetCurrentTime(t: int)
      modifies this
      ensures currentTime == t
      ensures hasModel == old(hasModel) && playing == old(playing)
      ensures selected == old(selected) && elements == old(elements) && times == old(times)
    {
      currentTime := t;
    }

    /** Replaces the selection by the one node h. */
    method SetSelectedNode(h: Handle)
      requires Valid() && h in times && h.elem < |elements|
      modifies this
      ensures Valid()
      ensures selected == [h]
      ensures hasModel == old(hasModel) && playing == old(playing) && currentTime == old(currentTime)
      ensures elements == old(elements) && times == old(times)
    {
      selected := [h];
    }

    /** Adds h to the selection; selecting a selected node changes nothing. */
    method AddSelectedNode(h: Handle)
      requires Valid() && h in times && h.elem < |elements|
      modifies this
      ensures Valid()
      ensures selected == if h in old(selected) then old(selected) else old(selected) + [h]
      ensures hasModel == old(hasModel) && playing == old(playing) && currentTime == old(currentTime)
      ensures elements == old(elements) && times == old(times)
    {
      if h !in selected {
        selected := selected + [h];
      }
    }

    method RemoveSelectedNode(h: Handle)
      requires Valid()
      modifies this
      ensures Valid()
      ensures selected == Without(old(selected), [h])
      ensures hasModel == old(hasModel) && playing == old(playing) && currentTime == old(currentTime)
      ensures elements == old(elements) && times == old(times)
    {
      var rest := Without(selected, [h]);
      WithoutNoDup(selected, [h]);
      forall k | 0 <= k < |rest|
        ensures rest[k] in times && rest[k].elem < |elements|
      {
        assert rest[k] in rest;
        var j :| 0 <= j < |selected| && selected[j] == rest[k];
      }
      selected := rest;
    }

    method ClearSelectedNodes()
      requires Valid()
      modifies this
      ensures Valid()
      ensures selected == []
      ensures hasModel == old(hasModel) && playing == old(playing) && currentTime == old(currentTime)
      ensures elements == old(elements) && times == old(times)
    {
      selected := [];
    }

    /** Moves node h to time t; a node of the model never gets a negative time. */
    method SetTime(h: Handle, t: int)
      requires Valid() && h in times && t >= 0
      modifies this
      ensures Valid()
      ensures times == old(times)[h := t]
      ensures hasModel == old(hasModel) && playing == old(playing) && currentTime == old(currentTime)
      ensures selected == old(selected) && elements == old(elements)
    {
      times := times[h := t];
    }

    /** Replaces the node list of element i, as the correction pass does. */
    method SetNodes(i: nat, nodes: seq<Handle>)
      requires Valid() && i < |elements| && WellFormedElement(i, nodes)
      modifies this
      ensures Valid()
      ensures elements == old(elements)[i := Element(old(elements[i].selectable), nodes)]
      ensures hasModel == old(hasModel) && playing == old(playing) && currentTime == old(currentTime)
      ensures selected == old(selected) && times == old(times)
    {
      elements := elements[i := Element(elements[i].selectable, nodes)];
    }

    /** Takes node h out of its owning element; the other elements are untouched. */
    method RemoveNode(h: Handle)
      requires Valid() && h.elem < |elements|
      modifies this
      ensures Valid()
      ensures |elements| == |old(elements)|
      ensures forall i :: 0 <= i < |elements| ==>
        elements[i] == if i == h.elem then Element(old(elements[i].selectable), Without(old(elements[i].nodes), [h]))
                       else old(elements[i])
      ensures hasModel == old(hasModel) && playing == old(playing) && currentTime == old(currentTime)
      ensures selected == old(selected) && times == old(times)
    {
      var e := elements[h.elem];
      var rest := Without(e.nodes, [h]);
      WithoutNoDup(e.nodes, [h]);
      forall k | 0 <= k < |rest|
        ensures rest[k] in times && rest[k].elem == h.elem
      {
        assert rest[k] in rest;
        var j :| 0 <= j < |e.nodes| && e.nodes[j] == rest[k];
        assert WellFormedElement(h.elem, e.nodes);
      }
      elements := elements[h.elem := Element(e.selectable, rest)];
    }
  }
}
