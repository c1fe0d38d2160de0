/**
  The editor's property registry: for every tweenable type, the list of
  properties (an id and a display name) registered for it, in registration
  order. Types are named by a tag; ids may repeat within one type.
 */
module Editors {
  import opened Options

  /** Stands for the Java class object that keys the registry. */
  type TypeTag = string

  datatype Property = Property(id: int, name: string)

  /** One call of registerProperty. */
  datatype Registration = Registration(tag: TypeTag, property: Property)

  /** The properties registered for `tag`, in the order they were registered. */
  function PropertiesFor(log: seq<Registration>, tag: TypeTag): (ps: seq<Property>)
    ensures forall k :: 0 <= k < |ps| ==> Registration(tag, ps[k]) in log
  {
    if log == [] then []
    else
      var last := log[|log| - 1];
      PropertiesFor(log[..|log| - 1], tag) + (if last.tag == tag then [last.property] else [])
  }

  /** The first property of the list with the given id, if there is one. */
  function FindFirst(ps: seq<Property>, id: int): (r: Option<Property>)
    ensures r.None? <==> forall k :: 0 <= k < |ps| ==> ps[k].id != id
    ensures r.Some? ==> exists k :: 0 <= k < |ps| && ps[k] == r.value && r.value.id == id
                                    && forall j :: 0 <= j < k ==> ps[j].id != id
  {
    if ps == [] then None
    else if ps[0].id == id then Some(ps[0])
    else FindFirst(ps[1..], id)
  }

  class Editor {
    var propertiesMap: map<TypeTag, seq<Property>>
    /** Every registration so far, oldest first. */
    ghost var log: seq<Registration>

    /** The map holds exactly the registered types, each with its registrations in order. */
    ghost predicate Valid()
      reads this
    {
      forall tag :: (tag in propertiesMap <==> PropertiesFor(log, tag) != [])
                 && (tag in propertiesMap ==> propertiesMap[tag] == PropertiesFor(log, tag))
    }

    constructor ()
      ensures Valid() && propertiesMap == map[] && log == []
    {
      propertiesMap := map[];
      log := [];
    }

    /** Appends the property to the type's list, creating the list on the first registration for the type. */
    method RegisterProperty(tag: TypeTag, id: int, name: string)
      requires Valid()
      modifies this
      ensures Valid()
      ensures log == old(log) + [Registration(tag, Property(id, name))]
      ensures propertiesMap.Keys == old(propertiesMap).Keys + {tag}
      ensures propertiesMap[tag] == (if tag in old(propertiesMap) then old(propertiesMap)[tag] else []) + [Property(id, name)]
      ensures forall other :: other != tag && other in old(propertiesMap) ==> propertiesMap[other] == old(propertiesMap)[other]
    {
      if tag !in propertiesMap {
        propertiesMap := propertiesMap[tag := []];
      }
      propertiesMap := propertiesMap[tag := propertiesMap[tag] + [Property(id, name)]];
      ghost var reg := Registration(tag, Property(id, name));
      ghost var log0 := log;
      log := log + [reg];
      forall t
        ensures PropertiesFor(log, t) == PropertiesFor(log0, t) + (if t == tag then [reg.property] else [])
      {
        AppendRegistration(log0, reg, t);
      }
    }

    /** The type's properties in registration order; the type must have been registered. */
    method GetProperties(tag: TypeTag) returns (ps: seq<Property>)
      requires Valid() && tag in propertiesMap
      ensures ps == PropertiesFor(log, tag)
      ensures ps != []
    {
      ps := propertiesMap[tag];
    }

    /**
      The earliest registered property of the type with the given id;
      None where the registry asserts that there is one.
     */
    method GetProperty(tag: TypeTag, id: int) returns (p: Option<Property>)
      requires Valid() && tag in propertiesMap
      ensures p == FindFirst(PropertiesFor(log, tag), id)
      ensures p.Some? ==> p.value.id == id && Registration(tag, p.value) in log
    {
      var properties := GetProperties(tag);
      for k := 0 to |properties|
        invariant FindFirst(properties, id) == FindFirst(properties[k..], id)
      {
        assert properties[k..][1..] == properties[k + 1..];
        if properties[k].id == id {
          PropertiesForMembers(log, tag);
          assert properties[k] in properties;
          return Some(properties[k]);
        }
      }
      return None;
    }
  }

  /** One more registration extends its own type's list by its property and no other list. */
  lemma AppendRegistration(log: seq<Registration>, reg: Registration, tag: TypeTag)
    ensures PropertiesFor(log + [reg], tag) == PropertiesFor(log, tag) + (if reg.tag == tag then [reg.property] else [])
  {
    assert (log + [reg])[..|log|] == log;
  }

  /** A property is on a type's list exactly when it was registered for that type. */
  lemma {:induction false} PropertiesForMembers(log: seq<Registration>, tag: TypeTag)
    ensures forall p :: p in PropertiesFor(log, tag) <==> Registration(tag, p) in log
  {
    if log != [] {
      var init, last := log[..|log| - 1], log[|log| - 1];
      PropertiesForMembers(init, tag);
      assert log == init + [last];
    }
  }

  /** Registering properties for one type in a row appends them, in call order, to that type's list. */
  lemma {:induction false} RegistrationOrder(log: seq<Registration>, tag: TypeTag, ps: seq<Property>)
    ensures PropertiesFor(log + Registrations(tag, ps), tag) == PropertiesFor(log, tag) + ps
  {
    if ps != [] {
      var init, last := ps[..|ps| - 1], ps[|ps| - 1];
      RegistrationOrder(log, tag, init);
      assert Registrations(tag, ps) == Registrations(tag, init) + [Registration(tag, last)];
      assert log + Registrations(tag, ps) == (log + Registrations(tag, init)) + [Registration(tag, last)];
      AppendRegistration(log + Registrations(tag, init), Registration(tag, last), tag);
      assert init + [last] == ps;
    } else {
      assert log + Registrations(tag, ps) == log;
    }
  }

  /** The registrations of `ps` for one type, in order. */
  function Registrations(tag: TypeTag, ps: seq<Property>): seq<Registration>
  {
    seq(|ps|, i requires 0 <= i < |ps| => Registration(tag, ps[i]))
  }

  /** Registrations for other types leave a type's list as it was. */
  lemma {:induction false} OtherRegistrationsInvisible(log: seq<Registration>, more: seq<Registration>, tag: TypeTag)
    requires forall i :: 0 <= i < |more| ==> more[i].tag != tag
    ensures PropertiesFor(log + more, tag) == PropertiesFor(log, tag)
  {
    if more != [] {
      var init, last := more[..|more| - 1], more[|more| - 1];
      OtherRegistrationsInvisible(log, init, tag);
      assert log + more == (log + init) + [last];
      AppendRegistration(log + init, last, tag);
    } else {
      assert log + more == log;
    }
  }

  /** The earliest property with an id wins: what is registered after it never changes the lookup. */
  lemma {:induction false} FirstWins(ps: seq<Property>, qs: seq<Property>, id: int)
    requires FindFirst(ps, id).Some?
    ensures FindFirst(ps + qs, id) == FindFirst(ps, id)
  {
    assert ps != [];
    if ps[0].id != id {
      assert (ps + qs)[1..] == ps[1..] + qs;
      FirstWins(ps[1..], qs, id);
    }
  }

  /** A later registration, even one reusing an id, never changes what an earlier lookup found. */
  lemma RegisteringAgainKeepsLookup(log: seq<Registration>, tag: TypeTag, p: Property, id: int)
    requires FindFirst(PropertiesFor(log, tag), id).Some?
    ensures FindFirst(PropertiesFor(log + [Registration(tag, p)], tag), id) == FindFirst(PropertiesFor(log, tag), id)
  {
    AppendRegistration(log, Registration(tag, p), tag);
    FirstWins(PropertiesFor(log, tag), [p], id);
  }

  /** The lookup finds a property exactly when one with that id was registered for the type. */
  lemma LookupComplete(log: seq<Registration>, tag: TypeTag, id: int)
    ensures FindFirst(PropertiesFor(log, tag), id).Some? <==> exists name :: Registration(tag, Property(id, name)) in log
  {
    var ps := PropertiesFor(log, tag);
    PropertiesForMembers(log, tag);
    if FindFirst(ps, id).Some? {
      var k :| 0 <= k < |ps| && ps[k].id == id;
      assert ps[k] in ps;
      assert Registration(tag, Property(id, ps[k].name)) in log;
    }
    if exists name :: Registration(tag, Property(id, name)) in log {
      var name :| Registration(tag, Property(id, name)) in log;
      assert Property(id, name) in ps;
      var k :| 0 <= k < |ps| && ps[k] == Property(id, name);
    }
  }

  /**
    The demo editor's initialisation: four properties registered for the
    sprite type, which then come back in that order after whatever the
    type already had.
   */
  method InitializeSprite(e: Editor, sprite: TypeTag, positionXY: int, rotation: int, opacity: int, scaleXY: int)
    requires e.Valid()
    modifies e
    ensures e.Valid()
    ensures PropertiesFor(e.log, sprite)
         == PropertiesFor(old(e.log), sprite) + [Property(positionXY, "position")] + [Property(rotation, "rotation")]
            + [Property(opacity, "opacity")] + [Property(scaleXY, "scale")]
  {
    var p1, p2, p3, p4 := Property(positionXY, "position"), Property(rotation, "rotation"),
                          Property(opacity, "opacity"), Property(scaleXY, "scale");
    ghost var log0 := e.log;
    e.RegisterProperty(sprite, p1.id, p1.name);
    AppendRegistration(log0, Registration(sprite, p1), sprite);
    ghost var log1 := e.log;
    e.RegisterProperty(sprite, p2.id, p2.name);
    AppendRegistration(log1, Registration(sprite, p2), sprite);
    ghost var log2 := e.log;
    e.RegisterProperty(sprite, p3.id, p3.name);
    AppendRegistration(log2, Registration(sprite, p3), sprite);
    ghost var log3 := e.log;
    e.RegisterProperty(sprite, p4.id, p4.name);
    AppendRegistration(log3, Registration(sprite, p4), sprite);
  }
}
