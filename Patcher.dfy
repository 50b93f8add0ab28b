/**
 * The rewrite pass itself: one walk over every type of a module that
 * assigns visibility, access and field flags in place and takes events out
 * of a type's event list, proved against the rules of module Rules.
 */
module Patcher {
  import opened Metadata
  import opened Rules

  /**
   * Rewrites the module in place: every type ends in the state the rules
   * give for its state before the call. No type, method or field object is
   * added, removed or reordered, and no object outside the module changes.
   */
  method Patch(moduleDef: ModuleDef, publicizeInternal: bool, publicizePrivate: bool,
               publicizeReadonly: bool, publicizeEventBackingField: bool, unityKeepSerializable: bool)
    requires moduleDef.Valid()
    modifies moduleDef.Repr()
    ensures forall t :: t in moduleDef.types ==>
              t.Value() == PatchedType(old(t.Value()),
                                       Policy(publicizeInternal, publicizePrivate, publicizeReadonly,
                                              publicizeEventBackingField, unityKeepSerializable))
  {
    var p := Policy(publicizeInternal, publicizePrivate, publicizeReadonly,
                    publicizeEventBackingField, unityKeepSerializable);
    var types := moduleDef.types;
    for i := 0 to |types|
      invariant forall j :: 0 <= j < i ==> types[j].Value() == PatchedType(old(types[j].Value()), p)
      invariant forall j :: i <= j < |types| ==> types[j].Value() == old(types[j].Value())
    {
      moduleDef.TypeInModule(i);
      PatchTypeOf(moduleDef, i, p);
    }
  }

  /** Patching one type of a valid module changes no other type. */
  method PatchTypeOf(moduleDef: ModuleDef, i: nat, p: Policy)
    requires moduleDef.Valid() && i < |moduleDef.types|
    modifies moduleDef.types[i].Repr()
    ensures moduleDef.types[i].Value() == PatchedType(old(moduleDef.types[i].Value()), p)
    ensures forall j :: 0 <= j < |moduleDef.types| && j != i ==>
              moduleDef.types[j].Value() == old(moduleDef.types[j].Value())
  {
    PatchType(moduleDef.types[i], p);
    moduleDef.OthersUnchanged(i);
  }

  /**
   * One iteration of the pass: the type's visibility, then each method,
   * then each field with its four stages.
   */
  method PatchType(t: TypeDef, p: Policy)
    requires t.Valid()
    modifies t.Repr()
    ensures t.Value() == PatchedType(old(t.Value()), p)
  {
    ghost var before := t.Value();
    t.ReprHolds();
    AccessesEach(t.methods);
    ValuesEach(t.fields);
    PatchVisibility(t, p);
    PatchMethods(t, p, before.methodAccess);
    PatchFields(t, p, before.fields);
    TypePatched(t, p, before);
  }

  /** The type's own visibility. */
  method PatchVisibility(t: TypeDef, p: Policy)
    modifies t`visibility
    ensures t.visibility == NewTypeVisibility(old(t.visibility), t.IsNested(), p)
  {
    if t.IsNested() {
      if p.publicizePrivate {
        t.visibility := NestedPublic;
      } else if p.publicizeInternal {
        if t.visibility == NestedAssembly || t.visibility == NestedFamORAssem {
          t.visibility := NestedPublic;
        }
      }
    } else if p.publicizePrivate || p.publicizeInternal {
      t.visibility := TypeVisibility.Public;
    }
  }

  /** A type whose visibility, methods, fields and events were each patched has the patched value. */
  lemma TypePatched(t: TypeDef, p: Policy, before: TypeValue)
    requires t.IsNested() == before.isNested
    requires t.visibility == NewTypeVisibility(before.visibility, t.IsNested(), p)
    requires |t.methods| == |before.methodAccess|
    requires forall j :: 0 <= j < |t.methods| ==> t.methods[j].access == NewAccess(before.methodAccess[j], p)
    requires |t.fields| == |before.fields|
    requires forall j :: 0 <= j < |t.fields| ==>
               t.fields[j].Value() == PatchedFields(before.fields, before.events, p)[j]
    requires t.events == EventsAfter(before.events, before.fields, p)
    ensures t.Value() == PatchedType(before, p)
  {
    AccessesEach(t.methods);
    ValuesEach(t.fields);
  }

  /** Method access; this also opens properties and events through their accessors. */
  method PatchMethods(t: TypeDef, p: Policy, ghost accesses: seq<MemberAccess>)
    requires t.Valid()
    requires |accesses| == |t.methods| && forall j :: 0 <= j < |t.methods| ==> t.methods[j].access == accesses[j]
    modifies t.methods`access
    ensures forall j :: 0 <= j < |t.methods| ==> t.methods[j].access == NewAccess(accesses[j], p)
  {
    var ms := t.methods;
    for k := 0 to |ms|
      invariant forall j :: 0 <= j < k ==> ms[j].access == NewAccess(accesses[j], p)
      invariant forall j :: k <= j < |ms| ==> ms[j].access == accesses[j]
    {
      var m := ms[k];
      if p.publicizePrivate {
        m.access := MemberAccess.Public;
      } else if p.publicizeInternal {
        if m.access == Assembly || m.access == FamORAssem {
          m.access := MemberAccess.Public;
        }
      }
    }
  }

  /**
   * The field loop: each field in turn goes through the event guard and
   * then the remaining stages; the event list shrinks as it goes.
   */
  method PatchFields(t: TypeDef, p: Policy, ghost fields: seq<FieldValue>)
    requires t.Valid()
    requires |fields| == |t.fields| && forall j :: 0 <= j < |t.fields| ==> t.fields[j].Value() == fields[j]
    modifies t`events, t.fields
    ensures forall j :: 0 <= j < |t.fields| ==> t.fields[j].Value() == PatchedFields(fields, old(t.events), p)[j]
    ensures t.events == EventsAfter(old(t.events), fields, p)
  {
    var fs := t.fields;
    ghost var events := t.events;
    for k := 0 to |fs|
      invariant forall j :: 0 <= j < k ==> fs[j].Value() == PatchedFields(fields, events, p)[j]
      invariant forall j :: k <= j < |fs| ==> fs[j].Value() == fields[j]
      invariant t.events == EventsAfter(events, fields[..k], p)
    {
      PatchFieldAt(t, k, p, fields, events);
    }
    assert fields[..|fs|] == fields;
  }

  /** One turn of the field loop, stated against the fields and events before the loop. */
  method PatchFieldAt(t: TypeDef, k: nat, p: Policy, ghost fields: seq<FieldValue>, ghost events: seq<EventDef>)
    requires t.Valid() && k < |t.fields| == |fields|
    requires t.fields[k].Value() == fields[k]
    requires t.events == EventsAfter(events, fields[..k], p)
    modifies t`events, t.fields[k]
    ensures t.fields[k].Value() == PatchedFields(fields, events, p)[k]
    ensures t.events == EventsAfter(events, fields[..k + 1], p)
  {
    EventsAfterStep(events, fields, k, p);
    PatchedFieldsAt(fields, events, p, k);
    PatchField(t, t.fields[k], p);
  }

  /**
   * One turn of the field loop. Returning early is the loop's `continue`:
   * a field that backs a kept event is left exactly as it is.
   */
  method PatchField(t: TypeDef, field: FieldDef, p: Policy)
    modifies t`events, field
    ensures t.events == EventsAfterField(old(t.events), field.name, p)
    ensures field.Value() == PatchedField(old(field.Value()), old(t.events), p)
  {
    if p.publicizePrivate {
      if p.publicizeEventBackingField {
        // an event of the same name goes; its backing field becomes the way in
        var sameEvent := FirstOrDefault(t.events, field.name);
        t.events := Remove(t.events, sameEvent);
      } else {
        // keep the backing field as it is, or the event could not be named
        if AnyNamed(t.events, field.name) {
          return;
        }
      }
    }
    PromoteField(field, p);
    assert field.Value() == PromotedField(old(field.Value()), p);
  }

  /** The serialization guard, the access change and readonly clearing on one field. */
  method PromoteField(field: FieldDef, p: Policy)
    modifies field
    ensures field.isNotSerialized ==
              (old(field.isNotSerialized) || (p.unityKeepSerializable && KeepUnserialized(old(field.Value()))))
    ensures field.access == NewAccess(old(field.access), p)
    ensures field.isInitOnly == (old(field.isInitOnly) && !(p.publicizeReadonly && !field.isLiteral))
  {
    if p.unityKeepSerializable {
      // a field Unity did not serialize while private is marked, so it stays unserialized once public
      if !field.IsPublic() && !field.isStatic && !field.isInitOnly && !field.hasConstant
         && !(SerializeField in field.customAttributes || CompilerGenerated in field.customAttributes)
      {
        field.isNotSerialized := true;
      }
    }

    if p.publicizePrivate {
      field.access := MemberAccess.Public;
    } else if p.publicizeInternal {
      if field.access == Assembly || field.access == FamORAssem {
        field.access := MemberAccess.Public;
      }
    }

    if p.publicizeReadonly {
      // constants keep their flags
      if !field.isLiteral {
        field.isInitOnly := false;
      }
    }
  }
}
