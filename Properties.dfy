/**
 * What one pass of the rewrite guarantees. Every lemma here is about the
 * rules of module Rules; Patcher.Patch's postcondition carries each of them
 * over to the objects of a module.
 */
module Properties {
  import opened Metadata
  import opened Rules

  /** How many events carry the name. */
  function CountNamed(events: seq<EventDef>, name: string): nat {
    if events == [] then 0
    else (if events[0].name == name then 1 else 0) + CountNamed(events[1..], name)
  }

  /** How many fields carry the name. */
  function CountFieldsNamed(fs: seq<FieldValue>, name: string): nat {
    if fs == [] then 0
    else CountFieldsNamed(fs[..|fs| - 1], name) + (if fs[|fs| - 1].name == name then 1 else 0)
  }

  /** No two events of the list share a name. */
  predicate DistinctEventNames(events: seq<EventDef>) {
    forall i, j :: 0 <= i < j < |events| ==> events[i].name != events[j].name
  }

  // ----- the two list operations of the event guard -----

  /**
   * FirstOrDefault gives null exactly when no event carries the name, and
   * otherwise the first event that does.
   */
  lemma {:induction false} FirstOrDefaultIsFirst(events: seq<EventDef>, name: string)
    ensures FirstOrDefault(events, name) == null <==> !AnyNamed(events, name)
    ensures FirstOrDefault(events, name) != null ==>
              FirstOrDefault(events, name) in events && FirstOrDefault(events, name).name == name
    ensures FirstOrDefault(events, name) != null ==>
              exists i :: 0 <= i < |events| && events[i] == FirstOrDefault(events, name)
                          && !AnyNamed(events[..i], name)
  {
    if events == [] {
    } else if events[0].name == name {
      assert !AnyNamed(events[..0], name);
    } else {
      var rest := events[1..];
      FirstOrDefaultIsFirst(rest, name);
      var r := FirstOrDefault(rest, name);
      if r != null {
        var i :| 0 <= i < |rest| && rest[i] == r && !AnyNamed(rest[..i], name);
        FirstAfterSkip(events[0], rest, name, i);
        assert events == [events[0]] + rest;
      }
    }
  }

  /** One step of FirstOrDefaultIsFirst: an earlier event without the name moves the index up by one. */
  lemma FirstAfterSkip(x: EventDef, rest: seq<EventDef>, name: string, i: nat)
    requires x.name != name && i < |rest| && !AnyNamed(rest[..i], name)
    ensures !AnyNamed(([x] + rest)[..i + 1], name)
  {
    assert ([x] + rest)[..i + 1] == [x] + rest[..i];
  }

  /**
   * List.Remove: an event that is not in the list (null included) changes
   * nothing; one that is loses exactly one occurrence.
   */
  lemma {:induction false} RemoveOneOccurrence(events: seq<EventDef>, e: EventDef?)
    ensures e !in events ==> Remove(events, e) == events
    ensures e in events ==> |Remove(events, e)| == |events| - 1
    ensures e in events ==> multiset(Remove(events, e)) == multiset(events) - multiset{e}
  {
    if events != [] {
      var rest := events[1..];
      assert events == [events[0]] + rest;
      if events[0] != e {
        RemoveOneOccurrence(rest, e);
      }
    }
  }

  /**
   * List.Remove takes out the first occurrence and keeps the order of the
   * events before and after it.
   */
  lemma {:induction false} RemoveFirstOccurrence(events: seq<EventDef>, e: EventDef?)
    requires e in events
    ensures exists i :: 0 <= i < |events| && events[i] == e && e !in events[..i]
                        && Remove(events, e) == events[..i] + events[i + 1..]
  {
    if events[0] == e {
      assert events[0] == e && e !in events[..0] && Remove(events, e) == events[..0] + events[0 + 1..] by {
        assert events[..0] + events[1..] == events[1..];
      }
    } else {
      var rest := events[1..];
      assert events == [events[0]] + rest;
      RemoveFirstOccurrence(rest, e);
      var i :| 0 <= i < |rest| && rest[i] == e && e !in rest[..i] && Remove(rest, e) == rest[..i] + rest[i + 1..];
      var j := i + 1;
      assert events[j] == e && e !in events[..j] && Remove(events, e) == events[..j] + events[j + 1..] by {
        RemoveAfterSkip(events[0], rest, e, i);
      }
    }
  }

  /** One step of RemoveFirstOccurrence: the index found in the tail moves up by one. */
  lemma RemoveAfterSkip(x: EventDef, rest: seq<EventDef>, e: EventDef?, i: nat)
    requires x != e && i < |rest| && rest[i] == e && e !in rest[..i]
    requires Remove(rest, e) == rest[..i] + rest[i + 1..]
    ensures e !in ([x] + rest)[..i + 1]
    ensures Remove([x] + rest, e) == ([x] + rest)[..i + 1] + ([x] + rest)[i + 2..]
  {
    var events := [x] + rest;
    assert events[1..] == rest;
    assert events[..i + 1] == [x] + rest[..i];
    assert events[i + 2..] == rest[i + 1..];
  }

  lemma CountNamedPrepend(x: EventDef, events: seq<EventDef>, name: string)
    ensures CountNamed([x] + events, name) == (if x.name == name then 1 else 0) + CountNamed(events, name)
  {
    assert ([x] + events)[1..] == events;
  }

  /** An event list without the name counts none of it, and the converse. */
  lemma {:induction false} CountNamedZero(events: seq<EventDef>, name: string)
    ensures CountNamed(events, name) == 0 <==> !AnyNamed(events, name)
  {
    if events != [] {
      CountNamedZero(events[1..], name);
      assert events == [events[0]] + events[1..];
    }
  }

  /** With distinct names, each name is carried at most once. */
  lemma {:induction false} CountNamedDistinct(events: seq<EventDef>, name: string)
    requires DistinctEventNames(events)
    ensures CountNamed(events, name) <= 1
  {
    if events != [] {
      var rest := events[1..];
      CountNamedDistinct(rest, name);
      if events[0].name == name {
        CountNamedZero(rest, name);
      }
    }
  }

  /** The name of any field of the list is counted at least once. */
  lemma {:induction false} CountFieldsNamedAt(fs: seq<FieldValue>, k: nat)
    requires k < |fs|
    ensures CountFieldsNamed(fs, fs[k].name) >= 1
  {
    var prefix := fs[..|fs| - 1];
    if k < |fs| - 1 {
      CountFieldsNamedAt(prefix, k);
    }
  }

  /**
   * One turn of the event guard in backing-field mode takes one event of
   * the field's name out, if there is one, and no event of another name.
   */
  lemma {:induction false} GuardStepCount(events: seq<EventDef>, m: string, n: string)
    ensures CountNamed(Remove(events, FirstOrDefault(events, m)), n) ==
              if m == n && CountNamed(events, n) > 0 then CountNamed(events, n) - 1 else CountNamed(events, n)
  {
    if events != [] && events[0].name != m {
      var rest := events[1..];
      GuardStepCount(rest, m, n);
      FirstOrDefaultIsFirst(rest, m);
      CountNamedPrepend(events[0], Remove(rest, FirstOrDefault(rest, m)), n);
    }
  }

  // ----- the event list after the field loop -----

  /** Without backing-field mode, the field loop leaves the event list as it was. */
  lemma {:induction false} EventsKeptWithoutBackingFields(events: seq<EventDef>, fs: seq<FieldValue>, p: Policy)
    requires !(p.publicizePrivate && p.publicizeEventBackingField)
    ensures EventsAfter(events, fs, p) == events
  {
    if fs != [] {
      EventsKeptWithoutBackingFields(events, fs[..|fs| - 1], p);
    }
  }

  /**
   * In backing-field mode, each field takes one event of its own name out
   * of the list, as long as one is left.
   */
  lemma {:induction false} BackingFieldEventsCount(events: seq<EventDef>, fs: seq<FieldValue>, p: Policy, n: string)
    requires p.publicizePrivate && p.publicizeEventBackingField
    ensures CountNamed(EventsAfter(events, fs, p), n) ==
              if CountNamed(events, n) >= CountFieldsNamed(fs, n) then CountNamed(events, n) - CountFieldsNamed(fs, n)
              else 0
  {
    if fs != [] {
      var prefix := fs[..|fs| - 1];
      BackingFieldEventsCount(events, prefix, p, n);
      GuardStepCount(EventsAfter(events, prefix, p), fs[|fs| - 1].name, n);
    }
  }

  /**
   * In backing-field mode, an event whose name is shared by at least as
   * many fields as events is gone after the pass: with one event and one
   * field of a name, the event is removed.
   */
  lemma BackingEventRemoved(events: seq<EventDef>, fs: seq<FieldValue>, p: Policy, n: string)
    requires p.publicizePrivate && p.publicizeEventBackingField
    requires CountNamed(events, n) <= CountFieldsNamed(fs, n)
    ensures !AnyNamed(EventsAfter(events, fs, p), n)
  {
    BackingFieldEventsCount(events, fs, p, n);
    CountNamedZero(EventsAfter(events, fs, p), n);
  }

  /** The pass only ever takes events out of the list. */
  lemma {:induction false} EventsOnlyRemoved(events: seq<EventDef>, fs: seq<FieldValue>, p: Policy)
    ensures multiset(EventsAfter(events, fs, p)) <= multiset(events)
  {
    if fs != [] {
      var prefix := fs[..|fs| - 1];
      var m := fs[|fs| - 1].name;
      EventsOnlyRemoved(events, prefix, p);
      if p.publicizePrivate && p.publicizeEventBackingField {
        var before := EventsAfter(events, prefix, p);
        RemoveOneOccurrence(before, FirstOrDefault(before, m));
      }
    }
  }

  /** An event whose name no field carries stays, as often as it was listed. */
  lemma {:induction false} UnmatchedEventKept(events: seq<EventDef>, fs: seq<FieldValue>, p: Policy, e: EventDef)
    requires CountFieldsNamed(fs, e.name) == 0
    ensures multiset(EventsAfter(events, fs, p))[e] == multiset(events)[e]
  {
    if fs != [] {
      var prefix := fs[..|fs| - 1];
      var m := fs[|fs| - 1].name;
      UnmatchedEventKept(events, prefix, p, e);
      if p.publicizePrivate && p.publicizeEventBackingField {
        var before := EventsAfter(events, prefix, p);
        FirstOrDefaultIsFirst(before, m);
        RemoveOneOccurrence(before, FirstOrDefault(before, m));
      }
    }
  }

  /** The guard takes nothing out when no event carries the name of any field. */
  lemma {:induction false} EventsKeptWhenUnmatched(events: seq<EventDef>, fs: seq<FieldValue>, p: Policy)
    requires forall k :: 0 <= k < |fs| ==> !AnyNamed(events, fs[k].name)
    ensures EventsAfter(events, fs, p) == events
  {
    if fs != [] {
      var prefix := fs[..|fs| - 1];
      EventsKeptWhenUnmatched(events, prefix, p);
      FirstOrDefaultIsFirst(events, fs[|fs| - 1].name);
      RemoveOneOccurrence(events, null);
    }
  }

  // ----- one field -----

  /**
   * The field at index k after the pass. When backing fields are kept, a
   * field that shares its name with an event is left exactly as it was.
   */
  lemma BackingFieldKept(fs: seq<FieldValue>, events: seq<EventDef>, p: Policy, k: nat)
    requires p.publicizePrivate && !p.publicizeEventBackingField
    requires k < |fs| && AnyNamed(events, fs[k].name)
    ensures PatchedFields(fs, events, p)[k] == fs[k]
  {
    PatchedFieldsAt(fs, events, p, k);
    EventsKeptWithoutBackingFields(events, fs[..k], p);
  }

  /**
   * Every field the event guard lets through goes through the other three
   * stages, each judged on the field's flags before the pass: the
   * serialization guard, the access rule and readonly clearing. Nothing
   * else about the field changes.
   */
  lemma FieldPromoted(fs: seq<FieldValue>, events: seq<EventDef>, p: Policy, k: nat)
    requires k < |fs|
    requires !(p.publicizePrivate && !p.publicizeEventBackingField && AnyNamed(events, fs[k].name))
    ensures PatchedFields(fs, events, p)[k].access == NewAccess(fs[k].access, p)
    ensures PatchedFields(fs, events, p)[k].isNotSerialized ==
              (fs[k].isNotSerialized || (p.unityKeepSerializable && KeepUnserialized(fs[k])))
    ensures PatchedFields(fs, events, p)[k].isInitOnly ==
              (fs[k].isInitOnly && !(p.publicizeReadonly && !fs[k].isLiteral))
    ensures PatchedFields(fs, events, p)[k].(access := fs[k].access, isNotSerialized := fs[k].isNotSerialized,
                                            isInitOnly := fs[k].isInitOnly) == fs[k]
  {
    PatchedFieldsAt(fs, events, p, k);
    if p.publicizePrivate && !p.publicizeEventBackingField {
      EventsKeptWithoutBackingFields(events, fs[..k], p);
    }
  }

  /**
   * Bounds that hold for every field, skipped or not: the pass never
   * narrows access, never clears NotSerialized, never sets InitOnly, leaves
   * the flags of a field marked SerializeField or CompilerGenerated as to
   * serialization, and leaves InitOnly on a Literal field.
   */
  lemma FieldBounds(fs: seq<FieldValue>, events: seq<EventDef>, p: Policy, k: nat)
    requires k < |fs|
    ensures MemberSites(fs[k].access) <= MemberSites(PatchedFields(fs, events, p)[k].access)
    ensures fs[k].isNotSerialized ==> PatchedFields(fs, events, p)[k].isNotSerialized
    ensures SerializeField in fs[k].customAttributes || CompilerGenerated in fs[k].customAttributes ==>
              PatchedFields(fs, events, p)[k].isNotSerialized == fs[k].isNotSerialized
    ensures !fs[k].isInitOnly ==> !PatchedFields(fs, events, p)[k].isInitOnly
    ensures fs[k].isLiteral ==> PatchedFields(fs, events, p)[k].isInitOnly == fs[k].isInitOnly
    ensures PatchedFields(fs, events, p)[k].name == fs[k].name
  {
    PatchedFieldsAt(fs, events, p, k);
  }

  // ----- one type -----

  /**
   * Opening private members opens the type completely and makes every
   * method public; every field becomes public too, except, when backing
   * fields are kept, a field that backs an event keeps its access.
   */
  lemma PrivateOpensType(t: TypeValue, p: Policy)
    requires p.publicizePrivate
    ensures TypeSites(PatchedType(t, p).visibility) == AllSites
    ensures forall k :: 0 <= k < |t.methodAccess| ==> PatchedType(t, p).methodAccess[k] == MemberAccess.Public
    ensures p.publicizeEventBackingField ==>
              forall k :: 0 <= k < |t.fields| ==> PatchedType(t, p).fields[k].IsPublic()
    ensures !p.publicizeEventBackingField ==>
              forall k :: 0 <= k < |t.fields| ==>
                PatchedType(t, p).fields[k].access ==
                  if AnyNamed(t.events, t.fields[k].name) then t.fields[k].access else MemberAccess.Public
  {
    forall k | 0 <= k < |t.fields|
      ensures PatchedType(t, p).fields[k].access ==
                if !p.publicizeEventBackingField && AnyNamed(t.events, t.fields[k].name) then t.fields[k].access
                else MemberAccess.Public
    {
      if !p.publicizeEventBackingField && AnyNamed(t.events, t.fields[k].name) {
        BackingFieldKept(t.fields, t.events, p, k);
      } else {
        FieldPromoted(t.fields, t.events, p, k);
      }
    }
  }

  /**
   * No type member is added or removed: the type keeps its nesting, its
   * methods and its fields, in order and by name; events can only go.
   */
  lemma ShapeKept(t: TypeValue, p: Policy)
    ensures PatchedType(t, p).isNested == t.isNested
    ensures |PatchedType(t, p).methodAccess| == |t.methodAccess|
    ensures |PatchedType(t, p).fields| == |t.fields|
    ensures forall k :: 0 <= k < |t.fields| ==> PatchedType(t, p).fields[k].name == t.fields[k].name
    ensures multiset(PatchedType(t, p).events) <= multiset(t.events)
  {
    forall k | 0 <= k < |t.fields|
      ensures PatchedType(t, p).fields[k].name == t.fields[k].name
    {
      FieldBounds(t.fields, t.events, p, k);
    }
    EventsOnlyRemoved(t.events, t.fields, p);
  }

  /** All five switches off: the pass changes nothing. */
  lemma {:induction false} AllOffChangesNothing(t: TypeValue)
    ensures PatchedType(t, Policy(false, false, false, false, false)) == t
  {
    var p := Policy(false, false, false, false, false);
    EventsKeptWithoutBackingFields(t.events, t.fields, p);
    forall k | 0 <= k < |t.fields|
      ensures PatchedFields(t.fields, t.events, p)[k] == t.fields[k]
    {
      FieldPromoted(t.fields, t.events, p, k);
    }
  }

  // ----- running the pass twice -----

  /**
   * The three later stages give the same field when run again, unless
   * readonly clearing and the serialization guard are both on while
   * private members stay closed.
   */
  lemma PromotedFieldTwice(f: FieldValue, p: Policy)
    requires p.publicizePrivate || !(p.publicizeReadonly && p.unityKeepSerializable)
    ensures PromotedField(PromotedField(f, p), p) == PromotedField(f, p)
  {
  }

  /** Under the same condition field k is settled after one pass. */
  lemma FieldTwiceAt(fs: seq<FieldValue>, events: seq<EventDef>, p: Policy, k: nat)
    requires p.publicizePrivate || !(p.publicizeReadonly && p.unityKeepSerializable)
    requires k < |fs|
    ensures PatchedFields(PatchedFields(fs, events, p), EventsAfter(events, fs, p), p)[k] == PatchedFields(fs, events, p)[k]
  {
    var once := PatchedFields(fs, events, p);
    var events1 := EventsAfter(events, fs, p);
    PatchedFieldsAt(fs, events, p, k);
    PatchedFieldsAt(once, events1, p, k);
    FieldBounds(fs, events, p, k);
    PromotedFieldTwice(fs[k], p);
    if p.publicizePrivate && !p.publicizeEventBackingField {
      EventsKeptWithoutBackingFields(events, fs[..k], p);
      EventsKeptWithoutBackingFields(events, fs, p);
      EventsKeptWithoutBackingFields(events1, once[..k], p);
    }
  }

  /** Under the same condition the fields of a type are settled after one pass. */
  lemma FieldsTwice(fs: seq<FieldValue>, events: seq<EventDef>, p: Policy)
    requires p.publicizePrivate || !(p.publicizeReadonly && p.unityKeepSerializable)
    ensures PatchedFields(PatchedFields(fs, events, p), EventsAfter(events, fs, p), p) == PatchedFields(fs, events, p)
  {
    var once := PatchedFields(fs, events, p);
    var twice := PatchedFields(once, EventsAfter(events, fs, p), p);
    forall k | 0 <= k < |fs|
      ensures twice[k] == once[k]
    {
      FieldTwiceAt(fs, events, p, k);
    }
    assert |twice| == |once|;
  }

  /**
   * With distinct event names, the event list is settled after one pass:
   * every event a field's name matched is gone, so a second pass over
   * fields of the same names takes nothing more out.
   */
  lemma EventsTwice(events: seq<EventDef>, fs: seq<FieldValue>, fs2: seq<FieldValue>, p: Policy)
    requires DistinctEventNames(events)
    requires |fs2| == |fs| && forall k :: 0 <= k < |fs| ==> fs2[k].name == fs[k].name
    ensures EventsAfter(EventsAfter(events, fs, p), fs2, p) == EventsAfter(events, fs, p)
  {
    var events1 := EventsAfter(events, fs, p);
    if p.publicizePrivate && p.publicizeEventBackingField {
      forall k | 0 <= k < |fs2|
        ensures !AnyNamed(events1, fs2[k].name)
      {
        var n := fs[k].name;
        CountNamedDistinct(events, n);
        CountFieldsNamedAt(fs, k);
        BackingEventRemoved(events, fs, p, n);
      }
      EventsKeptWhenUnmatched(events1, fs2, p);
    } else {
      EventsKeptWithoutBackingFields(events1, fs2, p);
    }
  }

  /** The events of a type are settled after one pass, under the condition of PatchTwice. */
  lemma EventsSettled(t: TypeValue, p: Policy)
    requires p.publicizePrivate && p.publicizeEventBackingField ==> DistinctEventNames(t.events)
    ensures EventsAfter(EventsAfter(t.events, t.fields, p), PatchedFields(t.fields, t.events, p), p)
            == EventsAfter(t.events, t.fields, p)
  {
    var fs1 := PatchedFields(t.fields, t.events, p);
    if p.publicizePrivate && p.publicizeEventBackingField {
      forall k | 0 <= k < |t.fields|
        ensures fs1[k].name == t.fields[k].name
      {
        FieldBounds(t.fields, t.events, p, k);
      }
      EventsTwice(t.events, t.fields, fs1, p);
    } else {
      EventsKeptWithoutBackingFields(t.events, t.fields, p);
      EventsKeptWithoutBackingFields(t.events, fs1, p);
    }
  }

  /**
   * Running the pass twice with the same switches gives the state one pass
   * gives, provided no two events of the type share a name when backing
   * fields replace events, and readonly
   * clearing and the serialization guard are not both on while private
   * members stay closed.
   */
  lemma PatchTwice(t: TypeValue, p: Policy)
    requires p.publicizePrivate || !(p.publicizeReadonly && p.unityKeepSerializable)
    requires p.publicizePrivate && p.publicizeEventBackingField ==> DistinctEventNames(t.events)
    ensures PatchedType(PatchedType(t, p), p) == PatchedType(t, p)
  {
    FieldsTwice(t.fields, t.events, p);
    EventsSettled(t, p);
    assert NewAccesses(NewAccesses(t.methodAccess, p), p) == NewAccesses(t.methodAccess, p);
  }

  /**
   * Without the condition on the switches a second pass can differ: a
   * private readonly field loses InitOnly in the first pass and is only
   * then marked NotSerialized by the second.
   */
  lemma ReadonlyThenSerializationGuard()
    ensures var t := TypeValue(NotPublic, false, [],
                               [FieldValue("value", Private, false, true, false, false, false, [])], []);
            var p := Policy(false, false, true, false, true);
            PatchedType(PatchedType(t, p), p) != PatchedType(t, p)
  {
    var f := FieldValue("value", Private, false, true, false, false, false, []);
    var p := Policy(false, false, true, false, true);
    var once := PatchedFields([f], [], p);
    assert once[0] == f.(isInitOnly := false) by {
      PatchedFieldsAt([f], [], p, 0);
    }
    PatchedFieldsAt(once, EventsAfter([], [f], p), p, 0);
    assert PatchedFields(once, EventsAfter([], [f], p), p)[0].isNotSerialized;
  }

  /**
   * Without distinct event names a second pass can differ: two events
   * named like one field lose one of them per pass.
   */
  lemma SharedEventNameTwice(e1: EventDef, e2: EventDef, f: FieldValue)
    requires e1 != e2 && e1.name == f.name && e2.name == f.name
    ensures var t := TypeValue(TypeVisibility.Public, false, [], [f], [e1, e2]);
            var p := Policy(false, true, false, true, false);
            PatchedType(PatchedType(t, p), p) != PatchedType(t, p)
  {
    var p := Policy(false, true, false, true, false);
    var once := PatchedType(TypeValue(TypeVisibility.Public, false, [], [f], [e1, e2]), p);
    assert [f][..0] == [];
    assert once.events == [e2];
    assert once.fields[0].name == f.name;
    assert once.fields[..0] == [];
    assert PatchedType(once, p).events == [];
  }

  // ----- what the serialization guard is for -----

  /**
   * Unity serializes a field when it is an instance field that is not
   * readonly, not a constant and not marked NotSerialized, and is public
   * or carries SerializeField.
   */
  predicate UnitySerializes(f: FieldValue) {
    && !f.isNotSerialized
    && !f.isStatic
    && !f.isInitOnly
    && !f.isLiteral
    && !f.hasConstant
    && (f.IsPublic() || SerializeField in f.customAttributes)
  }

  /**
   * The guard's purpose, without readonly clearing: a field Unity serializes
   * after the pass was serialized before it, unless it is compiler-generated.
   */
  lemma SerializationKept(fs: seq<FieldValue>, events: seq<EventDef>, p: Policy, k: nat)
    requires k < |fs| && p.unityKeepSerializable && !p.publicizeReadonly
    requires CompilerGenerated !in fs[k].customAttributes
    ensures UnitySerializes(PatchedFields(fs, events, p)[k]) ==> UnitySerializes(fs[k])
  {
    PatchedFieldsAt(fs, events, p, k);
  }

  /**
   * With readonly clearing the purpose is missed: the guard looks at InitOnly
   * before it is cleared, so a private readonly field, which Unity does not
   * serialize, comes out public, writable and serialized. Every switch is on
   * here, as the command-line entry point passes them.
   */
  lemma ReadonlyFieldBecomesSerialized()
    ensures var f := FieldValue("x", Private, false, true, false, false, false, []);
            var p := Policy(true, true, true, true, true);
            !UnitySerializes(f) && UnitySerializes(PatchedFields([f], [], p)[0])
  {
    var f := FieldValue("x", Private, false, true, false, false, false, []);
    PatchedFieldsAt([f], [], Policy(true, true, true, true, true), 0);
  }
}
