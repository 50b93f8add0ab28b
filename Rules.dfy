/**
 * The rewrite as pure rules on values: what one pass of the publicizer does
 * to a type's visibility, to a method's or field's access, to a field's
 * flags and to the type's event list, as a function of the state before the
 * pass and the five policy switches.
 */
module Rules {
  import opened Metadata

  /** The five switches the caller passes to the rewrite. */
  datatype Policy = Policy(
    publicizeInternal: bool,
    publicizePrivate: bool,
    publicizeReadonly: bool,
    publicizeEventBackingField: bool,
    unityKeepSerializable: bool)

  /**
   * A type's new visibility. Private promotion opens any type completely;
   * internal promotion alone opens a top-level type, and a nested type
   * exactly when non-derived code of its own assembly could already reach
   * it but non-derived code of another assembly could not (NestedAssembly
   * and NestedFamORAssem).
   */
  function NewTypeVisibility(v: TypeVisibility, isNested: bool, p: Policy): (r: TypeVisibility)
    ensures TypeSites(v) <= TypeSites(r)
    ensures r == v || r == (if isNested then NestedPublic else TypeVisibility.Public)
    ensures p.publicizePrivate ==> TypeSites(r) == AllSites
    ensures p.publicizePrivate ==> r == (if isNested then NestedPublic else TypeVisibility.Public)
    ensures !p.publicizePrivate && p.publicizeInternal && !isNested ==> r == TypeVisibility.Public
    ensures !p.publicizePrivate && p.publicizeInternal && isNested && v.IsNestedKind() ==>
              (r != v <==> SameAssembly in TypeSites(v) && Elsewhere !in TypeSites(v))
    ensures !p.publicizePrivate && p.publicizeInternal && isNested ==>
              (r != v <==> v == NestedAssembly || v == NestedFamORAssem)
    ensures !p.publicizePrivate && !p.publicizeInternal ==> r == v
  {
    if isNested then
      if p.publicizePrivate then NestedPublic
      else if p.publicizeInternal && (v == NestedAssembly || v == NestedFamORAssem) then NestedPublic
      else v
    else if p.publicizePrivate || p.publicizeInternal then TypeVisibility.Public
    else v
  }

  /**
   * A method's or field's new access. Private promotion makes every member
   * public; internal promotion alone makes public exactly the members that
   * non-derived code of the same assembly could already use, and leaves the
   * rest alone.
   */
  function NewAccess(a: MemberAccess, p: Policy): (r: MemberAccess)
    ensures MemberSites(a) <= MemberSites(r)
    ensures r == a || r == MemberAccess.Public
    ensures p.publicizePrivate ==> MemberSites(r) == AllSites
    ensures !p.publicizePrivate && p.publicizeInternal ==>
              (r == MemberAccess.Public <==> SameAssembly in MemberSites(a))
    ensures !p.publicizePrivate && !p.publicizeInternal ==> r == a
  {
    if p.publicizePrivate then MemberAccess.Public
    else if p.publicizeInternal && (a == Assembly || a == FamORAssem) then MemberAccess.Public
    else a
  }

  /** The access of each method in a list after the pass. */
  function NewAccesses(accesses: seq<MemberAccess>, p: Policy): seq<MemberAccess> {
    seq(|accesses|, k requires 0 <= k < |accesses| => NewAccess(accesses[k], p))
  }

  /** Some event in the list carries this name (Enumerable.Any). */
  predicate AnyNamed(events: seq<EventDef>, name: string) {
    exists e :: e in events && e.name == name
  }

  /** The first event carrying this name, or null (Enumerable.FirstOrDefault). */
  function FirstOrDefault(events: seq<EventDef>, name: string): (r: EventDef?)
    ensures r != null ==> r in events && r.name == name
    ensures r == null <==> !AnyNamed(events, name)
  {
    if events == [] then null
    else if events[0].name == name then events[0]
    else FirstOrDefault(events[1..], name)
  }

  /**
   * The list with the first occurrence of `e` taken out (List.Remove);
   * unchanged when `e` is null or not in the list.
   */
  function Remove(events: seq<EventDef>, e: EventDef?): (r: seq<EventDef>)
    ensures e !in events ==> r == events
    ensures e in events ==> |r| == |events| - 1
    ensures forall x :: x in r ==> x in events
  {
    if events == [] then []
    else if events[0] == e then events[1..]
    else [events[0]] + Remove(events[1..], e)
  }

  /** The event guard skips the field: it backs an event that is kept. */
  predicate SkipsField(events: seq<EventDef>, name: string, p: Policy) {
    p.publicizePrivate && !p.publicizeEventBackingField && AnyNamed(events, name)
  }

  /** The events left once the event guard has looked at one field. */
  function EventsAfterField(events: seq<EventDef>, name: string, p: Policy): seq<EventDef> {
    if p.publicizePrivate && p.publicizeEventBackingField then
      Remove(events, FirstOrDefault(events, name))
    else
      events
  }

  /**
   * The serialization guard's test on a field's flags before its access
   * changes: Unity does not serialize it now, and would once it is public.
   */
  predicate KeepUnserialized(f: FieldValue) {
    && !f.IsPublic()
    && !f.isStatic
    && !f.isInitOnly
    && !f.hasConstant
    && SerializeField !in f.customAttributes
    && CompilerGenerated !in f.customAttributes
  }

  /**
   * The last three stages on a field that the event guard let through:
   * serialization guard, access, readonly clearing.
   */
  function PromotedField(f: FieldValue, p: Policy): FieldValue {
    var guarded := if p.unityKeepSerializable && KeepUnserialized(f) then f.(isNotSerialized := true) else f;
    var promoted := guarded.(access := NewAccess(guarded.access, p));
    if p.publicizeReadonly && !promoted.isLiteral then promoted.(isInitOnly := false) else promoted
  }

  /**
   * One field after its four stages, given the events the type holds when
   * the field's turn comes.
   */
  function PatchedField(f: FieldValue, events: seq<EventDef>, p: Policy): FieldValue {
    if SkipsField(events, f.name, p) then f else PromotedField(f, p)
  }

  /** The events left once the fields `fs` have been processed in order. */
  function EventsAfter(events: seq<EventDef>, fs: seq<FieldValue>, p: Policy): (r: seq<EventDef>)
    ensures |r| <= |events|
    ensures forall e :: e in r ==> e in events
  {
    if fs == [] then events
    else EventsAfterField(EventsAfter(events, fs[..|fs| - 1], p), fs[|fs| - 1].name, p)
  }

  /** Processing one more field takes the events one guard step further. */
  lemma EventsAfterStep(events: seq<EventDef>, fs: seq<FieldValue>, k: nat, p: Policy)
    requires k < |fs|
    ensures EventsAfter(events, fs[..k + 1], p) == EventsAfterField(EventsAfter(events, fs[..k], p), fs[k].name, p)
  {
    assert fs[..k + 1][..k] == fs[..k];
  }

  /** The fields `fs` after they have been processed in order. */
  function PatchedFields(fs: seq<FieldValue>, events: seq<EventDef>, p: Policy): (r: seq<FieldValue>)
    ensures |r| == |fs|
  {
    if fs == [] then []
    else
      var prefix := fs[..|fs| - 1];
      PatchedFields(prefix, events, p) + [PatchedField(fs[|fs| - 1], EventsAfter(events, prefix, p), p)]
  }

  /**
   * Field k after the pass is field k patched against the events left by
   * the fields before it.
   */
  lemma {:induction false} PatchedFieldsAt(fs: seq<FieldValue>, events: seq<EventDef>, p: Policy, k: nat)
    requires k < |fs|
    ensures PatchedFields(fs, events, p)[k] == PatchedField(fs[k], EventsAfter(events, fs[..k], p), p)
  {
    var prefix := fs[..|fs| - 1];
    if k < |fs| - 1 {
      PatchedFieldsAt(prefix, events, p, k);
      assert prefix[..k] == fs[..k];
    } else {
      assert fs[..k] == prefix;
    }
  }

  /** A type after one pass. */
  function PatchedType(t: TypeValue, p: Policy): TypeValue {
    TypeValue(
      NewTypeVisibility(t.visibility, t.isNested, p),
      t.isNested,
      NewAccesses(t.methodAccess, p),
      PatchedFields(t.fields, t.events, p),
      EventsAfter(t.events, t.fields, p))
  }
}
