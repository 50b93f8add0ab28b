/**
 * The in-memory metadata object model the rewrite works on: the access-flag
 * enumerations of ECMA-335 Partition II (section 23.1.15 TypeAttributes,
 * section 23.1.10 MethodAttributes, section 23.1.5 FieldAttributes), the
 * accessibility they grant, and the mutable type, method, field and event
 * objects of a loaded module.
 */
module Metadata {

  /** The visibility bits of TypeAttributes (VisibilityMask 0x7). */
  datatype TypeVisibility =
    | NotPublic          // 0x0, top-level, assembly only
    | Public             // 0x1, top-level, everywhere
    | NestedPublic       // 0x2
    | NestedPrivate      // 0x3
    | NestedFamily       // 0x4
    | NestedAssembly     // 0x5
    | NestedFamANDAssem  // 0x6
    | NestedFamORAssem   // 0x7
  {
    /** The six values that are only meaningful on a nested type. */
    predicate IsNestedKind() {
      !NotPublic? && !Public?
    }
  }

  /**
   * The member-access bits shared by MethodAttributes (MemberAccessMask 0x7)
   * and FieldAttributes (FieldAccessMask 0x7): both use the same seven codes.
   */
  datatype MemberAccess =
    | CompilerControlled  // 0x0, not referenceable
    | Private             // 0x1
    | FamANDAssem         // 0x2
    | Assembly            // 0x3
    | Family              // 0x4
    | FamORAssem          // 0x5
    | Public              // 0x6

  /**
   * Where the code that wants to use an entity sits, relative to the type
   * that declares it (for a nested type: the type enclosing it).
   */
  datatype Site =
    | DeclaringType       // inside the declaring type itself
    | SubtypeInAssembly   // a derived type of the same assembly
    | SubtypeElsewhere    // a derived type of another assembly
    | SameAssembly        // any other code of the same assembly
    | Elsewhere           // any other code of another assembly

  const AllSites: set<Site> :=
    {DeclaringType, SubtypeInAssembly, SubtypeElsewhere, SameAssembly, Elsewhere}

  /** The sites a member access level admits. */
  function MemberSites(a: MemberAccess): set<Site> {
    match a
    case CompilerControlled => {}
    case Private => {DeclaringType}
    case FamANDAssem => {DeclaringType, SubtypeInAssembly}
    case Assembly => {DeclaringType, SubtypeInAssembly, SameAssembly}
    case Family => {DeclaringType, SubtypeInAssembly, SubtypeElsewhere}
    case FamORAssem => {DeclaringType, SubtypeInAssembly, SubtypeElsewhere, SameAssembly}
    case Public => AllSites
  }

  /** The sites a type visibility admits; nested kinds read like member access. */
  function TypeSites(v: TypeVisibility): set<Site> {
    match v
    case NotPublic => {DeclaringType, SubtypeInAssembly, SameAssembly}
    case Public => AllSites
    case NestedPublic => AllSites
    case NestedPrivate => {DeclaringType}
    case NestedFamily => {DeclaringType, SubtypeInAssembly, SubtypeElsewhere}
    case NestedAssembly => {DeclaringType, SubtypeInAssembly, SameAssembly}
    case NestedFamANDAssem => {DeclaringType, SubtypeInAssembly}
    case NestedFamORAssem => {DeclaringType, SubtypeInAssembly, SubtypeElsewhere, SameAssembly}
  }

  /** A custom attribute, identified by the namespace and name of its type. */
  datatype CustomAttribute = CustomAttribute(attributeNamespace: string, attributeName: string)

  /** Unity's opt-in marker for serializing a non-public field. */
  const SerializeField := CustomAttribute("UnityEngine", "SerializeField")

  /** The compiler's marker on synthesized members such as backing fields. */
  const CompilerGenerated :=
    CustomAttribute("System.Runtime.CompilerServices", "CompilerGeneratedAttribute")

  /** The state of a field as a value. */
  datatype FieldValue = FieldValue(
    name: string,
    access: MemberAccess,
    isStatic: bool,          // FieldAttributes.Static 0x10
    isInitOnly: bool,        // FieldAttributes.InitOnly 0x20
    isLiteral: bool,         // FieldAttributes.Literal 0x40
    hasConstant: bool,       // a constant value is attached (HasDefault 0x8000)
    isNotSerialized: bool,   // FieldAttributes.NotSerialized 0x80
    customAttributes: seq<CustomAttribute>)
  {
    predicate IsPublic() {
      access == MemberAccess.Public
    }
  }

  /**
   * The state of a type as a value: its visibility, whether it is nested,
   * the access of each of its methods, its fields and its events.
   */
  datatype TypeValue = TypeValue(
    visibility: TypeVisibility,
    isNested: bool,
    methodAccess: seq<MemberAccess>,
    fields: seq<FieldValue>,
    events: seq<EventDef>)

  /** An event; only its name takes part in the rewrite. */
  class EventDef {
    const name: string

    constructor (name: string)
      ensures this.name == name
    {
      this.name := name;
    }
  }

  class MethodDef {
    const name: string
    var access: MemberAccess

    constructor (name: string, access: MemberAccess)
      ensures this.name == name && this.access == access
    {
      this.name := name;
      this.access := access;
    }
  }

  /**
   * A field. Access, InitOnly and NotSerialized are the flags the rewrite
   * writes; the others are constant here.
   */
  class FieldDef {
    const name: string
    var access: MemberAccess
    const isStatic: bool
    var isInitOnly: bool
    const isLiteral: bool
    const hasConstant: bool
    var isNotSerialized: bool
    const customAttributes: seq<CustomAttribute>

    constructor (v: FieldValue)
      ensures Value() == v
    {
      name := v.name;
      access := v.access;
      isStatic := v.isStatic;
      isInitOnly := v.isInitOnly;
      isLiteral := v.isLiteral;
      hasConstant := v.hasConstant;
      isNotSerialized := v.isNotSerialized;
      customAttributes := v.customAttributes;
    }

    predicate IsPublic()
      reads this
    {
      access == MemberAccess.Public
    }

    function Value(): FieldValue
      reads this
    {
      FieldValue(name, access, isStatic, isInitOnly, isLiteral, hasConstant,
                 isNotSerialized, customAttributes)
    }
  }

  /**
   * A type definition. A type is nested exactly when it has a declaring type.
   */
  class TypeDef {
    const declaringType: TypeDef?
    var visibility: TypeVisibility
    const methods: seq<MethodDef>
    const fields: seq<FieldDef>
    var events: seq<EventDef>

    constructor (declaringType: TypeDef?, visibility: TypeVisibility, methods: seq<MethodDef>,
                 fields: seq<FieldDef>, events: seq<EventDef>)
      requires forall i, j :: 0 <= i < j < |methods| ==> methods[i] != methods[j]
      requires forall i, j :: 0 <= i < j < |fields| ==> fields[i] != fields[j]
      ensures Valid()
      ensures this.declaringType == declaringType && this.visibility == visibility
      ensures this.methods == methods && this.fields == fields && this.events == events
    {
      this.declaringType := declaringType;
      this.visibility := visibility;
      this.methods, this.fields, this.events := methods, fields, events;
    }

    predicate IsNested() {
      declaringType != null
    }

    /** The objects whose state belongs to this type. */
    ghost function Repr(): set<object>
    {
      {this} + (set m | m in methods :: m as object) + (set f | f in fields :: f as object)
    }

    /** No method or field object is listed twice. */
    ghost predicate Valid()
    {
      && (forall i, j :: 0 <= i < j < |methods| ==> methods[i] != methods[j])
      && (forall i, j :: 0 <= i < j < |fields| ==> fields[i] != fields[j])
    }

    function Value(): TypeValue
      reads this, methods, fields
    {
      TypeValue(visibility, IsNested(), Accesses(methods), Values(fields), events)
    }

    /** A type none of whose objects changed has the same value. */
    twostate lemma ValueUnchanged()
      requires unchanged(Repr())
      ensures Value() == old(Value())
    {
      ReprHolds();
    }

    /** The objects a type's state is read from are in its representation. */
    lemma ReprHolds()
      ensures this in Repr()
      ensures forall m :: m in methods ==> m in Repr()
      ensures forall f :: f in fields ==> f in Repr()
    {
    }
  }

  /** The access of each method, in order. */
  function Accesses(ms: seq<MethodDef>): seq<MemberAccess>
    reads ms
  {
    if ms == [] then [] else Accesses(ms[..|ms| - 1]) + [ms[|ms| - 1].access]
  }

  lemma {:induction false} AccessesEach(ms: seq<MethodDef>)
    ensures |Accesses(ms)| == |ms| && forall k :: 0 <= k < |ms| ==> Accesses(ms)[k] == ms[k].access
  {
    if ms != [] {
      AccessesEach(ms[..|ms| - 1]);
    }
  }

  /** The state of each field, in order. */
  function Values(fs: seq<FieldDef>): seq<FieldValue>
    reads fs
  {
    if fs == [] then [] else Values(fs[..|fs| - 1]) + [fs[|fs| - 1].Value()]
  }

  lemma {:induction false} ValuesEach(fs: seq<FieldDef>)
    ensures |Values(fs)| == |fs| && forall k :: 0 <= k < |fs| ==> Values(fs)[k] == fs[k].Value()
  {
    if fs != [] {
      ValuesEach(fs[..|fs| - 1]);
    }
  }

  /**
   * A loaded module. `types` is every type the module declares, nested ones
   * included, in the order the metadata library enumerates them.
   */
  class ModuleDef {
    const types: seq<TypeDef>

    constructor (types: seq<TypeDef>)
      requires forall t :: t in types ==> t.Valid()
      requires forall i, j :: 0 <= i < |types| && 0 <= j < |types| && i != j ==> types[i].Repr() !! types[j].Repr()
      ensures Valid()
      ensures this.types == types
    {
      this.types := types;
    }

    ghost function Repr(): set<object>
    {
      set t, o | t in types && o in t.Repr() :: o
    }

    /** Each type is well formed, and no two types share an object. */
    ghost predicate Valid()
    {
      && (forall t :: t in types ==> t.Valid())
      && (forall i, j :: 0 <= i < |types| && 0 <= j < |types| && i != j ==> types[i].Repr() !! types[j].Repr())
    }

    /** Every object of a type belongs to the module. */
    lemma TypeInModule(i: nat)
      requires i < |types|
      ensures types[i].Repr() <= Repr()
    {
      var t := types[i];
      forall o | o in t.Repr()
        ensures o in Repr()
      {
        assert t in types;
      }
    }

    /** Changing the objects of one type leaves the value of every other type alone. */
    twostate lemma OthersUnchanged(i: nat)
      requires Valid() && i < |types|
      requires forall j :: 0 <= j < |types| && j != i ==> unchanged(types[j].Repr())
      ensures forall j :: 0 <= j < |types| && j != i ==> types[j].Value() == old(types[j].Value())
    {
      forall j | 0 <= j < |types| && j != i
        ensures types[j].Value() == old(types[j].Value())
      {
        types[j].ValueUnchanged();
      }
    }
  }
}
