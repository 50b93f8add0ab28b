# Publicizer access rewrite, modelled in Dafny

The publicizer rewrites the metadata of a loaded .NET module so that its
non-public types and members become public. A compiler can then reference
them directly. The heart of it is `Patcher.Patch`. It takes a module and
five switches:

- `publicizeInternal`
- `publicizePrivate`
- `publicizeReadonly`
- `publicizeEventBackingField`
- `unityKeepSerializable`

For every type of the module, `Patch` does four things in place:

1. It sets the type's visibility.
2. It sets the access of each method.
3. It walks the fields. Each field goes through an event guard, which takes out an event of the same name or skips the field.
4. Each field not skipped then goes through three more stages:
   - a Unity serialization guard, which may set NotSerialized;
   - access promotion;
   - readonly clearing, which takes off InitOnly.

The project has four modules:

- `Metadata` holds the object model the rewrite works on:
  - the visibility and member-access codes of ECMA-335 Partition II, with the sites each code admits;
  - a field, method, event and type as mutable objects (`FieldDef`, `MethodDef`, `EventDef`, `TypeDef`), plus their state as values (`FieldValue`, `TypeValue`);
  - the module, `ModuleDef`, a list of types that share no objects.
- `Rules` gives the rewrite as functions on values. It says what one pass does to each type, method, field and event list. This is the specification of the imperative code.
- `Patcher` is the imperative pass. It has the same loops, branches and in-place assignments as the original, with the early `return` in `PatchField` standing for the loop's `continue`. Each method is proved against `Rules`. `Patcher.Patch` ensures that every type of the module ends in `PatchedType` of its state before the call.
- `Properties` proves what the rules guarantee:
  - access only widens;
  - the outcome of each switch;
  - what the event guard removes and keeps;
  - the serialization and readonly bounds;
  - nothing is added;
  - all switches off changes nothing;
  - when a second pass changes nothing, and two inputs for which it does.

## Model

| member | source | states |
|---|---|---|
| Patcher.Patch | RedworkDE.Publicizer.Tasks/Patcher.cs:9-109 | every type of the module ends in the state the rules give for its state before the call, under the five switches |
| Patcher.PatchTypeOf | RedworkDE.Publicizer.Tasks/Patcher.cs:14-103 | one turn of the type loop patches that type and leaves the value of every other type of the module unchanged |
| Patcher.PatchType | RedworkDE.Publicizer.Tasks/Patcher.cs:16-101 | a type's visibility, methods, fields and events end in `PatchedType` of their state before |
| Patcher.PatchVisibility | RedworkDE.Publicizer.Tasks/Patcher.cs:17-35 | the type's visibility becomes `NewTypeVisibility` of the old one, given whether the type is nested |
| Patcher.TypePatched | RedworkDE.Publicizer.Tasks/Patcher.cs:16-101 | a type whose visibility, method accesses, fields and events were each patched has the patched type value |
| Patcher.PatchMethods | RedworkDE.Publicizer.Tasks/Patcher.cs:39-52 | each method's access becomes `NewAccess` of its access before the loop |
| Patcher.PatchFields | RedworkDE.Publicizer.Tasks/Patcher.cs:54-101 | field k ends as `PatchedFields(...)[k]` and the event list ends as `EventsAfter` of the list before the loop |
| Patcher.PatchFieldAt | RedworkDE.Publicizer.Tasks/Patcher.cs:54-101 | one turn of the field loop, stated against the fields and events before the loop, takes the event list one guard step further |
| Patcher.PatchField | RedworkDE.Publicizer.Tasks/Patcher.cs:56-100 | the event guard's effect on the event list, and the field skipped or promoted according to the events present at its turn |
| Patcher.PromoteField | RedworkDE.Publicizer.Tasks/Patcher.cs:73-100 | NotSerialized is set exactly when the guard's test holds on the old flags, access becomes `NewAccess`, InitOnly is cleared unless Literal |
| Rules.NewTypeVisibility | RedworkDE.Publicizer.Tasks/Patcher.cs:17-35 | visibility only widens; it is either kept or made public; with private promotion every site sees the type; with internal promotion alone a top-level type becomes Public, and a nested type changes exactly when it was NestedAssembly or NestedFamORAssem, which among the six nested codes are exactly those that non-derived code of its own assembly could reach and non-derived code of another assembly could not; with neither switch nothing changes |
| Rules.NewAccess | RedworkDE.Publicizer.Tasks/Patcher.cs:81-91 | access only widens; it is kept or becomes Public; with private promotion it becomes Public; with internal promotion alone it becomes Public exactly when non-derived code of the same assembly could already use the member; with neither switch it is unchanged (the method rule at lines 41-51 is the same) |
| Rules.NewAccesses | RedworkDE.Publicizer.Tasks/Patcher.cs:39-52 | the access of each method of a list after the method loop, in order |
| Rules.AnyNamed | RedworkDE.Publicizer.Tasks/Patcher.cs:68 | some event of the list has the name; `FirstOrDefault`'s contract ties the two lookups together |
| Rules.FirstOrDefault | RedworkDE.Publicizer.Tasks/Patcher.cs:62 | a non-null result is an event of the list with the name; the result is null exactly when no event has the name (that it is the first such event is `Properties.FirstOrDefaultIsFirst`) |
| Rules.Remove | RedworkDE.Publicizer.Tasks/Patcher.cs:63 | `List.Remove`: an event not in the list, null included, leaves the list as it is; one in the list shortens it by one; nothing new appears (first occurrence and order are `Properties.RemoveFirstOccurrence`) |
| Rules.SkipsField | RedworkDE.Publicizer.Tasks/Patcher.cs:56-69 | the event guard's `continue`: private promotion is on, backing-field mode is off and some event has the field's name |
| Rules.EventsAfterField | RedworkDE.Publicizer.Tasks/Patcher.cs:56-64 | the events once the guard has looked at one field: in backing-field mode with private promotion, the list without the first event of the field's name; otherwise the list as it was |
| Rules.KeepUnserialized | RedworkDE.Publicizer.Tasks/Patcher.cs:76-78 | the serialization guard's test on the field's flags before its access changes: not public, not static, not InitOnly, no constant, and neither the SerializeField nor the CompilerGenerated attribute |
| Rules.PromotedField | RedworkDE.Publicizer.Tasks/Patcher.cs:73-100 | the three stages after the guard, in order: NotSerialized set when the test holds, access by `NewAccess`, InitOnly cleared unless Literal (its properties are `Properties.FieldPromoted` and `Properties.FieldBounds`) |
| Rules.PatchedField | RedworkDE.Publicizer.Tasks/Patcher.cs:56-100 | one field after its turn: unchanged when the guard skips it, otherwise promoted |
| Rules.EventsAfter | RedworkDE.Publicizer.Tasks/Patcher.cs:54-101 | the event list after the field loop has run over the given fields in order; it never grows and holds only events of the original list |
| Rules.PatchedFields | RedworkDE.Publicizer.Tasks/Patcher.cs:54-101 | the fields after the field loop, each patched against the events the fields before it left; there are as many as before |
| Rules.PatchedType | RedworkDE.Publicizer.Tasks/Patcher.cs:16-101 | one type after its turn of the type loop: new visibility, method accesses, fields and events, with nesting kept |
| Rules.PatchedFieldsAt | RedworkDE.Publicizer.Tasks/Patcher.cs:54-101 | field k after the loop is field k patched against the events that the fields before it left |
| Metadata.TypeDef.ValueUnchanged | RedworkDE.Publicizer.Tasks/Patcher.cs:14-103 | a type none of whose objects changed keeps its value |
| Metadata.ModuleDef.OthersUnchanged | RedworkDE.Publicizer.Tasks/Patcher.cs:14-103 | in a valid module, changing one type's objects leaves every other type's value unchanged |
| Properties.FirstOrDefaultIsFirst | RedworkDE.Publicizer.Tasks/Patcher.cs:62 | the lookup gives null exactly when no event has the name, and otherwise the first event that has it |
| Properties.RemoveOneOccurrence | RedworkDE.Publicizer.Tasks/Patcher.cs:63 | removing null or an absent event changes nothing; removing a present one takes out exactly one occurrence |
| Properties.RemoveFirstOccurrence | RedworkDE.Publicizer.Tasks/Patcher.cs:63 | removing an event that is in the list takes out its first occurrence and keeps the events before and after it in order |
| Properties.CountNamedZero | RedworkDE.Publicizer.Tasks/Patcher.cs:68 | no event is counted for a name exactly when no event has it |
| Properties.GuardStepCount | RedworkDE.Publicizer.Tasks/Patcher.cs:60-64 | one backing-field guard step takes out one event of the field's name, if there is one, and no event of another name |
| Properties.EventsKeptWithoutBackingFields | RedworkDE.Publicizer.Tasks/Patcher.cs:56-70 | unless private promotion and backing-field mode are both on, the event list is left as it was |
| Properties.BackingFieldEventsCount | RedworkDE.Publicizer.Tasks/Patcher.cs:60-64 | in backing-field mode, the events of a name after the pass number those before it minus the fields of that name, never below zero |
| Properties.BackingEventRemoved | RedworkDE.Publicizer.Tasks/Patcher.cs:60-64 | in backing-field mode, a name held by no more events than fields is held by no event after the pass |
| Properties.EventsOnlyRemoved | RedworkDE.Publicizer.Tasks/Patcher.cs:54-101 | the event list after the pass is a sub-multiset of the one before |
| Properties.UnmatchedEventKept | RedworkDE.Publicizer.Tasks/Patcher.cs:60-64 | an event whose name no field has stays, as often as it was listed |
| Properties.EventsKeptWhenUnmatched | RedworkDE.Publicizer.Tasks/Patcher.cs:60-64 | when no event has the name of any field, the event list is unchanged |
| Properties.BackingFieldKept | RedworkDE.Publicizer.Tasks/Patcher.cs:65-69 | with private promotion and without backing-field mode, a field whose name an event has is left exactly as it was |
| Properties.FieldPromoted | RedworkDE.Publicizer.Tasks/Patcher.cs:73-100 | a field the event guard lets through gets `NewAccess` of its access; NotSerialized is set exactly when the guard's test held on its old flags, and is otherwise kept; InitOnly is cleared when readonly clearing is on and the field is not Literal, and is otherwise kept; nothing else about it changes |
| Properties.FieldBounds | RedworkDE.Publicizer.Tasks/Patcher.cs:54-101 | for every field: access never narrows; NotSerialized is never cleared; a SerializeField or CompilerGenerated field keeps NotSerialized; InitOnly is never set, and a Literal field keeps it; the name is kept |
| Properties.PrivateOpensType | RedworkDE.Publicizer.Tasks/Patcher.cs:17-91 | with private promotion (checked at lines 19, 41, 56 and 81), the type is visible to all sites and every method is Public; in backing-field mode every field is Public; otherwise a field becomes Public exactly when no event has its name, and keeps its access when one does |
| Properties.ShapeKept | RedworkDE.Publicizer.Tasks/Patcher.cs:9-109 | nesting, the number of methods and fields and the field names are kept; events can only be taken out |
| Properties.AllOffChangesNothing | RedworkDE.Publicizer.Tasks/Patcher.cs:9-109 | with all five switches off the type is unchanged |
| Properties.PromotedFieldTwice | RedworkDE.Publicizer.Tasks/Patcher.cs:73-100 | the last three stages give the same field when run again, unless readonly clearing and the serialization guard are both on without private promotion |
| Properties.FieldsTwice | RedworkDE.Publicizer.Tasks/Patcher.cs:54-101 | under that condition, a second pass leaves the fields as the first left them |
| Properties.EventsTwice | RedworkDE.Publicizer.Tasks/Patcher.cs:56-70 | with distinct event names, a second pass over fields of the same names leaves the events as the first left them |
| Properties.EventsSettled | RedworkDE.Publicizer.Tasks/Patcher.cs:56-70 | a second pass takes no further event out of a type's list: always outside backing-field mode, and in it when no two events share a name |
| Properties.PatchTwice | RedworkDE.Publicizer.Tasks/Patcher.cs:9-109 | with that condition on the switches, and distinct event names when backing fields replace events, two passes give the state one pass gives |
| Properties.ReadonlyThenSerializationGuard | RedworkDE.Publicizer.Tasks/Patcher.cs:73-100 | a private readonly field, with readonly clearing and the serialization guard on and private promotion off, is changed again by a second pass |
| Properties.SharedEventNameTwice | RedworkDE.Publicizer.Tasks/Patcher.cs:60-64 | two events sharing one field's name, in backing-field mode, lose one event per pass, so a second pass changes the type again |
| Properties.SerializationKept | RedworkDE.Publicizer.Tasks/Patcher.cs:73-79 | with the serialization guard on and readonly clearing off, a field that is not compiler-generated and that Unity serializes after the pass was serialized by Unity before it |
| Properties.ReadonlyFieldBecomesSerialized | RedworkDE.Publicizer.Tasks/Patcher.cs:73-100 | with every switch on, a private readonly field that Unity did not serialize comes out public, writable and serialized |

## Left out

- The catch-all `try`/`catch` that writes any exception to the console (RedworkDE.Publicizer.Tasks/Patcher.cs:11, 105-108) is not modelled. The model has no exceptions, and every step is total.
- Loading and writing modules through dnlib is not modelled. Nor is `GetTypes`, which here is the module's list of types with nested types included, in the library's order.
- How dnlib decides that a type is nested is not modelled. Here a type is nested exactly when it has a declaring type.
- PublicizeTask.cs (the MSBuild build step) and Program.cs (the command-line entry point) are not part of this model. They load and write files and then call `Patch`: the build step with `unityKeepSerializable` false, the command line with every switch true.
- The method, field and type lists, and every flag that `Patch` never assigns, are `const`. This is because the rewrite never reassigns them. Aliasing between types is excluded by `ModuleDef.Valid`, which says that no two types share an object.
- A custom attribute is identified by its type's namespace and name only. Its constructor arguments play no part in the rewrite.
- Properties.PatchTwice: running the pass twice is proved to give the state one pass gives only under two conditions:
  - when private promotion and backing-field mode are both on, no two events of the type share a name;
  - readonly clearing and the serialization guard are not both on without private promotion.

  The two counterexample lemmas show that neither condition can be dropped.
- Patcher.PromoteField: the guard is meant to keep a field that Unity did not serialize unserialized once it is public. The model proves this only without readonly clearing (`Properties.SerializationKept`). With readonly clearing the guard tests InitOnly before it is cleared, so a private readonly field is left unmarked and becomes serialized (`Properties.ReadonlyFieldBecomesSerialized`). The model follows the code in this.
- Patcher.PromoteField: the serialization guard marks a field whenever `unityKeepSerializable` is set and the test holds on the old flags. This includes the case where the access switches leave the field non-public. The model follows the code in this.
