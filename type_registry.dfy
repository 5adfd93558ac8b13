/**
 * The per-type registry fields of src/mixin_interface_api.js: `_$is_interface`,
 * `_$super_interface` and `_$implemented_interfaces`, held on each class object, and
 * the declaration operations that write them, as functions from the registry before to
 * the registry after.
 *
 * Types are referred to by `TypeId`, an index into the sequence of all classes in
 * definition order. A class's native superclass (`extends`) is defined before it, so it
 * always has a smaller id. A read of a static field follows ES6 static inheritance: when
 * a class has no own property of that name, the read falls back to its superclass.
 */
module TypeRegistry {
  import opened Wrappers

  type TypeId = nat

  /**
   * The value of `_$implemented_interfaces`. `$asImplementationOf` stores an array
   * (`ListRec`); `$with` stores an empty plain object when the property reads as
   * undefined (`MapRec`). `$with` then sets one key per interface on whichever object it
   * found: those keys are the `marks`. Only the array's elements, read through `.length`
   * and indexing, are seen by `$isInstanceOf`.
   */
  datatype Implemented =
    | ListRec(list: seq<TypeId>, marks: set<TypeId>)
    | MapRec(marks: set<TypeId>)

  /** One class object: its name, native superclass, and its OWN registry properties. */
  datatype TypeRec = TypeRec(
    name: string,
    parent: Option<TypeId>,
    isInterface: Option<bool>,
    superInterface: Option<TypeId>,
    implemented: Option<Implemented>)

  /** The three static properties the declaration API writes. */
  datatype Field = IsInterfaceField | SuperInterfaceField | ImplementedField

  /** `$IBaseInterface` (lines 104-106) and `$Object` (lines 113-164). */
  const BaseInterface: TypeId := 0
  const ObjectClass: TypeId := 1

  /** The two classes the module defines when it is loaded. */
  function InitialTypes(): (types: seq<TypeRec>)
  {
    [TypeRec("$IBaseInterface", None, Some(true), None, None),
     TypeRec("$Object", None, Some(false), None, None)]
  }

  /** A class of the registry, or undefined. */
  predicate RefOk(types: seq<TypeRec>, t: Option<TypeId>)
  {
    t.None? || t.value < |types|
  }

  /** Every id of `ids` names one of the first `n` classes. */
  predicate IdsOk(n: nat, ids: seq<TypeId>)
  {
    forall i :: 0 <= i < |ids| ==> ids[i] < n
  }

  predicate ImplOk(n: nat, impl: Implemented)
  {
    (impl.ListRec? ==> IdsOk(n, impl.list)) &&
    (forall x :: x in impl.marks ==> x < n)
  }

  /** Every reference of class `t` names a class, and its superclass was defined before it. */
  predicate RecOk(types: seq<TypeRec>, t: TypeId)
    requires t < |types|
  {
    var r := types[t];
    (r.parent.Some? ==> r.parent.value < t) &&
    RefOk(types, r.superInterface) &&
    (r.implemented.Some? ==> ImplOk(|types|, r.implemented.value))
  }

  ghost predicate WellFormed(types: seq<TypeRec>)
  {
    forall t :: 0 <= t < |types| ==> RecOk(types, t)
  }

  predicate HasOwn(r: TypeRec, f: Field)
  {
    match f
    case IsInterfaceField => r.isInterface.Some?
    case SuperInterfaceField => r.superInterface.Some?
    case ImplementedField => r.implemented.Some?
  }

  /** `a` is `t` or one of its superclasses (the `extends` chain of `t`). */
  predicate Ancestor(types: seq<TypeRec>, t: TypeId, a: TypeId): (r: bool)
    requires WellFormed(types) && t < |types|
    ensures r ==> a <= t
    decreases t
  {
    t == a ||
    (assert RecOk(types, t);
     types[t].parent.Some? && Ancestor(types, types[t].parent.value, a))
  }

  /**
   * The class whose own property answers a read of `f` on `t`: `t` itself when it has the
   * property, otherwise the nearest superclass that has it, or none.
   */
  function Owner(types: seq<TypeRec>, t: TypeId, f: Field): (o: Option<TypeId>)
    requires WellFormed(types) && t < |types|
    ensures o.Some? ==> o.value <= t && HasOwn(types[o.value], f)
    ensures HasOwn(types[t], f) ==> o == Some(t)
    decreases t
  {
    if HasOwn(types[t], f) then Some(t)
    else
      assert RecOk(types, t);
      match types[t].parent
      case None => None
      case Some(p) => Owner(types, p, f)
  }

  /**
   * The owner is on the `extends` chain of `t` and no class between `t` and it has its own
   * property; when there is no owner, no class of the chain has the property.
   */
  lemma {:induction false} OwnerIsNearest(types: seq<TypeRec>, t: TypeId, f: Field)
    requires WellFormed(types) && t < |types|
    ensures Owner(types, t, f).Some? ==> Ancestor(types, t, Owner(types, t, f).value)
    ensures Owner(types, t, f).Some? ==>
              forall a: TypeId :: Ancestor(types, t, a) && Owner(types, t, f).value < a ==>
                !HasOwn(types[a], f)
    ensures Owner(types, t, f).None? ==>
              forall a: TypeId :: Ancestor(types, t, a) ==> !HasOwn(types[a], f)
    decreases t
  {
    assert RecOk(types, t);
    if !HasOwn(types[t], f) && types[t].parent.Some? {
      OwnerIsNearest(types, types[t].parent.value, f);
    }
  }

  /** `t._$is_interface` */
  function FlagOf(types: seq<TypeRec>, t: TypeId): (flag: Option<bool>)
    requires WellFormed(types) && t < |types|
  {
    match Owner(types, t, IsInterfaceField)
    case None => None
    case Some(o) => types[o].isInterface
  }

  /** `t._$super_interface` */
  function SuperOf(types: seq<TypeRec>, t: TypeId): (s: Option<TypeId>)
    requires WellFormed(types) && t < |types|
    ensures RefOk(types, s)
  {
    match Owner(types, t, SuperInterfaceField)
    case None => None
    case Some(o) => assert RecOk(types, o); types[o].superInterface
  }

  /** `t._$implemented_interfaces` */
  function ImplOf(types: seq<TypeRec>, t: TypeId): (r: Option<Implemented>)
    requires WellFormed(types) && t < |types|
    ensures r.Some? ==> ImplOk(|types|, r.value)
  {
    match Owner(types, t, ImplementedField)
    case None => None
    case Some(o) => assert RecOk(types, o); types[o].implemented
  }

  /**
   * `$isInterface(t)` (lines 210-220): false for an undefined type and for an absent
   * flag; true exactly when the flag reads `true`.
   */
  function IsInterface(types: seq<TypeRec>, t: Option<TypeId>): (r: bool)
    requires WellFormed(types) && RefOk(types, t)
    ensures r <==> t.Some? && FlagOf(types, t.value) == Some(true)
  {
    if t.None? || FlagOf(types, t.value).None? then false
    else if FlagOf(types, t.value) == Some(true) then true
    else false
  }

  // ---------------------------------------------------------------------------
  // The host language's `class C extends P {}`
  // ---------------------------------------------------------------------------

  /** A new class with no own registry property. */
  function DefineSpec(types: seq<TypeRec>, name: string, parent: Option<TypeId>): (t2: seq<TypeRec>)
  {
    types + [TypeRec(name, parent, None, None, None)]
  }

  lemma DefineKeepsWellFormed(types: seq<TypeRec>, name: string, parent: Option<TypeId>)
    requires WellFormed(types) && RefOk(types, parent)
    ensures WellFormed(DefineSpec(types, name, parent))
  {
    var t2 := DefineSpec(types, name, parent);
    forall t | 0 <= t < |t2| ensures RecOk(t2, t) {
      if t < |types| { assert RecOk(types, t); }
    }
  }

  // ---------------------------------------------------------------------------
  // Declaration API
  // ---------------------------------------------------------------------------

  /** `$setAsInterface(t)` (lines 176-182): an interface whose parent is `$IBaseInterface`. */
  function SetAsInterfaceSpec(types: seq<TypeRec>, t: Option<TypeId>): (t2: seq<TypeRec>)
    requires RefOk(types, t)
  {
    if t.None? then types
    else types[t.value := types[t.value].(isInterface := Some(true), superInterface := Some(BaseInterface))]
  }

  /** `$asChildOf(s)` on the builder of `t` (lines 70-77): a no-op when either is undefined. */
  function AsChildOfSpec(types: seq<TypeRec>, t: Option<TypeId>, s: Option<TypeId>): (t2: seq<TypeRec>)
    requires RefOk(types, t) && RefOk(types, s)
  {
    if t.None? || s.None? then types
    else types[t.value := types[t.value].(isInterface := Some(true), superInterface := s)]
  }

  /**
   * `$asImplementationOf(...interfaces)` on the builder of `t` (lines 89-97): a fresh array
   * replaces the implemented list, and the type is flagged as not an interface.
   */
  function AsImplementationOfSpec(types: seq<TypeRec>, t: Option<TypeId>, interfaces: seq<TypeId>): (t2: seq<TypeRec>)
    requires RefOk(types, t)
  {
    if t.None? then types
    else types[t.value := types[t.value].(implemented := Some(ListRec(interfaces, {})), isInterface := Some(false))]
  }

  /** The set of ids in `ids`. */
  function IdSet(ids: seq<TypeId>): (r: set<TypeId>)
    ensures forall x :: x in r <==> x in ids
  {
    if ids == [] then {}
    else
      assert ids == ids[..|ids| - 1] + [ids[|ids| - 1]];
      IdSet(ids[..|ids| - 1]) + {ids[|ids| - 1]}
  }

  /** Adds keys to the object `$with` writes into. */
  function AddMarks(impl: Implemented, ms: set<TypeId>): (r: Implemented)
  {
    match impl
    case ListRec(list, marks) => ListRec(list, marks + ms)
    case MapRec(marks) => MapRec(marks + ms)
  }

  /**
   * The class whose `_$implemented_interfaces` object receives `$with`'s marks: the owner
   * of the inherited property, or `base` itself, which gets a new empty object when the
   * property reads as undefined (lines 47-48).
   */
  function MarkOwner(types: seq<TypeRec>, base: TypeId): (o: TypeId)
    requires WellFormed(types) && base < |types|
    ensures o <= base
  {
    match Owner(types, base, ImplementedField)
    case None => base
    case Some(o) => o
  }

  /**
   * `$Implementation(base).$with(...interfaces)` (lines 40-58) with at least one interface:
   * every interface becomes a mark of the marked object, and a new composed class, derived
   * from `base`, is defined.
   */
  function WithSpec(types: seq<TypeRec>, base: TypeId, interfaces: seq<TypeId>, mixedName: string): (t2: seq<TypeRec>)
    requires WellFormed(types) && base < |types| && |interfaces| > 0
  {
    var o := MarkOwner(types, base);
    var impl := if types[o].implemented.Some? then types[o].implemented.value else MapRec({});
    types[o := types[o].(implemented := Some(AddMarks(impl, IdSet(interfaces))))]
    + [TypeRec(mixedName, Some(base), None, None, None)]
  }

  // ---------------------------------------------------------------------------
  // What the declarations establish
  // ---------------------------------------------------------------------------

  /**
   * `$setAsInterface(t)` makes `t` an interface under the root; a following
   * `$asChildOf(s)` overwrites the parent with `s` (last write wins), and leaves the root
   * in place when `s` is undefined. Both keep the registry well formed.
   */
  lemma DeclareInterface(types: seq<TypeRec>, t: TypeId, s: Option<TypeId>)
    requires WellFormed(types) && t < |types| && RefOk(types, s) && 2 <= |types|
    ensures WellFormed(SetAsInterfaceSpec(types, Some(t)))
    ensures IsInterface(SetAsInterfaceSpec(types, Some(t)), Some(t))
    ensures SuperOf(SetAsInterfaceSpec(types, Some(t)), t) == Some(BaseInterface)
    ensures SetAsInterfaceSpec(types, Some(t))[t].(isInterface := types[t].isInterface,
                                                   superInterface := types[t].superInterface) == types[t]
    ensures WellFormed(AsChildOfSpec(SetAsInterfaceSpec(types, Some(t)), Some(t), s))
    ensures IsInterface(AsChildOfSpec(SetAsInterfaceSpec(types, Some(t)), Some(t), s), Some(t))
    ensures SuperOf(AsChildOfSpec(SetAsInterfaceSpec(types, Some(t)), Some(t), s), t) ==
            if s.None? then Some(BaseInterface) else s
    ensures |AsChildOfSpec(SetAsInterfaceSpec(types, Some(t)), Some(t), s)| == |types|
    ensures AsChildOfSpec(SetAsInterfaceSpec(types, Some(t)), Some(t), s)[t].(
              isInterface := types[t].isInterface, superInterface := types[t].superInterface) == types[t]
    ensures forall u :: 0 <= u < |types| && u != t ==>
      AsChildOfSpec(SetAsInterfaceSpec(types, Some(t)), Some(t), s)[u] == types[u]
  {
    var t1 := SetAsInterfaceSpec(types, Some(t));
    forall u | 0 <= u < |t1| ensures RecOk(t1, u) { assert RecOk(types, u); }
    var t2 := AsChildOfSpec(t1, Some(t), s);
    forall u | 0 <= u < |t2| ensures RecOk(t2, u) { assert RecOk(t1, u); }
  }

  /**
   * `$asImplementationOf` replaces the implemented list of `t` with exactly the given
   * interfaces, in order, flags `t` as not an interface, and changes no other class.
   */
  lemma DeclareImplementation(types: seq<TypeRec>, t: TypeId, interfaces: seq<TypeId>)
    requires WellFormed(types) && t < |types| && IdsOk(|types|, interfaces)
    ensures WellFormed(AsImplementationOfSpec(types, Some(t), interfaces))
    ensures ImplOf(AsImplementationOfSpec(types, Some(t), interfaces), t) == Some(ListRec(interfaces, {}))
    ensures !IsInterface(AsImplementationOfSpec(types, Some(t), interfaces), Some(t))
    ensures AsImplementationOfSpec(types, Some(t), interfaces)[t].(
              isInterface := types[t].isInterface, implemented := types[t].implemented) == types[t]
    ensures forall u :: 0 <= u < |types| && u != t ==> AsImplementationOfSpec(types, Some(t), interfaces)[u] == types[u]
  {
    var t1 := AsImplementationOfSpec(types, Some(t), interfaces);
    forall u | 0 <= u < |t1| ensures RecOk(t1, u) { assert RecOk(types, u); }
  }

  /** The declarations on an undefined type change nothing, nor does `$asChildOf(undefined)`. */
  lemma UndefinedDeclarationsAreNoOps(types: seq<TypeRec>, t: Option<TypeId>, interfaces: seq<TypeId>)
    requires RefOk(types, t)
    ensures SetAsInterfaceSpec(types, None) == types
    ensures AsChildOfSpec(types, None, t) == types
    ensures AsChildOfSpec(types, t, None) == types
    ensures AsImplementationOfSpec(types, None, interfaces) == types
  {
  }

  /**
   * `$with` adds every listed interface to the marks of the marked object, keeps its
   * earlier marks and list, changes no other class, and defines one new class derived
   * from `base`.
   */
  lemma WithRecordsMarks(types: seq<TypeRec>, base: TypeId, interfaces: seq<TypeId>, mixedName: string)
    requires WellFormed(types) && base < |types| && |interfaces| > 0
    requires IdsOk(|types|, interfaces)
    ensures var t2 := WithSpec(types, base, interfaces, mixedName);
      && WellFormed(t2)
      && |t2| == |types| + 1
      && t2[|types|] == TypeRec(mixedName, Some(base), None, None, None)
      && (forall u :: 0 <= u < |types| && u != MarkOwner(types, base) ==> t2[u] == types[u])
      && t2[MarkOwner(types, base)].(implemented := types[MarkOwner(types, base)].implemented) ==
         types[MarkOwner(types, base)]
      && ImplOf(t2, base).Some?
      && ImplOf(t2, base).value.marks ==
         (if ImplOf(types, base).Some? then ImplOf(types, base).value.marks else {}) + (IdSet(interfaces))
      && (ImplOf(types, base).Some? && ImplOf(types, base).value.ListRec? ==>
            ImplOf(t2, base).value.ListRec? && ImplOf(t2, base).value.list == ImplOf(types, base).value.list)
  {
    var t2 := WithSpec(types, base, interfaces, mixedName);
    var o := MarkOwner(types, base);
    forall u | 0 <= u < |t2| ensures RecOk(t2, u) {
      if u < |types| { assert RecOk(types, u); }
    }
    OwnerAfterMark(types, t2, base, o);
  }

  /**
   * After `$with` the property of `base` resolves to the marked object `o`: the classes
   * between `base` and `o` still have no own property, and `o` now has one.
   */
  lemma {:induction false} OwnerAfterMark(types: seq<TypeRec>, t2: seq<TypeRec>, t: TypeId, o: TypeId)
    requires WellFormed(types) && WellFormed(t2) && t < |types| <= |t2|
    requires o == MarkOwner(types, t) && HasOwn(t2[o], ImplementedField)
    requires forall u :: 0 <= u < |types| && u != o ==> t2[u] == types[u]
    ensures Owner(t2, t, ImplementedField) == Some(o)
    decreases t
  {
    if t != o {
      assert RecOk(types, t);
      assert Owner(types, t, ImplementedField) == Some(o);
      OwnerAfterMark(types, t2, types[t].parent.value, o);
    }
  }
}
