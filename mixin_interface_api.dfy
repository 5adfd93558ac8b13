/**
 * The operations of src/mixin_interface_api.js over the process-wide state they update:
 * the class objects' registry properties and `$Object._InstanceCount`, held by one
 * `Registry`; and `$Object` instances with their name and init lifecycle.
 */
module MixinInterfaceApi {
  import opened Wrappers
  import opened Naming
  import opened TypeRegistry
  import opened Conformance

  /** The builder `$Implementation(t)` returns (lines 35-38). */
  datatype MixinInterface = MixinInterface(superImplementation: Option<TypeId>)

  /** The builder `$setAsInterface(t)` returns (lines 65-68). */
  datatype MixinSetInterface = MixinSetInterface(argType: Option<TypeId>)

  /** The builder `$setClass(t)` returns (lines 84-87). */
  datatype MixinImplementation = MixinImplementation(argType: Option<TypeId>)

  /** `$Implementation(base)` (lines 186-188): always a builder, even for undefined. */
  function Implementation(base: Option<TypeId>): (b: MixinInterface)
    ensures b.superImplementation == base
  {
    MixinInterface(base)
  }

  /** `$setClass(t)` (lines 192-196): undefined for an undefined type, else a builder for `t`. */
  function SetClass(t: Option<TypeId>): (b: Option<MixinImplementation>)
    ensures b.Some? <==> t.Some?
    ensures b.Some? ==> b.value.argType == t
  {
    if t.None? then None else Some(MixinImplementation(t))
  }

  /** No interface marked yet: the object is as the loop of `$with` found it. */
  lemma MarksStart(impl: Implemented)
    ensures AddMarks(impl, IdSet([])) == impl
  {
    assert IdSet([]) == {};
  }

  /** One turn of the loop of `$with` (line 54) adds the next interface's mark. */
  lemma MarksStep(impl: Implemented, interfaces: seq<TypeId>, i: nat)
    requires i < |interfaces|
    ensures AddMarks(AddMarks(impl, IdSet(interfaces[..i])), {interfaces[i]}) ==
            AddMarks(impl, IdSet(interfaces[..i + 1]))
  {
    assert interfaces[..i + 1][..i] == interfaces[..i];
    assert IdSet(interfaces[..i + 1]) == IdSet(interfaces[..i]) + {interfaces[i]};
  }

  /**
   * The writes `$with` makes (an empty object on the base when the property reads as
   * undefined, then the marks on the object it reads, then the composed class) give the
   * registry `WithSpec` describes.
   */
  lemma WithByWrites(types: seq<TypeRec>, base: TypeId, interfaces: seq<TypeId>, mixedName: string)
    requires WellFormed(types) && base < |types| && |interfaces| > 0
    ensures var o := MarkOwner(types, base);
      var start := if Owner(types, base, ImplementedField).None?
        then types[base := types[base].(implemented := Some(MapRec({})))] else types;
      start[o].implemented.Some? &&
      start[o := start[o].(implemented := Some(AddMarks(start[o].implemented.value, IdSet(interfaces))))]
        + [TypeRec(mixedName, Some(base), None, None, None)] == WithSpec(types, base, interfaces, mixedName)
  {
    var o := MarkOwner(types, base);
    if Owner(types, base, ImplementedField).None? {
      var start := types[base := types[base].(implemented := Some(MapRec({})))];
      var marked := Some(AddMarks(MapRec({}), IdSet(interfaces)));
      assert start[o := start[o].(implemented := marked)] == types[o := types[o].(implemented := marked)];
    }
  }

  /** `$with` keeps the registry well formed and renames no class. */
  lemma WithKeepsNames(types: seq<TypeRec>, base: TypeId, interfaces: seq<TypeId>, mixedName: string)
    requires WellFormed(types) && base < |types| && |interfaces| > 0
    requires IdsOk(|types|, interfaces)
    ensures WellFormed(WithSpec(types, base, interfaces, mixedName))
    ensures forall u :: 0 <= u < |types| ==> WithSpec(types, base, interfaces, mixedName)[u].name == types[u].name
  {
    WithRecordsMarks(types, base, interfaces, mixedName);
  }

  class Registry {
    /** Every class object, in definition order, with its own registry properties. */
    var types: seq<TypeRec>
    /** `$Object._InstanceCount`: the next suffix per raw class name. */
    var counts: map<string, nat>

    /**
     * The registry is well formed and still starts with the two classes defined when the
     * module is loaded: `$IBaseInterface` (the root every interface defaults to) and `$Object`.
     */
    ghost predicate Valid()
      reads this
    {
      && WellFormed(types)
      && 2 <= |types|
      && types[BaseInterface].name == "$IBaseInterface"
      && types[ObjectClass].name == "$Object"
    }

    /** The state when the module has been loaded: `$IBaseInterface` and `$Object`, no counter. */
    constructor ()
      ensures Valid()
      ensures types == InitialTypes() && counts == map[]
    {
      types := InitialTypes();
      counts := map[];
    }

    /** The host language's `class name extends parent {}`: a class with no own property. */
    method DefineClass(name: string, parent: Option<TypeId>) returns (t: TypeId)
      requires Valid() && RefOk(types, parent)
      modifies this`types
      ensures Valid()
      ensures t == |old(types)| && types == DefineSpec(old(types), name, parent)
    {
      DefineKeepsWellFormed(types, name, parent);
      t := |types|;
      types := types + [TypeRec(name, parent, None, None, None)];
    }

    /** `$setAsInterface(t)` (lines 176-182) */
    method SetAsInterface(t: Option<TypeId>) returns (b: Option<MixinSetInterface>)
      requires Valid() && RefOk(types, t)
      modifies this`types
      ensures Valid()
      ensures types == SetAsInterfaceSpec(old(types), t)
      ensures b == if t.None? then None else Some(MixinSetInterface(t))
      ensures IsInterface(types, t) <==> t.Some?
    {
      if t.None? {
        return None;
      }
      DeclareInterface(types, t.value, None);
      types := types[t.value := types[t.value].(isInterface := Some(true), superInterface := Some(BaseInterface))];
      b := Some(MixinSetInterface(t));
    }

    /** `$asChildOf(s)` (lines 70-77) */
    method AsChildOf(b: MixinSetInterface, s: Option<TypeId>)
      requires Valid() && RefOk(types, b.argType) && RefOk(types, s)
      modifies this`types
      ensures Valid()
      ensures types == AsChildOfSpec(old(types), b.argType, s)
    {
      var t := b.argType;
      if t.None? || s.None? {
        return;
      }
      ghost var t1 := AsChildOfSpec(types, t, s);
      forall u | 0 <= u < |t1| ensures RecOk(t1, u) { assert RecOk(types, u); }
      types := types[t.value := types[t.value].(isInterface := Some(true), superInterface := s)];
    }

    /** `$asImplementationOf(...interfaces)` (lines 89-97) */
    method AsImplementationOf(b: MixinImplementation, interfaces: seq<TypeId>)
      requires Valid() && RefOk(types, b.argType) && IdsOk(|types|, interfaces)
      modifies this`types
      ensures Valid()
      ensures types == AsImplementationOfSpec(old(types), b.argType, interfaces)
      ensures b.argType.Some? ==> !IsInterface(types, b.argType)
    {
      var t := b.argType;
      if t.None? {
        return;
      }
      DeclareImplementation(types, t.value, interfaces);
      types := types[t.value := types[t.value].(implemented := Some(ListRec(interfaces, {})), isInterface := Some(false))];
    }

    /**
     * `$with(...interfaces)` (lines 40-58). With no interface it returns the base and
     * changes nothing. Otherwise it marks every interface on the base's (possibly
     * inherited) `_$implemented_interfaces` object, creating an empty object on the base
     * when the property reads as undefined, and returns the composed class, modelled as a
     * new class named `mixedName` deriving from the base. The writes are made on `next`,
     * which becomes the registry at the end.
     */
    method With(b: MixinInterface, interfaces: seq<TypeId>, mixedName: string) returns (r: Option<TypeId>)
      requires Valid() && RefOk(types, b.superImplementation) && IdsOk(|types|, interfaces)
      requires |interfaces| > 0 ==> b.superImplementation.Some?
      modifies this`types
      ensures Valid()
      ensures |interfaces| == 0 ==> r == b.superImplementation && types == old(types)
      ensures |interfaces| > 0 ==>
        r == Some(|old(types)|) &&
        types == WithSpec(old(types), b.superImplementation.value, interfaces, mixedName)
    {
      if |interfaces| == 0 {
        return b.superImplementation;
      }
      var base := b.superImplementation.value;
      var next := types;
      var owner := Owner(next, base, ImplementedField);
      if owner.None? {
        next := next[base := next[base].(implemented := Some(MapRec({})))];
        owner := Some(base);
      }
      var o := owner.value;
      ghost var start := next;
      ghost var impl := next[o].implemented.value;
      MarksStart(impl);
      var i := 0;
      while i < |interfaces|
        invariant 0 <= i <= |interfaces| && types == old(types)
        invariant next == start[o := start[o].(implemented := Some(AddMarks(impl, IdSet(interfaces[..i]))))]
      {
        MarksStep(impl, interfaces, i);
        next := next[o := next[o].(implemented := Some(AddMarks(next[o].implemented.value, {interfaces[i]})))];
        i := i + 1;
      }
      assert interfaces[..i] == interfaces;
      WithByWrites(types, base, interfaces, mixedName);
      WithKeepsNames(types, base, interfaces, mixedName);
      r := Some(|types|);
      types := next + [TypeRec(mixedName, Some(base), None, None, None)];
    }

    /**
     * `$isInstanceOf(target, x)` (lines 224-254): native descent first, then each element
     * of the class's implemented list in order, each followed by its super-interface chain
     * until that chain reads as undefined.
     */
    method IsInstanceOf<A>(target: TypeId, x: Instance<A>) returns (r: bool)
      requires Valid() && target < |types| && x.cls < |types|
      requires OracleHalts(types, x.cls, target)
      ensures r == Conforms(types, x.cls, target)
    {
      var c := GetClass(x).value;
      if NativeDescends(types, c, target) {
        return true;
      }
      var impl := ImplOf(types, c);
      if impl.Some? && impl.value.ListRec? {
        var list := impl.value.list;
        assert list == ListOf(types, c);
        var i := 0;
        while i < |list|
          invariant 0 <= i <= |list|
          invariant forall j :: 0 <= j < i ==> !Reaches(types, list[j], target)
        {
          var found := Walk(list[i], target);
          if found {
            return true;
          }
          i := i + 1;
        }
      }
      return false;
    }

    /**
     * One turn of the loop of `$isInstanceOf` (lines 237-247): the listed interface `d`
     * itself, then its super-interface chain until it reads as undefined.
     */
    method Walk(d: TypeId, target: TypeId) returns (found: bool)
      requires Valid() && d < |types| && WalkStops(types, d, target)
      ensures found == Reaches(types, d, target)
    {
      var ts := types;
      if d == target {
        assert SuperAt(ts, Some(d), 0) == Some(target);
        return true;
      }
      ghost var stop: nat :| SuperAt(ts, Some(d), stop) == None || SuperAt(ts, Some(d), stop) == Some(target);
      var p := SuperOf(ts, d);
      ghost var steps: nat := 1;
      while p.Some?
        invariant p == SuperAt(ts, Some(d), steps)
        invariant forall k :: 0 <= k < steps ==> SuperAt(ts, Some(d), k) != Some(target)
        invariant p.Some? ==> steps <= stop
        decreases stop - steps
      {
        if p.value == target {
          return true;
        }
        if steps == stop {
          assert false;
        }
        assert SuperAt(ts, Some(d), steps + 1) == SuperOf(ts, p.value);
        p := SuperOf(ts, p.value);
        steps := steps + 1;
      }
      forall k: nat ensures SuperAt(ts, Some(d), k) != Some(target) {
        if k >= steps {
          UndefinedStaysUndefined(ts, Some(d), steps, k);
        }
      }
      return false;
    }
  }

  /** The state `init` reads and writes. */
  datatype InitState<A> = InitState(initialized: bool, argsInit: seq<A>)

  /** `init(...args)` (lines 121-128): the first call records the arguments, later calls do nothing. */
  function InitStep<A>(s: InitState<A>, args: seq<A>): (s2: InitState<A>)
  {
    if s.initialized then s else InitState(true, args)
  }

  /** A second `init` changes nothing, whatever its arguments. */
  lemma InitIdempotent<A>(s: InitState<A>, a: seq<A>, b: seq<A>)
    ensures InitStep(InitStep(s, a), b) == InitStep(s, a)
    ensures InitStep(s, a).initialized
    ensures !s.initialized ==> InitStep(s, a).argsInit == a
  {
  }

  /**
   * The three writes `generateInstanceName` makes to the counter of `className` (lines
   * 142-147 and 154) leave the counters `NextName` describes.
   */
  lemma CounterWrites(counts: map<string, nat>, className: string)
    ensures var count := CountOf(counts, className);
      var m := if className in counts then counts else counts[className := 0];
      m[className := count][className := count + 1] == NextName(counts, className).1
  {
    var count := CountOf(counts, className);
    var m := if className in counts then counts else counts[className := 0];
    assert m[className := count][className := count + 1] == counts[className := count + 1];
  }

  /** An `$Object` instance (lines 113-162). */
  class Instance<A> {
    /** The class that constructed it: `getClass(this)`. */
    const cls: TypeId
    var name: Option<string>
    var args: seq<A>
    var initialized: bool
    var argsInit: seq<A>

    ghost function State(): InitState<A>
      reads this
    {
      InitState(initialized, argsInit)
    }

    /**
     * `new C(...args)` for a class `C` (lines 114-119): the name comes from the counter of
     * C's name, and the instance starts uninitialised with no init arguments.
     */
    constructor (reg: Registry, cls: TypeId, args: seq<A>)
      requires reg.Valid() && cls < |reg.types|
      modifies reg`counts
      ensures this.cls == cls && this.args == args
      ensures State() == InitState(false, [])
      ensures name.Some? && (name.value, reg.counts) == NextName(old(reg.counts), reg.types[cls].name)
    {
      this.cls := cls;
      new;
      var n := GenerateInstanceName(reg);
      name := Some(n);
      this.args := args;
      initialized := false;
      argsInit := [];
    }

    /**
     * `generateInstanceName()` (lines 134-156): reads the counter of the class name (0
     * when absent), builds the snake_case name with that suffix, and advances the counter.
     */
    method GenerateInstanceName(reg: Registry) returns (n: string)
      requires cls < |reg.types|
      modifies reg`counts
      ensures (n, reg.counts) == NextName(old(reg.counts), reg.types[cls].name)
    {
      var className := reg.types[cls].name;
      CounterWrites(reg.counts, className);
      var count := 0;
      if className !in reg.counts {
        reg.counts := reg.counts[className := 0];
      } else {
        count := reg.counts[className];
      }
      reg.counts := reg.counts[className := count];
      n := InstanceName(className, count);
      reg.counts := reg.counts[className := count + 1];
    }

    /** `init(...args)` (lines 121-128) */
    method Init(args: seq<A>)
      modifies this`initialized, this`argsInit
      ensures State() == InitStep(old(State()), args)
    {
      if initialized {
        return;
      }
      initialized := true;
      argsInit := args;
    }

    /** `isInitialized()` (lines 130-132) */
    function IsInitialized(): (r: bool)
      reads this
      ensures r == State().initialized
    {
      initialized
    }

    /**
     * The `name` getter (lines 158-162): the stored name, generating one only when none
     * is stored; the counters change only in that case.
     */
    method Name(reg: Registry) returns (n: string)
      requires reg.Valid() && cls < |reg.types|
      modifies this`name, reg`counts
      ensures old(name).Some? ==> n == old(name).value && name == old(name) && reg.counts == old(reg.counts)
      ensures old(name).None? ==>
        name == Some(n) && (n, reg.counts) == NextName(old(reg.counts), reg.types[cls].name)
    {
      if name.None? {
        var generated := GenerateInstanceName(reg);
        name := Some(generated);
      }
      n := name.value;
    }
  }

  /** `getClass(x)` (lines 200-206): undefined for null, else the constructing class. */
  function GetClass<A>(x: Instance?<A>): (c: Option<TypeId>)
    reads x
    ensures c.None? <==> x == null
    ensures x != null ==> c == Some(x.cls)
  {
    if x == null then None else Some(x.cls)
  }
}
