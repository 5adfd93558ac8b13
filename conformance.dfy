/**
 * The conformance relation `$isInstanceOf` decides (src/mixin_interface_api.js:224-254),
 * as a reachability question over the registry: native descent, or a listed interface
 * whose super-interface chain reaches the target.
 */
module Conformance {
  import opened Wrappers
  import opened TypeRegistry

  /** `c` is `target` or a native subclass of it: `instanceof` for instances of `c`. */
  predicate NativeDescends(types: seq<TypeRec>, c: TypeId, target: TypeId)
    requires WellFormed(types) && c < |types|
    decreases c
  {
    c == target ||
    (assert RecOk(types, c);
     types[c].parent.Some? && NativeDescends(types, types[c].parent.value, target))
  }

  /** Native descent is transitive: a subclass of a subclass is a subclass. */
  lemma {:induction false} NativeDescendsTransitive(types: seq<TypeRec>, a: TypeId, b: TypeId, c: TypeId)
    requires WellFormed(types) && a < |types| && b < |types|
    requires NativeDescends(types, a, b) && NativeDescends(types, b, c)
    ensures NativeDescends(types, a, c)
    decreases a
  {
    if a != b {
      assert RecOk(types, a);
      NativeDescendsTransitive(types, types[a].parent.value, b, c);
    }
  }

  /**
   * The `k`-th step of the super-interface walk from `p`: `p`, `p._$super_interface`,
   * `p._$super_interface._$super_interface`, ... once undefined, always undefined.
   */
  function SuperAt(types: seq<TypeRec>, p: Option<TypeId>, k: nat): (r: Option<TypeId>)
    requires WellFormed(types) && RefOk(types, p)
    ensures RefOk(types, r)
  {
    if k == 0 then p
    else match SuperAt(types, p, k - 1)
      case None => None
      case Some(t) => SuperOf(types, t)
  }

  lemma {:induction false} UndefinedStaysUndefined(types: seq<TypeRec>, p: Option<TypeId>, a: nat, b: nat)
    requires WellFormed(types) && RefOk(types, p) && a <= b && SuperAt(types, p, a) == None
    ensures SuperAt(types, p, b) == None
    decreases b - a
  {
    if a < b {
      UndefinedStaysUndefined(types, p, a, b - 1);
    }
  }

  /** `target` is `d` or one of its super-interface ancestors. */
  ghost predicate Reaches(types: seq<TypeRec>, d: TypeId, target: TypeId)
    requires WellFormed(types) && d < |types|
  {
    exists k :: SuperAt(types, Some(d), k) == Some(target)
  }

  /** The walk from `d` stops: its chain ends, or it meets `target`. */
  ghost predicate WalkStops(types: seq<TypeRec>, d: TypeId, target: TypeId)
    requires WellFormed(types) && d < |types|
  {
    exists k :: SuperAt(types, Some(d), k) == None || SuperAt(types, Some(d), k) == Some(target)
  }

  /** Some element of the implemented list is, or has as an ancestor, `target`. */
  ghost predicate ListedReaches(types: seq<TypeRec>, list: seq<TypeId>, target: TypeId)
    requires WellFormed(types) && IdsOk(|types|, list)
  {
    exists i :: 0 <= i < |list| && Reaches(types, list[i], target)
  }

  /** The implemented list read through `.length`; a plain object or no value has none. */
  function ListOf(types: seq<TypeRec>, c: TypeId): (list: seq<TypeId>)
    requires WellFormed(types) && c < |types|
    ensures IdsOk(|types|, list)
  {
    match ImplOf(types, c)
    case Some(ListRec(list, _)) => list
    case _ => []
  }

  /**
   * An instance of class `c` conforms to `target`: native descent, or `target` is a
   * listed interface of `c` or a super-interface ancestor of one. Marks recorded by
   * `$with` play no part.
   */
  ghost predicate Conforms(types: seq<TypeRec>, c: TypeId, target: TypeId)
    requires WellFormed(types) && c < |types|
  {
    NativeDescends(types, c, target) || ListedReaches(types, ListOf(types, c), target)
  }

  /**
   * The search of `$isInstanceOf` terminates: unless native descent answers first, every
   * walk the search reaches (one per listed interface, until one meets the target) stops.
   */
  ghost predicate OracleHalts(types: seq<TypeRec>, c: TypeId, target: TypeId)
    requires WellFormed(types) && c < |types|
  {
    NativeDescends(types, c, target) ||
    var list := ListOf(types, c);
    forall i :: 0 <= i < |list| && (forall j :: 0 <= j < i ==> !Reaches(types, list[j], target)) ==>
      WalkStops(types, list[i], target)
  }

  /** Every super-interface chain ends: the super-interface relation has no cycle. */
  ghost predicate SuperAcyclic(types: seq<TypeRec>)
    requires WellFormed(types)
  {
    forall d :: 0 <= d < |types| ==> exists k :: SuperAt(types, Some(d), k) == None
  }

  /** When the super-interface relation is acyclic, every search terminates. */
  lemma AcyclicHalts(types: seq<TypeRec>, c: TypeId, target: TypeId)
    requires WellFormed(types) && c < |types| && SuperAcyclic(types)
    ensures OracleHalts(types, c, target)
  {
    var list := ListOf(types, c);
    forall i | 0 <= i < |list|
      ensures WalkStops(types, list[i], target)
    {
      var k: nat :| SuperAt(types, Some(list[i]), k) == None;
    }
  }

  /**
   * Transitivity through the interface hierarchy: when `child` is a listed interface of
   * `c` (or an ancestor of one) and `parent` is its super-interface, instances of `c`
   * conform to `parent`, though `parent` was never declared on `c`.
   */
  lemma ConformsToParentInterface(types: seq<TypeRec>, c: TypeId, child: TypeId, parent: TypeId)
    requires WellFormed(types) && c < |types| && child < |types|
    requires ListedReaches(types, ListOf(types, c), child)
    requires SuperOf(types, child) == Some(parent)
    ensures Conforms(types, c, parent)
  {
    var list := ListOf(types, c);
    var i :| 0 <= i < |list| && Reaches(types, list[i], child);
    var k: nat :| SuperAt(types, Some(list[i]), k) == Some(child);
    assert SuperAt(types, Some(list[i]), k + 1) == Some(parent);
  }

  /** A class conforms to every interface in its own implemented list. */
  lemma ConformsToListed(types: seq<TypeRec>, c: TypeId, i: nat)
    requires WellFormed(types) && c < |types| && i < |ListOf(types, c)|
    ensures Conforms(types, c, ListOf(types, c)[i])
  {
    assert SuperAt(types, Some(ListOf(types, c)[i]), 0) == Some(ListOf(types, c)[i]);
  }

  /**
   * A subclass with no own `_$implemented_interfaces` reads its superclass's: whatever
   * the superclass conforms to, the subclass conforms to as well.
   */
  lemma InheritedConformance(types: seq<TypeRec>, c: TypeId, target: TypeId)
    requires WellFormed(types) && c < |types| && types[c].parent.Some?
    requires types[c].implemented.None?
    ensures types[c].parent.value < c
    ensures Conforms(types, types[c].parent.value, target) ==> Conforms(types, c, target)
  {
    assert RecOk(types, c);
    var p := types[c].parent.value;
    assert ListOf(types, c) == ListOf(types, p);
  }

  // ---------------------------------------------------------------------------
  // Frames: what the relation depends on
  // ---------------------------------------------------------------------------

  /** `t2` extends `t1` keeping every superclass link and own `_$super_interface`. */
  ghost predicate SameHierarchy(t1: seq<TypeRec>, t2: seq<TypeRec>)
  {
    |t1| <= |t2| &&
    forall u :: 0 <= u < |t1| ==>
      t2[u].parent == t1[u].parent && t2[u].superInterface == t1[u].superInterface
  }

  lemma {:induction false} SameHierarchySameDescent(t1: seq<TypeRec>, t2: seq<TypeRec>, c: TypeId, target: TypeId)
    requires WellFormed(t1) && WellFormed(t2) && SameHierarchy(t1, t2) && c < |t1|
    ensures NativeDescends(t2, c, target) == NativeDescends(t1, c, target)
    decreases c
  {
    assert RecOk(t1, c);
    if c != target && t1[c].parent.Some? {
      SameHierarchySameDescent(t1, t2, t1[c].parent.value, target);
    }
  }

  lemma {:induction false} SameHierarchySameSuperOwner(t1: seq<TypeRec>, t2: seq<TypeRec>, t: TypeId)
    requires WellFormed(t1) && WellFormed(t2) && SameHierarchy(t1, t2) && t < |t1|
    ensures Owner(t2, t, SuperInterfaceField) == Owner(t1, t, SuperInterfaceField)
    decreases t
  {
    assert RecOk(t1, t);
    if !HasOwn(t1[t], SuperInterfaceField) && t1[t].parent.Some? {
      SameHierarchySameSuperOwner(t1, t2, t1[t].parent.value);
    }
  }

  lemma {:induction false} SameHierarchySameChain(t1: seq<TypeRec>, t2: seq<TypeRec>, p: Option<TypeId>, k: nat)
    requires WellFormed(t1) && WellFormed(t2) && SameHierarchy(t1, t2) && RefOk(t1, p)
    ensures SuperAt(t2, p, k) == SuperAt(t1, p, k)
  {
    if k > 0 {
      SameHierarchySameChain(t1, t2, p, k - 1);
      var q := SuperAt(t1, p, k - 1);
      if q.Some? {
        SameHierarchySameSuperOwner(t1, t2, q.value);
      }
    }
  }

  lemma SameHierarchySameReach(t1: seq<TypeRec>, t2: seq<TypeRec>, d: TypeId, target: TypeId)
    requires WellFormed(t1) && WellFormed(t2) && SameHierarchy(t1, t2) && d < |t1|
    ensures Reaches(t2, d, target) == Reaches(t1, d, target)
  {
    if Reaches(t1, d, target) {
      var k: nat :| SuperAt(t1, Some(d), k) == Some(target);
      SameHierarchySameChain(t1, t2, Some(d), k);
    }
    if Reaches(t2, d, target) {
      var k: nat :| SuperAt(t2, Some(d), k) == Some(target);
      SameHierarchySameChain(t1, t2, Some(d), k);
    }
  }

  // ---------------------------------------------------------------------------
  // What composition and declarations do to conformance
  // ---------------------------------------------------------------------------

  /**
   * `$with` changes no answer of `$isInstanceOf` for any class that existed before it:
   * the marks it records are never read by the walk, and a plain object it creates reads
   * as an empty list, just like an undefined property.
   */
  lemma WithInvisibleToConformance(types: seq<TypeRec>, base: TypeId, interfaces: seq<TypeId>,
                                   mixedName: string, c: TypeId, target: TypeId)
    requires WellFormed(types) && base < |types| && |interfaces| > 0 && c < |types|
    requires IdsOk(|types|, interfaces)
    ensures WellFormed(WithSpec(types, base, interfaces, mixedName))
    ensures Conforms(WithSpec(types, base, interfaces, mixedName), c, target) == Conforms(types, c, target)
  {
    var t2 := WithSpec(types, base, interfaces, mixedName);
    WithRecordsMarks(types, base, interfaces, mixedName);
    assert SameHierarchy(types, t2);
    SameHierarchySameDescent(types, t2, c, target);
    WithSameList(types, base, interfaces, mixedName, c);
    var list := ListOf(types, c);
    forall i | 0 <= i < |list| ensures Reaches(t2, list[i], target) == Reaches(types, list[i], target) {
      SameHierarchySameReach(types, t2, list[i], target);
    }
  }

  /** After `$with`, every existing class reads the same implemented list as before. */
  lemma {:induction false} WithSameList(types: seq<TypeRec>, base: TypeId, interfaces: seq<TypeId>,
                                        mixedName: string, c: TypeId)
    requires WellFormed(types) && base < |types| && |interfaces| > 0 && c < |types|
    requires WellFormed(WithSpec(types, base, interfaces, mixedName))
    ensures ListOf(WithSpec(types, base, interfaces, mixedName), c) == ListOf(types, c)
    decreases c
  {
    var t2 := WithSpec(types, base, interfaces, mixedName);
    var o := MarkOwner(types, base);
    assert RecOk(types, c);
    if c == o {
    } else if !HasOwn(types[c], ImplementedField) && types[c].parent.Some? {
      WithSameList(types, base, interfaces, mixedName, types[c].parent.value);
    }
  }

  /**
   * Chained composition `$with(I1)` on `base` then `$with(I2)` on the composed class marks
   * the same object with the same interfaces as one `$with(I1, I2)`: the composed class
   * has no property of its own, so the read falls back to `base`.
   */
  lemma ChainedWithAccumulates(types: seq<TypeRec>, base: TypeId, i1: TypeId, i2: TypeId, n1: string, n2: string)
    requires WellFormed(types) && base < |types| && i1 < |types| && i2 < |types|
    ensures var once := WithSpec(types, base, [i1, i2], n1);
      var first := WithSpec(types, base, [i1], n1);
      WellFormed(once) && WellFormed(first) && |first| == |types| + 1 &&
      var twice := WithSpec(first, |types|, [i2], n2);
      WellFormed(twice) &&
      ImplOf(once, base).Some? && ImplOf(twice, base).Some? &&
      ImplOf(twice, base).value.marks == ImplOf(once, base).value.marks &&
      {i1, i2} <= ImplOf(twice, base).value.marks
  {
    var once := WithSpec(types, base, [i1, i2], n1);
    var first := WithSpec(types, base, [i1], n1);
    WithRecordsMarks(types, base, [i1, i2], n1);
    WithRecordsMarks(types, base, [i1], n1);
    var m := |types|;
    assert first[m].parent == Some(base) && !HasOwn(first[m], ImplementedField);
    assert Owner(first, m, ImplementedField) == Owner(first, base, ImplementedField);
    WithRecordsMarks(first, m, [i2], n2);
    var twice := WithSpec(first, m, [i2], n2);
    WithRecordsMarks(first, m, [i2], n2);
    assert MarkOwner(first, m) == MarkOwner(first, base);
    assert ImplOf(twice, base) == ImplOf(twice, m) by {
      assert RecOk(twice, m);
    }
    assert IdSet([i1, i2]) == {i1, i2};
    assert IdSet([i1]) == {i1};
    assert IdSet([i2]) == {i2};
  }

  /**
   * After `$asImplementationOf(...interfaces)` on `t`, an instance of `t` conforms to a
   * type exactly when it natively descends from it or it is one of the interfaces or
   * their super-interface ancestors.
   */
  lemma DeclaredConformance(types: seq<TypeRec>, t: TypeId, interfaces: seq<TypeId>, target: TypeId)
    requires WellFormed(types) && t < |types| && IdsOk(|types|, interfaces)
    ensures WellFormed(AsImplementationOfSpec(types, Some(t), interfaces))
    ensures Conforms(AsImplementationOfSpec(types, Some(t), interfaces), t, target) <==>
            NativeDescends(types, t, target) || ListedReaches(types, interfaces, target)
  {
    var t2 := AsImplementationOfSpec(types, Some(t), interfaces);
    DeclareImplementation(types, t, interfaces);
    assert SameHierarchy(types, t2);
    SameHierarchySameDescent(types, t2, t, target);
    assert ListOf(t2, t) == interfaces;
    forall i | 0 <= i < |interfaces| ensures Reaches(t2, interfaces[i], target) == Reaches(types, interfaces[i], target) {
      SameHierarchySameReach(types, t2, interfaces[i], target);
    }
  }
}
