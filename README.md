# mixin-interface-api in Dafny

This project models `src/mixin_interface_api.js`, the library that gives ES6 classes
nominal interfaces. An interface is a class flagged `_$is_interface = true` whose
`_$super_interface` names its parent interface. The root of that chain is
`$IBaseInterface`. An implementation class carries its declared interfaces in
`_$implemented_interfaces`. `$isInstanceOf` answers conformance from those properties.
`$Object` is the base implementation class: it names each instance from a per-class
counter and has a one-shot `init`.

The modules are:

- `TypeRegistry` (type_registry.dfy). Every class object is a `TypeRec` in a sequence, and
  its index is its `TypeId`. A record holds the class's own registry properties and its
  native (`extends`) parent. A parent always has a smaller id, because JavaScript evaluates
  `extends P` before it creates the class. Reading a registry property follows ES6 static
  inheritance: `Owner` finds the nearest class on the parent chain that owns the property.
  Each declaration is a specification function (`SetAsInterfaceSpec`, `AsChildOfSpec`,
  `AsImplementationOfSpec`, `WithSpec`), with lemmas on what it changes and what it keeps.
- `Conformance` (conformance.dfy). `Conforms` is the relation `$isInstanceOf` decides: native
  descent, or some element of the class's implemented list whose super-interface chain
  reaches the target. The lemmas prove that declared interfaces and their ancestors are
  seen. They prove that `$with` marks are not seen. They prove when the oracle's walk
  terminates.
- `MixinInterfaceApi` (mixin_interface_api.dfy). The API itself:
  - a `Registry` class holds every class object and `$Object._InstanceCount`, with methods
    proved against the specification functions;
  - the builder objects are datatypes;
  - an `Instance` class models an `$Object` instance, with its name, arguments and init
    state.
- `Naming` (naming.dfy). The name of the n-th instance of a class: first-occurrence
  replacement of `.` and `$`, insertion of `_` at each lower/upper boundary, lower-casing,
  then the decimal suffix.
- `Scenario` (scenario.dfy). The declarations and queries of the repository's test
  program, run through the model.

Three points where the code's behaviour is easy to misread, and what the model does:

- Interfaces composed with `$with` do not count for `$isInstanceOf`. The code stores them
  only as keys of `_$implemented_interfaces`. That is either a fresh plain object or
  string-keyed properties on a declared array. The oracle reads only the array elements.
  `Conformance.WithInvisibleToConformance` proves that `$with` never changes a
  conformance answer.
- `$isInstanceOf` with an undefined target does not answer false: `instance instanceof
  undefined` throws. An undefined instance also throws, when the code reads a property of
  its class. The model makes both a precondition.
- A subclass does inherit its parent's declarations. A subclass with no own
  `_$implemented_interfaces` reads its parent's list through ES6 static inheritance.
  `Conformance.InheritedConformance` proves this.

## Model

| member | source | states |
|---|---|---|
| Naming.IndexOf | src/mixin_interface_api.js:149 | the position of the first occurrence of a character, or the length when it does not occur; nothing before it is that character |
| Naming.ReplaceFirst | src/mixin_interface_api.js:149 | `String.replace` with a string pattern: the input is unchanged when the character is absent; otherwise the length grows by the replacement's length minus one; every other character is kept |
| Naming.ReplaceFirstAt | src/mixin_interface_api.js:149 | when the first occurrence is at i, the result is the prefix before i, then the replacement, then the suffix after i |
| Naming.Preformat | src/mixin_interface_api.js:149 | a class name with no `.` and no `$` is kept; otherwise the length grows by 2 exactly when a `$` became `mxi`; every character other than `.`, `_`, `$`, `m`, `x`, `i` occurs in the result exactly when it occurs in the name |
| Naming.InsertBoundaries | src/mixin_interface_api.js:150-151 | the global replace of `([a-z])([A-Z])` keeps the first character of a non-empty name (its exact result is `Naming.InsertBoundariesSpaced`) |
| Naming.InsertBoundariesLength | src/mixin_interface_api.js:150-151 | the global replace of `([a-z])([A-Z])` adds exactly one `_` per non-overlapping lower/upper pair |
| Naming.InsertBoundariesSpaced | src/mixin_interface_api.js:150-151 | the global replace of `([a-z])([A-Z])` equals the per-character definition `Spaced`: every character of the name, in order, followed by `_` exactly when it is a lower-case letter and the next character is an upper-case letter |
| Naming.InsertBoundariesNoBoundary | src/mixin_interface_api.js:150-151 | after the replace, no lower-case letter is followed directly by an upper-case letter |
| Naming.ToLower | src/mixin_interface_api.js:151 | `toLowerCase` keeps the length, leaves no upper-case letter, keeps every other character, and maps each upper-case letter to the lower-case letter 32 code points above it |
| Naming.SnakeCase | src/mixin_interface_api.js:149-151 | the snake_case prefix of every instance name has no upper-case letter |
| Naming.SnakeCaseShape | src/mixin_interface_api.js:149-151 | the snake_case class name has no upper-case letter; its length is the class name's length, plus 2 when it holds `$`, plus one per boundary |
| Naming.DigitsRoundTrip | src/mixin_interface_api.js:152 | the decimal suffix is non-empty, all digits, and reads back as the count |
| Naming.InstanceName | src/mixin_interface_api.js:152 | an instance name is the snake_case prefix, then `_`, then a non-empty run of decimal digits |
| Naming.InstanceNameInjective | src/mixin_interface_api.js:152 | two counts of the same class name give two different instance names |
| Naming.NamesCollideAcrossClassNames | src/mixin_interface_api.js:142-152 | the counter is keyed by the raw class name, so the distinct classes `aB` and `a_b` both name their first instance `a_b_0` |
| Naming.NextName | src/mixin_interface_api.js:137-154 | one call names the instance from the class name's current count (0 when absent) and leaves that counter one higher |
| Naming.GenerateNamesSequential | src/mixin_interface_api.js:137-154 | n instances of one class get the suffixes count, count+1, …, count+n-1 |
| Naming.GenerateNamesCounters | src/mixin_interface_api.js:137-154 | after n instances of one class, only that class name's counter has changed, and it has advanced by n |
| Naming.GeneratedNamesDistinct | src/mixin_interface_api.js:137-154 | any two of n successive instances of one class get different names |
| TypeRegistry.Owner | src/mixin_interface_api.js:47 | a registry property read on a class is found on that class or a class with a smaller id that owns it; an own property always wins |
| TypeRegistry.OwnerIsNearest | src/mixin_interface_api.js:47 | the owner found is on the class's `extends` chain, and no class of the chain closer to the class owns the property; when no owner is found, no class of the chain owns it |
| TypeRegistry.SuperOf | src/mixin_interface_api.js:241-245 | the `_$super_interface` a class reads, own or inherited, is undefined or a defined class (`$IBaseInterface` reads undefined) |
| TypeRegistry.ImplOf | src/mixin_interface_api.js:234-237 | the `_$implemented_interfaces` a class reads, own or inherited, refers only to defined classes |
| TypeRegistry.IsInterface | src/mixin_interface_api.js:210-220 | false for an undefined type and for a flag that reads as undefined or false; true exactly when the flag reads as true |
| TypeRegistry.DeclareInterface | src/mixin_interface_api.js:176-182 | after `$setAsInterface(t)` and then `$asChildOf(s)`, t is an interface whose parent is s, or `$IBaseInterface` when s is undefined; t's name, native parent and implemented list are kept; no other class changes |
| TypeRegistry.DeclareImplementation | src/mixin_interface_api.js:89-97 | after `$asImplementationOf`, the class's list is exactly the given interfaces and it is not an interface; its name, native parent and super-interface are kept; no other class changes |
| TypeRegistry.UndefinedDeclarationsAreNoOps | src/mixin_interface_api.js:70-97 | each declaration on an undefined type changes nothing, and so does `$asChildOf(undefined)` |
| TypeRegistry.WithRecordsMarks | src/mixin_interface_api.js:40-58 | `$with` adds exactly the given interfaces as marks on the object the base reads, or on a new empty object on the base; the declared list is kept; the record that receives the marks changes in no other property; one new class deriving from the base is added; no other class changes |
| Conformance.NativeDescendsTransitive | src/mixin_interface_api.js:228 | `instanceof` is transitive along the parent chain |
| Conformance.UndefinedStaysUndefined | src/mixin_interface_api.js:242-245 | once the super-interface walk reads undefined, every later step does too |
| Conformance.AcyclicHalts | src/mixin_interface_api.js:236-247 | when no super-interface chain is cyclic, every walk of the oracle terminates |
| Conformance.ConformsToListed | src/mixin_interface_api.js:236-239 | an instance conforms to every interface in its class's implemented list |
| Conformance.ConformsToParentInterface | src/mixin_interface_api.js:240-247 | an instance that conforms to an interface through its list also conforms to that interface's parent |
| Conformance.InheritedConformance | src/mixin_interface_api.js:234 | a subclass with no own implemented list conforms to whatever its superclass conforms to |
| Conformance.WithInvisibleToConformance | src/mixin_interface_api.js:47-54 | `$with` changes no conformance answer for any class that existed before it |
| Conformance.ChainedWithAccumulates | src/mixin_interface_api.js:40-58 | `$with(i1)` followed by `$with(i2)` on the composed class leaves the same marks on the base as `$with(i1, i2)`; both are recorded |
| Conformance.DeclaredConformance | src/mixin_interface_api.js:89-97 | after `$asImplementationOf(...interfaces)`, a class conforms to a target exactly when it descends from the target natively, or one of those interfaces reaches it |
| MixinInterfaceApi.Implementation | src/mixin_interface_api.js:186-188 | `$Implementation` returns a builder holding the base, even when the base is undefined |
| MixinInterfaceApi.SetClass | src/mixin_interface_api.js:192-196 | `$setClass` is undefined exactly for an undefined type, and otherwise a builder for that type |
| MixinInterfaceApi.GetClass | src/mixin_interface_api.js:200-206 | `getClass` is undefined exactly for null, and otherwise the instance's constructing class |
| MixinInterfaceApi.InitIdempotent | src/mixin_interface_api.js:121-128 | the first `init` marks the instance initialised and stores its arguments; a second `init` changes nothing, whatever its arguments |
| MixinInterfaceApi.Registry.constructor | src/mixin_interface_api.js:104-164 | at load time the registry holds `$IBaseInterface`, flagged as an interface, and `$Object`, flagged as not one; no counter exists |
| MixinInterfaceApi.Registry.SetAsInterface | src/mixin_interface_api.js:176-182 | the new registry is `SetAsInterfaceSpec`; the result is undefined exactly for an undefined type; afterwards the type is an interface |
| MixinInterfaceApi.Registry.AsChildOf | src/mixin_interface_api.js:70-77 | the new registry is `AsChildOfSpec`: nothing changes if either side is undefined; otherwise the type becomes an interface whose parent is the given super type |
| MixinInterfaceApi.Registry.AsImplementationOf | src/mixin_interface_api.js:89-97 | the new registry is `AsImplementationOfSpec`; afterwards the type is not an interface |
| MixinInterfaceApi.Registry.With | src/mixin_interface_api.js:40-58 | with no interface, it returns the base and changes nothing; otherwise the new registry is `WithSpec` and the result is the new composed class |
| MixinInterfaceApi.Registry.IsInstanceOf | src/mixin_interface_api.js:224-254 | the answer is `Conforms`: native descent, or a listed interface whose super-interface chain reaches the target |
| MixinInterfaceApi.Registry.Walk | src/mixin_interface_api.js:237-247 | the walk from one listed interface answers true exactly when the target is that interface or one of its super-interface ancestors |
| MixinInterfaceApi.Instance.constructor | src/mixin_interface_api.js:114-119 | a new instance keeps its class and arguments, is not initialised, has no init arguments, and is named by its class's counter, which advances |
| MixinInterfaceApi.Instance.GenerateInstanceName | src/mixin_interface_api.js:134-156 | the name and the new counters are `NextName` of the old counters and the class name |
| MixinInterfaceApi.Instance.Init | src/mixin_interface_api.js:121-128 | the new init state is one `InitStep` from the old one |
| MixinInterfaceApi.Instance.IsInitialized | src/mixin_interface_api.js:130-132 | the answer is the instance's initialised flag |
| MixinInterfaceApi.Instance.Name | src/mixin_interface_api.js:158-162 | a stored name is returned without touching the counters; otherwise a name is generated and stored |
| Scenario.ScenarioFlags | test.js:52-60 | in the test registry, `$IBaseInterface`, ILifeForm, IAnimal and IMammal are interfaces; `$Object`, Animal and Cat are not |
| Scenario.AnimalIsLifeForm | test.js:24-28 | an Animal conforms to ILifeForm through its listed IAnimal |
| Scenario.AnimalIsNotMammal | test.js:24-31 | an Animal does not conform to IMammal, even though IMammal was composed onto Animal with `$with` |
| Scenario.CatConformance | test.js:37-45 | a Cat is an Animal by native descent, and reaches ILifeForm through IMammal and IAnimal |
| Scenario.ObjectInstanceName | test.js:65-66 | the first `$Object` instance is named `mxi_object_0` |
| Scenario.AnimalInstanceName | test.js:68-69 | the second Animal instance is named `animal_1` |

## Left out

- The `mixin` package is not part of this model. `$with` returns one composed class per call, modelled as a new class that derives from the base and has no own registry property. The methods that `mixin` copies onto that class are not modelled. `Conformance.ChainedWithAccumulates` depends on this choice: it holds only if the composed class inherits the base's static properties.
- `$Interface` (lines 170-172) does nothing but call the `mixin` package, so it is not modelled.
- `$raiseNotImplementedError` and its error constants (lines 13-29) are not modelled. They only build a message from the caller's stack frame and throw.
- The `exports` lines and the `MxI` namespace object (lines 107, 165, 260-271) only re-export the operations, so they are not modelled.
- Keys of `_$implemented_interfaces` in `$with` are a class's string form. Two classes with the same source text would share one key. The model keys marks by class identity.
- `$Object._InstanceCount` is a plain object, so a class named like an `Object.prototype` member (`constructor`, `toString`) reads an inherited value. The model treats every class name as absent until it is counted.
- Naming.ToLower: lower-cases ASCII letters only. `toLowerCase` also folds non-ASCII letters, which the model passes through unchanged.
- Interface arguments are defined classes. An `undefined` element of an `$asImplementationOf` list is not modelled; the oracle throws on it when its walk reaches it (line 241). An `undefined` argument of `$with` is not modelled either; it only becomes the mark key `"undefined"` (line 54), which the oracle never reads.
- `init` stores its arguments whenever it runs. Its null/undefined guard (line 126) is always true for a rest parameter.
- `_$args` is stored by the constructor and never read; the model keeps it as a field.
- `instanceof` and static-property lookup share one parent link, the `extends` clause. Constructor functions whose prototype chain differs from their static chain are not modelled.
- MixinInterfaceApi.Registry.IsInstanceOf: requires that every super-interface walk the oracle starts ends at undefined or at the target (`OracleHalts`). Without this, the code loops forever on a cyclic chain. It also requires a defined target and instance, since the code throws otherwise.
- MixinInterfaceApi.Registry.With: requires a defined base when at least one interface is given, since the code throws a TypeError otherwise.
- The classes in `src/test_classes/` are not part of this model. `Scenario` declares ILifeForm, IAnimal, IMammal, Animal and Cat itself. The interfaces are plain classes with no parent, because `$Interface` (which would derive each from `$Object` through `mixin`) is not modelled. Animal and Cat follow the `extends $Implementation(base).$with(...)` pattern, then `$setClass(...).$asImplementationOf(...)`. Their `run`, `live` and `suckle` methods and the console output are not modelled.
- Naming.GeneratedNamesDistinct: counters are unbounded naturals here. In JavaScript the counter is a double, so from 2^53 on `++` no longer changes it and later instances repeat a name.
- Naming.InstanceNameInjective: holds for unbounded naturals. JavaScript writes counts of 1e21 and above in exponent form, which `Digits` does not model.
- `null` is not modelled: `None` stands for `undefined` only. `$asChildOf(null)` stores null as the super-interface, and a later `$isInstanceOf` walk reaching it throws. `$setAsInterface(null)`, `$asImplementationOf` on `$setClass(null)` and `$isInterface(null)` throw a TypeError.
- Log sinks, the null object and the singleton guard of the wider package are not part of this model.
