/**
 * A client of the model, after the sequence test.js runs: three interfaces in a chain,
 * `Animal` implementing `IAnimal`, and `Cat` deriving from `Animal` and implementing
 * `IMammal`. test.js's own class declarations are not part of this model. Here the
 * interfaces are plain classes with no parent, since `$Interface` is not modelled, and
 * Animal and Cat extend the class `$Implementation(base).$with(...)` returns, then declare
 * their list with `$setClass(...).$asImplementationOf(...)`.
 */
module Scenario {
  import opened Wrappers
  import opened TypeRegistry
  import opened Conformance
  import opened MixinInterfaceApi

  const ILifeForm: TypeId := 2
  const IAnimal: TypeId := 3
  const IMammal: TypeId := 4
  const Animal: TypeId := 6
  const Cat: TypeId := 8

  /**
   * The registry after the declarations. `$with` on `$Object` gave `$Object` a plain
   * object holding the mark of IAnimal; `$with` on `Animal` added the mark of IMammal to
   * Animal's array; neither mark is seen by `$isInstanceOf`.
   */
  function ScenarioTypes(): (types: seq<TypeRec>)
  {
    [TypeRec("$IBaseInterface", None, Some(true), None, None),
     TypeRec("$Object", None, Some(false), None, Some(MapRec({IAnimal}))),
     TypeRec("ILifeForm", None, Some(true), Some(BaseInterface), None),
     TypeRec("IAnimal", None, Some(true), Some(ILifeForm), None),
     TypeRec("IMammal", None, Some(true), Some(IAnimal), None),
     TypeRec("AnimalBase", Some(ObjectClass), None, None, None),
     TypeRec("Animal", Some(5), Some(false), None, Some(ListRec([IAnimal], {IMammal}))),
     TypeRec("CatBase", Some(Animal), None, None, None),
     TypeRec("Cat", Some(7), Some(false), None, Some(ListRec([IMammal], {})))]
  }

  /** The registry once the three interfaces are declared. */
  function InterfacesDeclared(): (types: seq<TypeRec>)
  {
    [TypeRec("$IBaseInterface", None, Some(true), None, None),
     TypeRec("$Object", None, Some(false), None, None),
     TypeRec("ILifeForm", None, Some(true), Some(BaseInterface), None),
     TypeRec("IAnimal", None, Some(true), Some(ILifeForm), None),
     TypeRec("IMammal", None, Some(true), Some(IAnimal), None)]
  }

  method DeclareInterfaces(reg: Registry)
    requires reg.Valid() && reg.types == InitialTypes()
    modifies reg`types
    ensures reg.Valid() && reg.types == InterfacesDeclared()
  {
    ghost var s := InterfacesDeclared();
    var iLifeForm := reg.DefineClass("ILifeForm", None);
    var b := reg.SetAsInterface(Some(iLifeForm));
    assert reg.types == [s[0], s[1], s[2]];
    var iAnimal := reg.DefineClass("IAnimal", None);
    b := reg.SetAsInterface(Some(iAnimal));
    reg.AsChildOf(b.value, Some(iLifeForm));
    assert reg.types == [s[0], s[1], s[2], s[3]];
    var iMammal := reg.DefineClass("IMammal", None);
    b := reg.SetAsInterface(Some(iMammal));
    reg.AsChildOf(b.value, Some(iAnimal));
  }

  method DeclareClasses(reg: Registry)
    requires reg.Valid() && reg.types == InterfacesDeclared()
    modifies reg`types
    ensures reg.Valid() && reg.types == ScenarioTypes()
  {
    ghost var s := ScenarioTypes();
    // class Animal extends $Implementation($Object).$with(IAnimal) { ... }
    assert Owner(reg.types, ObjectClass, ImplementedField) == None;
    assert IdSet([IAnimal]) == {IAnimal};
    var animalBase := reg.With(Implementation(Some(ObjectClass)), [IAnimal], "AnimalBase");
    assert reg.types == [s[0], s[1], s[2], s[3], s[4], s[5]];
    var animal := reg.DefineClass("Animal", animalBase);
    reg.AsImplementationOf(SetClass(Some(animal)).value, [IAnimal]);
    assert reg.types == [s[0], s[1], s[2], s[3], s[4], s[5], s[6].(implemented := Some(ListRec([IAnimal], {})))];
    // class Cat extends $Implementation(Animal).$with(IMammal) { ... }
    assert Owner(reg.types, Animal, ImplementedField) == Some(Animal);
    assert IdSet([IMammal]) == {IMammal};
    var catBase := reg.With(Implementation(Some(animal)), [IMammal], "CatBase");
    assert reg.types == [s[0], s[1], s[2], s[3], s[4], s[5], s[6], s[7]];
    var cat := reg.DefineClass("Cat", catBase);
    reg.AsImplementationOf(SetClass(Some(cat)).value, [IMammal]);
  }

  /** The links the queries below depend on. */
  lemma ScenarioLinks()
    ensures WellFormed(ScenarioTypes())
    ensures SuperOf(ScenarioTypes(), IMammal) == Some(IAnimal)
    ensures SuperOf(ScenarioTypes(), IAnimal) == Some(ILifeForm)
    ensures SuperOf(ScenarioTypes(), ILifeForm) == Some(BaseInterface)
    ensures SuperOf(ScenarioTypes(), BaseInterface) == None
    ensures ListOf(ScenarioTypes(), Animal) == [IAnimal]
    ensures ListOf(ScenarioTypes(), Cat) == [IMammal]
  {
    var types := ScenarioTypes();
    forall t | 0 <= t < |types| ensures RecOk(types, t) { }
  }

  /** Interface flags as test.js step 3 queries them. */
  lemma ScenarioFlags()
    ensures WellFormed(ScenarioTypes())
    ensures IsInterface(ScenarioTypes(), Some(BaseInterface)) && !IsInterface(ScenarioTypes(), Some(ObjectClass))
    ensures IsInterface(ScenarioTypes(), Some(ILifeForm)) && IsInterface(ScenarioTypes(), Some(IAnimal))
    ensures IsInterface(ScenarioTypes(), Some(IMammal))
    ensures !IsInterface(ScenarioTypes(), Some(Animal)) && !IsInterface(ScenarioTypes(), Some(Cat))
  {
    ScenarioLinks();
  }

  /** Animal reaches ILifeForm in two hops: through its listed IAnimal, then IAnimal's parent. */
  lemma AnimalIsLifeForm()
    ensures WellFormed(ScenarioTypes())
    ensures OracleHalts(ScenarioTypes(), Animal, ILifeForm) && Conforms(ScenarioTypes(), Animal, ILifeForm)
  {
    var types := ScenarioTypes();
    ScenarioLinks();
    assert SuperAt(types, Some(IAnimal), 1) == Some(ILifeForm);
    assert Reaches(types, ListOf(types, Animal)[0], ILifeForm);
  }

  /**
   * Animal is not an IMammal: IMammal was only composed onto Animal with `$with`, and the
   * chain from IAnimal ends without meeting it.
   */
  lemma AnimalIsNotMammal()
    ensures WellFormed(ScenarioTypes())
    ensures OracleHalts(ScenarioTypes(), Animal, IMammal) && !Conforms(ScenarioTypes(), Animal, IMammal)
  {
    var types := ScenarioTypes();
    ScenarioLinks();
    assert SuperAt(types, Some(IAnimal), 3) == None;
    assert !NativeDescends(types, Animal, IMammal) by {
      assert types[Animal].parent == Some(5) && types[5].parent == Some(ObjectClass);
    }
    forall k: nat ensures SuperAt(types, Some(IAnimal), k) != Some(IMammal) {
      if k >= 3 { UndefinedStaysUndefined(types, Some(IAnimal), 3, k); }
    }
  }

  /** Cat: an Animal by native descent, and three hops up to ILifeForm. */
  lemma CatConformance()
    ensures WellFormed(ScenarioTypes())
    ensures OracleHalts(ScenarioTypes(), Cat, Animal) && Conforms(ScenarioTypes(), Cat, Animal)
    ensures OracleHalts(ScenarioTypes(), Cat, ILifeForm) && Conforms(ScenarioTypes(), Cat, ILifeForm)
  {
    var types := ScenarioTypes();
    ScenarioLinks();
    assert NativeDescends(types, Cat, Animal) by {
      assert types[Cat].parent == Some(7) && types[7].parent == Some(Animal);
    }
    assert SuperAt(types, Some(IMammal), 2) == Some(ILifeForm);
    assert Reaches(types, ListOf(types, Cat)[0], ILifeForm);
  }

  lemma ObjectPreformat()
    ensures Naming.Preformat("$Object") == "mxiObject"
  {
    assert '.' !in "$Object";
    Naming.ReplaceFirstAt("$Object", '$', "mxi", 0);
  }

  lemma ObjectBoundaries()
    ensures Naming.InsertBoundaries("mxiObject") == "mxi_Object"
  {
    ObjectBoundaryPair();
    assert "xiObject"[1..] == "iObject";
    assert "mxiObject"[1..] == "xiObject";
  }

  /** The one boundary of "$Object": 'i' followed by 'O'. */
  lemma ObjectBoundaryPair()
    ensures Naming.InsertBoundaries("iObject") == "i_Object"
  {
    assert Naming.InsertBoundaries("bject") == "bject";
    assert "iObject"[2..] == "bject";
  }

  lemma ObjectLowerCase()
    ensures Naming.ToLower("mxi_Object") == "mxi_object"
  {
  }

  lemma ObjectSnakeCase()
    ensures Naming.SnakeCase("$Object") == "mxi_object"
  {
    ObjectPreformat();
    ObjectBoundaries();
    ObjectLowerCase();
  }

  /** The name test.js step 4 prints for `$Object`: `$` becomes "mxi", then snake case. */
  lemma ObjectInstanceName()
    ensures Naming.InstanceName("$Object", 0) == "mxi_object_0"
  {
    ObjectSnakeCase();
    assert Naming.Digits(0) == "0";
    ObjectNameSpelled();
  }

  lemma ObjectNameSpelled()
    ensures "mxi_object" + "_" + "0" == "mxi_object_0"
  {
  }

  lemma AnimalPreformat()
    ensures Naming.Preformat("Animal") == "Animal"
  {
    assert '.' !in "Animal" && '$' !in "Animal";
  }

  lemma AnimalLowerCase()
    ensures Naming.ToLower("Animal") == "animal"
  {
    var lower := Naming.ToLower("Animal");
    assert lower[0] == 'a';
  }

  lemma AnimalSnakeCase()
    ensures Naming.SnakeCase("Animal") == "animal"
  {
    AnimalPreformat();
    assert Naming.InsertBoundaries("Animal") == "Animal";
    AnimalLowerCase();
  }

  /** The second `Animal` gets suffix 1. */
  lemma AnimalInstanceName()
    ensures Naming.InstanceName("Animal", 1) == "animal_1"
  {
    AnimalSnakeCase();
    assert Naming.Digits(1) == "1";
    AnimalNameSpelled();
  }

  lemma AnimalNameSpelled()
    ensures "animal" + "_" + "1" == "animal_1"
  {
  }

  method AnimalsAndCats()
  {
    var reg := new Registry();
    DeclareInterfaces(reg);
    DeclareClasses(reg);
    ScenarioFlags();
    AnimalIsLifeForm();
    AnimalIsNotMammal();
    CatConformance();

    var anAnimal := new Instance<int>(reg, Animal, []);
    var isLifeForm := reg.IsInstanceOf(ILifeForm, anAnimal);
    assert isLifeForm;
    var isMammal := reg.IsInstanceOf(IMammal, anAnimal);
    assert !isMammal;

    var aCat := new Instance<int>(reg, Cat, []);
    var catIsAnimal := reg.IsInstanceOf(Animal, aCat);
    var catIsLifeForm := reg.IsInstanceOf(ILifeForm, aCat);
    assert catIsAnimal && catIsLifeForm;

    // init (test.js step 5): the second call keeps the first call's arguments.
    assert !anAnimal.IsInitialized();
    anAnimal.Init([7]);
    anAnimal.Init([8]);
    assert anAnimal.IsInitialized() && anAnimal.argsInit == [7];
  }
}
