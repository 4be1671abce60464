/**
 * What the inferred Groovy type of a variable is, stated as a decision table
 * independent of the order in which the cascade tests its conditions, and
 * the properties the cascade promises, proved of GrVariableBase.TypeGroovy.
 */
module GrVariableProperties {

  import opened Wrappers
  import opened PsiTypes
  import opened GrVariableBase

  // ---------------------------------------------------------------------------
  // The decision table
  // ---------------------------------------------------------------------------

  /** Which of the possible answers inference gives. */
  datatype Outcome =
    | Untyped                    // neither side has a type
    | Declared                   // the declared type as written
    | Initializer                // the initializer's type
    | Narrowed(declaredClass: PsiClass, superSubstitutor: PsiSubstitutor)
                                 // the declared class, instantiated as the initializer instantiates it

  /** Both sides are class types, the declared type resolves to `dc`, the
      initializer's type resolves to `ic` with substitutor `sub`, and `sub` is
      not raw: the initializer carries generic information about a known class. */
  ghost predicate GenericsKnown(v: GrVariable, ide: TypeServices, dc: PsiClass, ic: PsiClass, sub: PsiSubstitutor) {
    && DeclaredType(v).Some? && DeclaredType(v).value.ClassType?
    && InitializerType(v).Some? && InitializerType(v).value.ClassType?
    && ide.resolve(DeclaredType(v).value) == Some(dc)
    && ide.resolveGenerics(InitializerType(v).value) == ClassResolveResult(Some(ic), sub)
    && !ide.isRawSubstitutor(ic, sub)
  }

  /** The initializer's class is the declared class or relates to it through
      the hierarchy, so the declared type gets refined. */
  ghost predicate Refines(v: GrVariable, ide: TypeServices) {
    exists dc, ic, sub :: GenericsKnown(v, ide, dc, ic, sub) && (dc == ic || ide.getClassSubstitutor(dc, ic, sub).Some?)
  }

  /** The conditions under which each outcome is the right one. */
  ghost predicate Justified(v: GrVariable, ide: TypeServices, o: Outcome) {
    var declared, initializer := DeclaredType(v), InitializerType(v);
    match o
    case Untyped => declared.None? && initializer.None?
    case Initializer =>
      || (declared.None? && initializer.Some?)
      || (exists c, sub :: GenericsKnown(v, ide, c, c, sub))
    case Narrowed(dc, s) =>
      exists ic, sub :: dc != ic && GenericsKnown(v, ide, dc, ic, sub) && ide.getClassSubstitutor(dc, ic, sub) == Some(s)
    case Declared =>
      declared.Some? && (!declared.value.ClassType? || !Refines(v, ide))
  }

  /** The type an outcome stands for. */
  function Realize(v: GrVariable, ide: TypeServices, o: Outcome): Option<PsiType> {
    match o
    case Untyped => None
    case Declared => DeclaredType(v)
    case Initializer => InitializerType(v)
    case Narrowed(dc, s) => Some(ide.createType(dc, s))
  }

  // ---------------------------------------------------------------------------
  // The cascade computes the table
  // ---------------------------------------------------------------------------

  /** Whatever outcome the table justifies, the cascade returns its type. */
  lemma TypeGroovyRealizesOutcome(v: GrVariable, ide: TypeServices, o: Outcome)
    requires Justified(v, ide, o)
    ensures TypeGroovy(v, ide) == Realize(v, ide, o)
  {
    match o
    case Untyped =>
    case Initializer =>
      if DeclaredType(v).Some? {
        var c, sub :| GenericsKnown(v, ide, c, c, sub);
      }
    case Narrowed(dc, s) =>
      var ic, sub :| dc != ic && GenericsKnown(v, ide, dc, ic, sub) && ide.getClassSubstitutor(dc, ic, sub) == Some(s);
    case Declared =>
      var declared := DeclaredType(v).value;
      if declared.ClassType? && InitializerType(v).Some? {
        var initializerType := InitializerType(v).value;
        if initializerType.ClassType? && ide.resolve(declared).Some? {
          var result := ide.resolveGenerics(initializerType);
          if result.element.Some? && !ide.isRawSubstitutor(result.element.value, result.substitutor) {
            assert GenericsKnown(v, ide, ide.resolve(declared).value, result.element.value, result.substitutor);
          }
        }
      }
  }

  /** Every variable has a justified outcome. */
  lemma OutcomeExists(v: GrVariable, ide: TypeServices)
    ensures exists o :: Justified(v, ide, o)
  {
    var declared, initializer := DeclaredType(v), InitializerType(v);
    if declared.None? {
      if initializer.None? {
        assert Justified(v, ide, Untyped);
      } else {
        assert Justified(v, ide, Initializer);
      }
    } else if !Refines(v, ide) || !declared.value.ClassType? {
      assert Justified(v, ide, Declared);
    } else {
      var dc, ic, sub :| GenericsKnown(v, ide, dc, ic, sub) && (dc == ic || ide.getClassSubstitutor(dc, ic, sub).Some?);
      if dc == ic {
        assert Justified(v, ide, Initializer);
      } else {
        assert Justified(v, ide, Narrowed(dc, ide.getClassSubstitutor(dc, ic, sub).value));
      }
    }
  }

  /** At most one outcome is justified: the table has no overlapping rows. */
  lemma OutcomeUnique(v: GrVariable, ide: TypeServices, o1: Outcome, o2: Outcome)
    requires Justified(v, ide, o1) && Justified(v, ide, o2)
    ensures o1 == o2
  {
  }

  // ---------------------------------------------------------------------------
  // The cases of the cascade, one by one
  // ---------------------------------------------------------------------------

  /** A declared class type is kept when it does not resolve, when the
      initializer's type is unknown or is not a class type. */
  lemma DeclaredKeptWithoutClassInitializer(v: GrVariable, ide: TypeServices)
    requires DeclaredType(v).Some? && DeclaredType(v).value.ClassType?
    requires || ide.resolve(DeclaredType(v).value).None?
             || InitializerType(v).None?
             || !InitializerType(v).value.ClassType?
    ensures TypeGroovy(v, ide) == DeclaredType(v)
  {
  }

  /** A declared class type is kept when the initializer's class does not
      resolve or its substitutor is raw. */
  lemma DeclaredKeptForRawInitializer(v: GrVariable, ide: TypeServices)
    requires DeclaredType(v).Some? && DeclaredType(v).value.ClassType?
    requires InitializerType(v).Some? && InitializerType(v).value.ClassType?
    requires var result := ide.resolveGenerics(InitializerType(v).value);
             result.element.None? || ide.isRawSubstitutor(result.element.value, result.substitutor)
    ensures TypeGroovy(v, ide) == DeclaredType(v)
  {
  }

  /** When both sides resolve to the same class and the initializer's
      substitutor is not raw, the initializer's type is the answer. */
  lemma SameClassTakesInitializer(v: GrVariable, ide: TypeServices, c: PsiClass, sub: PsiSubstitutor)
    requires GenericsKnown(v, ide, c, c, sub)
    ensures TypeGroovy(v, ide) == InitializerType(v)
  {
  }

  /** When the classes differ, a super-substitutor narrows the declared class
      to it, and its absence keeps the declared type. */
  lemma DistinctClassesNarrowOrKeep(v: GrVariable, ide: TypeServices, dc: PsiClass, ic: PsiClass, sub: PsiSubstitutor)
    requires GenericsKnown(v, ide, dc, ic, sub) && dc != ic
    ensures match ide.getClassSubstitutor(dc, ic, sub)
            case Some(s) => TypeGroovy(v, ide) == Some(ide.createType(dc, s))
            case None => TypeGroovy(v, ide) == DeclaredType(v)
  {
  }

  /** The answer is never unrelated to the inputs: it is absent, the declared
      type, the initializer's type, or a type built from the class the
      declared type resolves to. */
  lemma ResultIsOneOf(v: GrVariable, ide: TypeServices)
    ensures var r := TypeGroovy(v, ide);
            || r.None?
            || r == DeclaredType(v)
            || r == InitializerType(v)
            || (&& DeclaredType(v).Some? && DeclaredType(v).value.ClassType?
                && exists dc, s :: ide.resolve(DeclaredType(v).value) == Some(dc) && r == Some(ide.createType(dc, s)))
  {
  }

  /** The Java-facing type is the inferred type whenever the declared type is
      not a class type, and java.lang.Object whenever nothing is declared. */
  lemma VariableTypeAgreesWithTypeGroovy(v: GrVariable, ide: TypeServices)
    ensures DeclaredType(v).Some? && !DeclaredType(v).value.ClassType? ==> TypeGroovy(v, ide) == Some(VariableType(v))
    ensures DeclaredType(v).None? ==> VariableType(v) == JavaLangObject
  {
  }

  // ---------------------------------------------------------------------------
  // Consequences for coherent services
  // ---------------------------------------------------------------------------

  /** A declared class type is never replaced by a type of another class:
      the answer is a class type resolving as the declared type does. */
  lemma KeepsDeclaredClass(v: GrVariable, ide: TypeServices)
    requires Coherent(ide)
    requires DeclaredType(v).Some? && DeclaredType(v).value.ClassType?
    ensures var r := TypeGroovy(v, ide);
            r.Some? && r.value.ClassType? && ide.resolve(r.value) == ide.resolve(DeclaredType(v).value)
  {
  }

  /** The variable with its inferred type written as its declared type. */
  function WithDeclaredType(v: GrVariable, t: Option<PsiType>): GrVariable {
    v.(typeElementGroovy := match t case Some(x) => Some(GrTypeElement(x)) case None => None)
  }

  /** Inference is a fixed point: declaring the inferred type and inferring
      again gives the same answer. */
  lemma TypeGroovyIdempotent(v: GrVariable, ide: TypeServices)
    requires Coherent(ide)
    ensures var r := TypeGroovy(v, ide);
            TypeGroovy(WithDeclaredType(v, r), ide) == r
  {
  }

  // ---------------------------------------------------------------------------
  // An instance: a List declared, an ArrayList assigned
  // ---------------------------------------------------------------------------

  /** Services for a world where every class type resolves to the class it
      names, a class's single type parameter is called E, a substitutor with
      no bindings is raw, and ArrayList implements List with the same E. */
  function CollectionServices(): TypeServices {
    TypeServices(
      (t: PsiClassType) => Some(PsiClass(t.className)),
      (t: PsiClassType) => ClassResolveResult(
        Some(PsiClass(t.className)),
        PsiSubstitutor(if |t.parameters| == 1 then map["E" := t.parameters[0]] else map[])),
      (c: PsiClass, s: PsiSubstitutor) => s.bindings == map[],
      (sup: PsiClass, sub: PsiClass, s: PsiSubstitutor) =>
        if sup == PsiClass("java.util.List") && sub == PsiClass("java.util.ArrayList") then Some(s) else None,
      (c: PsiClass, s: PsiSubstitutor) =>
        var t: PsiClassType := ClassType(c.qualifiedName, if "E" in s.bindings then [s.bindings["E"]] else []);
        t)
  }

  /** `List<Object> xs = new ArrayList<String>()` is inferred as
      `List<String>`, and these services are coherent. */
  lemma ListNarrowedByArrayList()
    ensures Coherent(CollectionServices())
    ensures
      var objectType := ClassType("java.lang.Object", []);
      var stringType := ClassType("java.lang.String", []);
      var v := GrVariable(
        Some(GrTypeElement(ClassType("java.util.List", [objectType]))),
        Some(GrExpression(Some(ClassType("java.util.ArrayList", [stringType])))),
        None);
      TypeGroovy(v, CollectionServices()) == Some(ClassType("java.util.List", [stringType]))
  {
    var ide := CollectionServices();
    forall c, s ensures ide.resolve(ide.createType(c, s)) == Some(c) {
      assert ide.createType(c, s).className == c.qualifiedName;
    }
    var stringType := ClassType("java.lang.String", []);
    var arrayListType: PsiClassType := ClassType("java.util.ArrayList", [stringType]);
    var result := ide.resolveGenerics(arrayListType);
    assert result.element == Some(PsiClass("java.util.ArrayList"));
    assert result.substitutor.bindings == map["E" := stringType];
    assert "E" in result.substitutor.bindings;
    assert !ide.isRawSubstitutor(PsiClass("java.util.ArrayList"), result.substitutor);
    assert PsiClass("java.util.List") != PsiClass("java.util.ArrayList");
    assert ide.createType(PsiClass("java.util.List"), result.substitutor) == ClassType("java.util.List", [stringType]);
  }
}
