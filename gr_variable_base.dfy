/**
 * The type queries of a Groovy variable's PSI node (GrVariableBaseImpl):
 * the declared type, the type shown to Java (never null), the inferred Groovy
 * type, and modifier queries.
 *
 * The inferred type comes from a fixed cascade over the declared type and the
 * initializer's type. A declared type that is not a class type is final. With
 * no declared type the initializer decides. A declared class type is narrowed
 * to the initializer's instantiation when both resolve, the initializer's
 * generics are not raw, and the initializer's class is the declared class or
 * a subclass of it; otherwise the declared type stands.
 */
module GrVariableBase {

  import opened Wrappers
  import opened PsiTypes

  /** The type written in the declaration. Its type is never null. */
  datatype GrTypeElement = GrTypeElement(psiType: PsiType)

  /** The initializer expression. Its type may be unknown. */
  datatype GrExpression = GrExpression(psiType: Option<PsiType>)

  /** The modifier list of the enclosing declaration, which answers queries
      such as "static" or "final". */
  datatype GrModifierList = GrModifierList(hasModifierProperty: string -> bool)

  /** A variable as its type queries see it: the type element, the
      initializer and the modifier list it finds in the tree, each possibly
      absent. */
  datatype GrVariable = GrVariable(
    typeElementGroovy: Option<GrTypeElement>,
    initializerGroovy: Option<GrExpression>,
    modifierList: Option<GrModifierList>)

  // ---------------------------------------------------------------------------
  // The operations
  // ---------------------------------------------------------------------------

  /** Whether the variable carries a modifier property: never without a
      modifier list, otherwise whatever the list answers. */
  function HasModifierProperty(v: GrVariable, property: string): (r: bool)
    ensures r ==> v.modifierList.Some?
    ensures v.modifierList.Some? ==> (r <==> v.modifierList.value.hasModifierProperty(property))
  {
    v.modifierList.Some? && v.modifierList.value.hasModifierProperty(property)
  }

  /** The type written in the declaration, absent exactly when there is no
      type element. */
  function DeclaredType(v: GrVariable): (r: Option<PsiType>)
    ensures r.None? <==> v.typeElementGroovy.None?
    ensures v.typeElementGroovy.Some? ==> r == Some(v.typeElementGroovy.value.psiType)
  {
    match v.typeElementGroovy
    case Some(typeElement) => Some(typeElement.psiType)
    case None => None
  }

  /** The variable's type for Java code: the declared type, or
      java.lang.Object when there is none. It is never absent. */
  function VariableType(v: GrVariable): (r: PsiType)
    ensures DeclaredType(v).Some? ==> r == DeclaredType(v).value
    ensures DeclaredType(v).None? ==> r == JavaLangObject
  {
    DeclaredType(v).GetOr(JavaLangObject)
  }

  /** The type of the initializer, absent when there is no initializer or
      its type is unknown. */
  function InitializerType(v: GrVariable): Option<PsiType> {
    match v.initializerGroovy
    case Some(initializer) => initializer.psiType
    case None => None
  }

  /**
   * The narrowing step for a declared class type: the type returned early, if
   * any. It is taken only when the initializer's type is a class type, both
   * sides resolve and the initializer's substitutor is not raw; it yields
   * either the initializer's type or a type built from the declared class.
   */
  function Narrowing(declaredType: PsiClassType, initializerType: PsiType, ide: TypeServices): (r: Option<PsiType>)
    ensures r.Some? ==> initializerType.ClassType? && ide.resolve(declaredType).Some?
    ensures r.Some? ==>
      var result := ide.resolveGenerics(initializerType);
      result.element.Some? && !ide.isRawSubstitutor(result.element.value, result.substitutor)
    ensures r.Some? && r.value != initializerType ==>
      exists s :: r.value == ide.createType(ide.resolve(declaredType).value, s)
  {
    if !initializerType.ClassType? then None
    else
      match ide.resolve(declaredType)
      case None => None
      case Some(declaredClass) =>
        var initializerResult := ide.resolveGenerics(initializerType);
        match initializerResult.element
        case None => None
        case Some(initializerClass) =>
          if ide.isRawSubstitutor(initializerClass, initializerResult.substitutor) then None
          else if declaredClass == initializerClass then Some(initializerType)
          else
            match ide.getClassSubstitutor(declaredClass, initializerClass, initializerResult.substitutor)
            case None => None
            case Some(superSubstitutor) => Some(ide.createType(declaredClass, superSubstitutor))
  }

  /**
   * The inferred Groovy type of the variable. A declared type that is not a
   * class type is returned as it is; without a declared type the
   * initializer's type is the answer; a declared class type is narrowed when
   * the initializer allows it and is kept otherwise. The result is absent
   * exactly when neither side has a type.
   */
  function TypeGroovy(v: GrVariable, ide: TypeServices): (r: Option<PsiType>)
    ensures DeclaredType(v).Some? && !DeclaredType(v).value.ClassType? ==> r == DeclaredType(v)
    ensures DeclaredType(v).None? ==> r == InitializerType(v)
    ensures r.None? <==> DeclaredType(v).None? && InitializerType(v).None?
  {
    var declaredType := DeclaredType(v);
    if declaredType.Some? && !declaredType.value.ClassType? then declaredType
    else
      match v.initializerGroovy
      case None => declaredType
      case Some(initializer) =>
        match initializer.psiType
        case None => declaredType
        case Some(initializerType) =>
          var narrowed := if declaredType.Some? then Narrowing(declaredType.value, initializerType, ide) else None;
          if narrowed.Some? then narrowed
          else if declaredType.None? then Some(initializerType)
          else declaredType
  }
}
