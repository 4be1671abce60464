/** Optional values: the source's nullable references. */
module Wrappers {

  datatype Option<+T> = None | Some(value: T) {

    /** The wrapped value, or `default` when there is none. */
    function GetOr(default: T): T {
      match this
      case Some(v) => v
      case None => default
    }
  }
}

/**
 * The part of the IDE's Java type system that Groovy variable type inference
 * reads: PSI types, resolved classes, substitutors, and the services that
 * resolve class types and build new ones.
 */
module PsiTypes {

  import opened Wrappers

  /** A resolved class or interface. Two resolutions denote the same class
      exactly when they are equal (the source compares PsiClass references). */
  datatype PsiClass = PsiClass(qualifiedName: string)

  /** A type as the PSI sees it. Only the split between class types and all
      other kinds matters to inference; the other variants stand for the
      primitive, array, wildcard and remaining kinds of type. */
  datatype PsiType =
    | PrimitiveType(keyword: string)
    | ArrayType(componentType: PsiType)
    | ClassType(className: string, parameters: seq<PsiType>)
    | OtherType(presentableText: string)

  /** A reference to a class, possibly with type arguments. */
  type PsiClassType = t: PsiType | t.ClassType? witness ClassType("java.lang.Object", [])

  /** A binding of a class's type parameters to types. */
  datatype PsiSubstitutor = PsiSubstitutor(bindings: map<string, PsiType>)

  /** What resolving a class type with its generics yields: the class, if it
      resolves, and the substitutor of its type arguments. */
  datatype ClassResolveResult = ClassResolveResult(element: Option<PsiClass>, substitutor: PsiSubstitutor)

  /**
   * The IDE services that inference calls and whose workings are not part of
   * this model; each is an arbitrary total function here.
   *   resolve             - PsiClassType.resolve()
   *   resolveGenerics     - PsiClassType.resolveGenerics()
   *   isRawSubstitutor    - PsiUtil.isRawSubstitutor(class, substitutor)
   *   getClassSubstitutor - TypeConversionUtil.getClassSubstitutor(super, sub, substitutor):
   *                         how the sub-class's instantiation binds the super-class's
   *                         parameters, absent when the classes are not related
   *   createType          - PsiElementFactory.createType(class, substitutor)
   */
  datatype TypeServices = TypeServices(
    resolve: PsiClassType -> Option<PsiClass>,
    resolveGenerics: PsiClassType -> ClassResolveResult,
    isRawSubstitutor: (PsiClass, PsiSubstitutor) -> bool,
    getClassSubstitutor: (PsiClass, PsiClass, PsiSubstitutor) -> Option<PsiSubstitutor>,
    createType: (PsiClass, PsiSubstitutor) -> PsiClassType)

  /** The type java.lang.Object, the fallback type of an untyped variable. */
  const JavaLangObject: PsiClassType := ClassType("java.lang.Object", [])

  /**
   * Two consistency facts any sane implementation of the services has and
   * which inference does not itself rely on: resolving a class type with or
   * without its generics names the same class, and a type built from a class
   * resolves to that class.
   */
  ghost predicate Coherent(ide: TypeServices) {
    && (forall t: PsiClassType :: ide.resolveGenerics(t).element == ide.resolve(t))
    && (forall c, s :: ide.resolve(ide.createType(c, s)) == Some(c))
  }
}
