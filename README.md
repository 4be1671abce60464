# Groovy variable type inference

This project models the type queries of a Groovy variable's PSI node,
`GrVariableBaseImpl` in the Groovy plugin of the IntelliJ platform:

- `DeclaredType`: the type written in the declaration, if there is one.
- `VariableType`: the type shown to Java code. It is the declared type, or `java.lang.Object` when nothing is declared.
- `TypeGroovy`: the inferred Groovy type. A declared type that is not a class type is final. With no declared type, the initializer's type is the answer. A declared class type is narrowed when three things hold: the initializer's class resolves, its generics are not raw, and its class is the declared class or relates to it through the class hierarchy. Otherwise the declared type stands.
- `HasModifierProperty`: whether the variable carries a modifier. Without a modifier list the answer is no. Otherwise the list's own answer is returned.

The IDE services that inference calls are fields of `PsiTypes.TypeServices`.
They are passed in as arbitrary total functions:
- class resolution, with and without generics
- the raw-substitutor test
- the super-class substitutor lookup
- the type factory

Inference is proved against these services with no assumption about them.
Two lemmas, `KeepsDeclaredClass` and `TypeGroovyIdempotent`, do assume
`PsiTypes.Coherent`. That predicate asks two things of the services:
resolving a class type with or without generics gives the same class, and a
type built from a class resolves back to that class.

Files:
- `psi_types.dfy`: `Option`, PSI types, classes, substitutors and the services.
- `gr_variable_base.dfy`: the variable and its four queries.
- `gr_variable_properties.dfy`: a decision table that fixes the answer of `TypeGroovy`. The table does not depend on the order in which the cascade tests its conditions. The file also proves the properties of each case, and works one instance through: `List<Object>` declared, `ArrayList<String>` assigned.

## Model

| member | source | states |
|---|---|---|
| `GrVariableBase.HasModifierProperty` | plugins/groovy/src/org/jetbrains/plugins/groovy/lang/psi/impl/statements/GrVariableBaseImpl.java:70-73 | false whenever there is no modifier list; otherwise exactly the modifier list's answer |
| `GrVariableBase.VariableType` | plugins/groovy/src/org/jetbrains/plugins/groovy/lang/psi/impl/statements/GrVariableBaseImpl.java:84-88 | never absent: the declared type when there is one, java.lang.Object otherwise |
| `GrVariableBase.DeclaredType` | plugins/groovy/src/org/jetbrains/plugins/groovy/lang/psi/impl/statements/GrVariableBaseImpl.java:95-101 | absent exactly when there is no type element, otherwise the type element's type |
| `GrVariableBase.Narrowing` | plugins/groovy/src/org/jetbrains/plugins/groovy/lang/psi/impl/statements/GrVariableBaseImpl.java:118-131 | an early answer exists only for a class-type initializer when the declared class resolves and the initializer's class resolves with a non-raw substitutor; it is the initializer's type or a type built from the declared class |
| `GrVariableBase.TypeGroovy` | plugins/groovy/src/org/jetbrains/plugins/groovy/lang/psi/impl/statements/GrVariableBaseImpl.java:103-140 | a declared non-class type is the answer whatever the initializer; with nothing declared the initializer's type (or nothing) is the answer; the answer is absent exactly when neither side has a type |
| `GrVariableProperties.TypeGroovyRealizesOutcome` | plugins/groovy/src/org/jetbrains/plugins/groovy/lang/psi/impl/statements/GrVariableBaseImpl.java:103-140 | whichever row of the decision table (untyped, declared, initializer, narrowed) holds, the cascade returns that row's type |
| `GrVariableProperties.OutcomeExists` | plugins/groovy/src/org/jetbrains/plugins/groovy/lang/psi/impl/statements/GrVariableBaseImpl.java:103-140 | the table covers every variable: the cascade is total |
| `GrVariableProperties.OutcomeUnique` | plugins/groovy/src/org/jetbrains/plugins/groovy/lang/psi/impl/statements/GrVariableBaseImpl.java:103-140 | the table's rows never overlap |
| `GrVariableProperties.DeclaredKeptWithoutClassInitializer` | plugins/groovy/src/org/jetbrains/plugins/groovy/lang/psi/impl/statements/GrVariableBaseImpl.java:114-139 | a declared class type is returned unchanged when it does not resolve, when the initializer's type is unknown, or when the initializer's type is not a class type |
| `GrVariableProperties.DeclaredKeptForRawInitializer` | plugins/groovy/src/org/jetbrains/plugins/groovy/lang/psi/impl/statements/GrVariableBaseImpl.java:121-124 | a declared class type is returned unchanged when the initializer's class does not resolve or its substitutor is raw |
| `GrVariableProperties.SameClassTakesInitializer` | plugins/groovy/src/org/jetbrains/plugins/groovy/lang/psi/impl/statements/GrVariableBaseImpl.java:125 | same class on both sides with a non-raw substitutor gives the initializer's type |
| `GrVariableProperties.DistinctClassesNarrowOrKeep` | plugins/groovy/src/org/jetbrains/plugins/groovy/lang/psi/impl/statements/GrVariableBaseImpl.java:126-129 | distinct classes with a super-substitutor S give the type built from the declared class and S; without one, the declared type |
| `GrVariableProperties.ResultIsOneOf` | plugins/groovy/src/org/jetbrains/plugins/groovy/lang/psi/impl/statements/GrVariableBaseImpl.java:103-140 | the answer is absent, the declared type, the initializer's type, or a type built from the class the declared type resolves to |
| `GrVariableProperties.VariableTypeAgreesWithTypeGroovy` | plugins/groovy/src/org/jetbrains/plugins/groovy/lang/psi/impl/statements/GrVariableBaseImpl.java:84-88 | for a declared non-class type the Java type and the Groovy type coincide; with nothing declared the Java type is java.lang.Object |
| `GrVariableProperties.KeepsDeclaredClass` | plugins/groovy/src/org/jetbrains/plugins/groovy/lang/psi/impl/statements/GrVariableBaseImpl.java:118-139 | for coherent services, a declared class type is only ever replaced by a class type of the same class |
| `GrVariableProperties.TypeGroovyIdempotent` | plugins/groovy/src/org/jetbrains/plugins/groovy/lang/psi/impl/statements/GrVariableBaseImpl.java:103-140 | for coherent services, declaring the inferred type and inferring again gives the same type (a fixed point) |
| `GrVariableProperties.ListNarrowedByArrayList` | plugins/groovy/src/org/jetbrains/plugins/groovy/lang/psi/impl/statements/GrVariableBaseImpl.java:126-129 | with List declared as `List<Object>` and an `ArrayList<String>` initializer, the answer is `List<String>`; the collection services used are coherent |

## Left out

- `setType`, `setName`, `getNameIdentifier`, `getNameIdentifierGroovy`, `getTextOffset`, `getUseScope` and `getName`: these edit the syntax tree, walk it, or build search scopes over framework objects outside the model.
- `getTypeElementGroovy` and `getModifierList`: they navigate to the parent declaration. The first casts the parent without checking its kind. The model takes their results as the variable's fields `typeElementGroovy` and `modifierList`. `getInitializerGroovy` (the first expression child) is taken the same way, as `initializerGroovy`.
- `getTypeElement`, `getInitializer`, `hasInitializer`, `normalizeDeclaration`, `computeConstantValue`, `getDocComment` and `getElementToCompare`: base-class stubs that return a constant or delegate to the name. They carry no logic.
- The real behaviour of `resolve`, `resolveGenerics`, `isRawSubstitutor`, `getClassSubstitutor` and `createType`: these are IDE services, modelled as arbitrary functions.
- `TypesUtil.getJavaLangObject` is modelled as the fixed class type `java.lang.Object`. The project lookup behind it is outside the model.
- `GrTypeElement.getType()` is taken to be never null, as the PSI API declares. `GrExpression.getType()` may be null, and the model keeps that case.
- The source tests whether two `PsiClass` objects are the same object. The model compares class identities for equality.
- The highlight manager and the Python imports settings panel, which sit beside this class in the repository, are not part of this model. One is an interface with no implementation. The other is Swing form glue.
