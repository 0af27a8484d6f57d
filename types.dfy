/**
 * The kinds of unit of code (`Type` and its five subclasses) as one sum
 * type, the per-kind recognisers and the precedence `UnitOfCode::create`
 * applies, and the shared `getInstance` cache of kind objects.
 */
module Types {
  import opened Wrappers
  import opened Environment

  datatype Type =
    | Class(abstractFlag: bool)
    | Interface
    | Trait
    | Primitive
    | Undefined

  /** `isAbstract`: a class's flag, always true for an interface, null otherwise. */
  function IsAbstract(t: Type): (r: Option<bool>)
    ensures r.Some? <==> t.Class? || t.Interface?
    ensures t.Interface? ==> r == Some(true)
    ensures t.Class? ==> r == Some(t.abstractFlag)
  {
    match t
    case Class(flag) => Some(flag)
    case Interface => Some(true)
    case _ => None
  }

  /** The type lexicon of `TypePrimitive` followed by its pseudo-types. */
  const PrimitiveNames: seq<string> := [
    "int", "bool", "float", "string", "array", "object", "iterable", "callable",
    "resource", "integer", "boolean", "mixed", "number", "callback", "void", "null"]

  /** `TypeInterface::isThisType`. */
  predicate IsInterface(h: Host, name: string) { name in h.interfaces }

  /** `TypeClass::isThisType`. */
  predicate IsClass(h: Host, name: string) { name in h.classes }

  /** `TypeTrait::isThisType`. */
  predicate IsTrait(h: Host, name: string) { name in h.traits }

  /** `TypePrimitive::isThisType`: exact, case-sensitive lexicon membership; no oracle. */
  predicate IsPrimitive(name: string) { name in PrimitiveNames }

  /** `TypeUndefined::isThisType`: none of the other four recognisers accepts the name. */
  predicate IsUndefined(h: Host, name: string)
  {
    !IsInterface(h, name) && !IsClass(h, name) && !IsTrait(h, name) && !IsPrimitive(name)
  }

  /** `ReflectionClass::isAbstract`, false when reflection fails. */
  function ReflectedAbstract(h: Host, name: string): bool
  {
    name in h.abstractness && h.abstractness[name]
  }

  /**
   * The type `UnitOfCode::create` gives a new unit: interface first, then
   * class, trait, primitive, and undefined by default.
   */
  function Classify(h: Host, name: string): (t: Type)
    ensures t.Interface? <==> IsInterface(h, name)
    ensures t.Class? <==> !IsInterface(h, name) && IsClass(h, name)
    ensures t.Class? ==> t.abstractFlag == ReflectedAbstract(h, name)
    ensures t.Trait? <==> !IsInterface(h, name) && !IsClass(h, name) && IsTrait(h, name)
    ensures t.Primitive? <==> !IsInterface(h, name) && !IsClass(h, name) && !IsTrait(h, name) && IsPrimitive(name)
    ensures t.Undefined? <==> IsUndefined(h, name)
  {
    if IsInterface(h, name) then Interface
    else if IsClass(h, name) then Class(ReflectedAbstract(h, name))
    else if IsTrait(h, name) then Trait
    else if IsPrimitive(name) then Primitive
    else Undefined
  }

  /** Every name is either undefined or accepted by one of the other recognisers, never both. */
  lemma UndefinedIsComplement(h: Host, name: string)
    ensures IsUndefined(h, name) <==> !(IsInterface(h, name) || IsClass(h, name) || IsTrait(h, name) || IsPrimitive(name))
  {
  }

  /** Lexicon membership is case-sensitive and exact. */
  lemma PrimitiveLexiconIsExact()
    ensures IsPrimitive("int") && IsPrimitive("null") && IsPrimitive("callback")
    ensures !IsPrimitive("Int") && !IsPrimitive("\\int") && !IsPrimitive("int[]") && !IsPrimitive("")
    ensures |PrimitiveNames| == 16
  {
    assert PrimitiveNames[0] == "int";
    assert PrimitiveNames[15] == "null";
    assert PrimitiveNames[13] == "callback";
  }

  /** A primitive's classification does not depend on the declaration oracle, unless it declares the name. */
  lemma PrimitiveIgnoresOracle(h1: Host, h2: Host, name: string)
    requires IsPrimitive(name)
    requires !ElementExists(h1, name) && !ElementExists(h2, name)
    ensures Classify(h1, name) == Classify(h2, name) == Primitive
  {
  }

  /** The class names the kind cache is keyed on. */
  const TypeClassName := "ArchAnalyzer\\Model\\Type\\TypeClass"
  const TypeInterfaceName := "ArchAnalyzer\\Model\\Type\\TypeInterface"
  const TypeTraitName := "ArchAnalyzer\\Model\\Type\\TypeTrait"
  const TypePrimitiveName := "ArchAnalyzer\\Model\\Type\\TypePrimitive"
  const TypeUndefinedName := "ArchAnalyzer\\Model\\Type\\TypeUndefined"

  /** The object `Type::getInstance` constructs for a subclass, or `None` for an unsupported one. */
  function Construct(staticClass: string): (r: Option<Type>)
    ensures r.Some? <==> staticClass in {TypeClassName, TypeInterfaceName, TypeTraitName, TypePrimitiveName, TypeUndefinedName}
  {
    if staticClass == TypeClassName then Some(Class(false))
    else if staticClass == TypeInterfaceName then Some(Interface)
    else if staticClass == TypeTraitName then Some(Trait)
    else if staticClass == TypePrimitiveName then Some(Primitive)
    else if staticClass == TypeUndefinedName then Some(Undefined)
    else None
  }

  /** `static::class . $isAbstract`: `true` converts to `"1"`, `false` to `""`. */
  function ClassKey(isAbstract: bool): string
  {
    TypeClassName + (if isAbstract then "1" else "")
  }

  /** The object cached under a key: the `getInstance` object of that subclass, or of that class flag. */
  function Expected(key: string): Option<Type>
  {
    if key == ClassKey(true) then Some(Class(true)) else Construct(key)
  }

  /**
   * The static `Type::$instances` cache shared by every subclass. Keys are
   * the strings the source hashes with `sha1`.
   */
  class TypeRegistry {
    var instances: map<string, Type>

    ghost predicate Valid()
      reads this
    {
      forall k :: k in instances ==> Expected(k) == Some(instances[k])
    }

    constructor()
      ensures instances == map[] && Valid()
    {
      instances := map[];
    }

    /**
     * `Type::getInstance` called on `staticClass`: the cached object, or a new
     * one of that subclass; an unsupported subclass fails.
     */
    method GetInstance(staticClass: string) returns (r: Result<Type>)
      requires Valid()
      modifies this
      ensures Valid()
      ensures staticClass in old(instances) ==> r == Success(old(instances)[staticClass]) && instances == old(instances)
      ensures staticClass !in old(instances) && Construct(staticClass).Some? ==>
        r == Success(Construct(staticClass).value) && instances == old(instances)[staticClass := r.value]
      ensures staticClass !in old(instances) && Construct(staticClass).None? ==>
        r == Failure("Unsupported type: " + staticClass) && instances == old(instances)
      ensures r.Success? ==> Expected(staticClass) == Some(r.value)
    {
      if staticClass !in instances {
        var t := Construct(staticClass);
        if t.None? {
          return Failure("Unsupported type: " + staticClass);
        }
        instances := instances[staticClass := t.value];
      }
      return Success(instances[staticClass]);
    }

    /** `TypeClass::getInstance($isAbstract)`: one shared class object per flag value. */
    method GetClassInstance(isAbstract: bool) returns (t: Type)
      requires Valid()
      modifies this
      ensures Valid()
      ensures t == Class(isAbstract)
      ensures instances == old(instances)[ClassKey(isAbstract) := t]
    {
      var key := ClassKey(isAbstract);
      if key !in instances {
        instances := instances[key := Class(isAbstract)];
      }
      assert Expected(key) == Some(Class(isAbstract));
      t := instances[key];
    }
  }

  /** The key for a non-abstract class coincides with `Type::getInstance` on `TypeClass`; both give the same object. */
  lemma ClassKeysAgree()
    ensures ClassKey(false) == TypeClassName
    ensures Construct(ClassKey(false)) == Some(Class(false)) && Expected(ClassKey(true)) == Some(Class(true))
    ensures ClassKey(true) != ClassKey(false)
  {
    assert ClassKey(true)[|TypeClassName|..] == "1";
  }
}
