/** `org.wahlzeit.model.AlcoholManager`: the registry that keeps one canonical alcohol type per type
    name, creating it on first request, and the factory of alcohols built from those types.

    The registry is a static map in the Java class; here it is the field of one explicitly
    constructed AlcoholManager object. Alcohol types are objects, so "the same type" means the same
    instance, as in the Java code. */
module Alcohols {

  /** A type of alcohol: a name and its ingredients, fixed at construction. */
  class AlcoholType {
    const typeName: string
    const ingredients: seq<string>

    constructor (typeName: string, ingredients: seq<string>)
      ensures this.typeName == typeName && this.ingredients == ingredients
    {
      this.typeName := typeName;
      this.ingredients := ingredients;
    }

    /** A new alcohol of this type. */
    method CreateInstance(alcoholName: string) returns (a: Alcohol)
      ensures fresh(a) && a.alcoholName == alcoholName && a.alcoholType == this
    {
      a := new Alcohol(this, alcoholName);
    }
  }

  /** A named alcohol of a given type. */
  class Alcohol {
    const alcoholName: string
    const alcoholType: AlcoholType

    constructor (alcoholType: AlcoholType, alcoholName: string)
      ensures this.alcoholType == alcoholType && this.alcoholName == alcoholName
    {
      this.alcoholType := alcoholType;
      this.alcoholName := alcoholName;
    }
  }

  class AlcoholManager {
    /** The registered types, by type name. */
    var alcoholTypes: map<string, AlcoholType>

    /** Every registered type is registered under its own name. */
    ghost predicate Valid()
      reads this
    {
      forall name :: name in alcoholTypes ==> alcoholTypes[name].typeName == name
    }

    /** An empty registry. */
    constructor ()
      ensures Valid() && alcoholTypes == map[]
    {
      alcoholTypes := map[];
    }

    /** `getAlcoholType`: the type registered under `typeName`, whatever `ingredients` says; when
        there is none, a new type with these ingredients is created, registered and returned.
        No other name's entry changes, and afterwards the name is registered to the returned type,
        so every later call with this name returns this same instance. */
    method GetAlcoholType(typeName: string, ingredients: seq<string>) returns (t: AlcoholType)
      requires Valid()
      modifies this
      ensures Valid()
      ensures typeName in alcoholTypes && alcoholTypes[typeName] == t && t.typeName == typeName
      ensures alcoholTypes - {typeName} == old(alcoholTypes) - {typeName}
      ensures typeName in old(alcoholTypes) ==> t == old(alcoholTypes)[typeName] && alcoholTypes == old(alcoholTypes)
      ensures typeName !in old(alcoholTypes) ==> fresh(t) && t.ingredients == ingredients
    {
      if typeName in alcoholTypes {
        return alcoholTypes[typeName];
      }
      t := new AlcoholType(typeName, ingredients);
      alcoholTypes := alcoholTypes[typeName := t];
    }

    /** `createAlcohol(alcoholName, typeName, ingredients)`: a new alcohol of the canonical type
        registered for `typeName` (registering one first when there is none). */
    method CreateAlcohol(alcoholName: string, typeName: string, ingredients: seq<string>) returns (a: Alcohol)
      requires Valid()
      modifies this
      ensures Valid()
      ensures fresh(a) && a.alcoholName == alcoholName
      ensures typeName in alcoholTypes && a.alcoholType == alcoholTypes[typeName]
      ensures a.alcoholType.typeName == typeName
      ensures alcoholTypes - {typeName} == old(alcoholTypes) - {typeName}
      ensures typeName in old(alcoholTypes) ==> a.alcoholType == old(alcoholTypes)[typeName] && alcoholTypes == old(alcoholTypes)
      ensures typeName !in old(alcoholTypes) ==> fresh(a.alcoholType) && a.alcoholType.ingredients == ingredients
    {
      var alcoholType := GetAlcoholType(typeName, ingredients);
      a := alcoholType.CreateInstance(alcoholName);
    }

    /** `createAlcohol(alcoholName, alcoholType)`: resolves the given type again through the
        registry by its name and ingredients. A registered type is used as it is; a type whose name
        is registered to another instance is replaced by that instance; a type whose name is not
        registered is not itself registered: a new type with its name and ingredients is. */
    method CreateAlcoholOfType(alcoholName: string, alcoholType: AlcoholType) returns (a: Alcohol)
      requires Valid()
      modifies this
      ensures Valid()
      ensures fresh(a) && a.alcoholName == alcoholName
      ensures a.alcoholType.typeName == alcoholType.typeName
      ensures alcoholType.typeName in alcoholTypes && a.alcoholType == alcoholTypes[alcoholType.typeName]
      ensures alcoholTypes - {alcoholType.typeName} == old(alcoholTypes) - {alcoholType.typeName}
      ensures alcoholType.typeName in old(alcoholTypes) ==>
                a.alcoholType == old(alcoholTypes)[alcoholType.typeName] && alcoholTypes == old(alcoholTypes)
      ensures alcoholType.typeName !in old(alcoholTypes) ==>
                fresh(a.alcoholType) && a.alcoholType != alcoholType &&
                a.alcoholType.ingredients == alcoholType.ingredients
    {
      a := CreateAlcohol(alcoholName, alcoholType.typeName, alcoholType.ingredients);
    }
  }
}
