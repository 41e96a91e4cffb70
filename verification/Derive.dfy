/** The Rust back end's question which traits a type can derive, asked of schemas that may be cyclic. */
module Derive {
  import opened Wire
  import opened Schema
  import opened Containment

  function Names(s: Schema): set<string>
  {
    set it <- s :: it.name
  }

  /** The items for which the derivation of `t` is marked. */
  ghost function UnderWay(checking: set<(string, Trait)>, t: Trait): set<string>
  {
    set p <- checking | p.1 == t :: p.0
  }

  lemma UnderWayAdds(checking: set<(string, Trait)>, name: string, t: Trait)
    ensures UnderWay(checking + {(name, t)}, t) == UnderWay(checking, t) + {name}
    ensures name in UnderWay(checking, t) <==> (name, t) in checking
    ensures UnderWay({}, t) == {}
  {
    assert (name, t).1 == t && (name, t).0 == name;
  }

  class CodeGenerator {
    const schema: Schema
    var deriveChecking: set<(string, Trait)>

    constructor (schema: Schema)
      ensures this.schema == schema && deriveChecking == {}
    {
      this.schema := schema;
      deriveChecking := {};
    }

    /** The items whose derivation of `t` is under way. */
    ghost function Visiting(t: Trait): set<string>
      reads this
    {
      UnderWay(deriveChecking, t)
    }

    ghost function Unvisited(t: Trait): nat
      reads this
    {
      |Names(schema) - Visiting(t)|
    }

    /** Every member of the item can derive the trait, none of them by way of an item under way. */
    method CanDeriveItem(it: Item, t: Trait) returns (can: bool)
      requires Closed(schema) && it in schema && !it.ServiceItem?
      modifies this
      ensures deriveChecking == old(deriveChecking)
      ensures can <==> forall ty <- Members(it) :: !Obstructed(schema, Derive(t), Visiting(t), ty)
      decreases Unvisited(t), 1
    {
      assert ScopedItem(schema, it);
      MembersScoped(schema, it);
      hide Closed, Scoped, Obstructed, Members;
      var members := Members(it);
      for i := 0 to |members|
        invariant deriveChecking == old(deriveChecking)
        invariant forall j :: 0 <= j < i ==> !Obstructed(schema, Derive(t), Visiting(t), members[j])
      {
        var derivable := CanDerive(members[i], t);
        if !derivable {
          return false;
        }
      }
      return true;
    }

    /**
     * Terminates on every schema, cyclic ones included, leaves the set as it was, and answers
     * whether the type is free of what blocks the trait, on all ways that pass no item under way.
     */
    method CanDerive(ty: Type, t: Trait) returns (can: bool)
      requires Closed(schema) && Scoped(schema, ty)
      modifies this
      ensures deriveChecking == old(deriveChecking)
      ensures can <==> !Obstructed(schema, Derive(t), Visiting(t), ty)
      decreases Unvisited(t), 0, ty, 1
    {
      hide Closed, Obstructed;
      if !ty.Named? {
        ObstructedStep(schema, Derive(t), Visiting(t), ty);
      }
      match ty
      case F32 => can := t != Eq && t != Hash;
      case F64 => can := t != Eq && t != Hash;
      case Str => can := t != Copy;
      case Array(elem) =>
        if t == Copy {
          can := false;
        } else {
          can := CanDerive(elem, t);
        }
      case Map(k, v) =>
        if t == Copy || t == Hash {
          can := false;
        } else {
          can := CanDerive(k, t);
          if can {
            can := CanDerive(v, t);
          }
        }
      case Named(name) => can := CanDeriveNamed(name, t);
      case _ => can := true;
    }

    /** An item met again on the way down counts as derivable; otherwise it is marked while it is examined. */
    method CanDeriveNamed(name: string, t: Trait) returns (can: bool)
      requires Closed(schema) && Scoped(schema, Named(name))
      modifies this
      ensures deriveChecking == old(deriveChecking)
      ensures can <==> !Obstructed(schema, Derive(t), Visiting(t), Named(name))
      decreases Unvisited(t), 0, Named(name), 0
    {
      hide Closed, Obstructed, UnderWay;
      var key := (name, t);
      UnderWayAdds(deriveChecking, name, t);
      if key in deriveChecking {
        StuckAt(schema, Derive(t), Visiting(t), name);
        return true;
      }
      ghost var before := Visiting(t);
      deriveChecking := deriveChecking + {key};
      FewerLeft(schema, before, name);
      can := CanDeriveItem(Lookup(schema, name).value, t);
      deriveChecking := deriveChecking - {key};
      assert deriveChecking == old(deriveChecking);
      ObstructedPast(schema, Derive(t), before, name);
    }

    /** From an idle generator: a trait can be derived iff nothing the type contains blocks it. */
    method Derivable(ty: Type, t: Trait) returns (can: bool)
      requires Closed(schema) && Scoped(schema, ty) && deriveChecking == {}
      modifies this
      ensures deriveChecking == {} && (can <==> !Obstructed(schema, Derive(t), {}, ty))
    {
      assert Visiting(t) == {};
      can := CanDerive(ty, t);
    }
  }

  lemma MembersScoped(s: Schema, it: Item)
    requires ScopedItem(s, it) && !it.ServiceItem?
    ensures forall ty <- Members(it) :: Scoped(s, ty)
  {
  }

  /** A way that begins at an avoided item is no way. */
  lemma StuckAt(s: Schema, purpose: Purpose, names: set<string>, n: string)
    requires n in names
    ensures !Obstructed(s, purpose, names, Named(n))
  {
  }

  lemma FewerLeft(s: Schema, before: set<string>, n: string)
    requires n !in before && Scoped(s, Named(n))
    ensures |Names(s) - (before + {n})| < |Names(s) - before|
  {
    assert Lookup(s, n).value in s;
    assert Names(s) - (before + {n}) == Names(s) - before - {n};
  }

  // ---------------------------------------------------------------- the derive attribute

  const ALL_TRAITS: seq<Trait> := [Debug, Copy, Clone, PartialEq, Eq, Hash, DefaultValue]

  ghost predicate ItemCan(s: Schema, it: Item, t: Trait)
  {
    forall ty <- Members(it) :: !Obstructed(s, Derive(t), {}, ty)
  }

  /** The place of a trait in the attribute. */
  function Place(t: Trait): nat
  {
    match t
    case Debug => 0
    case Copy => 1
    case Clone => 2
    case PartialEq => 3
    case Eq => 4
    case Hash => 5
    case DefaultValue => 6
  }

  /** Each trait at most once, in the order of the attribute. */
  predicate InPlace(traits: seq<Trait>)
  {
    forall i, j :: 0 <= i < j < |traits| ==> Place(traits[i]) < Place(traits[j])
  }

  /**
   * The `#[derive(...)]` list of an item: exactly the traits it can derive, each once; unions write
   * their Default by hand.
   */
  method GenDeriveAttr(gen: CodeGenerator, it: Item) returns (traits: seq<Trait>)
    requires Closed(gen.schema) && it in gen.schema && !it.ServiceItem? && gen.deriveChecking == {}
    modifies gen
    ensures gen.deriveChecking == {}
    ensures forall t :: t in traits <==> ItemCan(gen.schema, it, t) && !(t == DefaultValue && it.UnionItem?)
    ensures InPlace(traits)
  {
    hide Closed, Obstructed, Members;
    traits := [];
    for i := 0 to |ALL_TRAITS|
      invariant gen.deriveChecking == {}
      invariant forall t :: t in traits <==>
        t in ALL_TRAITS[..i] && ItemCan(gen.schema, it, t) && !(t == DefaultValue && it.UnionItem?)
      invariant InPlace(traits) && forall t <- traits :: Place(t) < i
    {
      var t := ALL_TRAITS[i];
      assert Place(t) == i;
      if t == DefaultValue && it.UnionItem? {
        continue;
      }
      assert gen.Visiting(t) == {};
      var can := gen.CanDeriveItem(it, t);
      if can {
        traits := traits + [t];
      }
    }
    assert ALL_TRAITS[..|ALL_TRAITS|] == ALL_TRAITS;
    forall t ensures t in ALL_TRAITS {
      EveryTrait(t);
    }
  }

  lemma EveryTrait(t: Trait)
    ensures t in ALL_TRAITS
  {
    assert ALL_TRAITS[Place(t)] == t;
  }

  /** Something contained in a member of the item. */
  ghost predicate Inside(s: Schema, it: Item, inner: Type)
  {
    exists ty <- Members(it) :: Contains(s, ty, inner)
  }

  /** The traits of an item in terms of what it contains. */
  lemma ItemCanMeans(s: Schema, it: Item, t: Trait)
    ensures ItemCan(s, it, t) <==>
      match t
      case Copy => forall inner :: Inside(s, it, inner) ==> !inner.Str? && !inner.Array? && !inner.Map?
      case Eq => forall inner :: Inside(s, it, inner) ==> !inner.F32? && !inner.F64?
      case Hash => forall inner :: Inside(s, it, inner) ==> !inner.F32? && !inner.F64? && !inner.Map?
      case _ => true
  {
    hide Contains, Obstructed, Members;
    match t
    case Copy =>
      forall ty <- Members(it)
        ensures !Obstructed(s, Derive(Copy), {}, ty) <==>
          forall inner :: Contains(s, ty, inner) ==> !inner.Str? && !inner.Array? && !inner.Map?
      {
        CopyMeans(s, ty);
      }
    case Eq =>
      forall ty <- Members(it)
        ensures !Obstructed(s, Derive(Eq), {}, ty) <==>
          forall inner :: Contains(s, ty, inner) ==> !inner.F32? && !inner.F64?
      {
        EqAndHashMean(s, ty);
      }
    case Hash =>
      forall ty <- Members(it)
        ensures !Obstructed(s, Derive(Hash), {}, ty) <==>
          forall inner :: Contains(s, ty, inner) ==> !inner.F32? && !inner.F64? && !inner.Map?
      {
        EqAndHashMean(s, ty);
      }
    case _ =>
      forall ty <- Members(it) ensures !Obstructed(s, Derive(t), {}, ty) {
        OthersAlways(s, t, ty);
      }
  }

  /** An item that derives Hash derives Eq, so every key type Rust accepts can be a HashMap key. */
  lemma ItemHashImpliesEq(s: Schema, it: Item)
    requires Closed(s) && it in s && !it.ServiceItem? && ItemCan(s, it, Hash)
    ensures ItemCan(s, it, Eq)
  {
    assert ScopedItem(s, it);
    MembersScoped(s, it);
    forall ty <- Members(it) ensures !Obstructed(s, Derive(Eq), {}, ty) {
      if Obstructed(s, Derive(Eq), {}, ty) {
        HashImpliesEq(s, ty);
      }
    }
  }
}
