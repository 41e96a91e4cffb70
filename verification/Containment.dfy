/**
 * Which types a type contains, and which of them stand in the way of a derived trait or of a map
 * key. The one graph both static analyses of the compiler explore.
 */
module Containment {
  import opened Wire
  import opened Schema

  /** The types an item mentions, in declaration order. */
  function Members(it: Item): seq<Type>
  {
    match it
    case StructItem(_, fs) => seq(|fs|, i requires 0 <= i < |fs| => fs[i].ty)
    case MessageItem(_, fs) => seq(|fs|, i requires 0 <= i < |fs| => fs[i].ty)
    case UnionItem(_, vs) => Payloads(vs)
    case EnumItem(_, _) => []
    case ServiceItem(_, _) => []
  }

  function Payloads(vs: seq<UnionVariant>): (r: seq<Type>)
    ensures forall t <- r :: exists v <- vs :: v.ty == Some(t)
    ensures forall v <- vs :: v.ty.Some? ==> v.ty.value in r
  {
    if vs == [] then []
    else (if vs[0].ty.Some? then [vs[0].ty.value] else []) + Payloads(vs[1..])
  }

  function Children(s: Schema, ty: Type): seq<Type>
  {
    match ty
    case Array(t) => [t]
    case Map(k, t) => [k, t]
    case Named(n) => if Lookup(s, n).Some? then Members(Lookup(s, n).value) else []
    case _ => []
  }

  /** Types each contained in the one before. */
  predicate Chain(s: Schema, path: seq<Type>)
  {
    forall i :: 0 <= i < |path| - 1 ==> path[i + 1] in Children(s, path[i])
  }

  datatype Trait = Debug | Copy | Clone | PartialEq | Eq | Hash | DefaultValue

  datatype Language = Rust | Go | TypeScript

  datatype Purpose = Derive(t: Trait) | KeyIn(language: Language)

  predicate IsItem(s: Schema, ty: Type, p: Item -> bool)
  {
    ty.Named? && Lookup(s, ty.name).Some? && p(Lookup(s, ty.name).value)
  }

  /** The types that rule out a trait or a map key by themselves. */
  predicate Blocks(s: Schema, purpose: Purpose, ty: Type)
  {
    match purpose
    case Derive(Copy) => ty.Str? || ty.Array? || ty.Map?
    case Derive(Eq) => ty.F32? || ty.F64?
    case Derive(Hash) => ty.F32? || ty.F64? || ty.Map?
    case Derive(_) => false
    case KeyIn(language) =>
      ty.F32? || ty.F64? || ty.Map? || IsItem(s, ty, (it: Item) => it.ServiceItem?) ||
      (language != Rust && (ty.Array? || IsItem(s, ty, (it: Item) => it.UnionItem?))) ||
      (language == TypeScript && IsItem(s, ty, (it: Item) => it.StructItem? || it.MessageItem?))
  }

  predicate Avoids(path: seq<Type>, names: set<string>)
  {
    forall ty <- path :: ty.Named? ==> ty.name !in names
  }

  ghost predicate Obstacle(s: Schema, purpose: Purpose, names: set<string>, ty: Type, path: seq<Type>)
  {
    path != [] && path[0] == ty && Chain(s, path) && Avoids(path, names) && Blocks(s, purpose, path[|path| - 1])
  }

  /** A blocking type is contained in `ty` at some depth, on a way past none of `names`. */
  ghost predicate Obstructed(s: Schema, purpose: Purpose, names: set<string>, ty: Type)
  {
    exists path :: Obstacle(s, purpose, names, ty, path)
  }

  // ---------------------------------------------------------------- one step of the search

  lemma ObstructedBlocks(s: Schema, purpose: Purpose, names: set<string>, ty: Type)
    requires Blocks(s, purpose, ty) && (ty.Named? ==> ty.name !in names)
    ensures Obstructed(s, purpose, names, ty)
  {
    hide Blocks;
    assert Obstacle(s, purpose, names, ty, [ty]);
  }

  lemma ObstructedByChild(s: Schema, purpose: Purpose, names: set<string>, ty: Type, child: Type)
    requires child in Children(s, ty) && Obstructed(s, purpose, names, child) && (ty.Named? ==> ty.name !in names)
    ensures Obstructed(s, purpose, names, ty)
  {
    hide Blocks, Children;
    var path :| Obstacle(s, purpose, names, child, path);
    assert Obstacle(s, purpose, names, ty, [ty] + path);
  }

  /** Outside any cycle the search is plain recursion. */
  lemma ObstructedStep(s: Schema, purpose: Purpose, names: set<string>, ty: Type)
    requires ty.Named? ==> ty.name !in names
    ensures Obstructed(s, purpose, names, ty) <==>
      Blocks(s, purpose, ty) || exists child <- Children(s, ty) :: Obstructed(s, purpose, names, child)
  {
    hide Blocks, Children;
    if Blocks(s, purpose, ty) {
      ObstructedBlocks(s, purpose, names, ty);
    } else if Obstructed(s, purpose, names, ty) {
      var path :| Obstacle(s, purpose, names, ty, path);
      assert |path| > 1 && path[1] in Children(s, ty);
      assert Obstacle(s, purpose, names, path[1], path[1..]);
    } else if exists child <- Children(s, ty) :: Obstructed(s, purpose, names, child) {
      var child :| child in Children(s, ty) && Obstructed(s, purpose, names, child);
      ObstructedByChild(s, purpose, names, ty, child);
    }
  }

  /** The part of a path behind the last place it visits `ty`. */
  lemma {:induction false} LastVisit(path: seq<Type>, ty: Type) returns (k: nat)
    requires path != [] && path[0] == ty
    ensures k < |path| && path[k] == ty && ty !in path[k + 1..]
  {
    if ty in path[1..] {
      var j :| 0 <= j < |path[1..]| && path[1..][j] == ty;
      var l := LastVisit(path[j + 1..], ty);
      k := j + 1 + l;
      assert path[j + 1..][l + 1..] == path[k + 1..];
    } else {
      k := 0;
    }
  }

  /** Below an item nothing is lost by never coming back to it: any way to an obstacle can do without. */
  lemma ObstructedPast(s: Schema, purpose: Purpose, names: set<string>, n: string)
    requires n !in names && !Blocks(s, purpose, Named(n))
    ensures Obstructed(s, purpose, names, Named(n)) <==>
      exists child <- Children(s, Named(n)) :: Obstructed(s, purpose, names + {n}, child)
  {
    hide Blocks, Children;
    if Obstructed(s, purpose, names, Named(n)) {
      var path :| Obstacle(s, purpose, names, Named(n), path);
      var k := LastVisit(path, Named(n));
      assert k + 1 < |path|;
      var tail := path[k + 1..];
      assert tail[0] in Children(s, path[k]);
      assert Obstacle(s, purpose, names + {n}, tail[0], tail);
    }
    forall child <- Children(s, Named(n)) | Obstructed(s, purpose, names + {n}, child)
      ensures Obstructed(s, purpose, names, Named(n))
    {
      var path :| Obstacle(s, purpose, names + {n}, child, path);
      assert Obstacle(s, purpose, names, child, path);
      ObstructedByChild(s, purpose, names, Named(n), child);
    }
  }

  // ---------------------------------------------------------------- what the traits ask of a type

  /** `inner` is an element, a key or a value of `outer`, or the type of one of its fields or payloads. */
  predicate PartOf(s: Schema, outer: Type, inner: Type)
  {
    match outer
    case Array(t) => inner == t
    case Map(k, t) => inner == k || inner == t
    case Named(n) =>
      Lookup(s, n).Some? &&
      (match Lookup(s, n).value
       case StructItem(_, fs) => exists f <- fs :: f.ty == inner
       case MessageItem(_, fs) => exists f <- fs :: f.ty == inner
       case UnionItem(_, vs) => exists v <- vs :: v.ty == Some(inner)
       case _ => false)
    case _ => false
  }

  ghost predicate LeadsTo(s: Schema, ty: Type, inner: Type, path: seq<Type>)
  {
    path != [] && path[0] == ty && path[|path| - 1] == inner &&
    forall i :: 0 <= i < |path| - 1 ==> PartOf(s, path[i], path[i + 1])
  }

  /** `inner` is `ty` or is contained in it at some depth. */
  ghost predicate Contains(s: Schema, ty: Type, inner: Type)
  {
    exists path :: LeadsTo(s, ty, inner, path)
  }

  lemma ChildrenAreParts(s: Schema, outer: Type, inner: Type)
    ensures inner in Children(s, outer) <==> PartOf(s, outer, inner)
  {
    if outer.Named? && Lookup(s, outer.name).Some? {
      MembersAreParts(Lookup(s, outer.name).value, inner);
    }
  }

  lemma MembersAreParts(it: Item, inner: Type)
    ensures inner in Members(it) <==>
      match it
      case StructItem(_, fs) => exists f <- fs :: f.ty == inner
      case MessageItem(_, fs) => exists f <- fs :: f.ty == inner
      case UnionItem(_, vs) => exists v <- vs :: v.ty == Some(inner)
      case _ => false
  {
    match it
    case StructItem(_, fs) =>
      forall f <- fs ensures f.ty in Members(it) {
        var i :| 0 <= i < |fs| && fs[i] == f;
        assert Members(it)[i] == f.ty;
      }
    case MessageItem(_, fs) =>
      forall f <- fs ensures f.ty in Members(it) {
        var i :| 0 <= i < |fs| && fs[i] == f;
        assert Members(it)[i] == f.ty;
      }
    case _ =>
  }

  /** With nothing to steer clear of, an obstructed type is one that contains a blocking type. */
  lemma ObstructedContains(s: Schema, purpose: Purpose, ty: Type)
    ensures Obstructed(s, purpose, {}, ty) <==> exists inner :: Contains(s, ty, inner) && Blocks(s, purpose, inner)
  {
    hide Blocks, PartOf, Children;
    if Obstructed(s, purpose, {}, ty) {
      var path :| Obstacle(s, purpose, {}, ty, path);
      forall i | 0 <= i < |path| - 1 ensures PartOf(s, path[i], path[i + 1]) {
        ChildrenAreParts(s, path[i], path[i + 1]);
      }
      assert LeadsTo(s, ty, path[|path| - 1], path);
    }
    forall inner | Contains(s, ty, inner) && Blocks(s, purpose, inner) ensures Obstructed(s, purpose, {}, ty) {
      var path :| LeadsTo(s, ty, inner, path);
      forall i | 0 <= i < |path| - 1 ensures path[i + 1] in Children(s, path[i]) {
        ChildrenAreParts(s, path[i], path[i + 1]);
      }
      assert Obstacle(s, purpose, {}, ty, path);
    }
  }

  /** Copy is for types without a string, an array or a map anywhere inside. */
  lemma CopyMeans(s: Schema, ty: Type)
    ensures !Obstructed(s, Derive(Copy), {}, ty) <==>
      forall inner :: Contains(s, ty, inner) ==> !inner.Str? && !inner.Array? && !inner.Map?
  {
    hide Contains, Obstructed;
    ObstructedContains(s, Derive(Copy), ty);
  }

  /** Eq is for types without a float, and Hash for those without a float or a map. */
  lemma EqAndHashMean(s: Schema, ty: Type)
    ensures !Obstructed(s, Derive(Eq), {}, ty) <==>
      forall inner :: Contains(s, ty, inner) ==> !inner.F32? && !inner.F64?
    ensures !Obstructed(s, Derive(Hash), {}, ty) <==>
      forall inner :: Contains(s, ty, inner) ==> !inner.F32? && !inner.F64? && !inner.Map?
  {
    hide Contains, Obstructed;
    ObstructedContains(s, Derive(Eq), ty);
    ObstructedContains(s, Derive(Hash), ty);
  }

  /** The other four traits are for all types. */
  lemma OthersAlways(s: Schema, t: Trait, ty: Type)
    requires t in {Debug, Clone, PartialEq, DefaultValue}
    ensures !Obstructed(s, Derive(t), {}, ty)
  {
    hide Contains, Obstructed;
    ObstructedContains(s, Derive(t), ty);
  }

  // ---------------------------------------------------------------- how purposes compare

  lemma {:induction false} ChildrenScoped(s: Schema, ty: Type)
    requires Closed(s) && Scoped(s, ty)
    ensures forall child <- Children(s, ty) :: Scoped(s, child)
  {
    if ty.Named? {
      assert ScopedItem(s, Lookup(s, ty.name).value);
    }
  }

  lemma {:induction false} ChainScoped(s: Schema, path: seq<Type>, i: nat)
    requires Closed(s) && Chain(s, path) && i < |path| && Scoped(s, path[0])
    ensures Scoped(s, path[i])
  {
    hide Scoped, Closed, Children;
    if i > 0 {
      ChainScoped(s, path, i - 1);
      ChildrenScoped(s, path[i - 1]);
      assert path[i - 1 + 1] in Children(s, path[i - 1]);
    }
  }

  /** If whatever blocks one purpose blocks the other, at every type that can occur, so for containment. */
  lemma Stricter(s: Schema, weak: Purpose, strict: Purpose, ty: Type)
    requires Closed(s) && Scoped(s, ty) && Obstructed(s, weak, {}, ty)
    requires forall t :: Scoped(s, t) && Blocks(s, weak, t) ==> Blocks(s, strict, t)
    ensures Obstructed(s, strict, {}, ty)
  {
    hide Blocks, Scoped, Closed, Children;
    var path :| Obstacle(s, weak, {}, ty, path);
    ChainScoped(s, path, |path| - 1);
    assert Obstacle(s, strict, {}, ty, path);
  }

  /** On types in scope, what keeps a type from deriving Hash is what Rust's key validator rejects. */
  lemma HashIsRustKey(s: Schema, ty: Type)
    requires Closed(s) && Scoped(s, ty)
    ensures Obstructed(s, Derive(Hash), {}, ty) <==> Obstructed(s, KeyIn(Rust), {}, ty)
  {
    assert forall t :: Scoped(s, t) ==> Blocks(s, Derive(Hash), t) == Blocks(s, KeyIn(Rust), t);
    hide Obstructed, Blocks, Closed, Scoped;
    if Obstructed(s, Derive(Hash), {}, ty) {
      Stricter(s, Derive(Hash), KeyIn(Rust), ty);
    }
    if Obstructed(s, KeyIn(Rust), {}, ty) {
      Stricter(s, KeyIn(Rust), Derive(Hash), ty);
    }
  }

  /** A type that can be hashed can be compared: the key types Rust accepts are Eq as well. */
  lemma HashImpliesEq(s: Schema, ty: Type)
    requires Closed(s) && Scoped(s, ty) && Obstructed(s, Derive(Eq), {}, ty)
    ensures Obstructed(s, Derive(Hash), {}, ty)
  {
    assert forall t :: Blocks(s, Derive(Eq), t) ==> Blocks(s, Derive(Hash), t);
    hide Blocks, Closed, Scoped;
    Stricter(s, Derive(Eq), Derive(Hash), ty);
  }

  /** What TypeScript accepts as a key Go accepts, and what Go accepts Rust does. */
  lemma KeysMonotone(s: Schema, ty: Type)
    requires Closed(s) && Scoped(s, ty)
    ensures Obstructed(s, KeyIn(Rust), {}, ty) ==> Obstructed(s, KeyIn(Go), {}, ty)
    ensures Obstructed(s, KeyIn(Go), {}, ty) ==> Obstructed(s, KeyIn(TypeScript), {}, ty)
  {
    assert forall t :: Blocks(s, KeyIn(Rust), t) ==> Blocks(s, KeyIn(Go), t);
    assert forall t :: Blocks(s, KeyIn(Go), t) ==> Blocks(s, KeyIn(TypeScript), t);
    hide Obstructed, Blocks, Closed, Scoped;
    if Obstructed(s, KeyIn(Rust), {}, ty) {
      Stricter(s, KeyIn(Rust), KeyIn(Go), ty);
    }
    if Obstructed(s, KeyIn(Go), {}, ty) {
      Stricter(s, KeyIn(Go), KeyIn(TypeScript), ty);
    }
  }
}
