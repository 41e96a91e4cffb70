/** The compiler's checker: no errors exactly for the schemas the back ends can work on. */
module Checker {
  import opened Wire
  import opened Schema
  import opened Containment

  datatype Kind = Field | Variant | ServiceMethod

  datatype KeyFault = Floats | Maps | Arrays | Structs | Messages | Unions | Services

  datatype CompileError =
    | DuplicateDefinition(name: string, count: nat)
    | DuplicateName(kind: Kind, name: string, owner: string)
    | ReservedIndex(owner: string)
    | DuplicateIndex(index: nat, owner: string)
    | UndefinedType(name: string)
    | ServiceAsType(name: string)
    | InvalidMapKey(fault: KeyFault, chain: seq<Type>)

  // ---------------------------------------------------------------- what is accepted

  predicate Distinct<T(==)>(s: seq<T>)
  {
    forall i, j :: 0 <= i < j < |s| ==> s[i] != s[j]
  }

  lemma DistinctSnoc<T>(s: seq<T>, x: T)
    ensures Distinct(s + [x]) <==> Distinct(s) && x !in s
  {
    var t := s + [x];
    if Distinct(t) {
      forall i | 0 <= i < |s| ensures s[i] != x {
        assert t[i] != t[|s|];
      }
      forall i, j | 0 <= i < j < |s| ensures s[i] != s[j] {
        assert t[i] != t[j];
      }
    }
  }

  function MemberNames(it: Item): (r: seq<string>)
  {
    match it
    case StructItem(_, fs) => seq(|fs|, i requires 0 <= i < |fs| => fs[i].name)
    case MessageItem(_, fs) => seq(|fs|, i requires 0 <= i < |fs| => fs[i].name)
    case EnumItem(_, vs) => seq(|vs|, i requires 0 <= i < |vs| => vs[i].name)
    case UnionItem(_, vs) => seq(|vs|, i requires 0 <= i < |vs| => vs[i].name)
    case ServiceItem(_, ms) => seq(|ms|, i requires 0 <= i < |ms| => ms[i].name)
  }

  function MemberIndices(it: Item): (r: seq<nat>)
  {
    match it
    case StructItem(_, fs) => []
    case MessageItem(_, fs) => seq(|fs|, i requires 0 <= i < |fs| => fs[i].index)
    case EnumItem(_, vs) => seq(|vs|, i requires 0 <= i < |vs| => vs[i].index)
    case UnionItem(_, vs) => seq(|vs|, i requires 0 <= i < |vs| => vs[i].index)
    case ServiceItem(_, ms) => seq(|ms|, i requires 0 <= i < |ms| => ms[i].index)
  }

  /** Every type an item mentions: those of its members, or of its requests and responses. */
  function Mentioned(it: Item): seq<Type>
  {
    if it.ServiceItem? then
      seq(|it.methods|, i requires 0 <= i < |it.methods| => it.methods[i].request) +
      seq(|it.methods|, i requires 0 <= i < |it.methods| => it.methods[i].response.ty)
    else Members(it)
  }

  /** No map anywhere in the type has a key the language cannot compare. */
  ghost predicate KeysAllowed(s: Schema, language: Language, ty: Type)
  {
    match ty
    case Array(t) => KeysAllowed(s, language, t)
    case Map(k, t) =>
      KeysAllowed(s, language, k) && KeysAllowed(s, language, t) && !Obstructed(s, KeyIn(language), {}, k)
    case _ => true
  }

  ghost predicate AcceptedItem(s: Schema, language: Language, it: Item)
  {
    Distinct(MemberNames(it)) && Distinct(MemberIndices(it)) && (!it.EnumItem? ==> 0 !in MemberIndices(it)) &&
    forall ty <- Mentioned(it) :: Scoped(s, ty) && KeysAllowed(s, language, ty)
  }

  function ItemNames(s: Schema): seq<string>
  {
    seq(|s|, i requires 0 <= i < |s| => s[i].name)
  }

  ghost predicate Accepted(s: Schema, language: Language)
  {
    Distinct(ItemNames(s)) && forall it <- s :: AcceptedItem(s, language, it)
  }

  /** What the back ends rely on: names resolve to types, indices identify members, items are found by name. */
  lemma AcceptedMeans(s: Schema, language: Language)
    requires Accepted(s, language)
    ensures Closed(s) && (forall it <- s :: Numbered(it) && Lookup(s, it.name) == Some(it))
    ensures (forall it <- s :: Inhabited(it)) && (exists rank :: Layered(s, rank)) ==> Compiles(s)
  {
    forall it <- s ensures ScopedItem(s, it) && Numbered(it) && Lookup(s, it.name) == Some(it) {
      assert AcceptedItem(s, language, it);
      hide Obstructed, KeysAllowed, Scoped;
      AcceptedScopes(s, it);
      AcceptedNumbers(it);
      hide Distinct;
      FoundByName(s, it);
    }
  }

  /** No two members of one name. */
  predicate NamedApart(it: Item)
  {
    match it
    case StructItem(_, fs) => forall i, j :: 0 <= i < j < |fs| ==> fs[i].name != fs[j].name
    case MessageItem(_, fs) => forall i, j :: 0 <= i < j < |fs| ==> fs[i].name != fs[j].name
    case EnumItem(_, vs) => forall i, j :: 0 <= i < j < |vs| ==> vs[i].name != vs[j].name
    case UnionItem(_, vs) => forall i, j :: 0 <= i < j < |vs| ==> vs[i].name != vs[j].name
    case ServiceItem(_, ms) => forall i, j :: 0 <= i < j < |ms| ==> ms[i].name != ms[j].name
  }

  /** All maps the item mentions have keys that can be compared. */
  ghost predicate KeysFit(s: Schema, language: Language, it: Item)
  {
    match it
    case StructItem(_, fs) => forall f <- fs :: KeysAllowed(s, language, f.ty)
    case MessageItem(_, fs) => forall f <- fs :: KeysAllowed(s, language, f.ty)
    case EnumItem(_, _) => true
    case UnionItem(_, vs) => forall v <- vs :: v.ty.Some? ==> KeysAllowed(s, language, v.ty.value)
    case ServiceItem(_, ms) =>
      forall m <- ms :: KeysAllowed(s, language, m.request) && KeysAllowed(s, language, m.response.ty)
  }

  /**
   * The accepted schemas, member by member: items of different names, whose members have different
   * names and indices, none of them a reserved 0, whose types resolve, and whose map keys can be
   * compared.
   */
  lemma AcceptedExactly(s: Schema, language: Language)
    ensures Accepted(s, language) <==>
      (forall i, j :: 0 <= i < j < |s| ==> s[i].name != s[j].name) &&
      forall it <- s :: NamedApart(it) && Numbered(it) && ScopedItem(s, it) && KeysFit(s, language, it)
  {
    hide AcceptedItem, NamedApart, Numbered, ScopedItem, KeysFit;
    var names := ItemNames(s);
    assert forall i :: 0 <= i < |s| ==> names[i] == s[i].name;
    forall it <- s
      ensures AcceptedItem(s, language, it) <==>
        NamedApart(it) && Numbered(it) && ScopedItem(s, it) && KeysFit(s, language, it)
    {
      AcceptedItemExactly(s, language, it);
    }
  }

  lemma AcceptedItemExactly(s: Schema, language: Language, it: Item)
    ensures AcceptedItem(s, language, it) <==>
      NamedApart(it) && Numbered(it) && ScopedItem(s, it) && KeysFit(s, language, it)
  {
    hide *;
    NamesApart(it);
    IndicesApart(it);
    MentionedExactly(s, language, it);
    AcceptedParts(s, language, it);
  }

  lemma AcceptedParts(s: Schema, language: Language, it: Item)
    ensures AcceptedItem(s, language, it) <==>
      Distinct(MemberNames(it)) && Distinct(MemberIndices(it)) && (!it.EnumItem? ==> 0 !in MemberIndices(it)) &&
      forall ty <- Mentioned(it) :: Scoped(s, ty) && KeysAllowed(s, language, ty)
  {
  }

  lemma MentionedExactly(s: Schema, language: Language, it: Item)
    ensures (forall ty <- Mentioned(it) :: Scoped(s, ty) && KeysAllowed(s, language, ty)) <==>
      ScopedItem(s, it) && KeysFit(s, language, it)
  {
    hide *;
    if forall ty <- Mentioned(it) :: Scoped(s, ty) && KeysAllowed(s, language, ty) {
      MentionedFits(s, language, it);
    }
    if ScopedItem(s, it) && KeysFit(s, language, it) {
      FitsMentioned(s, language, it);
    }
  }

  lemma MentionedFits(s: Schema, language: Language, it: Item)
    requires forall ty <- Mentioned(it) :: Scoped(s, ty) && KeysAllowed(s, language, ty)
    ensures ScopedItem(s, it) && KeysFit(s, language, it)
  {
    AcceptedScopes(s, it);
    hide Scoped, KeysAllowed, ScopedItem, Members;
    match it
    case StructItem(_, fs) =>
      forall f <- fs ensures KeysAllowed(s, language, f.ty) {
        MembersAreParts(it, f.ty);
      }
    case MessageItem(_, fs) =>
      forall f <- fs ensures KeysAllowed(s, language, f.ty) {
        MembersAreParts(it, f.ty);
      }
    case UnionItem(_, vs) =>
      forall v <- vs | v.ty.Some? ensures KeysAllowed(s, language, v.ty.value) {
        MembersAreParts(it, v.ty.value);
      }
    case EnumItem(_, _) =>
    case ServiceItem(_, ms) =>
      forall m <- ms ensures KeysAllowed(s, language, m.request) && KeysAllowed(s, language, m.response.ty) {
        var i :| 0 <= i < |ms| && ms[i] == m;
        assert Mentioned(it)[i] == m.request && Mentioned(it)[|ms| + i] == m.response.ty;
      }
  }

  lemma FitsMentioned(s: Schema, language: Language, it: Item)
    requires ScopedItem(s, it) && KeysFit(s, language, it)
    ensures forall ty <- Mentioned(it) :: Scoped(s, ty) && KeysAllowed(s, language, ty)
  {
    hide Scoped, KeysAllowed, Members;
    forall ty <- Mentioned(it) ensures Scoped(s, ty) && KeysAllowed(s, language, ty) {
      if it.ServiceItem? {
        var n, i :| n == |it.methods| && 0 <= i < |Mentioned(it)| && Mentioned(it)[i] == ty;
        var m := it.methods[if i < n then i else i - n];
        assert m in it.methods && (ty == m.request || ty == m.response.ty);
      } else {
        MembersAreParts(it, ty);
      }
    }
  }

  lemma NamesApart(it: Item)
    ensures NamedApart(it) <==> Distinct(MemberNames(it))
  {
    var names := MemberNames(it);
    match it
    case StructItem(_, fs) => assert forall i :: 0 <= i < |fs| ==> names[i] == fs[i].name;
    case MessageItem(_, fs) => assert forall i :: 0 <= i < |fs| ==> names[i] == fs[i].name;
    case EnumItem(_, vs) => assert forall i :: 0 <= i < |vs| ==> names[i] == vs[i].name;
    case UnionItem(_, vs) => assert forall i :: 0 <= i < |vs| ==> names[i] == vs[i].name;
    case ServiceItem(_, ms) => assert forall i :: 0 <= i < |ms| ==> names[i] == ms[i].name;
  }

  lemma IndicesApart(it: Item)
    ensures Numbered(it) <==> Distinct(MemberIndices(it)) && (!it.EnumItem? ==> 0 !in MemberIndices(it))
  {
    if Distinct(MemberIndices(it)) && (!it.EnumItem? ==> 0 !in MemberIndices(it)) {
      AcceptedNumbers(it);
    }
    if Numbered(it) {
      NumbersAccepted(it);
    }
  }

  lemma NumbersAccepted(it: Item)
    requires Numbered(it)
    ensures Distinct(MemberIndices(it)) && (!it.EnumItem? ==> 0 !in MemberIndices(it))
  {
  }

  /** The types written inside a type, itself included. */
  function Written(ty: Type): set<Type>
  {
    match ty
    case Array(t) => {ty} + Written(t)
    case Map(k, t) => {ty} + Written(k) + Written(t)
    case _ => {ty}
  }

  /** No map written anywhere in the type, in keys and values of maps too, has a key that is rejected. */
  lemma {:induction false} KeysAllowedMeans(s: Schema, language: Language, ty: Type)
    ensures KeysAllowed(s, language, ty) <==>
      forall t <- Written(ty) :: t.Map? ==> !Obstructed(s, KeyIn(language), {}, t.key)
  {
    hide Obstructed;
    match ty
    case Array(t) => KeysAllowedMeans(s, language, t);
    case Map(k, t) =>
      KeysAllowedMeans(s, language, k);
      KeysAllowedMeans(s, language, t);
    case _ =>
  }

  lemma AcceptedScopes(s: Schema, it: Item)
    requires forall ty <- Mentioned(it) :: Scoped(s, ty)
    ensures ScopedItem(s, it)
  {
    hide Scoped;
    match it
    case StructItem(_, fs) =>
      forall f <- fs ensures Scoped(s, f.ty) {
        var i :| 0 <= i < |fs| && fs[i] == f;
        assert Members(it)[i] == f.ty;
      }
    case MessageItem(_, fs) =>
      forall f <- fs ensures Scoped(s, f.ty) {
        var i :| 0 <= i < |fs| && fs[i] == f;
        assert Members(it)[i] == f.ty;
      }
    case ServiceItem(_, ms) =>
      forall m <- ms ensures Scoped(s, m.request) && Scoped(s, m.response.ty) {
        var i :| 0 <= i < |ms| && ms[i] == m;
        assert Mentioned(it)[i] == m.request && Mentioned(it)[|ms| + i] == m.response.ty;
      }
    case _ =>
  }

  lemma AcceptedNumbers(it: Item)
    requires Distinct(MemberIndices(it)) && (!it.EnumItem? ==> 0 !in MemberIndices(it))
    ensures Numbered(it)
  {
    var indices := MemberIndices(it);
    match it
    case StructItem(_, _) =>
    case MessageItem(_, fs) =>
      assert forall i :: 0 <= i < |fs| ==> fs[i].index == indices[i];
    case EnumItem(_, vs) =>
      assert forall i :: 0 <= i < |vs| ==> vs[i].index == indices[i];
    case UnionItem(_, vs) =>
      assert forall i :: 0 <= i < |vs| ==> vs[i].index == indices[i];
    case ServiceItem(_, ms) =>
      assert forall i :: 0 <= i < |ms| ==> ms[i].index == indices[i];
  }

  lemma {:induction false} FoundByName(s: Schema, it: Item)
    requires it in s && Distinct(ItemNames(s))
    ensures Lookup(s, it.name) == Some(it)
  {
    if s[0] != it {
      var i :| 0 <= i < |s| && s[i] == it;
      assert ItemNames(s)[0] != ItemNames(s)[i];
      assert ItemNames(s[1..]) == ItemNames(s)[1..];
      FoundByName(s[1..], it);
    }
  }

  lemma {:induction false} KeysAllowedMonotone(s: Schema, ty: Type)
    requires Closed(s) && Scoped(s, ty)
    ensures KeysAllowed(s, TypeScript, ty) ==> KeysAllowed(s, Go, ty)
    ensures KeysAllowed(s, Go, ty) ==> KeysAllowed(s, Rust, ty)
  {
    hide Closed, Obstructed;
    match ty
    case Array(t) => KeysAllowedMonotone(s, t);
    case Map(k, t) =>
      KeysAllowedMonotone(s, k);
      KeysAllowedMonotone(s, t);
      KeysMonotone(s, k);
    case _ =>
  }

  /** A schema accepted for TypeScript is accepted for Go, and one accepted for Go is accepted for Rust. */
  lemma AcceptedMonotone(s: Schema)
    ensures Accepted(s, TypeScript) ==> Accepted(s, Go)
    ensures Accepted(s, Go) ==> Accepted(s, Rust)
  {
    hide Closed, AcceptedItem, Numbered, Distinct, ItemNames;
    if Accepted(s, TypeScript) {
      AcceptedMeans(s, TypeScript);
      forall it <- s ensures AcceptedItem(s, Go, it) {
        ItemMonotone(s, TypeScript, Go, it);
      }
    }
    if Accepted(s, Go) {
      AcceptedMeans(s, Go);
      forall it <- s ensures AcceptedItem(s, Rust, it) {
        ItemMonotone(s, Go, Rust, it);
      }
    }
  }

  lemma ItemMonotone(s: Schema, strict: Language, loose: Language, it: Item)
    requires Closed(s) && AcceptedItem(s, strict, it)
    requires (strict == TypeScript && loose == Go) || (strict == Go && loose == Rust)
    ensures AcceptedItem(s, loose, it)
  {
    hide Closed, Distinct, MemberNames, MemberIndices, Mentioned, KeysAllowed, Scoped;
    forall ty <- Mentioned(it) ensures KeysAllowed(s, loose, ty) {
      KeysAllowedMonotone(s, ty);
    }
  }

  // ---------------------------------------------------------------- when the key validator ends

  /** The validator comes to the member only if it has found nothing wrong with those in front of it. */
  ghost predicate Reached(s: Schema, language: Language, members: seq<Type>, j: nat)
    requires j <= |members|
  {
    forall i :: 0 <= i < j ==> !Obstructed(s, KeyIn(language), {}, members[i])
  }

  /** The unguarded recursion of the validator, cut off where it would enter more than `depth` items in each other. */
  ghost predicate Finishes(s: Schema, language: Language, ty: Type, depth: nat)
    decreases depth, 1, ty
  {
    Blocks(s, KeyIn(language), ty) ||
    match ty
    case Array(t) => Finishes(s, language, t, depth)
    case Named(n) => Lookup(s, n).None? || MembersFinish(s, language, Members(Lookup(s, n).value), depth)
    case _ => true
  }

  ghost predicate MembersFinish(s: Schema, language: Language, members: seq<Type>, depth: nat)
    decreases depth, 0
  {
    members == [] ||
    (depth > 0 && forall j :: 0 <= j < |members| && Reached(s, language, members, j) ==>
      Finishes(s, language, members[j], depth - 1))
  }

  /** The validator ends on every map key in the type. */
  ghost predicate KeysFinish(s: Schema, language: Language, ty: Type)
  {
    match ty
    case Array(t) => KeysFinish(s, language, t)
    case Map(k, t) =>
      KeysFinish(s, language, k) && KeysFinish(s, language, t) && exists depth :: Finishes(s, language, k, depth)
    case _ => true
  }

  ghost predicate AllFinish(s: Schema, language: Language, types: seq<Type>)
  {
    forall ty <- types :: KeysFinish(s, language, ty)
  }

  ghost predicate CheckFinishes(s: Schema, language: Language)
  {
    forall it <- s :: AllFinish(s, language, Mentioned(it))
  }

  /** For TypeScript it always does: whatever has members is rejected on sight. */
  lemma TypeScriptFinishes(s: Schema)
    ensures CheckFinishes(s, TypeScript)
  {
    hide Mentioned, KeysFinish;
    forall it <- s, ty <- Mentioned(it) ensures KeysFinish(s, TypeScript, ty) {
      TypeScriptKeysFinish(s, ty);
    }
  }

  lemma {:induction false} TypeScriptKeysFinish(s: Schema, ty: Type)
    ensures KeysFinish(s, TypeScript, ty)
  {
    match ty
    case Array(t) => TypeScriptKeysFinish(s, t);
    case Map(k, t) =>
      TypeScriptKeysFinish(s, k);
      TypeScriptKeysFinish(s, t);
      TypeScriptAtOnce(s, k);
    case _ =>
  }

  lemma TypeScriptAtOnce(s: Schema, ty: Type)
    ensures Finishes(s, TypeScript, ty, 0)
  {
  }

  const LINK := StructField("next", Named("S"), true)
  const LINKED: Schema := [StructItem("S", [LINK])]

  /** For Rust and Go it does not end on a struct that may contain another of its kind. */
  lemma {:induction false} LinkedNeverEnds(language: Language, depth: nat)
    requires language != TypeScript
    ensures !Finishes(LINKED, language, Named("S"), depth)
    decreases depth
  {
    var members := Members(LINKED[0]);
    assert Lookup(LINKED, "S") == Some(LINKED[0]) && members == [Named("S")];
    assert Reached(LINKED, language, members, 0);
    if depth > 0 {
      LinkedNeverEnds(language, depth - 1);
    }
  }

  /** The item the validator enters for a key type, if any. */
  function Entered(s: Schema, language: Language, ty: Type): (r: Option<string>)
    ensures r.Some? ==> Lookup(s, r.value).Some? && !Blocks(s, KeyIn(language), Named(r.value))
  {
    if Blocks(s, KeyIn(language), ty) then None
    else
      match ty
      case Array(t) => Entered(s, language, t)
      case Named(n) => if Lookup(s, n).Some? && Members(Lookup(s, n).value) != [] then Some(n) else None
      case _ => None
  }

  predicate Below(s: Schema, language: Language, rank: map<string, nat>, ty: Type, limit: nat)
  {
    var n := Entered(s, language, ty);
    n.Some? ==> n.value in rank && rank[n.value] < limit
  }

  /** The members reached in a ranked item lead to items of lower rank only: there is no way back. */
  ghost predicate Descends(s: Schema, language: Language, rank: map<string, nat>)
  {
    forall n <- rank :: Lookup(s, n).Some? && !Blocks(s, KeyIn(language), Named(n)) ==>
      MembersBelow(s, language, rank, Members(Lookup(s, n).value), rank[n])
  }

  ghost predicate MembersBelow(s: Schema, language: Language, rank: map<string, nat>, members: seq<Type>, limit: nat)
  {
    forall j :: 0 <= j < |members| && Reached(s, language, members, j) ==> Below(s, language, rank, members[j], limit)
  }

  ghost predicate Acyclic(s: Schema, language: Language, rank: map<string, nat>, ty: Type)
  {
    Descends(s, language, rank) && (Entered(s, language, ty).Some? ==> Entered(s, language, ty).value in rank)
  }

  /** It ends on a type exactly if the items it enters from there can be put in layers. */
  lemma FinishesIff(s: Schema, language: Language, ty: Type)
    ensures (exists depth :: Finishes(s, language, ty, depth)) <==> (exists rank :: Acyclic(s, language, rank, ty))
  {
    hide Finishes, Descends, Entered;
    if depth: nat :| Finishes(s, language, ty, depth) {
      var rank := Depths(s, language);
      DepthsDescend(s, language);
      EnteredFinishes(s, language, ty, depth);
      if Entered(s, language, ty).Some? {
        DepthKnown(s, language, Entered(s, language, ty).value, depth);
      }
      assert Acyclic(s, language, rank, ty);
    }
    if rank :| Acyclic(s, language, rank, ty) {
      var n := Entered(s, language, ty);
      RankedFinishes(s, language, rank, ty, if n.Some? then rank[n.value] + 1 else 0);
    }
  }

  lemma {:induction false} RankedFinishes(s: Schema, language: Language, rank: map<string, nat>, ty: Type, depth: nat)
    requires Descends(s, language, rank) && Below(s, language, rank, ty, depth)
    ensures Finishes(s, language, ty, depth)
    decreases depth, ty
  {
    hide Blocks, Members, Reached;
    if !Blocks(s, KeyIn(language), ty) {
      match ty
      case Array(t) => RankedFinishes(s, language, rank, t, depth);
      case Named(n) =>
        if Lookup(s, n).Some? && Members(Lookup(s, n).value) != [] {
          var members := Members(Lookup(s, n).value);
          forall j | 0 <= j < |members| && Reached(s, language, members, j)
            ensures Finishes(s, language, members[j], depth - 1)
          {
            assert MembersBelow(s, language, rank, members, rank[n]);
            assert Below(s, language, rank, members[j], depth - 1);
            RankedFinishes(s, language, rank, members[j], depth - 1);
          }
        }
      case _ =>
    }
  }

  /** The least depth that is enough for an item. */
  ghost function Least(s: Schema, language: Language, n: string, depth: nat): (r: nat)
    requires Finishes(s, language, Named(n), depth)
    ensures Finishes(s, language, Named(n), r) && forall d: nat :: Finishes(s, language, Named(n), d) ==> r <= d
    decreases depth
  {
    hide Finishes;
    if exists d: nat :: d < depth && Finishes(s, language, Named(n), d) then
      var d: nat :| d < depth && Finishes(s, language, Named(n), d);
      Least(s, language, n, d)
    else depth
  }

  ghost predicate Ends(s: Schema, language: Language, n: string)
  {
    exists depth :: Finishes(s, language, Named(n), depth)
  }

  ghost function DepthOf(s: Schema, language: Language, n: string): (r: nat)
    requires Ends(s, language, n)
    ensures Finishes(s, language, Named(n), r) && forall d: nat :: Finishes(s, language, Named(n), d) ==> r <= d
  {
    hide Finishes;
    var depth: nat :| Finishes(s, language, Named(n), depth);
    Least(s, language, n, depth)
  }

  ghost function Depths(s: Schema, language: Language): map<string, nat>
  {
    map n | n in (set it <- s :: it.name) && Ends(s, language, n) :: DepthOf(s, language, n)
  }

  lemma DepthKnown(s: Schema, language: Language, n: string, depth: nat)
    requires Lookup(s, n).Some? && Finishes(s, language, Named(n), depth)
    ensures n in Depths(s, language) && Depths(s, language)[n] <= depth
  {
    hide Finishes;
    assert Lookup(s, n).value in s;
    assert Ends(s, language, n);
  }

  lemma {:induction false} EnteredFinishes(s: Schema, language: Language, ty: Type, depth: nat)
    requires Finishes(s, language, ty, depth)
    ensures var n := Entered(s, language, ty); n.Some? ==> Finishes(s, language, Named(n.value), depth)
    decreases ty
  {
    hide Blocks, Members, MembersFinish;
    if ty.Array? && !Blocks(s, KeyIn(language), ty) {
      EnteredFinishes(s, language, ty.elem, depth);
    }
  }

  lemma DepthsDescend(s: Schema, language: Language)
    ensures Descends(s, language, Depths(s, language))
  {
    hide Blocks, Members, Reached, Depths, Finishes, Entered;
    var rank := Depths(s, language);
    forall n <- rank | Lookup(s, n).Some? && !Blocks(s, KeyIn(language), Named(n))
      ensures MembersBelow(s, language, rank, Members(Lookup(s, n).value), rank[n])
    {
      var members := Members(Lookup(s, n).value);
      MembersFinishInside(s, language, n);
      forall j | 0 <= j < |members| && Reached(s, language, members, j)
        ensures Below(s, language, rank, members[j], rank[n])
      {
        EnteredFinishes(s, language, members[j], rank[n] - 1);
        var m := Entered(s, language, members[j]);
        if m.Some? {
          DepthKnown(s, language, m.value, rank[n] - 1);
        }
      }
    }
  }

  lemma MembersFinishInside(s: Schema, language: Language, n: string)
    requires n in Depths(s, language) && Lookup(s, n).Some? && !Blocks(s, KeyIn(language), Named(n))
    ensures MembersFinish(s, language, Members(Lookup(s, n).value), Depths(s, language)[n])
  {
    hide Blocks, Members, MembersFinish;
    assert Finishes(s, language, Named(n), DepthOf(s, language, n));
  }

  // ---------------------------------------------------------------- what can be compared

  /**
   * Keys by what they are made of: bools, integers, strings and enums for all three languages; in
   * Rust and Go also structs and messages of such parts, in Rust alone arrays and unions. A name
   * that resolves to nothing is left to the check of names. At most `depth` items in each other.
   */
  predicate Comparable(s: Schema, language: Language, ty: Type, depth: nat)
    decreases depth, ty
  {
    match ty
    case F32 => false
    case F64 => false
    case Map(_, _) => false
    case Array(t) => language == Rust && Comparable(s, language, t, depth)
    case Named(n) =>
      Lookup(s, n).None? ||
      (match Lookup(s, n).value
       case EnumItem(_, _) => true
       case StructItem(_, fs) =>
         language != TypeScript &&
         (fs == [] || (depth > 0 && forall f <- fs :: Comparable(s, language, f.ty, depth - 1)))
       case MessageItem(_, fs) =>
         language != TypeScript &&
         (fs == [] || (depth > 0 && forall f <- fs :: Comparable(s, language, f.ty, depth - 1)))
       case UnionItem(_, vs) =>
         language == Rust &&
         forall v <- vs :: v.ty.Some? ==> depth > 0 && Comparable(s, language, v.ty.value, depth - 1)
       case ServiceItem(_, _) => false)
    case _ => true
  }

  ghost predicate AllComparable(s: Schema, language: Language, members: seq<Type>, depth: nat)
  {
    members == [] || (depth > 0 && forall t <- members :: Comparable(s, language, t, depth - 1))
  }

  /** One level of it: not ruled out on sight, and all parts comparable. */
  lemma ComparableStep(s: Schema, language: Language, ty: Type, depth: nat)
    ensures Comparable(s, language, ty, depth) <==>
      !Blocks(s, KeyIn(language), ty) && (ty.Array? ==> Comparable(s, language, ty.elem, depth)) &&
      (ty.Named? && Lookup(s, ty.name).Some? ==>
        AllComparable(s, language, Members(Lookup(s, ty.name).value), depth))
  {
    if ty.Named? && Lookup(s, ty.name).Some? {
      MembersComparable(s, language, Lookup(s, ty.name).value, depth);
    }
  }

  lemma MembersComparable(s: Schema, language: Language, it: Item, depth: nat)
    ensures AllComparable(s, language, Members(it), depth) <==>
      match it
      case StructItem(_, fs) => fs == [] || (depth > 0 && forall f <- fs :: Comparable(s, language, f.ty, depth - 1))
      case MessageItem(_, fs) => fs == [] || (depth > 0 && forall f <- fs :: Comparable(s, language, f.ty, depth - 1))
      case UnionItem(_, vs) =>
        forall v <- vs :: v.ty.Some? ==> depth > 0 && Comparable(s, language, v.ty.value, depth - 1)
      case _ => true
  {
    hide Comparable, Members;
    var members := Members(it);
    match it
    case StructItem(_, fs) =>
      forall f <- fs ensures f.ty in members {
        MembersAreParts(it, f.ty);
      }
      forall t <- members ensures exists f <- fs :: f.ty == t {
        MembersAreParts(it, t);
      }
      assert members == [] <==> fs == [] by { SameLength(it); }
    case MessageItem(_, fs) =>
      forall f <- fs ensures f.ty in members {
        MembersAreParts(it, f.ty);
      }
      forall t <- members ensures exists f <- fs :: f.ty == t {
        MembersAreParts(it, t);
      }
      assert members == [] <==> fs == [] by { SameLength(it); }
    case UnionItem(_, vs) =>
      forall t ensures t in members <==> exists v <- vs :: v.ty == Some(t) {
        MembersAreParts(it, t);
      }
      if members != [] {
        assert members[0] in members;
      }
    case EnumItem(_, _) => SameLength(it);
    case ServiceItem(_, _) => SameLength(it);
  }

  lemma SameLength(it: Item)
    ensures !it.UnionItem? ==>
      |Members(it)| == if it.StructItem? then |it.sfields| else if it.MessageItem? then |it.mfields| else 0
  {
  }

  /** The validator's answer, wherever it ends: no reason exactly for the keys that are comparable. */
  lemma {:induction false} KeysMean(s: Schema, language: Language, ty: Type, depth: nat)
    requires Finishes(s, language, ty, depth)
    ensures !Obstructed(s, KeyIn(language), {}, ty) <==> Comparable(s, language, ty, depth)
    decreases depth, 1, ty
  {
    assert ty.Map? ==> Blocks(s, KeyIn(language), ty);
    hide Obstructed, Blocks, Comparable, Members, MembersFinish, AllComparable;
    ObstructedStep(s, KeyIn(language), {}, ty);
    ComparableStep(s, language, ty, depth);
    if !Blocks(s, KeyIn(language), ty) {
      match ty
      case Array(t) => KeysMean(s, language, t, depth);
      case Named(n) =>
        if Lookup(s, n).Some? {
          MembersMean(s, language, Members(Lookup(s, n).value), depth);
          assert Children(s, ty) == Members(Lookup(s, n).value);
        }
      case _ =>
    }
  }

  lemma {:induction false} MembersMean(s: Schema, language: Language, members: seq<Type>, depth: nat)
    requires MembersFinish(s, language, members, depth)
    ensures AllComparable(s, language, members, depth) <==>
      forall t <- members :: !Obstructed(s, KeyIn(language), {}, t)
    decreases depth, 0
  {
    hide Obstructed, Comparable, Finishes;
    for j := 0 to |members|
      invariant Reached(s, language, members, j)
      invariant forall i :: 0 <= i < j ==> Comparable(s, language, members[i], depth - 1)
    {
      KeysMean(s, language, members[j], depth - 1);
      if Obstructed(s, KeyIn(language), {}, members[j]) {
        assert members[j] in members;
        return;
      }
    }
  }

  /** For TypeScript there is nothing to end: exactly bools, integers, strings and enums. */
  lemma TypeScriptKeys(s: Schema, ty: Type)
    requires Scoped(s, ty)
    ensures !Obstructed(s, KeyIn(TypeScript), {}, ty) <==>
      ty in {Bool, U8, U16, U32, U64, I8, I16, I32, I64, Str} ||
      (ty.Named? && Lookup(s, ty.name).value.EnumItem?)
  {
    TypeScriptAtOnce(s, ty);
    hide Obstructed, Finishes;
    KeysMean(s, TypeScript, ty, 0);
  }

  // ---------------------------------------------------------------- the checker

  /** The labels of a key error, pushed from the offending type outwards. */
  class ErrorChain {
    var links: seq<Type>

    constructor ()
      ensures links == []
    {
      links := [];
    }

    method Push(ty: Type)
      modifies this
      ensures links == old(links) + [ty]
    {
      links := links + [ty];
    }
  }

  function Reversed(path: seq<Type>): (r: seq<Type>)
    ensures |r| == |path|
  {
    if path == [] then [] else Reversed(path[1..]) + [path[0]]
  }

  lemma ReversedSnoc(added: seq<Type>, ty: Type)
    ensures Reversed(added + [ty]) == [ty] + Reversed(added)
  {
    if added != [] {
      assert (added + [ty])[1..] == added[1..] + [ty];
      ReversedSnoc(added[1..], ty);
    }
  }

  /** The labels lead from `ty` down to a type that can never be part of a key. */
  ghost predicate Explains(s: Schema, language: Language, ty: Type, before: seq<Type>, after: seq<Type>)
  {
    before <= after && Obstacle(s, KeyIn(language), {}, ty, Reversed(after[|before|..]))
  }

  /** What the fault says of the type it was found at. */
  predicate FaultOf(s: Schema, language: Language, fault: KeyFault, ty: Type)
  {
    match fault
    case Floats => ty.F32? || ty.F64?
    case Maps => ty.Map?
    case Arrays => ty.Array? && language != Rust
    case Structs => language == TypeScript && IsItem(s, ty, (it: Item) => it.StructItem?)
    case Messages => language == TypeScript && IsItem(s, ty, (it: Item) => it.MessageItem?)
    case Unions => language != Rust && IsItem(s, ty, (it: Item) => it.UnionItem?)
    case Services => IsItem(s, ty, (it: Item) => it.ServiceItem?)
  }

  /** The first label is at a type with the fault. */
  predicate FoundAt(s: Schema, language: Language, fault: KeyFault, before: seq<Type>, after: seq<Type>)
  {
    |before| < |after| && FaultOf(s, language, fault, after[|before|])
  }

  lemma ExplainsLeaf(s: Schema, language: Language, ty: Type, before: seq<Type>)
    requires Blocks(s, KeyIn(language), ty)
    ensures Explains(s, language, ty, before, before + [ty]) && Obstructed(s, KeyIn(language), {}, ty)
  {
    hide Blocks;
    assert (before + [ty])[|before|..] == [ty];
    assert Obstacle(s, KeyIn(language), {}, ty, [ty]);
  }

  lemma ExplainsParent(s: Schema, language: Language, ty: Type, child: Type, before: seq<Type>, after: seq<Type>)
    requires child in Children(s, ty) && Explains(s, language, child, before, after)
    ensures Explains(s, language, ty, before, after + [ty]) && Obstructed(s, KeyIn(language), {}, ty)
  {
    hide Blocks, Children;
    var added := after[|before|..];
    assert (after + [ty])[|before|..] == added + [ty];
    ReversedSnoc(added, ty);
    assert Obstacle(s, KeyIn(language), {}, ty, [ty] + Reversed(added));
  }

  lemma NoObstacle(s: Schema, language: Language, ty: Type)
    requires !Blocks(s, KeyIn(language), ty)
    requires forall child <- Children(s, ty) :: !Obstructed(s, KeyIn(language), {}, child)
    ensures !Obstructed(s, KeyIn(language), {}, ty)
  {
    hide Blocks, Children;
    ObstructedStep(s, KeyIn(language), {}, ty);
  }

  function KindOf(it: Item): Kind
  {
    match it
    case StructItem(_, _) => Field
    case MessageItem(_, _) => Field
    case EnumItem(_, _) => Variant
    case UnionItem(_, _) => Variant
    case ServiceItem(_, _) => ServiceMethod
  }

  predicate Repeats<T(==)>(s: seq<T>, x: T)
  {
    exists i, j :: 0 <= i < j < |s| && s[i] == x && s[j] == x
  }

  lemma RepeatsSnoc<T>(s: seq<T>, x: T)
    ensures x in s ==> Repeats(s + [x], x)
  {
    if x in s {
      var i :| 0 <= i < |s| && s[i] == x;
      assert (s + [x])[i] == x && (s + [x])[|s|] == x;
    }
  }

  lemma RepeatsLonger<T>(s: seq<T>, n: nat, x: T)
    requires n <= |s| && Repeats(s[..n], x)
    ensures Repeats(s, x)
  {
    var i, j :| 0 <= i < j < |s[..n]| && s[..n][i] == x && s[..n][j] == x;
    assert s[i] == x && s[j] == x;
  }

  /** What an error says is so: of the schema, the item of that name, or the key that the labels lead from. */
  ghost predicate Justified(s: Schema, language: Language, e: CompileError)
  {
    match e
    case DuplicateDefinition(name, count) => count > 1 && count == |Homonyms(s, name)|
    case DuplicateName(kind, name, owner) =>
      exists it <- s :: it.name == owner && KindOf(it) == kind && Repeats(MemberNames(it), name)
    case ReservedIndex(owner) => exists it <- s :: it.name == owner && !it.EnumItem? && 0 in MemberIndices(it)
    case DuplicateIndex(index, owner) => exists it <- s :: it.name == owner && Repeats(MemberIndices(it), index)
    case UndefinedType(name) => Lookup(s, name).None?
    case ServiceAsType(name) => Lookup(s, name).Some? && Lookup(s, name).value.ServiceItem?
    case InvalidMapKey(fault, chain) =>
      FoundAt(s, language, fault, [], chain) && exists key :: Explains(s, language, key, [], chain)
  }

  class Checker {
    const schema: Schema
    const language: Language
    var errors: seq<CompileError>

    constructor (schema: Schema, language: Language)
      ensures this.schema == schema && this.language == language && errors == []
    {
      this.schema, this.language := schema, language;
      errors := [];
    }

    method Report(e: CompileError)
      modifies this
      ensures errors == old(errors) + [e]
    {
      errors := errors + [e];
    }

    /** Errors only ever get appended, and each says what is so. */
    twostate predicate Grown()
      reads this
    {
      old(errors) <= errors &&
      forall i :: |old(errors)| <= i < |errors| ==> Justified(schema, language, errors[i])
    }

    /** None is exactly when the condition holds. */
    twostate predicate Verdict(ok: bool)
      reads this
    {
      Grown() && (errors == old(errors) <==> ok)
    }

    // -------------------------------------------------------------- map keys

    /**
     * The reason why a type cannot be a key, or nothing. The labels left in `chain` are a way from
     * the type to something that cannot be compared; without a reason there are no labels.
     */
    method ValidateMapKeyType(ty: Type, chain: ErrorChain, ghost depth: nat) returns (reason: Option<KeyFault>)
      requires Finishes(schema, language, ty, depth)
      modifies chain
      ensures reason.None? <==> !Obstructed(schema, KeyIn(language), {}, ty)
      ensures reason.None? ==> chain.links == old(chain.links)
      ensures reason.Some? ==> Explains(schema, language, ty, old(chain.links), chain.links)
      ensures reason.Some? ==> FoundAt(schema, language, reason.value, old(chain.links), chain.links)
      decreases depth, 1, ty
    {
      hide Obstructed, Explains, MembersFinish;
      ghost var before := chain.links;
      var fault := LeafFault(ty);
      if fault.Some? {
        chain.Push(ty);
        ExplainsLeaf(schema, language, ty, before);
        return fault;
      }
      match ty
      case Array(inner) =>
        reason := ValidateMapKeyType(inner, chain, depth);
        if reason.Some? {
          ExplainsParent(schema, language, ty, inner, before, chain.links);
          chain.Push(ty);
          return;
        }
        NoObstacle(schema, language, ty);
      case Named(name) =>
        if Lookup(schema, name).None? {
          NoObstacle(schema, language, ty);
          return None;
        }
        reason := ValidateItemAsMapKey(Lookup(schema, name).value, name, chain, depth);
      case _ =>
        NoObstacle(schema, language, ty);
        return None;
    }

    /** The types rejected on sight: floats and maps everywhere, services, and what Go or TypeScript cannot compare. */
    method LeafFault(ty: Type) returns (fault: Option<KeyFault>)
      ensures fault.Some? <==> Blocks(schema, KeyIn(language), ty)
      ensures fault.Some? ==> FaultOf(schema, language, fault.value, ty)
    {
      match ty
      case F32 => fault := Some(Floats);
      case F64 => fault := Some(Floats);
      case Map(_, _) => fault := Some(Maps);
      case Array(_) => fault := if language == Rust then None else Some(Arrays);
      case Named(name) =>
        fault := None;
        if Lookup(schema, name).Some? {
          match Lookup(schema, name).value
          case EnumItem(_, _) =>
          case StructItem(_, _) =>
            if language == TypeScript {
              fault := Some(Structs);
            }
          case MessageItem(_, _) =>
            if language == TypeScript {
              fault := Some(Messages);
            }
          case UnionItem(_, _) =>
            if language != Rust {
              fault := Some(Unions);
            }
          case ServiceItem(_, _) => fault := Some(Services);
        }
      case _ => fault := None;
    }

    /** All fields or payloads in turn, up to the first invalid one. */
    method ValidateItemAsMapKey(it: Item, name: string, chain: ErrorChain, ghost depth: nat)
      returns (reason: Option<KeyFault>)
      requires MembersFinish(schema, language, Members(it), depth) && Lookup(schema, name) == Some(it)
      requires !Blocks(schema, KeyIn(language), Named(name))
      modifies chain
      ensures reason.None? <==> !Obstructed(schema, KeyIn(language), {}, Named(name))
      ensures reason.None? ==> chain.links == old(chain.links)
      ensures reason.Some? ==> Explains(schema, language, Named(name), old(chain.links), chain.links)
      ensures reason.Some? ==> FoundAt(schema, language, reason.value, old(chain.links), chain.links)
      decreases depth, 0
    {
      hide Obstructed, Explains, Members, Blocks, Finishes;
      var members := Members(it);
      assert Children(schema, Named(name)) == members;
      for i := 0 to |members|
        invariant chain.links == old(chain.links)
        invariant forall j :: 0 <= j < i ==> !Obstructed(schema, KeyIn(language), {}, members[j])
      {
        assert Reached(schema, language, members, i);
        reason := ValidateMapKeyType(members[i], chain, depth - 1);
        if reason.Some? {
          ExplainsParent(schema, language, Named(name), members[i], old(chain.links), chain.links);
          chain.Push(Named(name));
          return;
        }
      }
      NoObstacle(schema, language, Named(name));
      return None;
    }

    method CheckMapKeyType(key: Type)
      requires exists depth :: Finishes(schema, language, key, depth)
      modifies this
      ensures Verdict(!Obstructed(schema, KeyIn(language), {}, key))
    {
      hide Finishes, Obstructed;
      ghost var depth: nat :| Finishes(schema, language, key, depth);
      var chain := new ErrorChain();
      var reason := ValidateMapKeyType(key, chain, depth);
      if reason.Some? {
        Report(InvalidMapKey(reason.value, chain.links));
      }
    }

    // -------------------------------------------------------------- types

    method CheckType(ty: Type)
      requires KeysFinish(schema, language, ty)
      modifies this
      ensures Verdict(Scoped(schema, ty) && KeysAllowed(schema, language, ty))
      decreases ty
    {
      hide Finishes, Obstructed;
      match ty
      case Named(name) =>
        if Lookup(schema, name).None? {
          Report(UndefinedType(name));
        } else if Lookup(schema, name).value.ServiceItem? {
          Report(ServiceAsType(name));
        }
      case Array(inner) => CheckType(inner);
      case Map(key, value) =>
        CheckType(key);
        CheckType(value);
        CheckMapKeyType(key);
      case _ =>
    }

    method CheckTypes(types: seq<Type>)
      requires AllFinish(schema, language, types)
      modifies this
      ensures Verdict(forall ty <- types :: Scoped(schema, ty) && KeysAllowed(schema, language, ty))
    {
      hide KeysFinish, KeysAllowed, Scoped, Justified;
      for i := 0 to |types|
        invariant Grown()
        invariant errors == old(errors) <==>
          forall j :: 0 <= j < i ==> Scoped(schema, types[j]) && KeysAllowed(schema, language, types[j])
      {
        CheckType(types[i]);
      }
    }

    // -------------------------------------------------------------- names and indices

    method CheckNames(kind: Kind, names: seq<string>, owner: string, ghost it: Item)
      requires it in schema && owner == it.name && kind == KindOf(it) && names == MemberNames(it)
      modifies this
      ensures Verdict(Distinct(names))
    {
      hide Distinct, Repeats, MemberNames, KindOf;
      var seen: set<string> := {};
      assert Distinct<string>([]) by { Trivially(); }
      for i := 0 to |names|
        invariant seen == (set n <- names[..i])
        invariant Grown() && (errors == old(errors) <==> Distinct(names[..i]))
      {
        assert names[..i + 1] == names[..i] + [names[i]];
        DistinctSnoc(names[..i], names[i]);
        if names[i] in seen {
          RepeatsSnoc(names[..i], names[i]);
          RepeatsLonger(names, i + 1, names[i]);
          Report(DuplicateName(kind, names[i], owner));
        } else {
          seen := seen + {names[i]};
        }
      }
      assert names[..|names|] == names;
    }

    lemma Trivially()
      ensures Distinct<string>([]) && Distinct<nat>([])
    {
    }

    /** Index 0 ends a message on the wire, so it is reserved wherever an index becomes a tag. */
    method CheckIndices(indices: seq<nat>, zeroReserved: bool, owner: string, ghost it: Item)
      requires it in schema && owner == it.name && zeroReserved == !it.EnumItem? && indices == MemberIndices(it)
      modifies this
      ensures Verdict(Distinct(indices) && (zeroReserved ==> 0 !in indices))
    {
      hide Distinct, Repeats, MemberIndices;
      var seen: set<nat> := {};
      Trivially();
      for i := 0 to |indices|
        invariant seen == (set n <- indices[..i])
        invariant Grown()
        invariant errors == old(errors) <==> Distinct(indices[..i]) && (zeroReserved ==> 0 !in indices[..i])
      {
        assert indices[..i + 1] == indices[..i] + [indices[i]];
        DistinctSnoc(indices[..i], indices[i]);
        if zeroReserved && indices[i] == 0 {
          Report(ReservedIndex(owner));
        }
        if indices[i] in seen {
          RepeatsSnoc(indices[..i], indices[i]);
          RepeatsLonger(indices, i + 1, indices[i]);
          Report(DuplicateIndex(indices[i], owner));
        } else {
          seen := seen + {indices[i]};
        }
      }
      assert indices[..|indices|] == indices;
    }

    // -------------------------------------------------------------- items

    /** The checks of one struct, message, enum, union or service. */
    method CheckItem(it: Item)
      requires it in schema && AllFinish(schema, language, Mentioned(it))
      modifies this
      ensures Verdict(AcceptedItem(schema, language, it))
    {
      hide AllFinish, Distinct, Scoped, KeysAllowed, MemberNames, Mentioned, MemberIndices, Justified, KindOf;
      CheckNames(KindOf(it), MemberNames(it), it.name, it);
      CheckIndices(MemberIndices(it), !it.EnumItem?, it.name, it);
      CheckTypes(Mentioned(it));
    }

    method CheckDuplicateDefinitions()
      modifies this
      ensures Verdict(Distinct(ItemNames(schema)))
    {
      hide Distinct, Homonyms;
      NoHomonyms([], "");
      var definitions: map<string, seq<Item>> := map[];
      for i := 0 to |schema|
        invariant errors == old(errors)
        invariant definitions.Keys == (set it <- schema[..i] :: it.name)
        invariant forall n <- definitions :: definitions[n] == Homonyms(schema[..i], n)
      {
        assert schema[..i + 1] == schema[..i] + [schema[i]];
        var name := schema[i].name;
        forall n
          ensures Homonyms(schema[..i + 1], n) == Homonyms(schema[..i], n) + if n == name then [schema[i]] else []
        {
          HomonymsSnoc(schema[..i], schema[i], n);
        }
        if name !in definitions {
          NoHomonyms(schema[..i], name);
        }
        definitions := definitions[name := (if name in definitions then definitions[name] else []) + [schema[i]]];
      }
      assert schema[..|schema|] == schema;
      var left := definitions.Keys;
      while left != {}
        invariant left <= definitions.Keys
        invariant Grown()
        invariant errors == old(errors) <==> forall n <- definitions.Keys - left :: |definitions[n]| <= 1
      {
        var name :| name in left;
        left := left - {name};
        if |definitions[name]| > 1 {
          Report(DuplicateDefinition(name, |definitions[name]|));
        }
      }
      HomonymsDistinct(schema);
      forall n ensures n !in definitions ==> Homonyms(schema, n) == [] {
        NoHomonyms(schema, n);
      }
    }

    /** Whenever the key validator ends: no errors if and only if the schema is accepted, and none that is not so. */
    method Check()
      requires errors == [] && CheckFinishes(schema, language)
      modifies this
      ensures errors == [] <==> Accepted(schema, language)
      ensures forall e <- errors :: Justified(schema, language, e)
    {
      hide Distinct, AcceptedItem, AllFinish, Justified;
      CheckDuplicateDefinitions();
      ghost var first := errors;
      for i := 0 to |schema|
        invariant first <= errors && Grown()
        invariant errors == first <==> forall j :: 0 <= j < i ==> AcceptedItem(schema, language, schema[j])
      {
        CheckItem(schema[i]);
      }
    }
  }

  /** The items of one name, in order. */
  function Homonyms(s: Schema, n: string): seq<Item>
  {
    if s == [] then [] else (if s[0].name == n then [s[0]] else []) + Homonyms(s[1..], n)
  }

  lemma {:induction false} HomonymsSnoc(s: Schema, it: Item, n: string)
    ensures Homonyms(s + [it], n) == Homonyms(s, n) + if n == it.name then [it] else []
  {
    if s != [] {
      assert (s + [it])[1..] == s[1..] + [it];
      HomonymsSnoc(s[1..], it, n);
    }
  }

  lemma {:induction false} NoHomonyms(s: Schema, n: string)
    ensures Homonyms(s, n) == [] <==> forall it <- s :: it.name != n
  {
    if s != [] {
      NoHomonyms(s[1..], n);
    }
  }

  ghost predicate AllSingle(s: Schema)
  {
    forall n :: |Homonyms(s, n)| <= 1
  }

  lemma {:induction false} HomonymsDistinct(s: Schema)
    ensures Distinct(ItemNames(s)) <==> AllSingle(s)
  {
    hide Distinct;
    if s == [] {
      assert Distinct(ItemNames(s)) by { NoneTwice(ItemNames(s)); }
    } else {
      var more, name := s[1..], s[0].name;
      HomonymsDistinct(more);
      assert ItemNames(s) == [name] + ItemNames(more);
      DistinctCons(name, ItemNames(more));
      NamedAmong(more, name);
      NoHomonyms(more, name);
      if AllSingle(s) {
        assert |Homonyms(s, name)| == 1 + |Homonyms(more, name)|;
        forall n ensures |Homonyms(more, n)| <= 1 {
          assert |Homonyms(s, n)| <= 1;
        }
      }
      if AllSingle(more) && Homonyms(more, name) == [] {
        forall n ensures |Homonyms(s, n)| <= 1 {
          assert |Homonyms(more, n)| <= 1;
        }
      }
    }
  }

  lemma NoneTwice(names: seq<string>)
    requires names == []
    ensures Distinct(names)
  {
  }

  lemma NamedAmong(s: Schema, n: string)
    ensures n in ItemNames(s) <==> exists it <- s :: it.name == n
  {
    if n in ItemNames(s) {
      var i :| 0 <= i < |s| && ItemNames(s)[i] == n;
      assert s[i] in s;
    }
    forall it <- s | it.name == n ensures n in ItemNames(s) {
      var i :| 0 <= i < |s| && s[i] == it;
      assert ItemNames(s)[i] == n;
    }
  }

  lemma DistinctCons<T>(x: T, s: seq<T>)
    ensures Distinct([x] + s) <==> Distinct(s) && x !in s
  {
    var t := [x] + s;
    if Distinct(t) {
      forall i | 0 <= i < |s| ensures s[i] != x {
        assert t[i + 1] != t[0];
      }
      forall i, j | 0 <= i < j < |s| ensures s[i] != s[j] {
        assert t[i + 1] != t[j + 1];
      }
    }
  }
}
