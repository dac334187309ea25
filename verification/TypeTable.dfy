/**
 The debug information's type table: definitions by id, forward declarations pointed at the best definition of their
 name, and what a type resolves to, strips to and measures.
 */
module TypeTable {
  import opened Common

  type TypeId = nat

  const INVALID: TypeId := 0xffff_ffff

  datatype Member = Member(name: string, offset: nat, typeId: TypeId, bitOffset: Option<nat>, bitSize: Option<nat>)

  datatype Variant = Variant(discriminant: Option<nat>, member: Member)

  /** Layout of an enum with data: its tag, when it has one, and its variants. */
  datatype VariantPart = VariantPart(tag: Option<Member>, variants: seq<Variant>)

  datatype StructDef = StructDef(name: Option<string>, size: nat, members: seq<Member>, bases: seq<TypeId>,
                                 variantPart: Option<VariantPart>)

  datatype ForwardKind = StructKind | ClassKind | UnionKind | EnumKind

  /** `Pointer` stands for references too, `Alias` for typedefs and the const, volatile and restrict qualifiers. */
  datatype TypeDef = Primitive(name: string, size: nat)
                   | Pointer(to: TypeId)
                   | Array(element: TypeId, count: Option<nat>)
                   | Struct(def: StructDef)
                   | Union(def: StructDef)
                   | Enum(enumName: Option<string>, size: nat, values: nat)
                   | Alias(aliasName: Option<string>, inner: TypeId)
                   | Subroutine
                   | Void
                   | Unknown(size: nat)
                   | ForwardDecl(name: string, kind: ForwardKind, target: Option<TypeId>)
                   | Placeholder

  // ----- the finished table -----

  /**
   `rank` orders the types so that what a size is computed from ranks lower; a table without one has no finite sizes.
   */
  datatype RawTable = RawTable(types: seq<TypeDef>, rank: seq<nat>)

  predicate Below(t: RawTable, inner: TypeId, outer: TypeId)
    requires |t.rank| == |t.types| && outer < |t.types|
  {
    inner < |t.types| ==> t.rank[inner] < t.rank[outer]
  }

  /** The types `id`'s size is computed from. */
  function SizedFrom(def: TypeDef): Option<TypeId> {
    match def
    case Array(element, _) => Some(element)
    case Alias(_, inner) => Some(inner)
    case ForwardDecl(_, _, target) => target
    case _ => None
  }

  predicate RanksFall(t: RawTable, id: TypeId)
    requires |t.rank| == |t.types| && id < |t.types|
  {
    SizedFrom(t.types[id]).Some? ==> Below(t, SizedFrom(t.types[id]).value, id)
  }

  ghost predicate Grounded(t: RawTable) {
    |t.rank| == |t.types| && forall id :: 0 <= id < |t.types| ==> RanksFall(t, id)
  }

  type Table = t: RawTable | Grounded(t) witness RawTable([], [])

  function Get(t: Table, id: TypeId): Option<TypeDef> {
    if id == INVALID || id >= |t.types| then None else Some(t.types[id])
  }

  function Rank(t: Table, id: TypeId): nat {
    if id < |t.types| then t.rank[id] + 1 else 0
  }

  /** The definition behind any forward declarations. */
  function Resolve(t: Table, id: TypeId): (r: TypeId)
    ensures Get(t, r).Some? && Get(t, r).value.ForwardDecl? ==> Get(t, r).value.target.None?
    ensures Rank(t, r) <= Rank(t, id)
    decreases Rank(t, id)
  {
    match Get(t, id)
    case Some(ForwardDecl(_, _, Some(target))) =>
      assert RanksFall(t, id);
      Resolve(t, target)
    case _ => id
  }

  /** How many bytes a type takes, when that is known. */
  function TypeSize(t: Table, id: TypeId): Option<nat>
    decreases Rank(t, id)
  {
    var resolved := Resolve(t, id);
    match Get(t, resolved)
    case None => None
    case Some(def) =>
      assert RanksFall(t, resolved);
      match def
      case Primitive(_, size) => Some(size)
      case Pointer(_) => Some(4)
      case Array(element, count) =>
        var each := TypeSize(t, element);
        if each.None? then None else Some(each.value * if count.Some? then count.value else 0)
      case Struct(s) => Some(s.size)
      case Union(s) => Some(s.size)
      case Enum(_, size, _) => Some(size)
      case Alias(_, inner) => TypeSize(t, inner)
      case Subroutine => Some(4)
      case Void => Some(0)
      case Unknown(size) => Some(size)
      case ForwardDecl(_, _, _) => None
      case Placeholder => None
  }

  /** Deepest a chain of aliases is followed. */
  const MAX_ALIASES := 20

  function UnderlyingFrom(t: Table, id: TypeId, depth: nat): TypeId
    decreases MAX_ALIASES + 1 - depth, t
  {
    if depth > MAX_ALIASES then id else
    var resolved := Resolve(t, id);
    match Get(t, resolved)
    case Some(Alias(_, inner)) => UnderlyingFrom(t, inner, depth + 1)
    case _ => resolved
  }

  /** The type behind forward declarations and aliases. */
  function Underlying(t: Table, id: TypeId): TypeId {
    UnderlyingFrom(t, id, 0)
  }

  /** Addresses are four bytes, elements lie end to end, and nothing is the size of what is only declared. */
  lemma SizesInBytes(t: Table, id: TypeId)
    ensures match Get(t, Resolve(t, id))
            case Some(Pointer(_)) => TypeSize(t, id) == Some(4)
            case Some(Subroutine) => TypeSize(t, id) == Some(4)
            case Some(Void) => TypeSize(t, id) == Some(0)
            case Some(Array(element, Some(count))) =>
              && (TypeSize(t, element).None? ==> TypeSize(t, id).None?)
              && (TypeSize(t, element).Some? ==> TypeSize(t, id) == Some(Tiled(TypeSize(t, element).value, count)))
            case Some(Array(element, None)) =>
              TypeSize(t, id) == if TypeSize(t, element).Some? then Some(0) else None
            case Some(ForwardDecl(_, _, _)) => TypeSize(t, id) == None
            case None => TypeSize(t, id) == None
            case _ => true
  {
    match Get(t, Resolve(t, id))
    case Some(Array(element, Some(count))) =>
      if TypeSize(t, element).Some? {
        TiledIs(TypeSize(t, element).value, count);
      }
    case _ =>
  }

  /** `count` elements of `each` bytes, one behind the other. */
  function Tiled(each: nat, count: nat): nat {
    if count == 0 then 0 else Tiled(each, count - 1) + each
  }

  lemma {:induction false} TiledIs(each: nat, count: nat)
    ensures Tiled(each, count) == each * count
  {
    if count > 0 {
      TiledIs(each, count - 1);
    }
  }

  /** `chain` are aliases, each of the next, down to a type that is neither an alias nor a declaration. */
  ghost predicate Aliases(t: Table, chain: seq<TypeId>) {
    && chain != []
    && (forall k :: 0 <= k < |chain| - 1 ==>
          Get(t, chain[k]).Some? && Get(t, chain[k]).value.Alias? && Get(t, chain[k]).value.inner == chain[k + 1])
    && Get(t, chain[|chain| - 1]).Some?
    && !Get(t, chain[|chain| - 1]).value.Alias? && !Get(t, chain[|chain| - 1]).value.ForwardDecl?
  }

  lemma {:induction false} AliasesFrom(t: Table, chain: seq<TypeId>, k: nat)
    requires Aliases(t, chain) && k < |chain| && k <= 21
    ensures UnderlyingFrom(t, chain[k], k) == chain[Min(|chain| - 1, 21)]
    decreases 21 - k
  {
    if k < |chain| - 1 && k < 21 {
      AliasesFrom(t, chain, k + 1);
    }
  }

  /** Twenty-one aliases in a row are stripped, and no more. */
  lemma AliasesAreStripped(t: Table, chain: seq<TypeId>)
    requires Aliases(t, chain)
    ensures Underlying(t, chain[0]) == chain[Min(|chain| - 1, 21)]
  {
    AliasesFrom(t, chain, 0);
  }

  lemma ResolveTwice(t: Table, id: TypeId)
    ensures Resolve(t, Resolve(t, id)) == Resolve(t, id)
  {
  }

  /** Stripping aliases, as far as they are followed, keeps the size. */
  lemma {:induction false} UnderlyingKeepsSize(t: Table, id: TypeId, depth: nat)
    ensures TypeSize(t, UnderlyingFrom(t, id, depth)) == TypeSize(t, id)
    decreases MAX_ALIASES + 1 - depth
  {
    if depth <= MAX_ALIASES {
      ResolveTwice(t, id);
      match Get(t, Resolve(t, id))
      case Some(Alias(_, inner)) => UnderlyingKeepsSize(t, inner, depth + 1);
      case _ =>
    }
  }

  // ----- building the table -----

  function NameOf(def: TypeDef): Option<string> {
    match def
    case Struct(s) => s.name
    case Union(s) => s.name
    case Enum(name, _, _) => name
    case Alias(name, _) => name
    case ForwardDecl(name, _, _) => Some(name)
    case Primitive(name, _) => Some(name)
    case _ => None
  }

  /** How much of a definition of kind `kind` a type is: its members, or none when it is something else. */
  function Weight(def: TypeDef, kind: ForwardKind): Option<nat> {
    match (kind, def)
    case (StructKind, Struct(s)) => Some(|s.members|)
    case (ClassKind, Struct(s)) => Some(|s.members|)
    case (UnionKind, Union(s)) => Some(|s.members|)
    case (EnumKind, Enum(_, _, values)) => Some(values)
    case _ => None
  }

  /** `id` is a definition, not a forward declaration, called `name`. */
  predicate Lists(types: seq<TypeDef>, name: string, id: TypeId) {
    id < |types| && !types[id].ForwardDecl? && NameOf(types[id]) == Some(name)
  }

  predicate InList(byName: map<string, seq<TypeId>>, name: string, id: TypeId) {
    name in byName && id in byName[name]
  }

  /** Names list exactly the definitions that carry them. */
  ghost predicate Listing(types: seq<TypeDef>, byName: map<string, seq<TypeId>>) {
    forall name, id :: InList(byName, name, id) <==> Lists(types, name, id)
  }

  predicate IsOpen(def: TypeDef) {
    def.ForwardDecl? && def.target.None?
  }

  /** Every open forward declaration waits to be resolved. */
  ghost predicate Waiting(types: seq<TypeDef>, pending: seq<TypeId>) {
    && (forall id :: 0 <= id < |types| && IsOpen(types[id]) ==> id in pending)
    && (forall k :: 0 <= k < |pending| ==> pending[k] < |types|)
  }

  /** `target` is a definition of the name and kind that `def` declares. */
  predicate Defines(types: seq<TypeDef>, def: TypeDef, target: TypeId)
    requires def.ForwardDecl?
  {
    Lists(types, def.name, target) && Weight(types[target], def.kind).Some?
  }

  /** A closed forward declaration points straight at a definition of its name and kind. */
  ghost predicate Pointing(types: seq<TypeDef>) {
    forall id :: 0 <= id < |types| && types[id].ForwardDecl? && types[id].target.Some? ==>
      Defines(types, types[id], types[id].target.value)
  }

  function Named(byName: map<string, seq<TypeId>>, name: string, id: TypeId): map<string, seq<TypeId>> {
    byName[name := (if name in byName then byName[name] else []) + [id]]
  }

  lemma ListingWith(types: seq<TypeDef>, byName: map<string, seq<TypeId>>, id: TypeId, def: TypeDef)
    requires Listing(types, byName) && id < |types| && types[id].Placeholder?
    ensures Listing(types[id := def],
                    if NameOf(def).Some? && !def.ForwardDecl? then Named(byName, NameOf(def).value, id) else byName)
  {
    var now := if NameOf(def).Some? && !def.ForwardDecl? then Named(byName, NameOf(def).value, id) else byName;
    forall name, other ensures InList(now, name, other) <==> Lists(types[id := def], name, other) {
      assert InList(byName, name, other) <==> Lists(types, name, other);
    }
  }

  lemma PointingWith(types: seq<TypeDef>, id: TypeId, def: TypeDef)
    requires Pointing(types) && id < |types|
    requires types[id].Placeholder? || (types[id].ForwardDecl? && def.ForwardDecl?)
    requires def.ForwardDecl? && def.target.Some? ==> Defines(types, def, def.target.value)
    ensures Pointing(types[id := def])
  {
    var now := types[id := def];
    forall other | 0 <= other < |now| && now[other].ForwardDecl? && now[other].target.Some?
      ensures Defines(now, now[other], now[other].target.value)
    {
      assert Defines(types, now[other], now[other].target.value);
    }
  }

  class Builder {
    var types: seq<TypeDef>
    /** Ids by name, in the order they were defined. */
    var byName: map<string, seq<TypeId>>
    var pending: seq<TypeId>

    ghost predicate Valid()
      reads this
    {
      Listing(types, byName) && Waiting(types, pending) && Pointing(types)
    }

    constructor ()
      ensures Valid() && types == []
    {
      types, byName, pending := [], map[], [];
    }

    /** A new id, with nothing known of it yet. */
    method Allocate() returns (id: TypeId)
      requires Valid()
      modifies this
      ensures Valid() && id == |old(types)| && types == old(types) + [Placeholder]
    {
      id := |types|;
      types := types + [Placeholder];
      forall name, other ensures InList(byName, name, other) <==> Lists(types, name, other) {
        assert InList(byName, name, other) <==> Lists(old(types), name, other);
      }
    }

    /** Give `id` its definition. */
    method Define(id: TypeId, def: TypeDef)
      requires Valid() && id < |types| && types[id].Placeholder? && (def.ForwardDecl? ==> def.target.None?)
      modifies this
      ensures Valid() && types == old(types)[id := def]
      ensures pending == old(pending) + if def.ForwardDecl? then [id] else []
      ensures def.ForwardDecl? || NameOf(def).None? ==> byName == old(byName)
      ensures !def.ForwardDecl? && NameOf(def).Some? ==>
                var name := NameOf(def).value;
                && name in byName && byName == old(byName)[name := byName[name]]
                && byName[name] == (if name in old(byName) then old(byName)[name] else []) + [id]
    {
      ListingWith(types, byName, id, def);
      PointingWith(types, id, def);
      if def.ForwardDecl? {
        pending := pending + [id];
      }
      if NameOf(def).Some? && !def.ForwardDecl? {
        byName := Named(byName, NameOf(def).value, id);
      }
      types := types[id := def];
    }

    /** The definition of `name` with the most members, of those the first defined. */
    method FindBest(name: string, kind: ForwardKind) returns (best: Option<TypeId>, ghost at: nat)
      requires Listing(types, byName)
      ensures IsBest(types, name, kind, best)
      ensures best.Some? ==>
                && name in byName && at < |byName[name]| && byName[name][at] == best.value
                && forall j :: 0 <= j < at ==> !AtLeast(types, kind, Some(byName[name][j]), best.value)
    {
      var candidates := if name in byName then byName[name] else [];
      best, at := None, 0;
      for k := 0 to |candidates|
        invariant forall j :: 0 <= j < |candidates| ==> InList(byName, name, candidates[j])
        invariant best.Some? ==> Lists(types, name, best.value) && Weight(types[best.value], kind).Some?
        invariant forall j :: 0 <= j < k ==> AtLeast(types, kind, best, candidates[j])
        invariant best.Some? ==> at < k && candidates[at] == best.value
        invariant best.Some? ==> forall j :: 0 <= j < at ==> !AtLeast(types, kind, Some(candidates[j]), best.value)
      {
        assert InList(byName, name, candidates[k]);
        var weight := Weight(types[candidates[k]], kind);
        if weight.Some? && (best.None? || weight.value > Weight(types[best.value], kind).value) {
          best, at := Some(candidates[k]), k;
        }
      }
      forall id: TypeId | Lists(types, name, id) ensures AtLeast(types, kind, best, id) {
        assert InList(byName, name, id);
        var j :| 0 <= j < |candidates| && candidates[j] == id;
      }
    }

    /** Point every forward declaration that has a definition at the best one. */
    method ResolveForwardDeclarations()
      requires Valid()
      modifies this
      ensures Pointing(types) && Listing(types, byName) && pending == [] && |types| == |old(types)|
      ensures forall id :: 0 <= id < |types| ==> types[id] == Pointed(old(types), types, id)
      ensures forall id :: 0 <= id < |types| && IsOpen(old(types)[id]) ==> BestTarget(old(types), types[id])
    {
      var todo := pending;
      pending := [];
      ghost var before := types;
      for k := 0 to |todo|
        invariant pending == [] && SameDefinitions(before, types) && Pointing(types) && Listing(types, byName)
        invariant forall id :: 0 <= id < |types| && IsOpen(before[id]) && id in todo[..k] ==>
                    BestTarget(before, types[id])
        invariant forall id :: 0 <= id < |types| && id !in todo[..k] ==> types[id] == before[id]
      {
        var id := todo[k];
        if types[id].ForwardDecl? && types[id].target.None? {
          var best, at := FindBest(types[id].name, types[id].kind);
          BestIsStable(before, types, types[id].name, types[id].kind, best);
          if best.Some? && best.value != id {
            PointingWith(types, id, types[id].(target := best));
            ListingUnchanged(types, byName, id, types[id].(target := best));
            types := types[id := types[id].(target := best)];
          }
        }
      }
      assert todo[..|todo|] == todo;
    }
  }

  /** `id` is no fuller a definition than `best`. */
  predicate AtLeast(types: seq<TypeDef>, kind: ForwardKind, best: Option<TypeId>, id: TypeId) {
    id < |types| && Weight(types[id], kind).Some? ==>
      && best.Some? && best.value < |types| && Weight(types[best.value], kind).Some?
      && Weight(types[id], kind).value <= Weight(types[best.value], kind).value
  }

  /** `best` is a definition of `name` as full as any; none only when there is no definition. */
  ghost predicate IsBest(types: seq<TypeDef>, name: string, kind: ForwardKind, best: Option<TypeId>) {
    && (best.Some? ==> Lists(types, name, best.value) && Weight(types[best.value], kind).Some?)
    && forall id: TypeId :: Lists(types, name, id) ==> AtLeast(types, kind, best, id)
  }

  /** The best definition is of the kind declared and has the most members or values of all that are. */
  lemma BestHasMost(types: seq<TypeDef>, name: string, kind: ForwardKind, best: Option<TypeId>, id: TypeId)
    requires IsBest(types, name, kind, best) && Lists(types, name, id)
    ensures types[id].Struct? && (kind.StructKind? || kind.ClassKind?) ==>
              && best.Some? && types[best.value].Struct?
              && |types[id].def.members| <= |types[best.value].def.members|
    ensures types[id].Union? && kind.UnionKind? ==>
              && best.Some? && types[best.value].Union?
              && |types[id].def.members| <= |types[best.value].def.members|
    ensures types[id].Enum? && kind.EnumKind? ==>
              best.Some? && types[best.value].Enum? && types[id].values <= types[best.value].values
    ensures best.Some? ==> NameOf(types[best.value]) == Some(name)
  {
    assert AtLeast(types, kind, best, id);
  }

  /** A declaration points at the best definition there is of its name and kind, if there is one. */
  ghost predicate BestTarget(types: seq<TypeDef>, def: TypeDef) {
    def.ForwardDecl? && IsBest(types, def.name, def.kind, def.target)
  }

  /** Definitions are left alone, and declarations keep their name and kind. */
  ghost predicate SameDefinitions(before: seq<TypeDef>, types: seq<TypeDef>) {
    && |types| == |before|
    && forall id :: 0 <= id < |types| ==> types[id] == Pointed(before, types, id)
  }

  /** Type `id` as it was, but for the target of an open declaration. */
  function Pointed(before: seq<TypeDef>, types: seq<TypeDef>, id: TypeId): TypeDef
    requires id < |before| == |types|
  {
    if IsOpen(before[id]) && types[id].ForwardDecl? then before[id].(target := types[id].target) else before[id]
  }

  lemma BestIsStable(before: seq<TypeDef>, types: seq<TypeDef>, name: string, kind: ForwardKind, best: Option<TypeId>)
    requires SameDefinitions(before, types) && IsBest(types, name, kind, best)
    ensures IsBest(before, name, kind, best)
  {
    forall id: TypeId | Lists(before, name, id) ensures AtLeast(before, kind, best, id) {
      assert types[id] == Pointed(before, types, id);
      assert Lists(types, name, id) && AtLeast(types, kind, best, id);
      if best.Some? {
        assert types[best.value] == Pointed(before, types, best.value);
      }
    }
    if best.Some? {
      assert types[best.value] == Pointed(before, types, best.value);
    }
  }

  lemma ListingUnchanged(types: seq<TypeDef>, byName: map<string, seq<TypeId>>, id: TypeId, def: TypeDef)
    requires Listing(types, byName) && id < |types| && types[id].ForwardDecl? && def.ForwardDecl?
    ensures Listing(types[id := def], byName)
  {
    forall name, other ensures InList(byName, name, other) <==> Lists(types[id := def], name, other) {
      assert InList(byName, name, other) <==> Lists(types, name, other);
    }
  }

  /** In a table whose declarations point at definitions, following one takes a single step. */
  lemma ResolveOnce(t: Table, id: TypeId)
    requires Pointing(t.types)
    ensures Resolve(t, id) ==
            match Get(t, id)
            case Some(ForwardDecl(_, _, Some(target))) => target
            case _ => id
  {
    match Get(t, id)
    case Some(ForwardDecl(_, _, Some(target))) =>
      assert Defines(t.types, t.types[id], target);
    case _ =>
  }
}
