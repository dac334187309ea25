/**
 Nested values of a symbol: stepping into members, elements and variants, through types that only wrap another, and the
 two ways to an address, handed out with a node's children or resolved from its reference.
 */
module TypeTree {
  import opened Common
  import opened TypeTable

  datatype Step = MemberStep(name: string) | IndexStep(index: nat) | VariantStep(name: string) | TagStep

  /** A value's place: its address, its outer type, and its bits when it is a bit field. */
  datatype Place = Place(address: nat, typeId: TypeId, bitOffset: Option<nat>, bitSize: Option<nat>,
                         discriminant: Option<nat>)

  // ----- wrappers -----

  /** The struct or union behind a type's aliases. */
  function StructOf(t: Table, id: TypeId): Option<StructDef> {
    match Get(t, Underlying(t, id))
    case Some(Struct(s)) => Some(s)
    case Some(Union(s)) => Some(s)
    case _ => None
  }

  /** What a scan of members has come to: nothing that takes room, the one value held, or not a wrapper. */
  datatype Held = Nothing | One(member: Member) | Many

  function Scanned(t: Table, members: seq<Member>, size: nat): Held {
    if members == [] then Nothing
    else ScanNext(t, Scanned(t, members[..|members| - 1], size), members[|members| - 1], size)
  }

  /** What is found once member `m` of a struct of `size` bytes is looked at too. */
  function ScanNext(t: Table, before: Held, m: Member, size: nat): Held {
    var mine := TypeSize(t, m.typeId);
    if before.Many? then Many
    else if mine == Some(0) then before
    else if mine == Some(size) && m.offset == 0 && m.bitSize.None? && before.Nothing? then One(m)
    else Many
  }

  /** The member that makes a struct a wrapper, if it is one: the others have no size, and it fills the whole struct. */
  function HeldMember(t: Table, id: TypeId): Option<Member> {
    match StructOf(t, id)
    case None => None
    case Some(s) =>
      if s.variantPart.Some? || s.bases != [] then None else
      var held := Scanned(t, s.members, s.size);
      if held.One? then Some(held.member) else None
  }

  /** Deepest a chain of wrappers is followed, against a cyclic type table. */
  const MAX_WRAPPERS := 16

  /** `id`, then each type it wraps, outermost first, at most `n` levels in. */
  function Wrappers(t: Table, id: TypeId, n: nat): (chain: seq<TypeId>)
    ensures 1 <= |chain| <= n + 1 && chain[0] == id
    decreases n, t
  {
    if n == 0 || HeldMember(t, id).None? then [id] else [id] + Wrappers(t, HeldMember(t, id).value.typeId, n - 1)
  }

  /** The innermost type of a chain of wrappers. */
  function Peel(t: Table, id: TypeId): TypeId {
    var chain := Wrappers(t, id, MAX_WRAPPERS);
    chain[|chain| - 1]
  }

  /** `chain` are wrappers, each of the next, down to a type that is none. */
  ghost predicate Nesting(t: Table, chain: seq<TypeId>) {
    && chain != []
    && (forall k :: 0 <= k < |chain| - 1 ==> Wraps(t, chain, k))
    && HeldMember(t, chain[|chain| - 1]).None?
  }

  function Innermost(t: Table, id: TypeId, n: nat): TypeId {
    Wrappers(t, id, n)[|Wrappers(t, id, n)| - 1]
  }

  lemma {:induction false} InnermostOnce(t: Table, id: TypeId, n: nat)
    ensures Innermost(t, id, n) == if n == 0 || HeldMember(t, id).None? then id
                                   else Innermost(t, HeldMember(t, id).value.typeId, n - 1)
  {
  }

  lemma {:induction false} WrappersEnd(t: Table, chain: seq<TypeId>, k: nat, n: nat)
    requires Nesting(t, chain) && k < |chain|
    ensures Innermost(t, chain[k], n) == chain[Min(|chain| - 1, k + n)]
    decreases n
  {
    InnermostOnce(t, chain[k], n);
    if n > 0 && k < |chain| - 1 {
      assert Wraps(t, chain, k);
      WrappersEnd(t, chain, k + 1, n - 1);
    }
  }

  /** Sixteen wrappers around a value are peeled off, and no more. */
  lemma WrappersArePeeled(t: Table, chain: seq<TypeId>)
    requires Nesting(t, chain)
    ensures Peel(t, chain[0]) == chain[Min(|chain| - 1, 16)]
  {
    WrappersEnd(t, chain, 0, MAX_WRAPPERS);
  }

  method ScanMembers(t: Table, s: StructDef) returns (held: Option<Member>)
    ensures held == (var all := Scanned(t, s.members, s.size); if all.One? then Some(all.member) else None)
  {
    held := None;
    for k := 0 to |s.members|
      invariant Scanned(t, s.members[..k], s.size) == (if held.Some? then One(held.value) else Nothing)
    {
      var m := s.members[k];
      ScannedNext(t, s.members, s.size, k);
      var size := TypeSize(t, m.typeId);
      if size == Some(0) {
      } else if size == Some(s.size) && m.offset == 0 && m.bitSize.None? && held.None? {
        held := Some(m);
      } else {
        ManyStays(t, s.members, s.size, k + 1);
        return None;
      }
    }
    assert s.members[..|s.members|] == s.members;
  }

  lemma {:induction false} ScannedNext(t: Table, members: seq<Member>, size: nat, k: nat)
    requires k < |members|
    ensures Scanned(t, members[..k + 1], size) == ScanNext(t, Scanned(t, members[..k], size), members[k], size)
  {
    assert members[..k + 1][..k] == members[..k];
  }

  lemma {:induction false} ManyStays(t: Table, members: seq<Member>, size: nat, k: nat)
    requires k <= |members| && Scanned(t, members[..k], size).Many?
    ensures Scanned(t, members, size).Many?
    decreases |members|
  {
    if k < |members| {
      assert members[..|members| - 1][..k] == members[..k];
      ManyStays(t, members[..|members| - 1], size, k);
    } else {
      assert members[..k] == members;
    }
  }

  /** Type `k` of the chain wraps the next. */
  ghost predicate Wraps(t: Table, chain: seq<TypeId>, k: nat)
    requires k + 1 < |chain|
  {
    HeldMember(t, chain[k]).Some? && HeldMember(t, chain[k]).value.typeId == chain[k + 1]
  }

  lemma {:induction false} WrapsInTurn(t: Table, id: TypeId, n: nat, k: nat)
    requires k + 1 < |Wrappers(t, id, n)|
    ensures Wraps(t, Wrappers(t, id, n), k)
    decreases n
  {
    if k > 0 {
      WrapsInTurn(t, HeldMember(t, id).value.typeId, n - 1, k - 1);
    }
  }

  lemma {:induction false} ChainEnds(t: Table, id: TypeId, n: nat)
    requires |Wrappers(t, id, n)| <= n
    ensures HeldMember(t, Wrappers(t, id, n)[|Wrappers(t, id, n)| - 1]).None?
    decreases n
  {
    if HeldMember(t, id).Some? {
      ChainEnds(t, HeldMember(t, id).value.typeId, n - 1);
    }
  }

  lemma LevelOf(t: Table, id: TypeId, n: nat, whole: seq<TypeId>, k: nat)
    requires whole == Wrappers(t, id, n) && k < |whole|
    ensures k + 1 < |whole| ==> HeldMember(t, whole[k]).Some? && HeldMember(t, whole[k]).value.typeId == whole[k + 1]
    ensures k + 1 == |whole| && k < n ==> HeldMember(t, whole[k]).None?
  {
    if k + 1 < |whole| {
      WrapsInTurn(t, id, n, k);
    } else if k < n {
      ChainEnds(t, id, n);
    }
  }

  /** The chain, grown one level at a time up to `limit` levels. */
  method GrowChain(t: Table, id: TypeId, limit: nat) returns (chain: seq<TypeId>)
    ensures chain == Wrappers(t, id, limit)
  {
    chain := [id];
    ghost var whole := Wrappers(t, id, limit);
    while |chain| <= limit
      invariant 1 <= |chain| <= |whole| && chain == whole[..|chain|]
      decreases limit + 1 - |chain|
    {
      var held := HeldMember(t, chain[|chain| - 1]);
      LevelOf(t, id, limit, whole, |chain| - 1);
      if held.None? {
        break;
      }
      chain := chain + [held.value.typeId];
    }
  }

  method WrapperChain(t: Table, id: TypeId) returns (chain: seq<TypeId>)
    ensures chain == Wrappers(t, id, MAX_WRAPPERS)
  {
    chain := GrowChain(t, id, MAX_WRAPPERS);
  }

  // ----- what a wrapper is -----

  /** Member `k` fills all `size` bytes by itself: the others take no room. */
  ghost predicate FillsAlone(t: Table, members: seq<Member>, size: nat, k: nat) {
    && k < |members| && size > 0
    && TypeSize(t, members[k].typeId) == Some(size) && members[k].offset == 0 && members[k].bitSize.None?
    && forall j :: 0 <= j < |members| && j != k ==> TypeSize(t, members[j].typeId) == Some(0)
  }

  ghost predicate Roomless(t: Table, members: seq<Member>) {
    forall j :: 0 <= j < |members| ==> TypeSize(t, members[j].typeId) == Some(0)
  }

  /** Member `m` is the one that fills all `size` bytes. */
  ghost predicate Filler(t: Table, members: seq<Member>, size: nat, m: Member) {
    exists k: nat :: FillsAlone(t, members, size, k) && members[k] == m
  }

  lemma {:induction false} ScannedMeans(t: Table, members: seq<Member>, size: nat, m: Member)
    ensures Scanned(t, members, size).Nothing? <==> Roomless(t, members)
    ensures Scanned(t, members, size) == One(m) <==> Filler(t, members, size, m)
    decreases |members|
  {
    if members != [] {
      var n := |members| - 1;
      ScannedMeans(t, members[..n], size, m);
      assert members == members[..n] + [members[n]];
      FillerNext(t, members[..n], members[n], size, m);
    }
  }

  /** One more member: it takes no room, or it is the filler and the others take none. */
  lemma FillerNext(t: Table, rest: seq<Member>, last: Member, size: nat, m: Member)
    ensures Filler(t, rest + [last], size, m) <==>
            || (TypeSize(t, last.typeId) == Some(0) && Filler(t, rest, size, m))
            || (last == m && FillsAlone(t, [last], size, 0) && Roomless(t, rest))
  {
    var all := rest + [last];
    if Filler(t, all, size, m) {
      var k: nat :| FillsAlone(t, all, size, k) && all[k] == m;
      assert forall j :: 0 <= j < |rest| ==> all[j] == rest[j];
      if k < |rest| {
        assert all[|rest|] == last && FillsAlone(t, rest, size, k) && rest[k] == m;
      }
    }
    if TypeSize(t, last.typeId) == Some(0) && Filler(t, rest, size, m) {
      var k: nat :| FillsAlone(t, rest, size, k) && rest[k] == m;
      assert FillsAlone(t, all, size, k) && all[k] == m;
    }
    if last == m && FillsAlone(t, [last], size, 0) && Roomless(t, rest) {
      assert FillsAlone(t, all, size, |rest|) && all[|rest|] == m;
    }
  }

  /**
   A type is a wrapper exactly when, behind its aliases, it is a struct or union with no variants and no bases, one of
   whose members fills it while the others take no room.
   */
  lemma WrapperIff(t: Table, id: TypeId, m: Member)
    ensures HeldMember(t, id) == Some(m) <==>
            && StructOf(t, id).Some?
            && StructOf(t, id).value.variantPart.None? && StructOf(t, id).value.bases == []
            && Filler(t, StructOf(t, id).value.members, StructOf(t, id).value.size, m)
  {
    if StructOf(t, id).Some? {
      ScannedMeans(t, StructOf(t, id).value.members, StructOf(t, id).value.size, m);
    }
  }

  // ----- peeling keeps the value -----

  lemma {:induction false} HeldIsMember(t: Table, members: seq<Member>, size: nat)
    requires Scanned(t, members, size).One?
    ensures var m := Scanned(t, members, size).member;
            m in members && m.offset == 0 && m.bitSize.None? && TypeSize(t, m.typeId) == Some(size)
  {
    if members != [] && Scanned(t, members[..|members| - 1], size).One? {
      HeldIsMember(t, members[..|members| - 1], size);
    }
  }

  /** A wrapper and the value it holds have the same size, and the same address. */
  lemma HeldFillsWrapper(t: Table, id: TypeId)
    requires HeldMember(t, id).Some?
    ensures TypeSize(t, id).Some? && TypeSize(t, HeldMember(t, id).value.typeId) == TypeSize(t, id)
    ensures HeldMember(t, id).value.offset == 0
  {
    var s := StructOf(t, id).value;
    HeldIsMember(t, s.members, s.size);
    UnderlyingKeepsSize(t, id, 0);
    UnderlyingResolved(t, id, 0);
  }

  lemma {:induction false} UnderlyingResolved(t: Table, id: TypeId, depth: nat)
    requires Get(t, UnderlyingFrom(t, id, depth)).Some?
    requires Get(t, UnderlyingFrom(t, id, depth)).value.Struct? || Get(t, UnderlyingFrom(t, id, depth)).value.Union?
    ensures Resolve(t, UnderlyingFrom(t, id, depth)) == UnderlyingFrom(t, id, depth)
    decreases MAX_ALIASES + 1 - depth
  {
  }

  lemma {:induction false} WrappersKeepSize(t: Table, id: TypeId, n: nat, k: nat)
    requires k < |Wrappers(t, id, n)|
    ensures TypeSize(t, Wrappers(t, id, n)[k]) == TypeSize(t, id)
    decreases n
  {
    if k > 0 {
      HeldFillsWrapper(t, id);
      WrappersKeepSize(t, HeldMember(t, id).value.typeId, n - 1, k - 1);
    }
  }

  /** Peeling keeps the size; nothing moves, since every value held is at offset zero. */
  lemma PeelKeepsSize(t: Table, id: TypeId)
    ensures TypeSize(t, Peel(t, id)) == TypeSize(t, id)
  {
    WrappersKeepSize(t, id, MAX_WRAPPERS, |Wrappers(t, id, MAX_WRAPPERS)| - 1);
  }

  /** Peeling again changes nothing, unless the chain was cut short. */
  lemma PeelTwice(t: Table, id: TypeId)
    requires HeldMember(t, Peel(t, id)).None?
    ensures Peel(t, Peel(t, id)) == Peel(t, id)
  {
  }

  /** Peeling is idempotent for every chain within the limit. */
  lemma PeelIsIdempotent(t: Table, id: TypeId)
    requires |Wrappers(t, id, MAX_WRAPPERS)| <= MAX_WRAPPERS
    ensures Peel(t, Peel(t, id)) == Peel(t, id)
  {
    ChainEnds(t, id, MAX_WRAPPERS);
    PeelTwice(t, id);
  }

  /** What a wrapper holds nests less deep than the wrapper: no type holds itself. */
  ghost predicate Nested(t: Table, depth: seq<nat>) {
    && |depth| == |t.types|
    && forall id :: 0 <= id < |t.types| && HeldMember(t, id).Some? ==>
         HeldMember(t, id).value.typeId < |t.types| && depth[HeldMember(t, id).value.typeId] < depth[id]
  }

  lemma WrappersDescend(t: Table, id: TypeId, n: nat, depth: seq<nat>)
    requires Nested(t, depth) && id < |t.types|
    ensures var last := Wrappers(t, id, n)[|Wrappers(t, id, n)| - 1];
            last < |t.types| && depth[last] <= depth[id] &&
            (n > 0 && HeldMember(t, id).Some? ==> depth[last] < depth[id])
    decreases n
  {
    if n > 0 && HeldMember(t, id).Some? {
      WrappersDescend(t, HeldMember(t, id).value.typeId, n - 1, depth);
    }
  }

  /** In a table whose types nest, peeling is idempotent exactly when it reached a type that is no wrapper. */
  lemma PeelTwiceIff(t: Table, id: TypeId, depth: seq<nat>)
    requires Nested(t, depth) && id < |t.types|
    ensures Peel(t, Peel(t, id)) == Peel(t, id) <==> HeldMember(t, Peel(t, id)).None?
  {
    WrappersDescend(t, id, MAX_WRAPPERS, depth);
    WrappersDescend(t, Peel(t, id), MAX_WRAPPERS, depth);
  }

  // ----- stepping into a value -----

  function FindMember(members: seq<Member>, name: string): (m: Option<Member>)
    ensures m.Some? ==> m.value in members && m.value.name == name
  {
    if members == [] then None
    else if members[0].name == name then Some(members[0])
    else FindMember(members[1..], name)
  }

  function FindVariant(variants: seq<Variant>, name: string): (v: Option<Variant>)
    ensures v.Some? ==> v.value in variants && v.value.member.name == name
  {
    if variants == [] then None
    else if variants[0].member.name == name then Some(variants[0])
    else FindVariant(variants[1..], name)
  }

  function MemberPlace(m: Member, address: nat, discriminant: Option<nat>): Place {
    Place(address + m.offset, m.typeId, m.bitOffset, m.bitSize, discriminant)
  }

  function ElementPlace(t: Table, element: TypeId, address: nat, index: nat): Place {
    var size := TypeSize(t, element);
    Place(address + index * if size.Some? then size.value else 0, element, None, None, None)
  }

  /** Where `step` leads from a value at `address`, by its type alone. */
  function Enter(t: Table, id: TypeId, address: nat, step: Step): Option<Place> {
    match (step, Get(t, Underlying(t, id)))
    case (MemberStep(name), Some(Struct(s))) => EnterMember(s, name, address)
    case (MemberStep(name), Some(Union(s))) => EnterMember(s, name, address)
    case (VariantStep(name), Some(Struct(s))) =>
      if s.variantPart.None? then None else
      var v := FindVariant(s.variantPart.value.variants, name);
      if v.None? then None else Some(MemberPlace(v.value.member, address, v.value.discriminant))
    case (TagStep, Some(Struct(s))) =>
      if s.variantPart.None? || s.variantPart.value.tag.None? then None
      else Some(MemberPlace(s.variantPart.value.tag.value, address, None))
    case (IndexStep(i), Some(Array(element, count))) =>
      if count.Some? && i >= count.value then None else Some(ElementPlace(t, element, address, i))
    case _ => None
  }

  function EnterMember(s: StructDef, name: string, address: nat): Option<Place> {
    var m := FindMember(s.members, name);
    if m.None? then None else Some(MemberPlace(m.value, address, None))
  }

  /** Try the innermost type first, then the wrappers around it. */
  function EnterChain(t: Table, chain: seq<TypeId>, address: nat, step: Step): Option<Place> {
    if chain == [] then None else
    var inner := Enter(t, chain[|chain| - 1], address, step);
    if inner.Some? then inner else EnterChain(t, chain[..|chain| - 1], address, step)
  }

  function Walk(t: Table, at: Place, step: Step): Option<Place> {
    EnterChain(t, Wrappers(t, at.typeId, MAX_WRAPPERS), at.address, step)
  }

  /** The value a reference's steps lead to, from the symbol's own place. */
  function ResolveSteps(t: Table, root: Place, steps: seq<Step>): Option<Place> {
    if steps == [] then Some(root) else
    var before := ResolveSteps(t, root, steps[..|steps| - 1]);
    if before.None? then None else Walk(t, before.value, steps[|steps| - 1])
  }

  method EnterLevels(t: Table, chain: seq<TypeId>, address: nat, step: Step) returns (at: Option<Place>)
    ensures at == EnterChain(t, chain, address, step)
  {
    var k := |chain|;
    assert chain[..k] == chain;
    while k > 0
      invariant 0 <= k <= |chain| && EnterChain(t, chain, address, step) == EnterChain(t, chain[..k], address, step)
    {
      assert chain[..k][..k - 1] == chain[..k - 1];
      k := k - 1;
      at := Enter(t, chain[k], address, step);
      if at.Some? {
        return;
      }
    }
    at := None;
  }

  /** Follow a reference's steps one by one. */
  method ResolveReference(t: Table, root: Place, steps: seq<Step>) returns (at: Option<Place>)
    ensures at == ResolveSteps(t, root, steps)
  {
    at := Some(root);
    for k := 0 to |steps|
      invariant at.Some? && at == ResolveSteps(t, root, steps[..k])
    {
      assert steps[..k + 1][..k] == steps[..k];
      var chain := WrapperChain(t, at.value.typeId);
      at := EnterLevels(t, chain, at.value.address, steps[k]);
      if at.None? {
        NowhereStays(t, root, steps, k + 1);
        return;
      }
    }
    assert steps[..|steps|] == steps;
  }

  lemma {:induction false} NowhereStays(t: Table, root: Place, steps: seq<Step>, k: nat)
    requires k <= |steps| && ResolveSteps(t, root, steps[..k]).None?
    ensures ResolveSteps(t, root, steps).None?
    decreases |steps|
  {
    if k < |steps| {
      assert steps[..|steps| - 1][..k] == steps[..k];
      NowhereStays(t, root, steps[..|steps| - 1], k);
    } else {
      assert steps[..k] == steps;
    }
  }

  // ----- what the tree hands out -----

  datatype Child = Child(step: Step, place: Place)

  function MemberChildren(members: seq<Member>, address: nat): (children: seq<Child>)
    ensures |children| == |members|
  {
    seq(|members|, k requires 0 <= k < |members| =>
      Child(MemberStep(members[k].name), MemberPlace(members[k], address, None)))
  }

  function VariantChildren(variants: seq<Variant>, address: nat): (children: seq<Child>)
    ensures |children| == |variants|
  {
    seq(|variants|, k requires 0 <= k < |variants| =>
      Child(VariantStep(variants[k].member.name), MemberPlace(variants[k].member, address, variants[k].discriminant)))
  }

  function StructChildren(s: StructDef, address: nat): seq<Child> {
    match s.variantPart
    case Some(part) =>
      (if part.tag.Some? then [Child(TagStep, MemberPlace(part.tag.value, address, None))] else []) +
      VariantChildren(part.variants, address)
    case None => MemberChildren(s.members, address)
  }

  /** The children of a value, at most `limit` elements of an array. */
  function Children(t: Table, at: Place, limit: nat): seq<Child> {
    match Get(t, Underlying(t, Peel(t, at.typeId)))
    case Some(Struct(s)) => StructChildren(s, at.address)
    case Some(Union(s)) => StructChildren(s, at.address)
    case Some(Array(element, Some(count))) =>
      seq(if count <= limit then count else limit, i requires 0 <= i =>
        Child(IndexStep(i), ElementPlace(t, element, at.address, i)))
    case _ => []
  }

  // ----- where values lie -----

  /** Member `m` of a value at `a` is at `p`, `off` bytes in. */
  ghost predicate MemberAt(m: Member, discriminant: Option<nat>, a: nat, off: nat, p: Place) {
    && off == m.offset && p.address == a + off && p.typeId == m.typeId
    && p.bitOffset == m.bitOffset && p.bitSize == m.bitSize && p.discriminant == discriminant
  }

  /** Element `i` of an array at `a` is at `p`, `off` bytes in; elements of unknown size all start where it does. */
  ghost predicate ElementAt(t: Table, element: TypeId, i: nat, a: nat, off: nat, p: Place) {
    && off == i * (match TypeSize(t, element) case Some(size) => size case None => 0)
    && p.address == a + off && p.typeId == element && p.bitOffset == p.bitSize == p.discriminant == None
  }

  /** The children of a value stand in the order and at the offsets the type gives them. */
  lemma WhereChildrenAre(t: Table, at: Place, limit: nat, k: nat)
    requires k < |Children(t, at, limit)|
    ensures var c := Children(t, at, limit);
            ChildAt(t, Get(t, Underlying(t, Peel(t, at.typeId))), at.address, limit, k, |c|, c[k])
  {
    match Get(t, Underlying(t, Peel(t, at.typeId)))
    case Some(Struct(s)) => StructChildrenAre(s, at.address, k);
    case Some(Union(s)) => StructChildrenAre(s, at.address, k);
    case _ =>
  }

  lemma StructChildrenAre(s: StructDef, a: nat, k: nat)
    requires k < |StructChildren(s, a)|
    ensures StructChildAt(s, a, k, |StructChildren(s, a)|, StructChildren(s, a)[k])
  {
    var c := StructChildren(s, a);
    match s.variantPart
    case None =>
      assert c[k] == Child(MemberStep(s.members[k].name), MemberPlace(s.members[k], a, None));
    case Some(part) =>
      var tags := if part.tag.Some? then 1 else 0;
      if k >= tags {
        var v := part.variants[k - tags];
        assert c[k] == VariantChildren(part.variants, a)[k - tags];
        assert c[k] == Child(VariantStep(v.member.name), MemberPlace(v.member, a, v.discriminant));
      }
  }

  /** What child `k` of `n` is, of a value at `a` that `def` describes. */
  ghost predicate ChildAt(t: Table, def: Option<TypeDef>, a: nat, limit: nat, k: nat, n: nat, c: Child) {
    match def
    case Some(Struct(s)) => StructChildAt(s, a, k, n, c)
    case Some(Union(s)) => StructChildAt(s, a, k, n, c)
    case Some(Array(element, Some(count))) =>
      && n == Min(count, limit) && c.step == IndexStep(k)
      && ElementAt(t, element, k, a, k * ElementSize(t, element), c.place)
    case _ => false
  }

  function ElementSize(t: Table, element: TypeId): nat {
    match TypeSize(t, element) case Some(size) => size case None => 0
  }

  /** What child `k` of `n` is: a member, or the tag before all variants, or a variant with its discriminant. */
  ghost predicate StructChildAt(s: StructDef, a: nat, k: nat, n: nat, c: Child) {
    match s.variantPart
    case None =>
      && n == |s.members| && k < n && c.step == MemberStep(s.members[k].name)
      && MemberAt(s.members[k], None, a, s.members[k].offset, c.place)
    case Some(part) =>
      var tags := if part.tag.Some? then 1 else 0;
      && n == |part.variants| + tags && k < n
      && (k < tags ==> c.step == TagStep && MemberAt(part.tag.value, None, a, part.tag.value.offset, c.place))
      && (k >= tags ==>
            var v := part.variants[k - tags];
            c.step == VariantStep(v.member.name) && MemberAt(v.member, v.discriminant, a, v.member.offset, c.place))
  }

  ghost predicate FirstMember(members: seq<Member>, name: string, k: nat) {
    k < |members| && members[k].name == name && forall j :: 0 <= j < k ==> members[j].name != name
  }

  ghost predicate FirstVariant(variants: seq<Variant>, name: string, k: nat) {
    k < |variants| && variants[k].member.name == name && forall j :: 0 <= j < k ==> variants[j].member.name != name
  }

  ghost predicate MemberLeads(s: StructDef, name: string, a: nat, off: nat, p: Place) {
    exists k: nat :: FirstMember(s.members, name, k) && MemberAt(s.members[k], None, a, off, p)
  }

  /** `step` goes from a value of type `id` at `a` to `p`, `off` bytes further on. */
  ghost predicate LeadsTo(t: Table, id: TypeId, a: nat, step: Step, off: nat, p: Place) {
    match (step, Get(t, Underlying(t, id)))
    case (MemberStep(name), Some(Struct(s))) => MemberLeads(s, name, a, off, p)
    case (MemberStep(name), Some(Union(s))) => MemberLeads(s, name, a, off, p)
    case (VariantStep(name), Some(Struct(s))) =>
      s.variantPart.Some? &&
      var v := s.variantPart.value.variants;
      exists k: nat :: FirstVariant(v, name, k) && MemberAt(v[k].member, v[k].discriminant, a, off, p)
    case (TagStep, Some(Struct(s))) =>
      && s.variantPart.Some? && s.variantPart.value.tag.Some?
      && MemberAt(s.variantPart.value.tag.value, None, a, off, p)
    case (IndexStep(i), Some(Array(element, count))) =>
      (count.Some? ==> i < count.value) && ElementAt(t, element, i, a, off, p)
    case _ => false
  }

  lemma {:induction false} FindMemberMeans(members: seq<Member>, name: string) returns (k: nat)
    ensures FindMember(members, name).Some? ==>
              FirstMember(members, name, k) && FindMember(members, name) == Some(members[k])
    ensures FindMember(members, name).None? ==> forall j: nat :: !FirstMember(members, name, j)
    decreases |members|
  {
    k := 0;
    if members != [] && members[0].name != name {
      k := FindMemberMeans(members[1..], name);
      forall j: nat ensures FirstMember(members, name, j) ==> j > 0 && FirstMember(members[1..], name, j - 1) {
      }
      k := k + 1;
    }
  }

  lemma {:induction false} FindVariantMeans(variants: seq<Variant>, name: string) returns (k: nat)
    ensures FindVariant(variants, name).Some? ==>
              FirstVariant(variants, name, k) && FindVariant(variants, name) == Some(variants[k])
    ensures FindVariant(variants, name).None? ==> forall j: nat :: !FirstVariant(variants, name, j)
    decreases |variants|
  {
    k := 0;
    if variants != [] && variants[0].member.name != name {
      k := FindVariantMeans(variants[1..], name);
      forall j: nat ensures FirstVariant(variants, name, j) ==> j > 0 && FirstVariant(variants[1..], name, j - 1) {
      }
      k := k + 1;
    }
  }

  /** Entering a type by a step means going to the first member or variant of that name, the tag, or the element. */
  lemma EnterLeads(t: Table, id: TypeId, a: nat, step: Step, p: Place)
    ensures Enter(t, id, a, step) == Some(p) <==> exists off: nat :: LeadsTo(t, id, a, step, off, p)
  {
    match (step, Get(t, Underlying(t, id)))
    case (MemberStep(name), Some(Struct(s))) => MemberEnterLeads(t, id, s, name, a, p);
    case (MemberStep(name), Some(Union(s))) => MemberEnterLeads(t, id, s, name, a, p);
    case (VariantStep(name), Some(Struct(s))) =>
      if s.variantPart.Some? {
        var v := s.variantPart.value.variants;
        var k := FindVariantMeans(v, name);
        if Enter(t, id, a, step) == Some(p) {
          assert MemberAt(v[k].member, v[k].discriminant, a, v[k].member.offset, p);
          assert LeadsTo(t, id, a, step, v[k].member.offset, p);
        }
      }
    case (TagStep, Some(Struct(s))) =>
      if Enter(t, id, a, step) == Some(p) {
        assert LeadsTo(t, id, a, step, s.variantPart.value.tag.value.offset, p);
      }
    case (IndexStep(i), Some(Array(element, count))) =>
      if Enter(t, id, a, step) == Some(p) {
        assert LeadsTo(t, id, a, step, i * ElementSize(t, element), p);
      }
    case _ =>
  }

  lemma MemberEnterLeads(t: Table, id: TypeId, s: StructDef, name: string, a: nat, p: Place)
    requires Get(t, Underlying(t, id)) == Some(Struct(s)) || Get(t, Underlying(t, id)) == Some(Union(s))
    ensures Enter(t, id, a, MemberStep(name)) == Some(p) <==>
            exists off: nat :: LeadsTo(t, id, a, MemberStep(name), off, p)
  {
    var k := FindMemberMeans(s.members, name);
    if Enter(t, id, a, MemberStep(name)) == Some(p) {
      assert MemberLeads(s, name, a, s.members[k].offset, p);
      assert LeadsTo(t, id, a, MemberStep(name), s.members[k].offset, p);
    }
    if off: nat :| LeadsTo(t, id, a, MemberStep(name), off, p) {
      assert MemberLeads(s, name, a, off, p);
    }
  }

  /** The step is taken from the innermost of the types `chain` that it enters, `off` bytes on to `p`. */
  ghost predicate ChainLeads(t: Table, chain: seq<TypeId>, a: nat, step: Step, i: nat, off: nat, p: Place) {
    && i < |chain| && LeadsTo(t, chain[i], a, step, off, p)
    && forall j, b: nat, q :: i < j < |chain| ==> !LeadsTo(t, chain[j], a, step, b, q)
  }

  lemma {:induction false} EnterChainLeads(t: Table, chain: seq<TypeId>, a: nat, step: Step) returns (i: nat, off: nat)
    requires EnterChain(t, chain, a, step).Some?
    ensures ChainLeads(t, chain, a, step, i, off, EnterChain(t, chain, a, step).value)
    decreases |chain|
  {
    var n := |chain| - 1;
    var inner := Enter(t, chain[n], a, step);
    if inner.Some? {
      EnterLeads(t, chain[n], a, step, inner.value);
      i, off :| i == n && LeadsTo(t, chain[n], a, step, off, inner.value);
    } else {
      i, off := EnterChainLeads(t, chain[..n], a, step);
      forall j, b: nat, q | i < j < |chain| ensures !LeadsTo(t, chain[j], a, step, b, q) {
        if j < n {
          assert chain[..n][j] == chain[j];
        } else {
          EnterLeads(t, chain[n], a, step, q);
        }
      }
    }
  }

  function Sum(offsets: seq<nat>): nat {
    if offsets == [] then 0 else Sum(offsets[..|offsets| - 1]) + offsets[|offsets| - 1]
  }

  /** One step of a reference: `off` bytes on, from the innermost type the step enters. */
  ghost predicate Moves(t: Table, before: Place, step: Step, off: nat, after: Place) {
    exists i: nat :: ChainLeads(t, Wrappers(t, before.typeId, MAX_WRAPPERS), before.address, step, i, off, after)
  }

  /** `places` are the values on the way from the root, each `offsets` further on than the one before. */
  ghost predicate Way(t: Table, root: Place, steps: seq<Step>, places: seq<Place>, offsets: seq<nat>) {
    && |places| == |steps| + 1 && |offsets| == |steps| && places[0] == root
    && forall k :: 0 <= k < |steps| ==> MovesAt(t, steps, places, offsets, k)
  }

  ghost predicate MovesAt(t: Table, steps: seq<Step>, places: seq<Place>, offsets: seq<nat>, k: nat)
    requires k < |steps| && k < |offsets| && k + 1 < |places|
  {
    Moves(t, places[k], steps[k], offsets[k], places[k + 1])
  }

  /** A reference resolves along a way through its values, and its address is the symbol's plus all offsets on it. */
  lemma {:induction false} AddressIsSum(t: Table, root: Place, steps: seq<Step>)
    returns (places: seq<Place>, offsets: seq<nat>)
    requires ResolveSteps(t, root, steps).Some?
    ensures Way(t, root, steps, places, offsets) && ResolveSteps(t, root, steps) == Some(places[|steps|])
    ensures places[|steps|].address == root.address + Sum(offsets)
    decreases |steps|
  {
    if steps == [] {
      places, offsets := [root], [];
    } else {
      var before, on := AddressIsSum(t, root, steps[..|steps| - 1]);
      var after, off := LastMove(t, root, steps, before[|steps| - 1]);
      WayNext(t, root, steps, before, on, off, after);
      SumNext(on, off);
      places, offsets := before + [after], on + [off];
    }
  }

  lemma SumNext(offsets: seq<nat>, off: nat)
    ensures Sum(offsets + [off]) == Sum(offsets) + off
  {
    assert (offsets + [off])[..|offsets|] == offsets;
  }

  lemma WayNext(t: Table, root: Place, steps: seq<Step>, places: seq<Place>, offsets: seq<nat>, off: nat, after: Place)
    requires steps != [] && Way(t, root, steps[..|steps| - 1], places, offsets)
    requires Moves(t, places[|steps| - 1], steps[|steps| - 1], off, after)
    ensures Way(t, root, steps, places + [after], offsets + [off])
  {
    var n := |steps| - 1;
    forall k | 0 <= k < |steps| ensures MovesAt(t, steps, places + [after], offsets + [off], k) {
      assert k < n ==> MovesAt(t, steps[..n], places, offsets, k);
    }
  }

  lemma LastMove(t: Table, root: Place, steps: seq<Step>, before: Place) returns (after: Place, off: nat)
    requires steps != [] && ResolveSteps(t, root, steps[..|steps| - 1]) == Some(before)
    requires ResolveSteps(t, root, steps).Some?
    ensures ResolveSteps(t, root, steps) == Some(after) && after.address == before.address + off
    ensures Moves(t, before, steps[|steps| - 1], off, after)
  {
    after := ResolveSteps(t, root, steps).value;
    off := WalkMoves(t, before, steps[|steps| - 1]);
  }

  lemma WalkMoves(t: Table, before: Place, step: Step) returns (off: nat)
    requires Walk(t, before, step).Some?
    ensures Moves(t, before, step, off, Walk(t, before, step).value)
    ensures Walk(t, before, step).value.address == before.address + off
  {
    var i;
    i, off := EnterChainLeads(t, Wrappers(t, before.typeId, MAX_WRAPPERS), before.address, step);
  }

  // ----- where a child's step leads -----

  /** From `i` on, the first child with the step of child `k`. */
  function FirstFrom(children: seq<Child>, i: nat, k: nat): (j: nat)
    requires i <= k < |children|
    ensures i <= j <= k && children[j].step == children[k].step
    ensures forall m :: i <= m < j ==> children[m].step != children[k].step
    decreases k - i
  {
    if children[i].step == children[k].step then i else FirstFrom(children, i + 1, k)
  }

  /** The first child that has the same step: the first member or variant of that name. */
  function FirstLike(children: seq<Child>, k: nat): (j: nat)
    requires k < |children|
    ensures j <= k && children[j].step == children[k].step
    ensures forall m :: 0 <= m < j ==> children[m].step != children[k].step
  {
    FirstFrom(children, 0, k)
  }

  lemma {:induction false} FindsFirst(members: seq<Member>, i: nat)
    requires i < |members| && forall k :: 0 <= k < i ==> members[k].name != members[i].name
    ensures FindMember(members, members[i].name) == Some(members[i])
    decreases |members|
  {
    if i > 0 {
      FindsFirst(members[1..], i - 1);
    }
  }

  lemma {:induction false} FindsFirstVariant(variants: seq<Variant>, i: nat)
    requires i < |variants| && forall k :: 0 <= k < i ==> variants[k].member.name != variants[i].member.name
    ensures FindVariant(variants, variants[i].member.name) == Some(variants[i])
    decreases |variants|
  {
    if i > 0 {
      FindsFirstVariant(variants[1..], i - 1);
    }
  }

  /** A union that carries a variant part: its children are handed out, but no step enters them. */
  predicate VariantUnion(t: Table, id: TypeId) {
    match Get(t, Underlying(t, id))
    case Some(Union(s)) => s.variantPart.Some?
    case _ => false
  }

  lemma MemberStepEnters(t: Table, id: TypeId, address: nat, s: StructDef, k: nat)
    requires Get(t, Underlying(t, id)) == Some(Struct(s)) || Get(t, Underlying(t, id)) == Some(Union(s))
    requires s.variantPart.None? && k < |s.members|
    ensures var c := StructChildren(s, address);
            Enter(t, id, address, c[k].step) == Some(c[FirstLike(c, k)].place)
  {
    var c := StructChildren(s, address);
    var j := FirstLike(c, k);
    forall m | 0 <= m < j ensures s.members[m].name != s.members[j].name {
      assert c[m].step != c[k].step;
    }
    FindsFirst(s.members, j);
  }

  lemma VariantStepEnters(t: Table, id: TypeId, address: nat, s: StructDef, k: nat)
    requires Get(t, Underlying(t, id)) == Some(Struct(s))
    requires s.variantPart.Some? && k < |StructChildren(s, address)|
    ensures var c := StructChildren(s, address);
            Enter(t, id, address, c[k].step) == Some(c[FirstLike(c, k)].place)
  {
    var part, c := s.variantPart.value, StructChildren(s, address);
    var tags := if part.tag.Some? then 1 else 0;
    var j := FirstLike(c, k);
    if k >= tags {
      assert j >= tags;
      forall m | 0 <= m < j - tags ensures part.variants[m].member.name != part.variants[j - tags].member.name {
        assert c[m + tags].step != c[k].step;
      }
      FindsFirstVariant(part.variants, j - tags);
    }
  }

  /** A child's step, taken from the type inside every wrapper, leads to the first child with that step. */
  lemma StepEntersFirst(t: Table, at: Place, limit: nat, k: nat)
    requires k < |Children(t, at, limit)| && !VariantUnion(t, Peel(t, at.typeId))
    ensures var c := Children(t, at, limit);
            Enter(t, Peel(t, at.typeId), at.address, c[k].step) == Some(c[FirstLike(c, k)].place)
  {
    var id, c := Peel(t, at.typeId), Children(t, at, limit);
    assert c[FirstLike(c, k)].step == c[k].step;
    match Get(t, Underlying(t, id))
    case Some(Struct(s)) =>
      if s.variantPart.None? {
        MemberStepEnters(t, id, at.address, s, k);
      } else {
        VariantStepEnters(t, id, at.address, s, k);
      }
    case Some(Union(s)) => MemberStepEnters(t, id, at.address, s, k);
    case _ =>
  }

  lemma {:induction false} OutersAreWrappers(t: Table, id: TypeId, n: nat, i: nat)
    requires i + 1 < |Wrappers(t, id, n)|
    ensures HeldMember(t, Wrappers(t, id, n)[i]).Some?
    decreases n
  {
    if i > 0 {
      OutersAreWrappers(t, HeldMember(t, id).value.typeId, n - 1, i - 1);
    }
  }

  /** No wrapper has variants, so none is entered by a step that names one. */
  lemma {:induction false} NoVariantOutside(t: Table, chain: seq<TypeId>, address: nat, step: Step)
    requires step.VariantStep? || step.TagStep?
    requires forall i :: 0 <= i < |chain| ==> HeldMember(t, chain[i]).Some? || Enter(t, chain[i], address, step).None?
    ensures EnterChain(t, chain, address, step).None?
    decreases |chain|
  {
    if chain != [] {
      NoVariantOutside(t, chain[..|chain| - 1], address, step);
    }
  }

  /**
   Where the step of any child of any place leads: to the first child with that step, or nowhere at all in a union with
   variants.
   */
  lemma StepLeadsToFirst(t: Table, at: Place, limit: nat, k: nat)
    requires k < |Children(t, at, limit)|
    ensures var c := Children(t, at, limit);
            Walk(t, at, c[k].step) ==
            if VariantUnion(t, Peel(t, at.typeId)) then None else Some(c[FirstLike(c, k)].place)
  {
    var chain, step := Wrappers(t, at.typeId, MAX_WRAPPERS), Children(t, at, limit)[k].step;
    if VariantUnion(t, Peel(t, at.typeId)) {
      forall i | 0 <= i < |chain| ensures HeldMember(t, chain[i]).Some? || Enter(t, chain[i], at.address, step).None? {
        if i + 1 < |chain| {
          OutersAreWrappers(t, at.typeId, MAX_WRAPPERS, i);
        }
      }
      NoVariantOutside(t, chain, at.address, step);
    } else {
      StepEntersFirst(t, at, limit, k);
    }
  }

  /**
   A child's step leads back to its own place if and only if the first child with that step has the same place, and the
   parent is no union with variants.
   */
  lemma OwnStepIff(t: Table, at: Place, limit: nat, k: nat)
    requires k < |Children(t, at, limit)|
    ensures var c := Children(t, at, limit);
            Walk(t, at, c[k].step) == Some(c[k].place) <==>
            !VariantUnion(t, Peel(t, at.typeId)) && c[FirstLike(c, k)].place == c[k].place
  {
    StepLeadsToFirst(t, at, limit, k);
  }

  // ----- the two ways agree -----

  ghost predicate DistinctNames(s: StructDef) {
    && (forall i, j :: 0 <= i < j < |s.members| ==> s.members[i].name != s.members[j].name)
    && (s.variantPart.Some? ==>
          var v := s.variantPart.value.variants;
          forall i, j :: 0 <= i < j < |v| ==> v[i].member.name != v[j].member.name)
  }

  /** Members and variants of a type have distinct names, and no union has variants. */
  ghost predicate Unambiguous(t: Table) {
    forall id :: 0 <= id < |t.types| ==> Clear(t.types[id])
  }

  ghost predicate Clear(def: TypeDef) {
    (def.Struct? ==> DistinctNames(def.def)) && (def.Union? ==> DistinctNames(def.def) && def.def.variantPart.None?)
  }

  lemma DistinctSteps(s: StructDef, address: nat, k: nat)
    requires DistinctNames(s) && k < |StructChildren(s, address)|
    ensures FirstLike(StructChildren(s, address), k) == k
  {
    var c := StructChildren(s, address);
    var j := FirstLike(c, k);
    assert c[j].step == c[k].step;
  }

  /** In a table without such names a child's step leads to the place handed out with it. */
  lemma ChildEnters(t: Table, at: Place, limit: nat, k: nat)
    requires Unambiguous(t) && k < |Children(t, at, limit)|
    ensures var c := Children(t, at, limit)[k]; Walk(t, at, c.step) == Some(c.place)
  {
    var id, c := Peel(t, at.typeId), Children(t, at, limit);
    assert Clear(t.types[Underlying(t, id)]) && c[FirstLike(c, k)].step == c[k].step;
    OwnStepIff(t, at, limit, k);
    match Get(t, Underlying(t, id))
    case Some(Struct(s)) => DistinctSteps(s, at.address, k);
    case Some(Union(s)) => DistinctSteps(s, at.address, k);
    case _ =>
  }

  /** Two unnamed members of a union: the step of the second leads to the first, which is another value. */
  lemma UnnamedMembersCollide(t: Table, at: Place, limit: nat, s: StructDef)
    requires Get(t, Underlying(t, Peel(t, at.typeId))) == Some(Union(s)) && s.variantPart.None?
    requires |s.members| >= 2 && s.members[0].name == s.members[1].name == ""
    ensures var c := Children(t, at, limit);
            && |c| == |s.members| && Walk(t, at, c[1].step) == Some(c[0].place)
            && (s.members[0].typeId != s.members[1].typeId ==> Walk(t, at, c[1].step) != Some(c[1].place))
  {
    StepLeadsToFirst(t, at, limit, 1);
  }

  /** `at` was reached from the root by repeatedly taking one of the children handed out. */
  ghost predicate HandedOut(t: Table, root: Place, steps: seq<Step>, at: Place)
    decreases |steps|, 1
  {
    if steps == [] then at == root else
    exists parent: Place, limit: nat, k: nat :: ChildOf(t, root, steps, at, parent, limit, k)
  }

  ghost predicate ChildOf(t: Table, root: Place, steps: seq<Step>, at: Place, parent: Place, limit: nat, k: nat)
    requires steps != []
    decreases |steps|, 0
  {
    && HandedOut(t, root, steps[..|steps| - 1], parent)
    && k < |Children(t, parent, limit)| && Children(t, parent, limit)[k] == Child(steps[|steps| - 1], at)
  }

  /** At any depth, a reference built from children resolves to the very place the tree handed out with it. */
  lemma {:induction false} ReferencesResolve(t: Table, root: Place, steps: seq<Step>, at: Place)
    requires Unambiguous(t) && HandedOut(t, root, steps, at)
    ensures ResolveSteps(t, root, steps) == Some(at)
    decreases |steps|
  {
    if steps != [] {
      var parent: Place, limit: nat, k: nat :| ChildOf(t, root, steps, at, parent, limit, k);
      ReferencesResolve(t, root, steps[..|steps| - 1], parent);
      ChildEnters(t, parent, limit, k);
    }
  }

  // ----- extents -----

  /** A member's value, when its size is known, lies inside what holds it. */
  ghost predicate MemberInside(t: Table, m: Member, size: nat) {
    TypeSize(t, m.typeId).Some? ==> m.offset + TypeSize(t, m.typeId).value <= size
  }

  ghost predicate StructFits(t: Table, s: StructDef) {
    && (forall k :: 0 <= k < |s.members| ==> MemberInside(t, s.members[k], s.size))
    && (s.variantPart.Some? ==>
          var part := s.variantPart.value;
          && (part.tag.Some? ==> MemberInside(t, part.tag.value, s.size))
          && forall k :: 0 <= k < |part.variants| ==> MemberInside(t, part.variants[k].member, s.size))
  }

  ghost predicate Fits(t: Table, def: TypeDef) {
    (def.Struct? || def.Union?) ==> StructFits(t, def.def)
  }

  /** Every member lies inside its type. */
  ghost predicate WellFormed(t: Table) {
    forall id :: 0 <= id < |t.types| ==> Fits(t, t.types[id])
  }

  /** The value at `at`, when its size is known, lies inside the symbol's `size` bytes at `base`. */
  ghost predicate Inside(t: Table, at: Place, base: nat, size: nat) {
    TypeSize(t, at.typeId).Some? ==> base <= at.address && at.address + TypeSize(t, at.typeId).value <= base + size
  }

  lemma StructChildInside(t: Table, s: StructDef, address: nat, base: nat, size: nat, k: nat)
    requires StructFits(t, s) && k < |StructChildren(s, address)|
    requires base <= address && address + s.size <= base + size
    ensures Inside(t, StructChildren(s, address)[k].place, base, size)
  {
    if s.variantPart.Some? {
      var part := s.variantPart.value;
      var tags := if part.tag.Some? then 1 else 0;
      if k >= tags {
        assert MemberInside(t, part.variants[k - tags].member, s.size);
      }
    } else {
      assert MemberInside(t, s.members[k], s.size);
    }
  }

  lemma ElementFits(size: nat, index: nat, count: nat)
    requires index < count
    ensures index * size + size <= size * count
  {
    assert (index + 1) * size <= count * size;
  }

  /** The size behind forward declarations and aliases is the size of what is found there. */
  lemma SizeOfUnderlying(t: Table, id: TypeId)
    ensures TypeSize(t, Underlying(t, Peel(t, id))) == TypeSize(t, id)
  {
    PeelKeepsSize(t, id);
    UnderlyingKeepsSize(t, Peel(t, id), 0);
  }

  lemma ChildInside(t: Table, at: Place, limit: nat, k: nat, base: nat, size: nat)
    requires WellFormed(t) && k < |Children(t, at, limit)| && Inside(t, at, base, size)
    ensures Inside(t, Children(t, at, limit)[k].place, base, size)
  {
    var id := Underlying(t, Peel(t, at.typeId));
    SizeOfUnderlying(t, at.typeId);
    assert Fits(t, t.types[id]);
    match Get(t, id)
    case Some(Struct(s)) =>
      StructChildInside(t, s, at.address, base, size, k);
    case Some(Union(s)) =>
      StructChildInside(t, s, at.address, base, size, k);
    case Some(Array(element, Some(count))) =>
      if TypeSize(t, element).Some? {
        ElementFits(TypeSize(t, element).value, k, count);
      }
    case _ =>
  }

  /** In a well-formed table every value the tree hands out, at any depth, lies inside its symbol. */
  lemma {:induction false} EveryValueIsInside(t: Table, root: Place, steps: seq<Step>, at: Place, size: nat)
    requires WellFormed(t) && HandedOut(t, root, steps, at) && TypeSize(t, root.typeId) == Some(size)
    ensures Inside(t, at, root.address, size)
    decreases |steps|
  {
    if steps != [] {
      var parent: Place, limit: nat, k: nat :| ChildOf(t, root, steps, at, parent, limit, k);
      EveryValueIsInside(t, root, steps[..|steps| - 1], parent, size);
      ChildInside(t, parent, limit, k, root.address, size);
    }
  }

  // ----- what a node says of its children -----

  /** How many children a node is described as having, when that is known. */
  function ChildCount(t: Table, outer: TypeId): Option<nat> {
    match Get(t, Underlying(t, Peel(t, outer)))
    case Some(Struct(s)) =>
      (match s.variantPart
       case Some(part) => Some(|part.variants| + if part.tag.Some? then 1 else 0)
       case None => Some(|s.members|))
    case Some(Union(s)) => Some(|s.members|)
    case Some(Array(_, count)) => count
    case _ => None
  }

  /** The children handed out are as many as the node says, or the limit if that is fewer and it is an array. */
  lemma ChildCountIsHonest(t: Table, at: Place, limit: nat)
    requires Unambiguous(t)
    ensures match ChildCount(t, at.typeId)
            case None => Children(t, at, limit) == []
            case Some(n) =>
              |Children(t, at, limit)| ==
              if Get(t, Underlying(t, Peel(t, at.typeId))).value.Array? && n > limit then limit else n
  {
    var id := Underlying(t, Peel(t, at.typeId));
    if Get(t, id).Some? {
      assert Clear(t.types[id]);
    }
  }
}