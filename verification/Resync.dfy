/**
 The resynchronising pass of the frame decoder, apart from what a frame looks like.

 Each offset of a byte string is classified once: not a magic byte, a magic byte that is no frame, a frame of some
 size, or a magic byte with too little after it to tell. The pass walks left to right and jumps over accepted frames.
 */
module Resync {

  datatype Cell = Skip | Wait | Reject | Accept(size: nat)

  /** Accepted frames are not empty and lie inside the string. */
  ghost predicate Fits(cells: seq<Cell>) {
    forall i :: 0 <= i < |cells| && cells[i].Accept? ==> 0 < cells[i].size && i + cells[i].size <= |cells|
  }

  /** Where frames were accepted, how many magic bytes were given up on, and where the kept bytes start. */
  datatype Outcome = Outcome(hits: seq<nat>, bad: nat, end: nat)

  function Scan(cells: seq<Cell>, i: nat): Outcome
    requires i <= |cells|
    decreases |cells| - i
  {
    if i == |cells| then Outcome([], 0, i)
    else match cells[i]
      case Skip => Scan(cells, i + 1)
      case Wait => Outcome([], 0, i)
      case Reject => var r := Scan(cells, i + 1); r.(bad := r.bad + 1)
      case Accept(size) =>
        if 0 < size <= |cells| - i then
          var r := Scan(cells, i + size); r.(hits := [i] + r.hits)
        else
          Outcome([], 0, i)
  }

  // ----- the same, without running the pass -----

  ghost predicate Hit(cells: seq<Cell>, h: nat, i: nat)
    requires h < |cells|
  {
    cells[h].Accept? && h <= i < h + cells[h].size
  }

  /** Offset `i` lies in one of the accepted frames. */
  ghost predicate Covered(cells: seq<Cell>, hits: seq<nat>, i: nat) {
    exists k :: 0 <= k < |hits| && hits[k] < |cells| && Hit(cells, hits[k], i)
  }

  /** The accepted frames lie in `[from, end)`, in order and apart. */
  ghost predicate Ordered(cells: seq<Cell>, from: nat, hits: seq<nat>, end: nat) {
    && end <= |cells|
    && (hits != [] ==> from < end)
    && (forall k :: 0 <= k < |hits| ==>
          from <= hits[k] < end && cells[hits[k]].Accept? && hits[k] + cells[hits[k]].size <= end)
    && (forall j, k :: 0 <= j < k < |hits| ==> hits[j] + cells[hits[j]].size <= hits[k])
  }

  /** `hits` are the frames of `cells` from `from` on, and `end` is the first byte still waiting for more. */
  ghost predicate IsParse(cells: seq<Cell>, from: nat, hits: seq<nat>, end: nat) {
    && from <= end
    && Ordered(cells, from, hits, end)
    && (forall i {:trigger Covered(cells, hits, i)} ::
          from <= i < end && (cells[i].Accept? || cells[i].Wait?) ==> Covered(cells, hits, i))
    && (end == |cells| || cells[end].Wait?)
  }

  /** Magic bytes in `[from, upto)` outside every accepted frame. */
  ghost function Loose(cells: seq<Cell>, hits: seq<nat>, from: nat, upto: nat): nat
    requires from <= upto <= |cells|
    decreases upto - from
  {
    if from == upto then 0
    else (if !cells[from].Skip? && !Covered(cells, hits, from) then 1 else 0) + Loose(cells, hits, from + 1, upto)
  }

  lemma {:induction false} LooseSame(cells: seq<Cell>, a: seq<nat>, b: seq<nat>, from: nat, upto: nat)
    requires from <= upto <= |cells|
    requires forall i :: from <= i < upto ==> (Covered(cells, a, i) <==> Covered(cells, b, i))
    ensures Loose(cells, a, from, upto) == Loose(cells, b, from, upto)
    decreases upto - from
  {
    if from < upto {
      LooseSame(cells, a, b, from + 1, upto);
    }
  }

  lemma {:induction false} LooseSkipsCovered(cells: seq<Cell>, hits: seq<nat>, from: nat, mid: nat, upto: nat)
    requires from <= mid <= upto <= |cells|
    requires forall i :: from <= i < mid ==> Covered(cells, hits, i)
    ensures Loose(cells, hits, from, upto) == Loose(cells, hits, mid, upto)
    decreases mid - from
  {
    if from < mid {
      LooseSkipsCovered(cells, hits, from + 1, mid, upto);
    }
  }

  lemma CoveredByFirst(cells: seq<Cell>, h: nat, hits: seq<nat>, i: nat)
    requires h < |cells|
    ensures Covered(cells, [h] + hits, i) <==> Hit(cells, h, i) || Covered(cells, hits, i)
  {
    var all := [h] + hits;
    if Hit(cells, h, i) {
      assert all[0] == h;
    }
    if Covered(cells, hits, i) {
      var k :| 0 <= k < |hits| && hits[k] < |cells| && Hit(cells, hits[k], i);
      assert all[k + 1] == hits[k];
    }
    if Covered(cells, all, i) && !Hit(cells, h, i) {
      var k :| 0 <= k < |all| && all[k] < |cells| && Hit(cells, all[k], i);
      assert hits[k - 1] == all[k];
    }
  }

  lemma OrderedPrepend(cells: seq<Cell>, i: nat, hits: seq<nat>, end: nat)
    requires Fits(cells) && i < |cells| && cells[i].Accept?
    requires Ordered(cells, i + cells[i].size, hits, end) && i + cells[i].size <= end
    ensures Ordered(cells, i, [i] + hits, end)
  {
    var all := [i] + hits;
    forall k | 0 <= k < |all|
      ensures i <= all[k] < end && cells[all[k]].Accept? && all[k] + cells[all[k]].size <= end
    {
      if k > 0 { assert all[k] == hits[k - 1]; }
    }
    forall j, k | 0 <= j < k < |all|
      ensures all[j] + cells[all[j]].size <= all[k]
    {
      assert all[k] == hits[k - 1];
      if j > 0 { assert all[j] == hits[j - 1]; }
    }
  }

  lemma NothingBefore(cells: seq<Cell>, from: nat, hits: seq<nat>, end: nat, i: nat)
    requires Ordered(cells, from, hits, end) && i < from
    ensures !Covered(cells, hits, i)
  {
  }

  lemma ParsePrepend(cells: seq<Cell>, i: nat, hits: seq<nat>, end: nat)
    requires Fits(cells) && i < |cells| && cells[i].Accept?
    requires IsParse(cells, i + cells[i].size, hits, end)
    ensures IsParse(cells, i, [i] + hits, end)
    ensures Loose(cells, [i] + hits, i, end) == Loose(cells, hits, i + cells[i].size, end)
  {
    var all, next := [i] + hits, i + cells[i].size;
    OrderedPrepend(cells, i, hits, end);
    assert forall j :: Covered(cells, all, j) <==> Hit(cells, i, j) || Covered(cells, hits, j) by {
      forall j { CoveredByFirst(cells, i, hits, j); }
    }
    LooseSkipsCovered(cells, all, i, next, end);
    LooseSame(cells, all, hits, next, end);
  }

  lemma ParseUnskip(cells: seq<Cell>, i: nat, hits: seq<nat>, end: nat)
    requires i < |cells| && (cells[i].Skip? || cells[i].Reject?)
    requires IsParse(cells, i + 1, hits, end)
    ensures IsParse(cells, i, hits, end)
    ensures Loose(cells, hits, i, end) == Loose(cells, hits, i + 1, end) + if cells[i].Reject? then 1 else 0
  {
    NothingBefore(cells, i + 1, hits, end, i);
  }

  lemma EmptyParse(cells: seq<Cell>, i: nat)
    requires i <= |cells| && (i == |cells| || cells[i].Wait?)
    ensures IsParse(cells, i, [], i) && Loose(cells, [], i, i) == 0
  {
  }

  ghost predicate Exact(cells: seq<Cell>, i: nat, r: Outcome) {
    IsParse(cells, i, r.hits, r.end) && r.bad == Loose(cells, r.hits, i, r.end)
  }

  lemma ExactAccept(cells: seq<Cell>, i: nat)
    requires Fits(cells) && i < |cells| && cells[i].Accept?
    requires Exact(cells, i + cells[i].size, Scan(cells, i + cells[i].size))
    ensures Exact(cells, i, Scan(cells, i))
  {
    var r := Scan(cells, i + cells[i].size);
    ParsePrepend(cells, i, r.hits, r.end);
  }

  lemma ExactSkip(cells: seq<Cell>, i: nat)
    requires i < |cells| && (cells[i].Skip? || cells[i].Reject?)
    requires Exact(cells, i + 1, Scan(cells, i + 1))
    ensures Exact(cells, i, Scan(cells, i))
  {
    var r := Scan(cells, i + 1);
    ParseUnskip(cells, i, r.hits, r.end);
  }

  /** The pass produces a parse, and counts exactly the magic bytes it threw away. */
  lemma {:induction false} ScanIsParse(cells: seq<Cell>, i: nat)
    requires Fits(cells) && i <= |cells|
    ensures Exact(cells, i, Scan(cells, i))
    decreases |cells| - i
  {
    if i == |cells| || cells[i].Wait? {
      EmptyParse(cells, i);
    } else if cells[i].Accept? {
      ScanIsParse(cells, i + cells[i].size);
      ExactAccept(cells, i);
    } else {
      ScanIsParse(cells, i + 1);
      ExactSkip(cells, i);
    }
  }

  lemma FirstHit(cells: seq<Cell>, from: nat, hits: seq<nat>, end: nat)
    requires IsParse(cells, from, hits, end) && from < end && cells[from].Accept?
    ensures hits != [] && hits[0] == from
  {
    assert Covered(cells, hits, from);
    var k :| 0 <= k < |hits| && hits[k] < |cells| && Hit(cells, hits[k], from);
    if k > 0 {
      assert hits[0] + cells[hits[0]].size <= hits[k];
    }
  }

  lemma ParseRest(cells: seq<Cell>, from: nat, hits: seq<nat>, end: nat)
    requires Fits(cells) && IsParse(cells, from, hits, end) && from < end && cells[from].Accept?
    requires hits != [] && hits[0] == from
    ensures IsParse(cells, from + cells[from].size, hits[1..], end)
  {
    assert hits == [from] + hits[1..];
    assert |hits| > 1 ==> hits[0] + cells[hits[0]].size <= hits[1];
    forall k | 0 <= k < |hits[1..]| ensures from + cells[from].size <= hits[1..][k] {
      assert hits[0] + cells[hits[0]].size <= hits[k + 1];
    }
    forall i | from + cells[from].size <= i < end && Covered(cells, hits, i)
      ensures Covered(cells, hits[1..], i)
    {
      CoveredByFirst(cells, from, hits[1..], i);
    }
  }

  lemma ParseSkip(cells: seq<Cell>, from: nat, hits: seq<nat>, end: nat)
    requires IsParse(cells, from, hits, end) && from < end && !cells[from].Accept?
    ensures IsParse(cells, from + 1, hits, end) && !cells[from].Wait?
  {
    assert cells[from].Wait? ==> Covered(cells, hits, from);
    assert hits != [] ==> cells[hits[0]].Accept?;
    forall k | 0 <= k < |hits| ensures from < hits[k] {
      assert cells[hits[k]].Accept?;
    }
  }

  lemma NoHits(cells: seq<Cell>, from: nat, hits: seq<nat>)
    requires IsParse(cells, from, hits, from)
    ensures hits == [] && Scan(cells, from).hits == [] && Scan(cells, from).end == from
  {
  }

  lemma ScanAccept(cells: seq<Cell>, from: nat, hits: seq<nat>)
    requires Fits(cells) && from < |cells| && cells[from].Accept? && hits != [] && hits[0] == from
    requires Scan(cells, from + cells[from].size).hits == hits[1..]
    ensures Scan(cells, from).hits == hits
    ensures Scan(cells, from).end == Scan(cells, from + cells[from].size).end
  {
  }

  /** There is only one parse. */
  lemma {:induction false} ParseIsUnique(cells: seq<Cell>, from: nat, hits: seq<nat>, end: nat)
    requires Fits(cells) && IsParse(cells, from, hits, end)
    ensures Scan(cells, from).hits == hits && Scan(cells, from).end == end
    decreases |cells| - from
  {
    if from == end {
      NoHits(cells, from, hits);
    } else if cells[from].Accept? {
      FirstHit(cells, from, hits, end);
      ParseRest(cells, from, hits, end);
      ParseIsUnique(cells, from + cells[from].size, hits[1..], end);
      ScanAccept(cells, from, hits);
    } else {
      ParseSkip(cells, from, hits, end);
      ParseIsUnique(cells, from + 1, hits, end);
    }
  }
}
