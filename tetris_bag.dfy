/**
 * The bag of upcoming pieces. Pieces are not drawn independently: each bag is a
 * shuffled order of all seven pieces, and a second bag is kept ready so that the
 * next pieces can be previewed across the boundary between bags.
 */
module TetrisBag {
  import opened Wrappers
  import opened TetrisPiece

  const NumPieces: nat := 7

  /** The layouts of the O, T, Z, S, J, L and I pieces, in that order. */
  function PrototypeSize(i: nat): (size: nat)
    requires i < NumPieces
    ensures 2 <= size <= 4
  {
    if i == 0 then 2 else if i == 6 then 4 else 3
  }

  function PrototypeLayout(i: nat): (layout: string)
    requires i < NumPieces
    ensures |layout| == PrototypeSize(i) * PrototypeSize(i)
  {
    [ "....", "-.-...---", "..--..---", "-....----", "-..-.--.-", "-.--.--..", "-.---.---.---.--" ][i]
  }

  function PrototypeGrid(i: nat): (g: Grid)
    requires i < NumPieces
    ensures |g| == PrototypeSize(i) && IsSquare(g)
  {
    LayoutGrid(PrototypeSize(i), PrototypeLayout(i))
  }

  /** The piece indices in order. */
  function Identity(): (s: seq<int>)
    ensures |s| == NumPieces && forall k | 0 <= k < NumPieces :: s[k] == k
  {
    [0, 1, 2, 3, 4, 5, 6]
  }

  /** A bag: an order of the seven piece indices in which each of them appears. */
  predicate IsBagOrder(s: seq<int>)
  {
    && |s| == NumPieces
    && (forall k | 0 <= k < |s| :: 0 <= s[k] < NumPieces)
    && (forall v | 0 <= v < NumPieces :: v in s)
  }

  /** Rearranging a bag (keeping each index as often as before) gives a bag. */
  lemma RearrangedBag(a: seq<int>, b: seq<int>)
    requires IsBagOrder(a) && multiset(a) == multiset(b)
    ensures IsBagOrder(b)
  {
    assert |b| == |multiset(b)| == |multiset(a)| == |a|;
    forall k | 0 <= k < |b|
      ensures 0 <= b[k] < NumPieces
    {
      assert b[k] in multiset(b);
    }
    forall v | 0 <= v < NumPieces
      ensures v in b
    {
      assert v in a;
      assert v in multiset(a);
    }
  }

  // Shuffling as written: `array[random.nextInt(i)] = array[i]` for i from 1. The
  // random numbers are the parameter `picks`, with 0 <= picks[i] < i.

  predicate ValidPicks(picks: seq<int>)
  {
    forall i | 1 <= i < |picks| :: 0 <= picks[i] < i
  }

  /** Steps i.. of the shuffle as written: slot picks[i] is overwritten with slot i. */
  function Overwritten(s: seq<int>, picks: seq<int>, i: nat): (r: seq<int>)
    requires |picks| == |s| && ValidPicks(picks) && 1 <= i
    ensures |r| == |s|
    ensures forall k | 0 <= k < |r| :: r[k] in s
    decreases |s| - i
  {
    if i >= |s| then s else Overwritten(s[picks[i] := s[i]], picks, i + 1)
  }

  method ShuffleAsWritten(a: array<int>, picks: seq<int>)
    requires |picks| == a.Length && ValidPicks(picks)
    modifies a
    ensures a[..] == Overwritten(old(a[..]), picks, 1)
  {
    var i := 1;
    while i < a.Length
      invariant 1 <= i
      invariant i <= a.Length || a.Length == 0
      invariant Overwritten(a[..], picks, i) == Overwritten(old(a[..]), picks, 1)
    {
      a[picks[i]] := a[i];
      i := i + 1;
    }
  }

  /**
   * The first step of the shuffle as written always copies slot 1 over slot 0, so piece
   * index 0 (the O piece) never survives: no generated bag contains it.
   */
  lemma ShuffleAsWrittenLosesFirstPiece(picks: seq<int>)
    requires |picks| == NumPieces && ValidPicks(picks)
    ensures 0 !in Overwritten(Identity(), picks, 1)
    ensures !IsBagOrder(Overwritten(Identity(), picks, 1))
  {
    var afterFirst := Identity()[0 := 1];
    assert picks[1] == 0;
    assert Overwritten(Identity(), picks, 1) == Overwritten(afterFirst, picks, 2);
    assert 0 !in afterFirst;
  }

  /** When every random pick is 0, the shuffle as written only copies the last slot over the first. */
  lemma {:induction false} ZeroPicksCopyLast(s: seq<int>, picks: seq<int>, i: nat)
    requires |picks| == |s| && 1 <= i < |s|
    requires forall k | 1 <= k < |picks| :: picks[k] == 0
    ensures Overwritten(s, picks, i) == s[0 := s[|s| - 1]]
    decreases |s| - i
  {
    var s1 := s[0 := s[i]];
    if i + 1 < |s| {
      ZeroPicksCopyLast(s1, picks, i + 1);
      assert s1[0 := s1[|s| - 1]] == s[0 := s[|s| - 1]];
    }
  }

  /** With every pick 0 the bag as written is [6, 1, 2, 3, 4, 5, 6]. */
  lemma ShuffleAsWrittenExample()
    ensures Overwritten(Identity(), [0, 0, 0, 0, 0, 0, 0], 1) == [6, 1, 2, 3, 4, 5, 6]
  {
    ZeroPicksCopyLast(Identity(), [0, 0, 0, 0, 0, 0, 0], 1);
    assert Identity()[0 := 6] == [6, 1, 2, 3, 4, 5, 6];
  }

  /** The intended shuffle: swapping slot i with a slot j <= i keeps every piece exactly once. */
  method Shuffle(a: array<int>)
    modifies a
    ensures multiset(a[..]) == multiset(old(a[..]))
  {
    var i := 1;
    while i < a.Length
      invariant 1 <= i
      invariant multiset(a[..]) == multiset(old(a[..]))
    {
      var j :| 0 <= j <= i;
      a[i], a[j] := a[j], a[i];
      i := i + 1;
    }
  }

  method GeneratePieceIndices() returns (indices: array<int>)
    ensures fresh(indices) && IsBagOrder(indices[..])
  {
    indices := new int[NumPieces];
    for i := 0 to NumPieces
      invariant forall k | 0 <= k < i :: indices[k] == k
    {
      indices[i] := i;
    }
    assert indices[..] == Identity();
    Shuffle(indices);
    RearrangedBag(Identity(), indices[..]);
  }

  method GeneratePieceIndicesAsWritten(picks: seq<int>) returns (indices: array<int>)
    requires |picks| == NumPieces && ValidPicks(picks)
    ensures fresh(indices) && indices[..] == Overwritten(Identity(), picks, 1)
  {
    indices := new int[NumPieces];
    for i := 0 to NumPieces
      invariant forall k | 0 <= k < i :: indices[k] == k
    {
      indices[i] := i;
    }
    assert indices[..] == Identity();
    ShuffleAsWritten(indices, picks);
  }

  /** The bag's indices as values: the current bag, the next one, and the position in the current one. */
  datatype BagState = BagState(bag: seq<int>, nextBag: seq<int>, grabIndex: int)

  predicate BagOk(s: BagState)
  {
    IsBagOrder(s.bag) && IsBagOrder(s.nextBag) && 0 <= s.grabIndex < NumPieces
  }

  /** The pieces still to come, in order: the rest of this bag, then the next bag. */
  function Upcoming(s: BagState): (u: seq<int>)
    requires BagOk(s)
    ensures NumPieces < |u| <= 2 * NumPieces && u[NumPieces - s.grabIndex..] == s.nextBag
  {
    s.bag[s.grabIndex..] + s.nextBag
  }

  /** The index of the piece drawn next: the first of the upcoming pieces. */
  function NextIndex(s: BagState): (i: nat)
    requires BagOk(s)
    ensures i < NumPieces && i == Upcoming(s)[0]
  {
    s.bag[s.grabIndex]
  }

  /**
   * Drawing a piece: advance in the bag; at its end the next bag becomes current and
   * `made`, a newly made bag, becomes the next one.
   */
  function Advanced(s: BagState, made: seq<int>): (s': BagState)
    requires BagOk(s) && IsBagOrder(made)
    ensures BagOk(s') && s'.nextBag == (if s.grabIndex + 1 < NumPieces then s.nextBag else made)
  {
    if s.grabIndex + 1 < NumPieces then s.(grabIndex := s.grabIndex + 1)
    else BagState(s.nextBag, made, 0)
  }

  /** A draw leads from s to s', for some newly made bag. */
  ghost predicate NextRel(s: BagState, s': BagState)
    requires BagOk(s)
  {
    IsBagOrder(s'.nextBag) && s' == Advanced(s, s'.nextBag)
  }

  /** After a draw, the pieces that were to come after the drawn one are still to come, in order. */
  lemma NextKeepsUpcomingOrder(s: BagState, s': BagState)
    requires BagOk(s) && NextRel(s, s')
    ensures BagOk(s')
    ensures Upcoming(s)[1..] == Upcoming(s')[..|Upcoming(s)| - 1]
  {
    if s.grabIndex + 1 < NumPieces {
      assert Upcoming(s)[1..] == s.bag[s.grabIndex + 1..] + s.nextBag;
    } else {
      assert Upcoming(s)[1..] == s.nextBag;
      assert Upcoming(s') == s.nextBag + s'.nextBag;
    }
  }

  /** Drawing from the start of a bag, the next seven pieces are all seven pieces, each once. */
  lemma FreshBagHasEveryPiece(s: BagState)
    requires BagOk(s) && s.grabIndex == 0
    ensures IsBagOrder(Upcoming(s)[..NumPieces])
  {
    assert Upcoming(s)[..NumPieces] == s.bag;
  }

  /** ss is a run of draws: each state is a valid bag state, and each leads to the next by one draw. */
  ghost predicate Draws(ss: seq<BagState>)
  {
    && (forall k | 0 <= k < |ss| :: BagOk(ss[k]))
    && (forall k | 0 <= k < |ss| - 1 :: NextRel(ss[k], ss[k + 1]))
  }

  /** After k draws, the pieces that were to come from the k-th one on are still to come, in order. */
  lemma {:induction false} UpcomingAfterDraws(ss: seq<BagState>, k: nat)
    requires Draws(ss) && k < |ss| && k < |Upcoming(ss[0])|
    ensures |Upcoming(ss[0])| - k <= |Upcoming(ss[k])|
    ensures Upcoming(ss[0])[k..] == Upcoming(ss[k])[..|Upcoming(ss[0])| - k]
  {
    if k > 0 {
      UpcomingAfterDraws(ss, k - 1);
      var u0, prev, cur := Upcoming(ss[0]), Upcoming(ss[k - 1]), Upcoming(ss[k]);
      NextKeepsUpcomingOrder(ss[k - 1], ss[k]);
      assert u0[k..] == u0[k - 1..][1..];
      assert u0[k - 1..][1..] == prev[..|u0| - (k - 1)][1..];
      assert prev[..|u0| - (k - 1)][1..] == prev[1..][..|u0| - k];
      assert prev[1..][..|u0| - k] == cur[..|prev| - 1][..|u0| - k];
    }
  }

  /**
   * The preview at offset n shows the piece that a run of draws returns at its (n+1)-th
   * draw: ss[n] is the state after n draws, and NextIndex(ss[n]) is what the next draw gives.
   */
  lemma PeekIsNthDraw(ss: seq<BagState>, n: nat)
    requires Draws(ss) && |ss| == n + 1 && ss[0].grabIndex + n < 2 * NumPieces
    ensures PeekIndex(ss[0], n) == Some(NextIndex(ss[n]))
  {
    UpcomingAfterDraws(ss, n);
    assert Upcoming(ss[0])[n] == Upcoming(ss[0])[n..][0];
  }

  /** The slot the preview reads for offset n, or None where the source throws. */
  function PeekIndex(s: BagState, n: int): (r: Option<int>)
    requires BagOk(s)
    ensures r.Some? <==> 0 <= s.grabIndex + n < 2 * NumPieces
    ensures r.Some? ==> 0 <= r.value < NumPieces
    ensures r.Some? && 0 <= n ==> n < |Upcoming(s)| && r.value == Upcoming(s)[n]
  {
    var index := s.grabIndex + n;
    if index > NumPieces * 2 - 1 || index < 0 then None
    else if index < NumPieces then Some(s.bag[index])
    else Some(s.nextBag[index - NumPieces])
  }

  class Bag {
    const prototypes: seq<Piece>
    var bag: array<int>
    var nextBag: array<int>
    var grabIndex: int

    ghost function PrototypeSlots(): set<array2<bool>>
      reads prototypes
    {
      set i | 0 <= i < |prototypes| :: prototypes[i].slots
    }

    ghost predicate PrototypesOk()
      reads prototypes, PrototypeSlots()
    {
      && |prototypes| == NumPieces
      && forall i | 0 <= i < NumPieces ::
           prototypes[i].Valid() && prototypes[i].size == PrototypeSize(i) && prototypes[i].cells == PrototypeGrid(i)
    }

    ghost predicate Valid()
      reads this, bag, nextBag, prototypes, PrototypeSlots()
    {
      && PrototypesOk()
      && bag != nextBag
      && BagOk(Abs())
    }

    ghost function Abs(): BagState
      reads this, bag, nextBag
    {
      BagState(bag[..], nextBag[..], grabIndex)
    }

    constructor ()
      ensures Valid() && fresh(bag) && fresh(nextBag) && grabIndex == 0
    {
      var ps := MakePrototypes();
      prototypes := ps;
      grabIndex := 0;
      bag := new int[NumPieces];
      nextBag := new int[NumPieces];
      new;
      Reset();
    }

    /** The seven prototype pieces, in order. */
    static method MakePrototypes() returns (ps: seq<Piece>)
      ensures |ps| == NumPieces
      ensures forall i | 0 <= i < NumPieces ::
        ps[i].Valid() && ps[i].size == PrototypeSize(i) && ps[i].cells == PrototypeGrid(i)
    {
      var o := new Piece.Layout(2, "....");
      var t := new Piece.Layout(3, "-.-...---");
      var z := new Piece.Layout(3, "..--..---");
      var s := new Piece.Layout(3, "-....----");
      var j := new Piece.Layout(3, "-..-.--.-");
      var l := new Piece.Layout(3, "-.--.--..");
      var i := new Piece.Layout(4, "-.---.---.---.--");
      ps := [o, t, z, s, j, l, i];
    }

    /** Two new bags; the position in the bag is kept, as in the source. */
    method Reset()
      requires PrototypesOk() && 0 <= grabIndex < NumPieces
      modifies this
      ensures Valid() && fresh(bag) && fresh(nextBag) && grabIndex == old(grabIndex)
    {
      var b := GeneratePieceIndices();
      var n := GeneratePieceIndices();
      bag, nextBag := b, n;
    }

    /** A copy, sharing its grid, of the prototype of the next piece; the bag moves on by one. */
    method NextPiece() returns (piece: Piece)
      requires Valid()
      modifies this
      ensures Valid() && NextRel(old(Abs()), Abs())
      ensures fresh(piece) && piece.Valid()
      ensures piece.size == PrototypeSize(NextIndex(old(Abs()))) && piece.cells == PrototypeGrid(NextIndex(old(Abs())))
      ensures fresh(nextBag) || nextBag == old(nextBag)
      ensures bag == old(bag) || bag == old(nextBag)
    {
      ghost var s := Abs();
      var prototypeIndex := bag[grabIndex];
      assert prototypeIndex == NextIndex(s);
      piece := prototypes[prototypeIndex].Clone();
      grabIndex := grabIndex + 1;
      if grabIndex == NumPieces {
        var generated := GeneratePieceIndices();
        bag, nextBag, grabIndex := nextBag, generated, 0;
      }
    }

    /** The prototype the preview shows n pieces ahead; null where the source throws. */
    method PeekPiecePrototype(n: int) returns (piece: Piece?)
      requires Valid()
      ensures PeekIndex(Abs(), n).None? ==> piece == null
      ensures PeekIndex(Abs(), n).Some? ==> piece == prototypes[PeekIndex(Abs(), n).value]
    {
      var index := grabIndex + n;
      if index > NumPieces * 2 - 1 || index < 0 {
        return null;
      }
      var prototypeIndex := if index < NumPieces then bag[index] else nextBag[index - NumPieces];
      piece := prototypes[prototypeIndex];
    }
  }
}
