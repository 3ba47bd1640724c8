/** The order of the coefficients of a block: figure A.6 of ITU-T T.81. */
module JpegZigzag {
  function Pick(i: nat, a: nat, b: nat, c: nat, d: nat, e: nat, f: nat, g: nat, h: nat): nat {
    if i < 4 then (if i < 2 then (if i == 0 then a else b) else if i == 2 then c else d)
    else if i < 6 then (if i == 4 then e else f) else if i == 6 then g else h
  }

  /** stbi__jpeg_dezigzag, eight entries a line, with room for runs that lead past the end of the block. */
  function Zigzag(i: nat): (z: nat)
    requires i < 79
    ensures z < 64
  {
    if i < 8 then Pick(i, 0, 1, 8, 16, 9, 2, 3, 10)
    else if i < 16 then Pick(i - 8, 17, 24, 32, 25, 18, 11, 4, 5)
    else if i < 24 then Pick(i - 16, 12, 19, 26, 33, 40, 48, 41, 34)
    else if i < 32 then Pick(i - 24, 27, 20, 13, 6, 7, 14, 21, 28)
    else if i < 40 then Pick(i - 32, 35, 42, 49, 56, 57, 50, 43, 36)
    else if i < 48 then Pick(i - 40, 29, 22, 15, 23, 30, 37, 44, 51)
    else if i < 56 then Pick(i - 48, 58, 59, 52, 45, 38, 31, 39, 46)
    else if i < 64 then Pick(i - 56, 53, 60, 61, 54, 47, 55, 62, 63)
    else 63
  }

  /** A place of the block, a matrix of eight rows of eight. */
  datatype Place = Place(row: nat, col: nat) {
    predicate Inside() { row < 8 && col < 8 }

    /** Row and column have an even sum. */
    predicate Up() { row + col in {0, 2, 4, 6, 8, 10, 12, 14} }
  }

  /** The antidiagonals are walked one after the other, upwards if row and column have an even sum and
      downwards if it is odd. */
  function Next(p: Place): (q: Place)
    requires p.Inside()
    ensures q.row + q.col == p.row + p.col ==> q.row == if p.Up() then p.row - 1 else p.row + 1
    ensures q.row + q.col == p.row + p.col || q.row + q.col == p.row + p.col + 1
  {
    if p.Up() then
      if p.col == 7 then Place(p.row + 1, 7) else if p.row == 0 then Place(0, p.col + 1) else Place(p.row - 1, p.col + 1)
    else
      if p.row == 7 then Place(7, p.col + 1) else if p.col == 0 then Place(p.row + 1, 0) else Place(p.row + 1, p.col - 1)
  }

  /** The number of places on antidiagonal `s`, and on those before it. */
  function Length(s: nat): int { if s < 8 then s + 1 else 15 - s }

  function Before(s: nat): int { if s == 0 then 0 else Before(s - 1) + Length(s - 1) }

  /** How many places come before `p`. */
  function Number(p: Place): int
    requires p.Inside()
  {
    var s := p.row + p.col;
    Before(s) + if p.Up() then (if s < 8 then p.col else 7 - p.row) else if s < 8 then p.row else 7 - p.col
  }

  lemma Turns(p: Place, q: Place)
    requires p.Inside() && q.Inside()
    ensures q.row + q.col == p.row + p.col + 1 ==> q.Up() == !p.Up()
    ensures q.row + q.col == p.row + p.col ==> q.Up() == p.Up()
  {}

  /** The walk comes to the places in the order of their numbers. */
  lemma NextNumber(p: Place)
    requires p.Inside() && p != Place(7, 7)
    ensures Next(p).Inside() && Number(Next(p)) == Number(p) + 1
  {
    NextInside(p);
    if Next(p).row + Next(p).col == p.row + p.col { Along(p); } else { Over(p); }
  }

  lemma Along(p: Place)
    requires p.Inside() && Next(p).Inside() && Next(p).row + Next(p).col == p.row + p.col
    ensures Number(Next(p)) == Number(p) + 1
  {
    hide Place.Up, Before;
    Turns(p, Next(p));
  }

  lemma Over(p: Place)
    requires p.Inside() && Next(p).Inside() && Next(p).row + Next(p).col == p.row + p.col + 1
    ensures Number(Next(p)) == Number(p) + 1
  {
    hide Place.Up, Before;
    BeforeNext(p.row + p.col);
    Turns(p, Next(p));
  }

  lemma BeforeNext(s: nat)
    ensures Before(s + 1) == Before(s) + Length(s)
  {}

  lemma NextInside(p: Place)
    requires p.Inside() && p != Place(7, 7)
    ensures Next(p).Inside()
  {}

  lemma NumberIn(p: Place)
    requires p.Inside()
    ensures var s := p.row + p.col; Before(s) <= Number(p) < Before(s + 1) && (s == 14 ==> p == Place(7, 7))
  {
    hide Place.Up;
  }

  lemma NumberBound(p: Place)
    requires p.Inside()
    ensures 0 <= Number(p) < 64 && (Number(p) == 63 <==> p == Place(7, 7))
  {
    hide Number;
    var s := p.row + p.col;
    NumberIn(p);
    BeforeAre();
    BeforeGrows(s + 1, if s < 14 then 14 else 15);
    BeforeGrows(s, s);
  }

  lemma BeforeAre()
    ensures Before(14) == 63 && Before(15) == 64
  {
    assert Before(4) == 10;
    assert Before(8) == 36;
    assert Before(11) == 54;
  }

  lemma {:induction false} BeforeGrows(s: nat, s': nat)
    requires s <= s' <= 15
    ensures 0 <= Before(s) <= Before(s')
    decreases s'
  {
    if s < s' { BeforeGrows(s, s' - 1); } else if s > 0 { BeforeGrows(s - 1, s - 1); }
  }

  lemma NumberedOnce(p: Place, q: Place)
    requires p.Inside() && q.Inside() && Number(p) == Number(q)
    ensures p == q
  {
    hide Before, Place.Up;
    var s, s' := p.row + p.col, q.row + q.col;
    NumberIn(p);
    NumberIn(q);
    if s < s' { BeforeGrows(s + 1, s'); } else if s' < s { BeforeGrows(s' + 1, s); } else { Turns(p, q); }
  }

  /** The place where the walk is after `i` steps. */
  function Walk(i: nat): (p: Place)
    requires i < 64
    ensures p.Inside() && Number(p) == i
  {
    if i == 0 then Place(0, 0)
    else
      NumberBound(Walk(i - 1));
      NextNumber(Walk(i - 1));
      Next(Walk(i - 1))
  }

  /** Places are stored row by row. */
  function Stored(p: Place): nat { 8 * p.row + p.col }

  function PlaceOf(z: nat): Place { Place(z / 8, z % 8) }

  // The steps of the table, line by line.

  lemma Line0(i: nat)
    requires 1 <= i < 8
    ensures Next(PlaceOf(Zigzag(i))) == PlaceOf(Zigzag(i + 1))
  {}

  lemma Line1(i: nat)
    requires 8 <= i < 16
    ensures Next(PlaceOf(Zigzag(i))) == PlaceOf(Zigzag(i + 1))
  {}

  lemma Line2(i: nat)
    requires 16 <= i < 24
    ensures Next(PlaceOf(Zigzag(i))) == PlaceOf(Zigzag(i + 1))
  {}

  lemma Line3(i: nat)
    requires 24 <= i < 32
    ensures Next(PlaceOf(Zigzag(i))) == PlaceOf(Zigzag(i + 1))
  {}

  lemma Line4(i: nat)
    requires 32 <= i < 40
    ensures Next(PlaceOf(Zigzag(i))) == PlaceOf(Zigzag(i + 1))
  {}

  lemma Line5(i: nat)
    requires 40 <= i < 48
    ensures Next(PlaceOf(Zigzag(i))) == PlaceOf(Zigzag(i + 1))
  {}

  lemma Line6(i: nat)
    requires 48 <= i < 56
    ensures Next(PlaceOf(Zigzag(i))) == PlaceOf(Zigzag(i + 1))
  {}

  lemma Line7(i: nat)
    requires 56 <= i < 63
    ensures Next(PlaceOf(Zigzag(i))) == PlaceOf(Zigzag(i + 1))
  {}

  lemma {:induction false} OnWalk(i: nat)
    requires i < 64
    ensures Walk(i) == PlaceOf(Zigzag(i))
  {
    if i > 1 {
      hide Zigzag, Next;
      OnWalk(i - 1);
      match (i - 1) / 8
      case 0 => Line0(i - 1);
      case 1 => Line1(i - 1);
      case 2 => Line2(i - 1);
      case 3 => Line3(i - 1);
      case 4 => Line4(i - 1);
      case 5 => Line5(i - 1);
      case 6 => Line6(i - 1);
      case _ => Line7(i - 1);
    } else {
      assert Walk(0) == Place(0, 0) && Next(Place(0, 0)) == Place(0, 1);
    }
  }

  /** The table is the walk along the antidiagonals. Each place of the block comes exactly once, and a
      run that leads past the end goes to the last one. */
  lemma ZigzagIs()
    ensures Zigzag(0) == 0 && forall i: nat | i < 63 :: Zigzag(i) == Stored(Walk(i)) && Zigzag(i + 1) == Stored(Next(Walk(i)))
    ensures forall p: Place | p.Inside() :: 0 <= Number(p) < 64 && Zigzag(Number(p)) == Stored(p)
    ensures forall i: nat, j: nat | i < j < 64 :: Zigzag(i) != Zigzag(j)
    ensures forall i: nat | 64 <= i < 79 :: Zigzag(i) == 63
  {
    hide Zigzag, Number, Next, Walk;
    forall i: nat | i < 63
      ensures Zigzag(i) == Stored(Walk(i)) && Zigzag(i + 1) == Stored(Next(Walk(i)))
    {
      OnWalk(i);
      OnWalk(i + 1);
      WalkStep(i);
    }
    Ends();
    forall p: Place | p.Inside()
      ensures 0 <= Number(p) < 64 && Zigzag(Number(p)) == Stored(p)
    {
      NumberBound(p);
      NumberedOnce(p, Walk(Number(p)));
      OnWalk(Number(p));
    }
    forall i: nat, j: nat | i < j < 64
      ensures Zigzag(i) != Zigzag(j)
    {
      Apart(i, j);
    }
  }

  lemma Apart(i: nat, j: nat)
    requires i < 64 && j < 64 && i != j
    ensures Zigzag(i) != Zigzag(j)
  {
    hide Zigzag, Number;
    OnWalk(i);
    OnWalk(j);
    SamePlace(Walk(i), Walk(j));
  }

  lemma WalkStep(i: nat)
    requires i < 63
    ensures Walk(i + 1) == Next(Walk(i))
  {}

  lemma Ends()
    ensures Zigzag(0) == 0 && forall i: nat | 64 <= i < 79 :: Zigzag(i) == 63
  {}

  lemma SamePlace(p: Place, q: Place)
    requires p.Inside() && q.Inside()
    ensures Stored(p) == Stored(q) ==> p == q
  {}
}
