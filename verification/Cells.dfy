/** The cell of a maze (class CL): four walls packed into one character. */
module Cells {

  /** The C type `char`, signed and eight bits wide. */
  type cchar = x: int | -128 <= x < 128

  /** Sides are numbered clockwise: 0 top, 1 right, 2 bottom, 3 left. */
  type Side = d: int | 0 <= d < 4

  /** Conversion of an int back to `char` after `+=` or `-=`. */
  function Narrow(x: int): (c: cchar)
    ensures -128 <= x < 128 ==> c == x
  {
    if -128 <= x < 128 then x else (x + 128) % 256 - 128
  }

  /** It keeps the remainder modulo 256. */
  lemma NarrowIsCongruent(x: int)
    ensures Narrow(x) % 256 == x % 256
  {
    var k := (x + 128) / 256;
    assert (x + 128) % 256 - 128 == x - k * 256;
  }

  function Opposite(d: Side): Side {
    (d + 2) % 4
  }

  function Bit(d: Side): int {
    if d == 0 then 8 else if d == 1 then 4 else if d == 2 then 2 else 1
  }

  /** The sixteen internal wall characters '0'..'9', ':', ';', '<', '=', '>', '?'. */
  predicate IsCode(c: cchar) {
    0x30 <= c <= 0x3F
  }

  predicate HasTopWall(c: cchar) {
    0x38 <= c <= 0x3F
  }

  predicate HasRightWall(c: cchar) {
    0x34 <= c <= 0x37 || 0x3C <= c <= 0x3F
  }

  predicate HasBottomWall(c: cchar) {
    || c == 0x32 || c == 0x33 || c == 0x36 || c == 0x37
    || c == 0x3A || c == 0x3B || c == 0x3E || c == 0x3F
  }

  predicate HasLeftWall(c: cchar) {
    || c == 0x31 || c == 0x33 || c == 0x35 || c == 0x37
    || c == 0x39 || c == 0x3B || c == 0x3D || c == 0x3F
  }

  function Flag(b: bool): int {
    if b then 1 else 0
  }

  /** The four walls of a cell. */
  datatype Walls = Walls(top: bool, right: bool, bottom: bool, left: bool)
  {
    predicate Has(d: Side) {
      if d == 0 then top else if d == 1 then right else if d == 2 then bottom else left
    }

    function Set(d: Side, b: bool): (w: Walls)
      ensures forall e: Side :: w.Has(e) == if e == d then b else Has(e)
      ensures w.Count() == Count() + Flag(b) - Flag(Has(d))
    {
      if d == 0 then this.(top := b) else if d == 1 then this.(right := b)
      else if d == 2 then this.(bottom := b) else this.(left := b)
    }

    function Count(): int {
      Flag(top) + Flag(right) + Flag(bottom) + Flag(left)
    }
  }

  /** The walls a character stands for; a character outside '0'..'?' has none. */
  function Decode(c: cchar): (w: Walls)
    ensures !IsCode(c) ==> w == Walls(false, false, false, false)
  {
    Walls(HasTopWall(c), HasRightWall(c), HasBottomWall(c), HasLeftWall(c))
  }

  /** The character that carries exactly the given walls. */
  function Encode(w: Walls): (c: cchar)
    ensures IsCode(c) && Decode(c) == w
  {
    0x30 + 8 * Flag(w.top) + 4 * Flag(w.right) + 2 * Flag(w.bottom) + Flag(w.left)
  }

  lemma SixteenCodes(c: cchar)
    requires IsCode(c)
    ensures Encode(Decode(c)) == c
  {
  }

  /** getNumberOfWalls: a table over the sixteen characters, 5 for any other. */
  function NumberOfWalls(c: cchar): (n: int)
    ensures n == if IsCode(c) then Decode(c).Count() else 5
  {
    if c == 0x30 then 0
    else if c == 0x31 || c == 0x32 || c == 0x34 || c == 0x38 then 1
    else if c == 0x33 || c == 0x35 || c == 0x36 || c == 0x39 || c == 0x3A || c == 0x3C then 2
    else if c == 0x37 || c == 0x3B || c == 0x3D || c == 0x3E then 3
    else if c == 0x3F then 4
    else 5
  }

  /** `m_char += bit`, for one of the four sides. */
  function WithWall(c: cchar, d: Side): cchar {
    Narrow(c + Bit(d))
  }

  /** `m_char -= bit`, for one of the four sides. */
  function WithoutWall(c: cchar, d: Side): cchar {
    Narrow(c - Bit(d))
  }

  /** internalTohumanReadableChar: ':'..'?' become 'a'..'f'. */
  function ToHuman(c: cchar): cchar {
    if 0x3A <= c <= 0x3F then c + 0x27 else c
  }

  /** humanReadableToInternalChar: 'a'..'f' become ':'..'?'. */
  function ToInternal(c: cchar): (i: cchar)
    ensures IsCode(i) <==> 0x30 <= c <= 0x3F || 0x61 <= c <= 0x66
  {
    if 0x61 <= c <= 0x66 then c - 0x27 else c
  }

  lemma HumanRoundTrip(c: cchar)
    requires IsCode(c)
    ensures ToInternal(ToHuman(c)) == c
    ensures 0x30 <= ToHuman(c) <= 0x39 || 0x61 <= ToHuman(c) <= 0x66
  {
  }

  /** The hexadecimal digit of a value, '0' to '9' and 'a' to 'f'. */
  function Digit(v: int): cchar
    requires 0 <= v < 16
  {
    if v < 10 then '0' as int + v else 'a' as int + (v - 10)
  }

  /** What a digit means: its value is made of 8 for a top wall, 4 for a right one, 2 for a bottom one
      and 1 for a left one. */
  lemma DigitShows(v: int)
    requires 0 <= v < 16
    ensures var c := ToInternal(Digit(v));
            && (HasTopWall(c) <==> v / 8 % 2 == 1) && (HasRightWall(c) <==> v / 4 % 2 == 1)
            && (HasBottomWall(c) <==> v / 2 % 2 == 1) && (HasLeftWall(c) <==> v % 2 == 1)
    ensures Decode(ToInternal(Digit(v))) == Walls(v / 8 % 2 == 1, v / 4 % 2 == 1, v / 2 % 2 == 1, v % 2 == 1)
  {
    assert v / 8 % 2 == 1 <==> v >= 8;
    assert v / 4 % 2 == 1 <==> 4 <= v < 8 || v >= 12;
    assert v / 2 % 2 == 1 <==> v == 2 || v == 3 || v == 6 || v == 7 || v == 10 || v == 11 || v == 14 || v == 15;
    assert v % 2 == 1 <==> v == 1 || v == 3 || v == 5 || v == 7 || v == 9 || v == 11 || v == 13 || v == 15;
  }

  /** The readable character of a cell is the digit of its walls. */
  lemma WallsShow(w: Walls)
    ensures ToHuman(Encode(w)) == Digit((if w.top then 8 else 0) + (if w.right then 4 else 0)
                                        + (if w.bottom then 2 else 0) + (if w.left then 1 else 0))
  {
  }

  /** Sides are numbered clockwise from the top. */
  lemma SidesOfWalls(w: Walls)
    ensures w.Has(0) == w.top && w.Has(1) == w.right && w.Has(2) == w.bottom && w.Has(3) == w.left
  {
  }

  /** `+=` on an absent bit sets that wall and no other; the character stays in '0'..'?'. */
  lemma WithWallSets(w: Walls, d: Side)
    requires !w.Has(d)
    ensures WithWall(Encode(w), d) == Encode(w.Set(d, true))
  {
  }

  /** `-=` on a present bit clears that wall and no other; the character stays in '0'..'?'. */
  lemma WithoutWallClears(w: Walls, d: Side)
    requires w.Has(d)
    ensures WithoutWall(Encode(w), d) == Encode(w.Set(d, false))
  {
  }

  /** The class CL: the internal character and the one shown to people. */
  class CL {
    var code: cchar
    var readable: cchar

    constructor (c: cchar)
      ensures code == ToInternal(c) && readable == c
    {
      readable := c;
      code := ToInternal(c);
    }

    /** rand() % 4 is redrawn until it names a side without a wall. */
    method AddRandomWall() returns (r: Side)
      requires Decode(code).Count() < 4
      modifies this
      ensures !Decode(old(code)).Has(r)
      ensures code == WithWall(old(code), r) && readable == ToHuman(code)
    {
      ghost var w := Decode(code);
      assert !w.Has(0) || !w.Has(1) || !w.Has(2) || !w.Has(3);
      r :| 0 <= r < 4 && !Decode(code).Has(r);
      code := WithWall(code, r);
      readable := ToHuman(code);
    }

    method AddWallAtSide(s: int)
      modifies this
      ensures code == if 0 <= s < 4 then WithWall(old(code), s) else old(code)
      ensures readable == ToHuman(code)
    {
      match s {
        case 0 => code := Narrow(code + 8);
        case 1 => code := Narrow(code + 4);
        case 2 => code := Narrow(code + 2);
        case 3 => code := Narrow(code + 1);
        case _ =>
      }
      readable := ToHuman(code);
    }

    method RemoveWallAt(s: int)
      modifies this
      ensures code == if 0 <= s < 4 then WithoutWall(old(code), s) else old(code)
      ensures readable == ToHuman(code)
    {
      match s {
        case 0 => code := Narrow(code - 8);
        case 1 => code := Narrow(code - 4);
        case 2 => code := Narrow(code - 2);
        case 3 => code := Narrow(code - 1);
        case _ =>
      }
      readable := ToHuman(code);
    }
  }
}
