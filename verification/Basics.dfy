/** What the modules share of C: optional values and the integers a field of limited width keeps. */
module Basics {

  datatype Option<+T> = None | Some(value: T)

  // int2, int4 and uint16
  predicate IsInt2(x: int) {
    -0x8000 <= x < 0x8000
  }

  predicate IsInt4(x: int) {
    -0x8000_0000 <= x < 0x8000_0000
  }

  // The value 16-bit two's complement arithmetic leaves of x.
  function Int2(x: int): (y: int)
    ensures IsInt2(y) && (IsInt2(x) ==> y == x)
    ensures x < 0 ==> y >= x
    decreases if x < 0 then -x else x + 1
  {
    if x >= 0x8000 then Int2(x - 0x1_0000) else if x < -0x8000 then Int2(x + 0x1_0000) else x
  }

  // The value 32-bit two's complement arithmetic leaves of x.
  function Wrap(x: int): (y: int)
    ensures IsInt4(y) && (IsInt4(x) ==> y == x)
    decreases if x < 0 then -x else x + 1
  {
    if x >= 0x8000_0000 then Wrap(x - 0x1_0000_0000)
    else if x < -0x8000_0000 then Wrap(x + 0x1_0000_0000)
    else x
  }

  // The value an unsigned 16-bit field keeps of x.
  function UInt2(x: nat): (y: nat)
    ensures y < 0x1_0000 && y <= x && (x < 0x1_0000 ==> y == x)
  {
    if x >= 0x1_0000 then UInt2(x - 0x1_0000) else x
  }

  lemma {:induction false} UInt2Adds(x: nat, y: nat)
    ensures UInt2(UInt2(x) + y) == UInt2(x + y)
  {
    if x >= 0x1_0000 {
      UInt2Adds(x - 0x1_0000, y);
    }
  }

  lemma {:induction false} WrapTurns(x: int)
    ensures Wrap(x + 0x1_0000_0000) == Wrap(x)
    decreases if x < 0 then -x else x + 1
  {
    if x < -0x8000_0000 {
      WrapTurns(x + 0x1_0000_0000);
    }
  }

  // Wrapping a term of a sum does not change what the sum wraps to.
  lemma {:induction false} WrapAdds(x: int, y: int)
    ensures Wrap(Wrap(x) + y) == Wrap(x + y)
    decreases if x < 0 then -x else x + 1
  {
    if x >= 0x8000_0000 {
      WrapAdds(x - 0x1_0000_0000, y);
      WrapTurns(x + y - 0x1_0000_0000);
    } else if x < -0x8000_0000 {
      WrapAdds(x + 0x1_0000_0000, y);
      WrapTurns(x + y);
    }
  }
}
