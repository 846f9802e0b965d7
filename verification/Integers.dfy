/** Small functions on integers, and the type `int16_t`. */
module Integers {
  function Abs(v: int): nat { if v < 0 then -v else v }

  function Max(a: int, b: int): int { if a < b then b else a }

  function Min(a: int, b: int): int { if a < b then a else b }

  function One(b: bool): nat { if b then 1 else 0 }

  predicate InInt16(v: int) { -0x8000 <= v <= 0x7FFF }

  /** The value of `v` once it is stored in an `int16_t`. */
  function Int16(v: int): (r: int)
    ensures InInt16(r) && (InInt16(v) ==> r == v)
  {
    (v + 0x8000) % 0x1_0000 - 0x8000
  }

  /** Storing intermediate results changes nothing. */
  lemma Int16Sum(a: int, b: int)
    ensures Int16(Int16(a) + b) == Int16(a + b) == Int16(Int16(a) + Int16(b))
  {
    hide Int16;
    var p := Rounds(a);
    var q := Rounds(b);
    SameRest(a + b, -p);
    SameRest(a + b, -p - q);
  }

  /** How often `a` wraps around. */
  lemma Rounds(a: int) returns (q: int)
    ensures Int16(a) == a - q * 0x1_0000
  {
    q := (a + 0x8000) / 0x1_0000;
  }

  lemma SameRest(a: int, q: int)
    ensures Int16(a + q * 0x1_0000) == Int16(a)
  {
  }
}
