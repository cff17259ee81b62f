/** Fixed-width integers of the KCP control block, and the serial-number comparison that every
    KCP decision about segments goes through. */
module KcpArith {
  import opened LittleEndian

  const TWO16 := 0x1_0000
  const TWO31 := 0x8000_0000
  const TWO32 := 0x1_0000_0000

  /** Conversion to an unsigned 32-bit integer: arithmetic on `IUINT32` wraps. */
  function U32Of(x: int): U32 {
    x % TWO32
  }

  function Min(a: int, b: int): int {
    if a <= b then a else b
  }

  function Max(a: int, b: int): int {
    if a >= b then a else b
  }

  /** `_itimediff`: the 32-bit difference read as a signed number. The operands are reduced
      modulo 2^32 by the subtraction, so the function is also defined on unreduced numbers. */
  function ITimeDiff(later: int, earlier: int): (d: int)
    ensures -TWO31 <= d < TWO31
  {
    var d := (later - earlier) % TWO32;
    if d < TWO31 then d else d - TWO32
  }

  /** Equality of serial numbers as 32-bit integers. */
  predicate SameSn(a: int, b: int) {
    U32Of(a) == U32Of(b)
  }

  /** Reducing the operands first changes nothing. */
  lemma DiffOfReduced(a: int, b: int, c: int)
    ensures ITimeDiff(U32Of(a), U32Of(b)) == ITimeDiff(a, b)
    ensures ITimeDiff(U32Of(a), U32Of(b) + c) == ITimeDiff(a, b + c)
    ensures SameSn(U32Of(a), U32Of(b)) <==> SameSn(a, b)
  {
    var ka, kb := a / TWO32, b / TWO32;
    assert a == ka * TWO32 + U32Of(a) && b == kb * TWO32 + U32Of(b);
    assert (a - b) % TWO32 == (U32Of(a) - U32Of(b)) % TWO32;
    assert (a - b - c) % TWO32 == (U32Of(a) - U32Of(b) - c) % TWO32;
  }

  /** The wrapped difference is the true one exactly when the true one fits in 32 bits, signed.
      At distance exactly 2^31 the sign is negative whichever operand comes first. */
  lemma DiffExact(a: int, b: int)
    ensures ITimeDiff(a, b) == a - b <==> -TWO31 <= a - b < TWO31
  {
  }

  /** Two numbers less than 2^32 apart are the same 32-bit number only when equal. */
  lemma SameSnExact(a: int, b: int)
    requires -TWO32 < a - b < TWO32
    ensures SameSn(a, b) <==> a == b
  {
    var ka, kb := a / TWO32, b / TWO32;
    assert a == ka * TWO32 + U32Of(a) && b == kb * TWO32 + U32Of(b);
  }

  /** A difference, taken apart into whole turns and the wrapped difference. */
  lemma Turns(a: int, b: int) returns (k: int)
    ensures a - b == k * TWO32 + ITimeDiff(a, b)
  {
    k := (a - b) / TWO32;
    if ITimeDiff(a, b) < 0 {
      k := k + 1;
    }
  }

  /** And put together again. */
  lemma DiffOfTurns(a: int, b: int, k: int, d: int)
    requires a - b == k * TWO32 + d && -TWO31 <= d < TWO31
    ensures ITimeDiff(a, b) == d && (SameSn(a, b) <==> d == 0)
  {
    var e := if d < 0 then d + TWO32 else d;
    assert (a - b) % TWO32 == e;
    var ka, kb := a / TWO32, b / TWO32;
    assert a == ka * TWO32 + U32Of(a) && b == kb * TWO32 + U32Of(b);
  }
}
