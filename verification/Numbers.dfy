/** Machine integer sizes and arithmetic on natural numbers. */
module Numbers {

  const U16: nat := 0x1_0000
  const U32: nat := 0x1_0000_0000
  const U64: nat := 0x1_0000_0000_0000_0000

  function Min(a: nat, b: nat): nat { if a <= b then a else b }

  function Max(a: nat, b: nat): nat { if a >= b then a else b }

  function SaturatingSub(a: nat, b: nat): nat { if a >= b then a - b else 0 }

  lemma DivMod(b: nat, q: nat, r: nat)
    requires r < b
    ensures (b * q + r) / b == q && (b * q + r) % b == r
  {
    var n := b * q + r;
    assert n == b * (n / b) + n % b;
    var d := n / b - q;
    assert b * (n / b) == b * q + b * d;
    assert b * d == r - n % b;
    MultipleBelow(b, d);
  }

  lemma MultipleBelow(b: int, d: int)
    requires b > 0
    ensures -b < b * d < b ==> d == 0
  {
    if d >= 1 { assert b * d == b + b * (d - 1); }
    if d <= -1 { assert b * d == -b + b * (d + 1); }
  }
}
