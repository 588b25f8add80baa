/** `constEq` of src/registry.js: buffer equality that does not stop at the
    first differing byte. The bitwise operators are written out on natural
    numbers, bit by bit from the lowest. */
module ConstantTime {
  import opened Common

  /** `x ^ y` on non-negative integers. */
  function Xor(x: nat, y: nat): nat
    decreases x + y
  {
    if x == 0 then y
    else if y == 0 then x
    else 2 * Xor(x / 2, y / 2) + (x + y) % 2
  }

  /** `x | y` on non-negative integers. */
  function Or(x: nat, y: nat): nat
    decreases x + y
  {
    if x == 0 then y
    else if y == 0 then x
    else 2 * Or(x / 2, y / 2) + (if x % 2 == 1 || y % 2 == 1 then 1 else 0)
  }

  /** The exclusive or of two numbers is zero exactly when they are equal. */
  lemma {:induction false} XorZero(x: nat, y: nat)
    ensures Xor(x, y) == 0 <==> x == y
    decreases x + y
  {
    if x != 0 && y != 0 {
      XorZero(x / 2, y / 2);
    }
  }

  /** The inclusive or of two numbers is zero exactly when both are. */
  lemma {:induction false} OrZero(x: nat, y: nat)
    ensures Or(x, y) == 0 <==> x == 0 && y == 0
    decreases x + y
  {
    if x != 0 && y != 0 {
      OrZero(x / 2, y / 2);
    }
  }

  /** `constEq(a, b)`: the buffers are equal. When the lengths agree every
      index is visited (`steps` counts the iterations): there is no early
      exit on the first difference. */
  method ConstEq(a: Bytes, b: Bytes) returns (eq: bool, ghost steps: nat)
    ensures eq <==> |a| == |b| && forall i :: 0 <= i < |a| ==> a[i] == b[i]
    ensures eq <==> a == b
    ensures |a| == |b| ==> steps == |a|
  {
    steps := 0;
    if |a| != |b| {
      return false, steps;
    }
    var zero: nat := 0;
    var i := 0;
    while i < |a|
      invariant 0 <= i <= |a| && steps == i
      invariant zero == 0 <==> forall j :: 0 <= j < i ==> a[j] == b[j]
    {
      XorZero(a[i], b[i]);
      OrZero(zero, Xor(a[i], b[i]));
      zero := Or(zero, Xor(a[i], b[i]));
      i := i + 1;
      steps := steps + 1;
    }
    eq := zero == 0;
  }
}
