// The bits of a number.
module Bits {
  import opened Words

  predicate Bit(x: nat, k: nat) {
    if k == 0 then x % 2 == 1 else Bit(x / 2, k - 1)
  }

  lemma {:induction false} NoBits(k: nat)
    ensures !Bit(0, k)
  {
    if k > 0 {
      NoBits(k - 1);
    }
  }

  // Bitwise disjunction.
  function Or(x: nat, y: nat): (r: nat)
    ensures x <= r && y <= r
  {
    if x == 0 then y else if y == 0 then x
    else (if x % 2 == 1 || y % 2 == 1 then 1 else 0) + 2 * Or(x / 2, y / 2)
  }

  // Shift to the right.
  function Shr(x: nat, k: nat): nat {
    if k == 0 then x else Shr(x / 2, k - 1)
  }

  lemma {:induction false} BitOr(x: nat, y: nat, k: nat)
    ensures Bit(Or(x, y), k) == (Bit(x, k) || Bit(y, k))
    decreases k
  {
    if x == 0 || y == 0 {
      NoBits(k);
    } else if k > 0 {
      assert Or(x, y) / 2 == Or(x / 2, y / 2);
      BitOr(x / 2, y / 2, k - 1);
    }
  }

  lemma {:induction false} BitShr(x: nat, j: nat, k: nat)
    ensures Bit(Shr(x, j), k) == Bit(x, j + k)
    decreases j
  {
    if j > 0 {
      BitShr(x / 2, j - 1, k);
    }
  }

  // The bits from k to n are set, and none from n on.
  ghost predicate Filled(x: nat, k: nat, n: nat) {
    && (forall i :: k <= i < n ==> Bit(x, i))
    && (forall i :: n <= i ==> !Bit(x, i))
  }

  // A number has a highest bit.
  lemma {:induction false} HighestBit(x: nat) returns (n: nat)
    ensures Filled(x, n - Min(n, 1), n) && x < Pow2(n)
    ensures if x == 0 then n == 0 else 0 < n && Pow2(n - 1) <= x && Bit(x, n - 1)
  {
    if x == 0 {
      n := 0;
      forall i
        ensures !Bit(0, i)
      {
        NoBits(i);
      }
    } else {
      var m := HighestBit(x / 2);
      n := m + 1;
      forall i | n <= i
        ensures !Bit(x, i)
      {
        assert !Bit(x / 2, i - 1);
      }
    }
  }

  // Or'ing in a number shifted by k doubles a run of k bits at its top.
  lemma Smeared(x: nat, k: nat, n: nat)
    requires Filled(x, n - Min(n, k), n)
    ensures Filled(Or(x, Shr(x, k)), n - Min(n, 2 * k), n)
  {
    hide Bit, Or, Shr;
    var y := Or(x, Shr(x, k));
    forall i | n - Min(n, 2 * k) <= i < n
      ensures Bit(y, i)
    {
      BitOr(x, Shr(x, k), i);
      BitShr(x, k, i);
    }
    forall i | n <= i
      ensures !Bit(y, i)
    {
      BitOr(x, Shr(x, k), i);
      BitShr(x, k, i);
    }
  }

  // All bits below n, and no others.
  lemma {:induction false} AllBits(x: nat, n: nat)
    requires Filled(x, 0, n)
    ensures x == Pow2(n) - 1
    decreases n
  {
    if n == 0 {
      if x != 0 {
        var m := HighestBit(x);
        assert false;
      }
    } else {
      assert Bit(x, 0);
      forall i | 0 <= i < n - 1
        ensures Bit(x / 2, i)
      {
        assert Bit(x, i + 1);
      }
      forall i | n - 1 <= i
        ensures !Bit(x / 2, i)
      {
        assert !Bit(x, i + 1);
      }
      AllBits(x / 2, n - 1);
    }
  }
}
