/** Splitting a timer count into two factors (utils::factorize). */
module Factorize {
  import opened Arithmetic

  const ULL: nat := 0x1_0000_0000_0000_0000

  predicate IsRoot(root: nat, input: nat) {
    root * root <= input < (root + 1) * (root + 1)
  }

  lemma ProductGrows(a: nat, b: nat, c: nat, d: nat)
    ensures a <= c && b <= d ==> a * b <= c * d
  {
    if a <= c && b <= d {
      assert c * d == a * b + a * (d - b) + (c - a) * d;
    }
  }

  // The cofactor of a number above the root is at most the root, and not zero up to the input.
  lemma Cofactor(root: nat, input: nat, x: nat)
    requires IsRoot(root, input) && root < x <= input
    ensures 1 <= input / x <= root
    ensures x * (input / x) == input - input % x
  {
    var y := input / x;
    DivMod(input, x);
    ProductGrows(root + 1, root + 1, x, y);
    assert x * 0 == 0;
  }

  lemma RootIsSmall(root: nat, input: nat)
    requires IsRoot(root, input)
    ensures root <= input && (input > 0 ==> root >= 1)
  {
    ProductGrows(root, 1, root, root);
  }

  // Unsigned subtraction, as the source's comparisons with `input - acceptable_delta` do it.
  function Lower(input: nat, delta: nat): nat
    requires delta < ULL
  {
    (input + ULL - delta) % ULL
  }

  // The loop's exit for a pair.
  predicate Acceptable(x: nat, y: nat, input: nat, delta: nat)
    requires delta < ULL
  {
    Lower(input, delta) <= x * y <= input + delta
  }

  /** Below the tolerance the subtraction wraps, and no pair the loop can come to is accepted: some
      number and its cofactor are accepted if and only if the input reaches the tolerance. */
  lemma StopsExactly(input: nat, delta: nat)
    requires delta < ULL && input + delta < ULL
    ensures (exists x :: 0 < x && Acceptable(x, input / x, input, delta)) <==> delta <= input
    ensures delta > input ==> Lower(input, delta) > input
  {
    if delta <= input {
      assert Lower(input, delta) == input - delta;
      assert Acceptable(1, input / 1, input, delta);
    } else {
      assert Lower(input, delta) == input + ULL - delta;
      forall x | 0 < x ensures !Acceptable(x, input / x, input, delta) {
        DivMod(input, x);
      }
    }
  }

  /** `root` is the exact integer square root that the source takes from the floating-point one.
      The result is never above the input and at most the tolerance below; if the root pair is not
      close enough, x is the least number above the root whose remainder is. */
  method Factorize(input: nat, delta: nat, root: nat) returns (x: nat, y: nat)
    requires delta <= input && input + delta < ULL && IsRoot(root, input)
    ensures y <= root <= x && 0 <= input - x * y <= delta
    ensures input > 0 ==> y >= 1
    ensures input - root * root <= delta <==> (x == root && y == root)
    ensures x > root ==> y == input / x && forall z | root < z < x :: input % z > delta
  {
    hide IsRoot;
    RootSquare(root, input);
    RootIsSmall(root, input);
    if root * root > input - delta { return root, root; }
    x, y := root, root;
    ghost var rest := input - root * root; // what the product falls short of the input
    while true
      invariant root <= x <= input && y <= root && x * y == input - rest && rest >= 0
      invariant if x == root then y == root && rest == input - root * root
                else y == input / x && rest == input % x && input - root * root > delta
      invariant forall z | root < z < x :: input % z > delta
      invariant input > 0 ==> y >= 1
      decreases input - x
    {
      var product := x * y;
      if product > input + delta {
        assert false; // the product never exceeds the input, so this branch is never taken
      } else if product < input - delta {
        assert x < input by { ProductGrows(input, 1, x, y); }
        x := x + 1;
        y := input / x;
        Cofactor(root, input, x);
        rest := input % x;
      } else {
        return;
      }
    }
  }

  lemma RootSquare(root: nat, input: nat)
    requires IsRoot(root, input)
    ensures root * root <= input
  {
  }
}
