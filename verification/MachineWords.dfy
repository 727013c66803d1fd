/**
  Exclusive and inclusive or of machine words, as functions on natural numbers bit by bit; they serve
  words of any width.
*/
module MachineWords {
  function Xor(a: nat, b: nat): (r: nat)
    decreases a + b
  {
    if a == 0 && b == 0 then 0 else 2 * Xor(a / 2, b / 2) + (a + b) % 2
  }

  function Pow2(n: nat): (r: nat)
    ensures r > 0
  {
    if n == 0 then 1 else 2 * Pow2(n - 1)
  }

  lemma {:induction false} Pow2Sum(m: nat, n: nat)
    ensures Pow2(m + n) == Pow2(m) * Pow2(n)
  {
    if m > 0 {
      Pow2Sum(m - 1, n);
    }
  }

  lemma {:induction false} XorFits(a: nat, b: nat, n: nat)
    requires a < Pow2(n) && b < Pow2(n)
    ensures Xor(a, b) < Pow2(n)
  {
    if n > 0 {
      XorFits(a / 2, b / 2, n - 1);
    }
  }

  lemma {:induction false} Comm(a: nat, b: nat)
    ensures Xor(a, b) == Xor(b, a)
    decreases a + b
  {
    if a + b > 0 {
      Comm(a / 2, b / 2);
    }
  }

  lemma XorHalves(a: nat, b: nat)
    ensures Xor(a, b) / 2 == Xor(a / 2, b / 2) && Xor(a, b) % 2 == (a + b) % 2
  {}

  lemma SameHalves(x: nat, y: nat)
    requires x / 2 == y / 2 && x % 2 == y % 2
    ensures x == y
  {}

  lemma Parity(x: nat, a: nat, b: nat, c: nat)
    requires x % 2 == (a + b) % 2
    ensures (x + c) % 2 == (a + b + c) % 2
  {}

  lemma {:induction false} Assoc(a: nat, b: nat, c: nat)
    ensures Xor(Xor(a, b), c) == Xor(a, Xor(b, c))
    decreases a + b + c
  {
    if a + b + c > 0 {
      var l, r := Xor(Xor(a, b), c), Xor(a, Xor(b, c));
      assert l / 2 == r / 2 by {
        XorHalves(a, b);
        XorHalves(b, c);
        XorHalves(Xor(a, b), c);
        XorHalves(a, Xor(b, c));
        Assoc(a / 2, b / 2, c / 2);
      }
      assert l % 2 == r % 2 by {
        XorHalves(a, b);
        XorHalves(b, c);
        XorHalves(Xor(a, b), c);
        XorHalves(a, Xor(b, c));
        Parity(Xor(a, b), a, b, c);
        Parity(Xor(b, c), b, c, a);
      }
      SameHalves(l, r);
    }
  }

  lemma {:induction false} Self(a: nat)
    ensures Xor(a, a) == 0 && Xor(a, 0) == a
  {
    if a > 0 {
      Self(a / 2);
    }
  }

  /** x cancels itself. */
  lemma Cancel(a: nat, x: nat)
    ensures Xor(Xor(a, x), x) == a
  {
    Assoc(a, x, x);
    Self(x);
    Self(a);
  }

  /** The last two terms of a chain may be exchanged. */
  lemma Swap(a: nat, b: nat, c: nat)
    ensures Xor(Xor(a, b), c) == Xor(Xor(a, c), b)
  {
    Assoc(a, b, c);
    Assoc(a, c, b);
    Comm(b, c);
  }

  /** Only a word itself cancels it. */
  lemma Differs(t: nat, o: nat, x: nat)
    requires t == 0 && o != x
    ensures Xor(Xor(t, o), x) != 0
  {
    Cancel(Xor(t, o), x);
    Comm(0, o);
    Comm(0, x);
    Self(o);
    Self(x);
  }

  // ---------------------------------------------------------------------------------------------
  // Sequences of words
  // ---------------------------------------------------------------------------------------------

  function XorAll(s: seq<nat>): (x: nat) {
    if s == [] then 0 else Xor(XorAll(s[..|s| - 1]), s[|s| - 1])
  }

  lemma XorNext(s: seq<nat>, i: nat)
    requires i < |s|
    ensures XorAll(s[..i + 1]) == Xor(XorAll(s[..i]), s[i])
  {
    assert s[..i + 1][..i] == s[..i];
  }

  /** Changing one word from s[i] to x changes the XOR by both. */
  lemma {:induction false} XorChange(s: seq<nat>, i: nat, x: nat)
    requires i < |s|
    ensures XorAll(s[i := x]) == Xor(Xor(XorAll(s), s[i]), x)
  {
    var n := |s| - 1;
    var a := XorAll(s[..n]);
    if i == n {
      assert s[i := x][..n] == s[..n];
      Cancel(a, s[i]);
    } else {
      assert s[i := x][..n] == s[..n][i := x];
      XorChange(s[..n], i, x);
      Swap(Xor(a, s[i]), x, s[n]);
      Swap(a, s[i], s[n]);
    }
  }

  lemma {:induction false} XorAllFits(s: seq<nat>, n: nat)
    requires forall i | 0 <= i < |s| :: s[i] < Pow2(n)
    ensures XorAll(s) < Pow2(n)
  {
    if s != [] {
      XorAllFits(s[..|s| - 1], n);
      XorFits(XorAll(s[..|s| - 1]), s[|s| - 1], n);
    }
  }

  /** Inclusive or of two words, bit by bit. */
  function Or(a: nat, b: nat): (r: nat)
    decreases a + b
  {
    if a == 0 && b == 0 then 0 else 2 * Or(a / 2, b / 2) + if a % 2 == 0 && b % 2 == 0 then 0 else 1
  }

  lemma {:induction false} OrZero(a: nat)
    ensures Or(a, 0) == a
  {
    if a > 0 {
      OrZero(a / 2);
    }
  }

  /** A word whose low k bits are clear, or something that fits those bits: the sum. */
  lemma {:induction false} OrIsSum(hi: nat, k: nat, lo: nat)
    requires lo < Pow2(k)
    ensures Or(hi * Pow2(k), lo) == hi * Pow2(k) + lo
  {
    var x := hi * Pow2(k);
    if k == 0 {
      OrZero(x);
    } else {
      assert x == 2 * (hi * Pow2(k - 1));
      OrIsSum(hi, k - 1, lo / 2);
    }
  }
}
