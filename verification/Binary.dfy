/** Words as numbers: bits stand least significant first. */
module Binary {

  function ToNat(w: seq<bool>): nat {
    if w == [] then 0 else (if w[0] then 1 else 0) + 2 * ToNat(w[1..])
  }

  function FromNat(n: nat, width: nat): (w: seq<bool>)
    ensures |w| == width
    decreases width
  {
    if width == 0 then [] else [n % 2 == 1] + FromNat(n / 2, width - 1)
  }

  function Pow2(n: nat): nat {
    if n == 0 then 1 else 2 * Pow2(n - 1)
  }

  lemma {:induction false} NatOfWord(w: seq<bool>)
    ensures ToNat(w) < Pow2(|w|)
    ensures FromNat(ToNat(w), |w|) == w
  {
    if w != [] {
      NatOfWord(w[1..]);
      assert ToNat(w) / 2 == ToNat(w[1..]) && (ToNat(w) % 2 == 1) == w[0];
    }
  }

  lemma {:induction false} WordOfNat(n: nat, width: nat)
    requires n < Pow2(width)
    ensures ToNat(FromNat(n, width)) == n
    decreases width
  {
    if width != 0 {
      WordOfNat(n / 2, width - 1);
      assert FromNat(n, width)[1..] == FromNat(n / 2, width - 1);
    }
  }

  lemma {:induction false} Pow2Add(m: nat, n: nat)
    ensures Pow2(m + n) == Pow2(m) * Pow2(n)
    decreases m
  {
    if m != 0 {
      Pow2Add(m - 1, n);
    }
  }
}
