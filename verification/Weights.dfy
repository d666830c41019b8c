/** Reducing the weights of a service's servers by their greatest common divisor. */
module Weights {

  predicate Divides(d: nat, n: nat) {
    d > 0 && n % d == 0
  }

  ghost predicate DividesAll(d: nat, ws: seq<nat>) {
    d > 0 && forall i :: 0 <= i < |ws| ==> Divides(d, ws[i])
  }

  /** `g` is the greatest common divisor of `ws`: a common divisor that all others divide. */
  ghost predicate IsGcd(g: nat, ws: seq<nat>) {
    && DividesAll(g, ws)
    && forall d :: DividesAll(d, ws) ==> Divides(d, g)
  }

  lemma Division(n: nat, d: nat) returns (q: nat, r: nat)
    requires d > 0
    ensures n == q * d + r && r < d && q == n / d && r == n % d
  {
    q, r := n / d, n % d;
  }

  lemma AddModulus(x: nat, d: nat)
    requires d > 0
    ensures (x + d) % d == x % d
  {
    var q, r := x / d, x % d;
    assert x + d == (q + 1) * d + r;
    QuotientUnique(x + d, d, q + 1, r);
  }

  lemma QuotientUnique(x: nat, d: nat, q: int, r: nat)
    requires d > 0 && x == q * d + r && r < d
    ensures x / d == q && x % d == r
  {
    SameDivision(d, q, r, x / d, x % d);
  }

  lemma SameDivision(d: nat, q: int, r: nat, q': int, r': nat)
    requires r < d && r' < d && q * d + r == q' * d + r'
    ensures q == q' && r == r'
  {
    if q' > q {
      Larger(d, q' - q);
    } else if q' < q {
      Larger(d, q - q');
    }
  }

  lemma Larger(d: nat, k: int)
    requires k > 0
    ensures k * d >= d
  {
    assert k * d == (k - 1) * d + d;
  }

  lemma {:induction false} MultipleOf(d: nat, k: nat)
    requires d > 0
    ensures d * k % d == 0
  {
    if k > 0 {
      MultipleOf(d, k - 1);
      AddModulus(d * (k - 1), d);
      assert d * k == d * (k - 1) + d;
    }
  }

  lemma Quotient(d: nat, n: nat)
    requires Divides(d, n)
    ensures n == d * (n / d)
  {
  }

  /** A common divisor of `b` and `q * b + r`, or of `b` and `r`, divides all three. */
  lemma DividesRemainder(d: nat, b: nat, q: nat, r: nat)
    requires Divides(d, b)
    ensures Divides(d, q * b + r) <==> Divides(d, r)
  {
    Quotient(d, b);
    var m := b / d;
    assert q * b == d * (q * m);
    if Divides(d, r) {
      Quotient(d, r);
      assert q * b + r == d * (q * m + r / d);
      MultipleOf(d, q * m + r / d);
    }
    if Divides(d, q * b + r) {
      Quotient(d, q * b + r);
      var k := (q * b + r) / d - q * m;
      assert r == d * k;
      if k < 0 { Larger(d, -k); }
      MultipleOf(d, k);
    }
  }

  /** One step of Euclid's algorithm keeps the common divisors. */
  lemma EuclidStep(d: nat, a: nat, b: nat)
    requires b > 0
    ensures Divides(d, a) && Divides(d, b) <==> Divides(d, b) && Divides(d, a % b)
  {
    if Divides(d, b) {
      DividesRemainder(d, b, a / b, a % b);
      assert a == a / b * b + a % b;
    }
  }

  /** Euclid's algorithm. */
  method Gcd(num1: nat, num2: nat) returns (g: nat)
    requires num2 > 0
    ensures IsGcd(g, [num1, num2])
  {
    var a, b := num1, num2;
    var r := a % b;
    while r != 0
      invariant b > 0 && r == a % b
      invariant forall d :: Divides(d, a) && Divides(d, b) <==> Divides(d, num1) && Divides(d, num2)
      decreases r
    {
      forall d ensures Divides(d, a) && Divides(d, b) <==> Divides(d, b) && Divides(d, r) {
        EuclidStep(d, a, b);
      }
      a, b := b, r;
      r := a % b;
    }
    g := b;
    forall d ensures DividesAll(d, [num1, num2]) <==> Divides(d, num1) && Divides(d, num2) {
      if DividesAll(d, [num1, num2]) {
        assert [num1, num2][0] == num1 && [num1, num2][1] == num2;
      }
    }
    assert Divides(g, a) && Divides(g, b);
    forall d | DividesAll(d, [num1, num2]) ensures Divides(d, g) {
      assert Divides(d, a) && Divides(d, b);
    }
  }

  lemma DividesTransitive(d: nat, g: nat, n: nat)
    requires Divides(d, g) && Divides(g, n)
    ensures Divides(d, n)
  {
    Quotient(d, g);
    Quotient(g, n);
    var x, y := g / d, n / g;
    assert n == d * (x * y);
    MultipleOf(d, x * y);
  }

  /** Folding one more weight into the divisor of a prefix. */
  lemma GcdExtend(ws: seq<nat>, g: nat, w: nat, g': nat)
    requires IsGcd(g, ws) && IsGcd(g', [g, w])
    ensures IsGcd(g', ws + [w])
  {
    assert Divides(g', [g, w][0]) && Divides(g', [g, w][1]);
    forall i | 0 <= i < |ws| ensures Divides(g', ws[i]) {
      DividesTransitive(g', g, ws[i]);
    }
    forall d | DividesAll(d, ws + [w]) ensures Divides(d, g') {
      forall i | 0 <= i < |ws| ensures Divides(d, ws[i]) {
        assert (ws + [w])[i] == ws[i];
      }
      assert (ws + [w])[|ws|] == w;
      assert DividesAll(d, [g, w]);
    }
  }

  lemma OneIsGcd(ws: seq<nat>, k: nat)
    requires k <= |ws| && IsGcd(1, ws[..k])
    ensures IsGcd(1, ws)
  {
    forall d | DividesAll(d, ws) ensures Divides(d, 1) {
      assert DividesAll(d, ws[..k]);
    }
  }

  lemma SingleGcd(w: nat)
    requires w > 0
    ensures IsGcd(w, [w])
  {
    assert w % w == 0 by { MultipleOf(w, 1); }
    forall d | DividesAll(d, [w]) ensures Divides(d, w) {
      assert [w][0] == w;
    }
  }

  /** Every weight is `g` times its reduced weight, with `g` the divisor of them all. */
  ghost predicate Reduced(ws: seq<nat>, rs: seq<nat>, g: nat) {
    && IsGcd(g, ws)
    && |rs| == |ws|
    && forall i :: 0 <= i < |ws| ==> ws[i] == g * rs[i]
  }

  /** Divides every weight by the greatest common divisor. The list is cyclic: the first pass may
      stop early at 1, the second starts at the last node. */
  method ReduceWeights(w: array<nat>) returns (ghost g: nat)
    requires w.Length > 0 && forall i :: 0 <= i < w.Length ==> w[i] > 0
    modifies w
    ensures Reduced(old(w[..]), w[..], g)
    ensures forall i :: 0 <= i < w.Length ==> w[i] > 0
  {
    ghost var ws := w[..];
    var gcd := w[0];
    SingleGcd(gcd);
    assert ws[..1] == [gcd];
    var pos := 0;
    for ind := 1 to w.Length
      invariant pos == ind - 1 && w[..] == ws && gcd > 0
      invariant IsGcd(gcd, ws[..ind])
    {
      pos := if pos + 1 == w.Length then 0 else pos + 1;
      var next := Gcd(gcd, w[pos]);
      GcdExtend(ws[..ind], gcd, w[pos], next);
      assert ws[..ind] + [w[pos]] == ws[..ind + 1];
      gcd := next;
      if gcd == 1 {
        OneIsGcd(ws, ind + 1);
        return 1;
      }
    }
    assert ws[..w.Length] == ws;
    g := gcd;
    for ind := 0 to w.Length
      invariant pos == if ind == 0 then w.Length - 1 else ind - 1
      invariant forall i :: 0 <= i < w.Length ==>
        w[i] == if ind > 0 && (i == w.Length - 1 || i < ind - 1) then ws[i] / g else ws[i]
    {
      w[pos] := w[pos] / gcd;
      pos := if pos + 1 == w.Length then 0 else pos + 1;
    }
    forall i | 0 <= i < w.Length ensures ws[i] == g * w[i] && w[i] > 0 {
      Quotient(g, ws[i]);
    }
  }

  /** The reduced weights have no common divisor left and stand in the same ratios. */
  lemma ReducedIsCoprime(ws: seq<nat>, rs: seq<nat>, g: nat)
    requires Reduced(ws, rs, g)
    ensures IsGcd(1, rs)
    ensures forall i, j :: 0 <= i < |ws| && 0 <= j < |ws| ==> ws[i] * rs[j] == ws[j] * rs[i]
  {
    hide Divides;
    forall i | 0 <= i < |rs| ensures Divides(1, rs[i]) {
      OneDivides(rs[i]);
    }
    forall d: nat | DividesAll(d, rs) ensures Divides(d, 1) {
      OnlyOneDivides(ws, rs, g, d);
      OneDivides(1);
    }
    forall i, j | 0 <= i < |ws| && 0 <= j < |ws| ensures ws[i] * rs[j] == ws[j] * rs[i] {
      assert g * rs[i] * rs[j] == g * rs[j] * rs[i];
    }
  }

  lemma OneDivides(n: nat)
    ensures Divides(1, n)
  {
  }

  lemma OnlyOneDivides(ws: seq<nat>, rs: seq<nat>, g: nat, d: nat)
    requires Reduced(ws, rs, g) && DividesAll(d, rs)
    ensures d == 1
  {
    forall i | 0 <= i < |ws| ensures Divides(d * g, ws[i]) {
      Quotient(d, rs[i]);
      assert ws[i] == (d * g) * (rs[i] / d);
      MultipleOf(d * g, rs[i] / d);
    }
    assert DividesAll(d * g, ws);
    Quotient(d * g, g);
    assert g == g * (d * (g / (d * g)));
    OneFactor(g, d, g / (d * g));
  }

  lemma DividesBoth(a: nat, b: nat)
    requires Divides(a, b) && Divides(b, a)
    ensures a == b
  {
    Quotient(a, b);
    Quotient(b, a);
    var x, y := b / a, a / b;
    if x > 1 { Larger(a, x - 1); }
    if y > 1 { Larger(b, y - 1); }
  }

  /** There is only one way to reduce weights. */
  lemma ReducedUnique(ws: seq<nat>, rs: seq<nat>, g: nat, rs': seq<nat>, g': nat)
    requires Reduced(ws, rs, g) && Reduced(ws, rs', g')
    ensures g == g' && rs == rs'
  {
    DividesBoth(g, g');
    forall i | 0 <= i < |ws| ensures rs[i] == rs'[i] {
      SameFactor(g, rs[i], rs'[i]);
    }
  }

  lemma SameFactor(g: nat, x: nat, y: nat)
    requires g > 0 && g * x == g * y
    ensures x == y
  {
    if x < y { Larger(g, y - x); }
    if y < x { Larger(g, x - y); }
  }

  lemma OneFactor(g: nat, d: nat, k: nat)
    requires g > 0 && g == g * (d * k)
    ensures d == 1
  {
    if d * k > 1 {
      Larger(g, d * k - 1);
    }
    assert d * k == 1;
    if d > 1 {
      Larger(d, k);
    }
  }
}
