/** Polynomials over GF(2), and what is left when one is divided by the
    generator of CRC-32. */
module Polynomials {
  /** The coefficients, that of the highest power first. */
  type Poly = seq<bool>

  /** The powers of x in the generator (section 8.1.1.6.2 of ITU-T V.42). */
  const EXPONENTS := {32, 26, 23, 22, 16, 12, 11, 10, 8, 7, 5, 4, 2, 1, 0}

  function Generator(): (g: Poly)
    ensures |g| == 33 && forall i :: 0 <= i < 33 ==> (g[i] <==> 32 - i in EXPONENTS)
  {
    seq(33, i requires 0 <= i < 33 => 32 - i in EXPONENTS)
  }

  function Zeros(n: nat): (z: Poly)
    ensures |z| == n && forall i :: 0 <= i < n ==> !z[i]
  {
    seq(n, i => false)
  }

  /** The sum of a and b times the power that lines up their first
      coefficients. */
  function Add(a: Poly, b: Poly): (c: Poly)
    requires |b| <= |a|
    ensures |c| == |a| && forall i :: 0 <= i < |a| ==> (c[i] <==> if i < |b| then a[i] != b[i] else a[i])
  {
    seq(|a|, i requires 0 <= i < |a| => if i < |b| then a[i] != b[i] else a[i])
  }

  /** The plain sum: their last coefficients are lined up. */
  function Plus(a: Poly, r: Poly): (c: Poly)
    requires |r| <= |a|
    ensures |c| == |a|
    ensures forall i :: 0 <= i < |a| ==> (c[i] <==> if i < |a| - |r| then a[i] else a[i] != r[i - (|a| - |r|)])
  {
    a[..|a| - |r|] + Add(a[|a| - |r|..], r)
  }

  /** The product of q and the generator. */
  function Times(q: Poly): (p: Poly)
    ensures |p| == |q| + 32
  {
    if q == [] then Zeros(32) else Add([false] + Times(q[1..]), if q[0] then Generator() else [])
  }

  /** One step of long division by the generator. */
  function Reduced(s: Poly): (t: Poly)
    requires |s| > 32
    ensures |t| == |s| - 1
  {
    Add(s, if s[0] then Generator() else [])[1..]
  }

  function Remainder(s: Poly): (r: Poly)
    requires |s| >= 32
    ensures |r| == 32
    decreases |s|
  {
    if |s| == 32 then s else Remainder(Reduced(s))
  }

  function Quotient(s: Poly): (q: Poly)
    requires |s| >= 32
    ensures |q| == |s| - 32
    decreases |s|
  {
    if |s| == 32 then [] else [s[0]] + Quotient(Reduced(s))
  }

  lemma PlusAdd(a: Poly, g: Poly, r: Poly)
    requires |g| <= |a| && |r| <= |a|
    ensures Plus(Add(a, g), r) == Add(Plus(a, r), g)
  {
  }

  lemma PlusBehind(t: Poly, r: Poly)
    requires |r| <= |t|
    ensures Plus([false] + t, r) == [false] + Plus(t, r)
  {
  }

  lemma AddTwice(s: Poly, g: Poly)
    requires |g| <= |s|
    ensures Add(Add(s, g), g) == s
  {
  }

  /** Long division gives the only way to write s as a multiple of the
      generator and a rest of degree less than 32. */
  lemma {:induction false} DivisionUnique(s: Poly, q: Poly, r: Poly)
    requires |s| == |q| + 32 && |r| == 32
    ensures s == Plus(Times(q), r) <==> q == Quotient(s) && r == Remainder(s)
    decreases |s|
  {
    hide Reduced, Add, Generator, Plus;
    if q == [] {
      assert Plus(Zeros(32), r) == r;
    } else {
      FirstStep(s, q, r);
      DivisionUnique(Reduced(s), q[1..], r);
      assert q == [q[0]] + q[1..];
    }
  }

  lemma FirstStep(s: Poly, q: Poly, r: Poly)
    requires |s| == |q| + 32 && |r| == 32 && q != []
    ensures s == Plus(Times(q), r) <==> q[0] == s[0] && Reduced(s) == Plus(Times(q[1..]), r)
  {
    hide Add, Plus, Zeros, Generator;
    var g := if q[0] then Generator() else [];
    var t, u := Times(q[1..]), [false] + Plus(Times(q[1..]), r);
    PlusAdd([false] + t, g, r);
    PlusBehind(t, r);
    assert Plus(Times(q), r) == Add(u, g);
    AddTwice(s, g);
    AddTwice(u, g);
    assert s == Add(u, g) <==> Add(s, g) == u;
    assert Add(s, g)[0] <==> s[0] != q[0];
    assert Add(s, g) == [Add(s, g)[0]] + Add(s, g)[1..];
    assert u[1..] == Plus(t, r);
  }
}
