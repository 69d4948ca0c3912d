/** The Reed-Solomon control block with its table set-up, encoder and decoder. */
module RsCodec {
  import opened Bytes
  import opened Gf256
  import opened Polynomials
  import opened Codewords
  import opened Locators
  import opened Generator

  const A0: Byte := 255
  const FCR: nat := 1
  const PRIM: nat := 1
  const IPRIM: nat := 1
  const PAD: nat := 0

  /** Index form: the logarithm, with A0 standing for log 0. */
  ghost function IndexForm(a: Byte): (i: Byte)
    ensures i == A0 <==> a == 0
    ensures a != 0 ==> i == Log(a)
  {
    if a == 0 then A0 else Log(a)
  }

  ghost predicate InIndexForm(idx: seq<Byte>, p: seq<Byte>) {
    |idx| == |p| && forall i :: 0 <= i < |p| ==> idx[i] == IndexForm(p[i])
  }

  lemma ProductByLogs(a: Byte, b: Byte)
    requires a != 0 && b != 0
    ensures Exp(Log(a) + Log(b)) == Mul(a, b)
  {
    ExpAdd(Log(a), Log(b));
  }

  lemma ProductByLog(a: Byte, i: nat)
    requires a != 0
    ensures Exp(Log(a) + i) == Mul(a, Exp(i))
  {
    ExpAdd(Log(a), i);
  }

  lemma FoldMod(x: nat)
    requires x >= 255
    ensures ((x - 255) / 256 + (x - 255) % 256) % 255 == x % 255
    ensures (x - 255) / 256 + (x - 255) % 256 < x
  {
    var y := x - 255;
    var q, r := y / 256, y % 256;
    assert x == (q + r) + 255 * (q + 1);
    AddMultiple(q + r, q + 1);
  }

  lemma AddMultiple(a: nat, q: nat)
    ensures (a + 255 * q) % 255 == a % 255
  {
  }

  /** Reduction modulo 255 by shifts and masks. */
  method ModNN(x: nat) returns (r: nat)
    ensures r == x % 255
  {
    r := x;
    while r >= NN
      invariant r % 255 == x % 255
      decreases r
    {
      FoldMod(r);
      r := r - NN;
      r := r / 256 + r % 256;
    }
  }

  class RsControl {
    const alphaTo: array<Byte>
    const indexOf: array<Byte>
    const genpoly: array<Byte>

    ghost predicate Tables()
      reads alphaTo, indexOf
    {
      && alphaTo.Length == indexOf.Length == NN + 1
      && alphaTo[A0] == 0
      && (forall i :: 0 <= i < NN ==> alphaTo[i] == Exp(i))
      && (forall a: Byte :: indexOf[a] == IndexForm(a))
    }

    ghost predicate Valid()
      reads alphaTo, indexOf, genpoly
    {
      && Tables()
      && genpoly.Length == LEN
      && InIndexForm(genpoly[..], GeneratorPoly())
    }

    constructor ()
      ensures Valid() && fresh(alphaTo) && fresh(indexOf) && fresh(genpoly)
    {
      alphaTo := new Byte[NN + 1];
      indexOf := new Byte[NN + 1];
      genpoly := new Byte[LEN];
      new;
      FillTables();
      FormGenerator();
    }

    /** The shift register visits every non-zero symbol once and returns to 1. */
    method FillTables()
      requires alphaTo != indexOf && alphaTo.Length == indexOf.Length == NN + 1
      modifies alphaTo, indexOf
      ensures Tables()
    {
      hide Xtime, Mul, Exp, XorNat;
      indexOf[0] := A0;
      alphaTo[A0] := 0;
      var sr: nat := 1;
      ExpNext(0);
      for i := 0 to NN
        invariant sr == Exp(i)
        invariant alphaTo[A0] == 0 && indexOf[0] == A0
        invariant forall j :: 0 <= j < i ==> alphaTo[j] == Exp(j) && indexOf[Exp(j)] == j
      {
        ExpNonZero(i);
        forall j | 0 <= j < i ensures Exp(j) != Exp(i) { ExpDistinct(j, i); }
        indexOf[sr] := i;
        alphaTo[i] := sr;
        ExpNext(i);
        ghost var before := sr;
        sr := 2 * sr;
        if sr / 256 % 2 == 1 {
          sr := XorNat(sr, GFPOLY);
        }
        sr := sr % 256;
        XtimeRegister(before, sr);
      }
      CubeRoot();
      assert sr == 1;
      forall a: Byte ensures indexOf[a] == IndexForm(a) {
        if a != 0 { assert indexOf[Exp(Log(a))] == Log(a); }
      }
    }

    /** ALPHA_TO[MODNN(x)]. */
    method Antilog(x: nat) returns (a: Byte)
      requires Tables()
      ensures a == Exp(x)
    {
      hide Exp;
      var m := ModNN(x);
      ExpMod(x);
      a := alphaTo[m];
    }

    /** The generator polynomial, multiplied up root by root in place, then put in index form. */
    method FormGenerator()
      requires Tables() && genpoly.Length == LEN && genpoly != alphaTo && genpoly != indexOf
      modifies genpoly
      ensures Valid()
    {
      hide Xor, Mul, Exp, MulRoot, IndexForm, GenPoly;
      genpoly[0] := 1;
      GenPolyEmpty();
      var root := FCR * PRIM;
      for i := 0 to NROOTS
        invariant Tables() && root == i + 1
        invariant genpoly[..i + 1] == GenPoly(Roots(i))
      {
        NextRoot(i);
        GenPolyMonic(Roots(i));
        GenPolyCoefficients(i, 0);
        MultiplyRoot(GenPoly(Roots(i)), i, root);
        root := root + PRIM;
      }
      assert genpoly[..] == GeneratorPoly();
      for i := 0 to NROOTS + 1
        invariant Tables()
        invariant forall k :: 0 <= k < i ==> genpoly[k] == IndexForm(GeneratorPoly()[k])
        invariant forall k :: i <= k < LEN ==> genpoly[k] == GeneratorPoly()[k]
      {
        genpoly[i] := indexOf[genpoly[i]];
      }
    }

    /** Multiplies the first i + 1 coefficients by (x + x^root), in place from the top down. */
    method MultiplyRoot(ghost g: seq<Byte>, i: nat, root: nat)
      requires Tables() && genpoly.Length == LEN && genpoly != alphaTo && genpoly != indexOf
      requires i < NROOTS && genpoly[..i + 1] == g && g[i] == 1 && g[0] != 0
      modifies genpoly
      ensures Tables()
      ensures genpoly[..i + 2] == MulRoot(g, Exp(root))
    {
      hide Xor, Mul, Exp, MulRoot;
      ghost var h := MulRoot(g, Exp(root));
      genpoly[i + 1] := 1;
      MulRootAt(g, Exp(root), i + 1);
      var j := i;
      while j > 0
        invariant 0 <= j <= i && Tables()
        invariant forall k :: 0 <= k <= j ==> genpoly[k] == g[k]
        invariant forall k :: j < k <= i + 1 ==> genpoly[k] == h[k]
      {
        MulRootAt(g, Exp(root), j);
        if genpoly[j] != 0 {
          ProductByLog(g[j], root);
          MulComm(Exp(root), g[j]);
          var t := Antilog(indexOf[genpoly[j]] + root);
          genpoly[j] := Xor(genpoly[j - 1], t);
        } else {
          MulZero(Exp(root));
          XorZero(g[j - 1]);
          genpoly[j] := genpoly[j - 1];
        }
        j := j - 1;
      }
      MulRootAt(g, Exp(root), 0);
      ProductByLog(g[0], root);
      MulComm(Exp(root), g[0]);
      var t := Antilog(indexOf[genpoly[0]] + root);
      genpoly[0] := t;
    }

    /** Systematic encoding: parity becomes the remainder of data(x) * x^48 modulo the generator. */
    method Encode(data: array<Byte>, parity: array<Byte>)
      requires Valid()
      requires data.Length == KK && parity.Length == NROOTS
      requires parity != data && parity != alphaTo && parity != indexOf && parity != genpoly
      modifies parity
      ensures Valid()
      ensures parity[..] == Parity(data[..])
      ensures IsCodeword(data[..] + parity[..])
    {
      hide Xor, Mul, Exp, IndexForm, GeneratorPoly, EncodeStep, IsCodeword;
      for i := 0 to NROOTS
        invariant Valid() && forall k :: 0 <= k < i ==> parity[k] == 0
      {
        parity[i] := 0;
      }
      assert parity[..] == Zeros(NROOTS);
      for i := 0 to NN - NROOTS - PAD
        invariant Valid() && data[..] == old(data[..])
        invariant parity[..] == Divide(GeneratorPoly(), data[..i])
      {
        assert data[..i + 1][..i] == data[..i];
        EncodeSymbol(data[i], parity);
      }
      assert data[..KK] == data[..];
      EncodedIsCodeword(data[..]);
    }

    /** ALPHA_TO[MODNN(feedback + GENPOLY[k])]. */
    method TimesCoefficient(ghost f: Byte, feedback: Byte, k: nat) returns (t: Byte)
      requires Valid() && k < LEN && f != 0 && feedback == IndexForm(f)
      ensures t == Mul(f, GeneratorPoly()[k])
    {
      hide Xor, Mul, Exp, GeneratorPoly;
      GeneratorFacts(k);
      assert genpoly[..][k] == IndexForm(GeneratorPoly()[k]);
      ProductByLogs(f, GeneratorPoly()[k]);
      t := Antilog(feedback + genpoly[k]);
    }

    /** One turn of the division register. */
    method EncodeSymbol(d: Byte, parity: array<Byte>)
      requires Valid()
      requires parity.Length == NROOTS
      requires parity != alphaTo && parity != indexOf && parity != genpoly
      modifies parity
      ensures Valid()
      ensures parity[..] == EncodeStep(GeneratorPoly(), old(parity[..]), d)
    {
      hide Xor, Mul, Exp, IndexForm, GeneratorPoly;
      ghost var p := parity[..];
      ghost var f := Xor(d, p[0]);
      var feedback := indexOf[Xor(d, parity[0])];
      if feedback != A0 {
        AddFeedback(f, feedback, parity);
      } else {
        NoFeedback(p, GeneratorPoly());
      }
      ghost var q := parity[..];
      forall k | 0 <= k < NROOTS - 1 {
        parity[k] := parity[k + 1];
      }
      if feedback != A0 {
        var t := TimesCoefficient(f, feedback, 0);
        parity[NROOTS - 1] := t;
      } else {
        MulZero(GeneratorPoly()[0]);
        parity[NROOTS - 1] := 0;
      }
      EncodeStepAt(GeneratorPoly(), p, d, q, parity[..]);
    }

    method AddFeedback(ghost f: Byte, feedback: Byte, parity: array<Byte>)
      requires Valid()
      requires parity.Length == NROOTS && f != 0 && feedback == IndexForm(f)
      requires parity != alphaTo && parity != indexOf && parity != genpoly
      modifies parity
      ensures Valid()
      ensures forall k :: 1 <= k < NROOTS ==> parity[k] == Xor(old(parity[k]), Mul(f, GeneratorPoly()[NROOTS - k]))
    {
      hide Xor, Mul, Exp, IndexForm, GeneratorPoly;
      for j := 1 to NROOTS
        invariant Valid()
        invariant forall k :: 1 <= k < j ==> parity[k] == Xor(old(parity[k]), Mul(f, GeneratorPoly()[NROOTS - k]))
        invariant forall k :: j <= k < NROOTS ==> parity[k] == old(parity[k])
      {
        var t := TimesCoefficient(f, feedback, NROOTS - j);
        parity[j] := Xor(parity[j], t);
      }
    }
  }

  lemma NoFeedback(p: seq<Byte>, g: seq<Byte>)
    requires |p| == NROOTS && |g| == LEN
    ensures forall k :: 1 <= k < NROOTS ==> p[k] == Xor(p[k], Mul(0, g[NROOTS - k]))
  {
    hide Xor, Mul;
    forall k | 1 <= k < NROOTS ensures p[k] == Xor(p[k], Mul(0, g[NROOTS - k])) {
      MulZero(g[NROOTS - k]);
      XorZero(p[k]);
    }
  }

  lemma EncodeStepAt(g: seq<Byte>, p: seq<Byte>, d: Byte, q: seq<Byte>, r: seq<Byte>)
    requires |g| == LEN && |p| == |q| == |r| == NROOTS
    requires forall k :: 1 <= k < NROOTS ==> q[k] == Xor(p[k], Mul(Xor(d, p[0]), g[NROOTS - k]))
    requires forall k :: 0 <= k < NROOTS - 1 ==> r[k] == q[k + 1]
    requires r[NROOTS - 1] == Mul(Xor(d, p[0]), g[0])
    ensures r == EncodeStep(g, p, d)
  {
    hide Xor, Mul;
    XorZero(r[NROOTS - 1]);
    var e := EncodeStep(g, p, d);
    forall k | 0 <= k < NROOTS ensures r[k] == e[k] {
      if k < NROOTS - 1 { assert (p[1..] + [0])[k] == p[k + 1]; }
    }
  }

  lemma GenPolyEmpty()
    ensures GenPoly(Roots(0)) == [1]
  {
    assert Roots(0) == [];
  }

  lemma XtimeRegister(a: Byte, r: nat)
    requires r == (if 2 * a / 256 % 2 == 1 then XorNat(2 * a, GFPOLY) else 2 * a) % 256
    ensures r == Xtime(a)
  {
  }

  lemma NextRoot(i: nat)
    ensures Roots(i + 1)[..i] == Roots(i) && Roots(i + 1)[i] == Exp(i + 1)
    ensures GenPoly(Roots(i + 1)) == MulRoot(GenPoly(Roots(i)), Exp(i + 1))
  {
    hide Exp, MulRoot;
    assert Roots(i + 1)[..i] == Roots(i);
  }
}
