/** When lambda splits into distinct factors, the recursion it satisfies completes the received word to a codeword. */
module Completions {
  import opened Bytes
  import opened Codewords
  import opened Counting
  import opened Gf256
  import opened KeyEquation
  import opened Locators
  import opened Polynomials
  import opened SparseWords

  /** w has the first n syndromes of s. */
  ghost predicate Matches(w: seq<Byte>, s: seq<Byte>, n: nat)
    requires |s| == NROOTS && n <= NROOTS
  {
    |w| == NN && forall j :: 0 <= j < n ==> Horner(w, Exp(j + 1)) == s[j]
  }

  /** Any n positions carry a word with n given syndromes. */
  lemma {:induction false} Interpolated(ps: set<int>, s: seq<Byte>, n: nat) returns (w: seq<Byte>)
    requires ArePlaces(ps) && |ps| == n <= NROOTS && |s| == NROOTS
    ensures |w| == NN && SupportedIn(w, ps) && Matches(w, s, n)
  {
    hide Matches, SupportedIn, ArePlaces;
    if n == 0 {
      w := Zeros(NN);
      ZerosMatch(ps, s);
    } else {
      var p := Member(ps);
      Less(ps, p);
      var v := Interpolated(ps - {p}, s, n - 1);
      var b := SparseWord(ps, 1, n - 1);
      LastNonZero(b, ps, p, 1, n);
      w := OneMoreMatched(v, b, ps, p, s, n);
    }
  }

  lemma ZerosMatch(ps: set<int>, s: seq<Byte>)
    requires |s| == NROOTS
    ensures SupportedIn(Zeros(NN), ps) && Matches(Zeros(NN), s, 0)
  {
  }

  /** A multiple of b adjusts syndrome n and leaves the ones before. */
  lemma OneMoreMatched(v: seq<Byte>, b: seq<Byte>, ps: set<int>, p: int, s: seq<Byte>, n: nat) returns (w: seq<Byte>)
    requires 0 < n <= NROOTS && |s| == NROOTS && |v| == |b| == NN
    requires SupportedIn(v, ps - {p}) && Matches(v, s, n - 1)
    requires ZeroFrom(b, 1, n - 1) && FillsExactly(b, ps) && Horner(b, Exp(n)) != 0
    ensures |w| == NN && SupportedIn(w, ps) && Matches(w, s, n)
  {
    hide Horner, Exp, Mul, Xor, Mix;
    var gap := Xor(s[n - 1], Horner(v, Exp(n)));
    var t := Divided(gap, Horner(b, Exp(n)));
    w := Mix(1, v, t, b);
    forall j | 0 <= j < n ensures Horner(w, Exp(j + 1)) == s[j] {
      HornerMix(1, v, t, b, Exp(j + 1));
      MulOne(Horner(v, Exp(j + 1)));
      MulZero(t);
      XorZero(Horner(v, Exp(j + 1)));
      XorComm(Horner(v, Exp(n)), gap);
      XorCancel(Horner(v, Exp(n)), s[n - 1]);
    }
    forall i | 0 <= i < NN && w[i] != 0 ensures i in ps {
      MixAt(1, v, t, b, i);
      MulZero(t);
      MulOne(v[i]);
    }
  }

  /** Syndromes that vanish before k contribute only their own term at k. */
  lemma FirstTerm(lam: seq<Byte>, d: seq<Byte>, k: nat)
    requires |lam| == LEN && |d| == NROOTS && k < NROOTS && lam[0] == 1
    requires forall j :: 0 <= j < k ==> d[j] == 0
    ensures Conv(lam, d, k) == d[k]
  {
    hide Xor, Mul, Sum;
    var ts := ConvTerms(lam, d, k);
    assert ts == [ts[0]] + ts[1..];
    forall i | 0 <= i < k ensures ts[1..][i] == 0 { MulZero(lam[i + 1]); }
    SumConcat([ts[0]], ts[1..]);
    SumZeros(ts[1..]);
    SumOne(ts[0]);
    XorZero(ts[0]);
    MulOne(d[k]);
  }

  /** Two syndrome sequences with the same start and the same recursion are equal. */
  lemma {:induction false} SameRecursion(lam: seq<Byte>, s: seq<Byte>, t: seq<Byte>, n: nat, k: nat)
    requires |lam| == LEN && |s| == |t| == NROOTS && lam[0] == 1 && n <= k <= NROOTS
    requires s[..n] == t[..n]
    requires forall j :: n <= j < k ==> Conv(lam, s, j) == Conv(lam, t, j)
    ensures s[..k] == t[..k]
  {
    hide Conv, Xor;
    if n < k {
      SameRecursion(lam, s, t, n, k - 1);
      var d := AddSeq(s, t);
      forall j | 0 <= j < k - 1 ensures d[j] == 0 {
        assert s[..k - 1][j] == t[..k - 1][j];
        XorSame(s[j]);
      }
      FirstTerm(lam, d, k - 1);
      ConvAddS(lam, s, t, k - 1);
      XorSame(Conv(lam, s, k - 1));
      XorIsZero(s[k - 1], t[k - 1]);
      assert s[..k] == s[..k - 1] + [s[k - 1]] && t[..k] == t[..k - 1] + [t[k - 1]];
    }
  }

  /** The locator of a list annihilates the syndromes of words on it, from its degree on. */
  lemma LocatorAnnihilates(loc: seq<int>, w: seq<Byte>, k: nat)
    requires ArePositions(loc) && |loc| <= k < NROOTS && |w| == NN
    requires forall i :: 0 <= i < NN && w[i] != 0 ==> i in loc
    ensures Conv(Locator(loc), Syndromes(w), k) == 0
  {
    hide Conv, Locator, Eval, Horner, Exp, Mul, Syndromes;
    LocatorDegree(loc);
    ConvIsHorner(Locator(loc), w, k);
    var z := Weighted(Locator(loc), w);
    forall i | 0 <= i < NN ensures z[i] == 0 {
      LocatorRoots(loc, i);
      MulZero(w[i]);
      MulZero(Eval(Locator(loc), LocInv(i)));
    }
    HornerZeros(z, Exp(k + 1));
  }

  /** The errors on loc that explain all syndromes of r, given that its locator annihilates them. */
  lemma Explained(r: seq<Byte>, loc: seq<int>) returns (w: seq<Byte>)
    requires |r| == NN && ArePositions(loc) && Distinct(loc) && |loc| <= NROOTS
    requires forall k :: |loc| <= k < NROOTS ==> Conv(Locator(loc), Syndromes(r), k) == 0
    ensures |w| == NN && Syndromes(w) == Syndromes(r)
    ensures forall i :: 0 <= i < NN && w[i] != 0 ==> i in loc
  {
    hide Conv, Locator, Matches, SupportedIn, Syndromes, ArePlaces;
    PlacesOf(loc);
    DistinctSize(loc);
    w := Interpolated(Elements(loc), Syndromes(r), |loc|);
    SupportedOn(w, loc);
    MatchedStart(w, Syndromes(r), |loc|);
    ExplainsAll(w, Syndromes(r), loc);
  }

  lemma SupportedOn(w: seq<Byte>, loc: seq<int>)
    requires SupportedIn(w, Elements(loc))
    ensures forall i :: 0 <= i < |w| && w[i] != 0 ==> i in loc
  {
  }

  lemma MatchedStart(w: seq<Byte>, s: seq<Byte>, n: nat)
    requires |s| == NROOTS && n <= NROOTS && Matches(w, s, n)
    ensures Syndromes(w)[..n] == s[..n]
  {
    hide Horner, Exp;
  }

  lemma ExplainsAll(w: seq<Byte>, s: seq<Byte>, loc: seq<int>)
    requires |w| == NN && |s| == NROOTS && ArePositions(loc) && |loc| <= NROOTS
    requires forall i :: 0 <= i < NN && w[i] != 0 ==> i in loc
    requires Syndromes(w)[..|loc|] == s[..|loc|]
    requires forall k :: |loc| <= k < NROOTS ==> Conv(Locator(loc), s, k) == 0
    ensures Syndromes(w) == s
  {
    hide Conv, Locator, Syndromes;
    LocatorDegree(loc);
    forall k | |loc| <= k < NROOTS ensures Conv(Locator(loc), Syndromes(w), k) == Conv(Locator(loc), s, k) {
      LocatorAnnihilates(loc, w, k);
    }
    SameRecursion(Locator(loc), Syndromes(w), s, |loc|, NROOTS);
    assert Syndromes(w)[..NROOTS] == Syndromes(w) && s[..NROOTS] == s;
  }

  lemma PlacesOf(loc: seq<int>)
    requires ArePositions(loc)
    ensures ArePlaces(Elements(loc))
  {
  }

  /** Adding them gives a codeword. */
  lemma CompletedIsCodeword(r: seq<Byte>, w: seq<Byte>)
    requires |r| == |w| == NN && Syndromes(w) == Syndromes(r)
    ensures IsCodeword(AddSeq(r, w))
  {
    hide Horner, Exp, Xor;
    forall j | 1 <= j <= NROOTS ensures Horner(AddSeq(r, w), Exp(j)) == 0 {
      HornerAdd(r, w, Exp(j));
      assert Syndromes(w)[j - 1] == Syndromes(r)[j - 1];
      XorSame(Horner(r, Exp(j)));
    }
  }
}
