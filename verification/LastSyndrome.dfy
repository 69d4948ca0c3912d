/**
 * The recursion one syndrome short: with an odd number of erasures e, u = (49 - e) / 2 further errors are one
 * too many. When the first u - 1 discrepancies are zero the length jumps once, to e + u, and the
 * coefficient it gets there is never touched again.
 */
module LastSyndrome {
  import opened Bytes
  import opened Codewords
  import opened Gf256
  import opened KeyEquation
  import opened Locators

  /** The number of errors beside the erasures that is just out of reach. */
  function Beyond(ps: seq<int>): nat
    requires |ps| <= NROOTS
  {
    (NROOTS + 1 - |ps|) / 2
  }

  /** The first discrepancies are zero up to the one at e + u - 1. */
  ghost predicate Quiet(s: seq<Byte>, ps: seq<int>)
    requires |s| == NROOTS && ArePositions(ps) && |ps| <= NROOTS
  {
    var e, u := |ps|, Beyond(ps);
    && e + 2 * u == NROOTS + 1
    && (forall k :: e <= k < e + u - 1 ==> Conv(Locator(ps), s, k) == 0)
    && Conv(Locator(ps), s, e + u - 1) != 0
  }

  /** The coefficient of x^(e + u) that lambda then ends with. */
  function LastCoefficient(s: seq<Byte>, ps: seq<int>): Byte
    requires |s| == NROOTS && ArePositions(ps) && |ps| <= NROOTS && |ps| + 2 * Beyond(ps) == NROOTS + 1
  {
    Mul(Conv(Locator(ps), s, |ps| + Beyond(ps) - 1), Locator(ps)[|ps|])
  }

  /** Where the recursion is after `done` steps. */
  ghost predicate OnPath(lam: seq<Byte>, b: seq<Byte>, s: seq<Byte>, ps: seq<int>, el: int, done: nat)
    requires |lam| == |b| == LEN && |s| == NROOTS && ArePositions(ps) && |ps| <= NROOTS && done <= NROOTS
  {
    var e, u := |ps|, Beyond(ps);
    Quiet(s, ps) ==>
      if done < e + u then lam == Locator(ps) && el == e && b[done] == Locator(ps)[e]
      else el == e + u && lam[e + u] == LastCoefficient(s, ps)
  }

  lemma PathStart(s: seq<Byte>, ps: seq<int>)
    requires |s| == NROOTS && ArePositions(ps) && |ps| <= NROOTS
    ensures OnPath(Locator(ps), Locator(ps), s, ps, |ps|, |ps|)
  {
    hide Locator, Conv;
  }

  /** A step without discrepancy stays on the path. */
  lemma PathZero(lam: seq<Byte>, b: seq<Byte>, s: seq<Byte>, ps: seq<int>, el: int, done: nat)
    requires |lam| == |b| == LEN && |s| == NROOTS && ArePositions(ps) && |ps| <= done < NROOTS
    requires OnPath(lam, b, s, ps, el, done) && Conv(lam, s, done) == 0
    ensures OnPath(lam, ShiftUp(b), s, ps, el, done + 1)
  {
    hide Locator, Conv, LastCoefficient;
  }

  /** A correction without growth comes after the jump and stays below its coefficient. */
  lemma PathKeep(lam: seq<Byte>, b: seq<Byte>, s: seq<Byte>, ps: seq<int>, el: int, done: nat)
    requires |lam| == |b| == LEN && |s| == NROOTS && ArePositions(ps) && |ps| <= done < NROOTS
    requires OnPath(lam, b, s, ps, el, done) && Conv(lam, s, done) != 0
    requires 2 * el > done + |ps| && DegreeAtMost(b, done + |ps| - el)
    ensures OnPath(Combine(lam, Conv(lam, s, done), b), ShiftUp(b), s, ps, el, done + 1)
  {
    hide Locator, Conv, LastCoefficient, Mul, Xor;
    var d, top := Conv(lam, s, done), |ps| + Beyond(ps);
    if Quiet(s, ps) {
      MulZero(d);
      XorZero(lam[top]);
    }
  }

  /** The only growth is the jump. */
  lemma PathGrow(lam: seq<Byte>, b: seq<Byte>, s: seq<Byte>, ps: seq<int>, el: int, done: nat, b': seq<Byte>)
    requires |lam| == |b| == |b'| == LEN && |s| == NROOTS && ArePositions(ps) && |ps| <= done < NROOTS
    requires OnPath(lam, b, s, ps, el, done) && Conv(lam, s, done) != 0
    requires 2 * el <= done + |ps|
    ensures OnPath(Combine(lam, Conv(lam, s, done), b), b', s, ps, done + 1 + |ps| - el, done + 1)
  {
    hide Locator, Conv, Mul, Xor;
    var d, top := Conv(lam, s, done), |ps| + Beyond(ps);
    if Quiet(s, ps) {
      LocatorDegree(ps);
      XorZero(Mul(d, b[done]));
    }
  }
}
