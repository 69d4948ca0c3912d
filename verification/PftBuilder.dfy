/** Collecting the fragments of one AF packet and rebuilding the packet. */
module PftBuilder {
  import opened Options
  import opened PftFragment
  import opened PftGeometry
  import opened Wire

  /** Whether decoding may be tried; Fault stands for the exceptions and assertions of canAttemptToDecode. */
  datatype Attempt = Yes | Maybe | No | Fault

  type Fragments = map<nat, Fragment>

  lemma {:induction false} LeastExists(s: set<nat>)
    requires s != {}
    ensures exists k :: IsLeast(k, s)
    decreases |s|
  {
    var y :| y in s;
    var rest := s - {y};
    assert forall x :: x in s ==> x == y || x in rest;
    if rest == {} {
      assert IsLeast(y, s);
    } else {
      LeastExists(rest);
      var k :| IsLeast(k, rest);
      assert IsLeast(if k <= y then k else y, s);
    }
  }

  predicate IsLeast(k: nat, s: set<nat>) {
    k in s && forall x :: x in s ==> k <= x
  }

  /** First key of an ordered map. */
  function Least(s: set<nat>): (k: nat)
    requires s != {}
    ensures IsLeast(k, s)
  {
    LeastExists(s);
    var k :| k in s && IsLeast(k, s);
    k
  }

  /** The first fragment, or the second when the first is the last of the packet. */
  function Reference(frags: Fragments): (r: Option<Fragment>)
    requires frags != map[]
    ensures r.Some? ==> exists i :: i in frags && frags[i] == r.value
  {
    var i := Least(frags.Keys);
    if !frags[i].IsLast() then Some(frags[i])
    else if frags.Keys - {i} == {} then None
    else Some(frags[Least(frags.Keys - {i})])
  }

  /** Every fragment carries its own key and the numbers of its packet. */
  predicate Collected(frags: Fragments, pseq: nat, fcount: nat) {
    forall i :: i in frags ==>
      frags[i].findex == i && frags[i].pseq == pseq && frags[i].fcount == fcount && frags[i].WellFormed()
  }

  predicate AllConsistent(frags: Fragments, pseq: nat) {
    frags != map[] ==>
      forall i :: i in frags ==> frags[Least(frags.Keys)].CheckConsistency(frags[i]) && frags[i].pseq == pseq
  }

  /** Number of chunks, in 32-bit arithmetic. */
  function Cmax32(fcount: nat, frag: Fragment): nat { fcount * frag.plen % UINT32 / (frag.rsk + PARITYBYTES) }

  function Rxmin32(fcount: nat, frag: Fragment): nat
    requires frag.plen > 0
  {
    (fcount - Cmax32(fcount, frag) * PARITYBYTES % UINT32 / frag.plen) % UINT32
  }

  function CanAttempt(frags: Fragments, pseq: nat, fcount: nat): Attempt {
    if frags == map[] then No
    else if !AllConsistent(frags, pseq) then Fault
    else if |frags| == fcount then Yes
    else match Reference(frags)
      case None => No
      case Some(frag) =>
        if !frag.fec then No
        else if Cmax32(fcount, frag) == 0 then Fault
        else if frag.plen == 0 then Fault
        else if |frags| >= Rxmin32(fcount, frag) then Maybe
        else No
  }

  /** The fragments kept after one more arrives. */
  function Push(frags: Fragments, fcount: nat, frag: Fragment): Fragments {
    if frag.fcount != fcount || frag.findex in frags then frags
    else if frags != map[] && !frag.CheckConsistency(frags[Least(frags.Keys)]) then frags
    else frags[frag.findex := frag]
  }

  /** The check against one stored fragment keeps all stored fragments consistent with each other. */
  lemma PushKeepsConsistency(frags: Fragments, pseq: nat, fcount: nat, frag: Fragment)
    requires Collected(frags, pseq, fcount) && AllConsistent(frags, pseq)
    requires frag.WellFormed() && frag.pseq == pseq
    ensures Collected(Push(frags, fcount, frag), pseq, fcount)
    ensures AllConsistent(Push(frags, fcount, frag), pseq)
  {
    var after := Push(frags, fcount, frag);
    if after != frags {
      var k := Least(after.Keys);
      forall i | i in after ensures after[k].CheckConsistency(after[i]) && after[i].pseq == pseq {
        if frags != map[] {
          assert frags[Least(frags.Keys)].CheckConsistency(frags[Least(frags.Keys)]);
        }
      }
    }
  }

  /**
   * A fragment is stored exactly when it is new and no stored one differs in Fcount, FEC, RSk, RSz or,
   * with FEC, Plen.
   */
  lemma PushDecides(frags: Fragments, pseq: nat, fcount: nat, frag: Fragment)
    requires Collected(frags, pseq, fcount) && AllConsistent(frags, pseq) && frag.pseq == pseq
    ensures Push(frags, fcount, frag) ==
      if frag.fcount == fcount && frag.findex !in frags && (forall i :: i in frags ==> Agree(frags[i], frag))
      then frags[frag.findex := frag] else frags
  {
    if frags != map[] {
      var k := Least(frags.Keys);
      assert frags[k].CheckConsistency(frags[k]);
      if forall i :: i in frags ==> Agree(frags[i], frag) { assert Agree(frags[k], frag); }
      if frag.CheckConsistency(frags[k]) {
        forall i | i in frags ensures Agree(frags[i], frag) {
          assert frags[k].CheckConsistency(frags[i]);
        }
      }
    }
  }

  ghost predicate Agree(a: Fragment, b: Fragment) {
    a.fcount == b.fcount && a.fec == b.fec && a.rsk == b.rsk && a.rsz == b.rsz && (a.fec ==> a.plen == b.plen)
  }

  /** Header values like the sender's, with which the 32-bit computations neither wrap nor fault. */
  predicate SenderFormat(frag: Fragment) {
    && frag.fcount >= 2 && frag.findex < frag.fcount && frag.WellFormed()
    && (frag.fec ==>
          && frag.plen > 0 && frag.rsz <= frag.rsk <= MAX_CHUNK
          && frag.fcount * frag.plen < UINT32
          && Cmax32(frag.fcount, frag) > 0)
  }

  /** Consistency checked at push means that an attempt never faults. */
  lemma NeverFaults(frags: Fragments, pseq: nat, fcount: nat)
    requires Collected(frags, pseq, fcount) && AllConsistent(frags, pseq)
    requires forall i :: i in frags ==> SenderFormat(frags[i])
    ensures CanAttempt(frags, pseq, fcount) != Fault
  {
  }
}
