/** A sent packet, protected or not, and what its undamaged fragments are rebuilt to. */
module PftOutgoing {
  import opened Arithmetic
  import opened Bytes
  import opened Codewords
  import opened PftAfBuilder
  import opened PftBlock
  import opened PftBuilder
  import opened PftEndToEnd
  import opened PftFragment
  import opened PftGeometry
  import opened PftInOrder
  import opened PftLosses
  import opened PftPlain
  import opened PftRecovery
  import opened PftSender
  import opened Wire

  /** An AF packet with the way it is sent. */
  datatype Outgoing = Protected(af: seq<Byte>, s: Settings) | Plain(af: seq<Byte>)

  /** The packet can be sent under number p and received. */
  ghost predicate Proper(o: Outgoing, p: nat) {
    && Acceptable(o.af)
    && match o
       case Protected(af, s) => Sendable(af, s, p)
       case Plain(af) => |af| > MAX_PLAIN && Receivable(af, p)
  }

  ghost function Count(o: Outgoing, p: nat): nat
    requires Proper(o, p)
  {
    match o
    case Protected(af, s) => Sizes(|af|, s).fcount
    case Plain(af) => PlainCount(|af|)
  }

  /** Fragment j of the packet, undamaged. */
  ghost function Part(o: Outgoing, p: nat, j: nat): Fragment
    requires Proper(o, p)
  {
    match o
    case Protected(af, s) => Sent(af, s, p, j)
    case Plain(af) => PlainSent(af, p, j)
  }

  ghost predicate PartsOf(frags: Fragments, o: Outgoing, p: nat)
    requires Proper(o, p)
  {
    forall j :: j in frags ==> j < Count(o, p) && frags[j] == Part(o, p, j)
  }

  lemma PartFormat(o: Outgoing, p: nat, i: nat, j: nat)
    requires Proper(o, p) && i < Count(o, p)
    ensures SenderFormat(Part(o, p, i)) && Part(o, p, i).CheckConsistency(Part(o, p, j))
    ensures Part(o, p, i).pseq == p && Part(o, p, i).findex == i && Part(o, p, i).fcount == Count(o, p)
  {
    hide Sizes, PlainCount, PlainSent, Sent, SenderFormat, Receivable, Sendable, CheckCrc;
    match o
    case Protected(af, s) =>
      SentWellFormed(af, s, p, i);
      SentAgree(af, s, p, i, j);
    case Plain(af) =>
      PlainFormat(af, p, i, j);
      PlainFields(af, p, i);
  }

  lemma PushPart(before: Fragments, o: Outgoing, p: nat, i: nat)
    requires Proper(o, p) && i < Count(o, p) && PartsOf(before, o, p)
    ensures PartsOf(Push(before, Count(o, p), Part(o, p, i)), o, p)
  {
    hide Proper, Count, Part;
    PartFormat(o, p, i, i);
  }

  // ---- What is rebuilt ----

  /** Protected: the packet when no list has more than 48 erasures and every chunk stays within the budget. */
  lemma ProtectedOutcome(frags: Fragments, af: seq<Byte>, s: Settings, p: nat, r: Extracted)
    requires Sendable(af, s, p) && Acceptable(af) && From(frags, af, s, p)
    requires Outcome(frags, p, Sizes(|af|, s).fcount, r)
    ensures Sizes(|af|, s).fcount > 0
    ensures var g := Sizes(|af|, s);
      var few := FewErasures(frags, g.fcount, g.plen, g.chunkLen + NROOTS);
      WithinBudget(frags, g) || !few ==>
        r == if CanAttempt(frags, p, g.fcount) != No && few then Packet(af) else Nothing
  {
    hide Sizes, CeilDiv, Sent, CheckCrc, LostSet, FewErasures, ChunkWithin, Budget, CanAttempt, FecOutcome;
    var g := Sizes(|af|, s);
    FragmentBounds(|af|, s);
    SizesFit(af, s);
    FromHeaders(frags, af, s, p);
    if frags == map[] {
      NothingToTry(p, g.fcount);
    } else {
      AttemptOf(frags, af, s, p);
      if CanAttempt(frags, p, g.fcount) != No {
        if !FewErasures(frags, g.fcount, g.plen, g.chunkLen + NROOTS) {
          TooManyErasures(frags, af, s, p, r);
        }
        if WithinBudget(frags, g) && FewErasures(frags, g.fcount, g.plen, g.chunkLen + NROOTS) {
          forall i | 0 <= i < g.chunks ensures ChunkWithin(frags, af, g, i) {
            assert Budget(frags, g, i) <= NROOTS;
            BudgetSuffices(frags, af, s, p, i);
          }
          RecoveredWithin(frags, af, s, p, r);
        }
      }
    }
  }

  lemma NothingToTry(pseq: nat, fcount: nat)
    ensures CanAttempt(map[], pseq, fcount) == No
  {
  }

  lemma TooManyErasures(frags: Fragments, af: seq<Byte>, s: Settings, pseq: nat, r: Extracted)
    requires Sendable(af, s, pseq) && HeadersFrom(frags, af, s, pseq)
    requires var g := Sizes(|af|, s);
      && g.fcount > 0 && CanAttempt(frags, pseq, g.fcount) in {Yes, Maybe} && Outcome(frags, pseq, g.fcount, r)
      && !FewErasures(frags, g.fcount, g.plen, g.chunkLen + NROOTS)
    ensures r == Nothing
  {
    hide Sizes, CeilDiv, Sent, CheckCrc, FewErasures, CanAttempt, Reference, AllReachable, CorrectedData, Decodable;
    ReferenceOf(frags, af, s, pseq);
  }

  /** Without protection: the packet from all fragments, nothing from fewer. */
  lemma PlainPartsOutcome(frags: Fragments, af: seq<Byte>, p: nat, r: Extracted)
    requires Proper(Plain(af), p) && PartsOf(frags, Plain(af), p) && Outcome(frags, p, PlainCount(|af|), r)
    ensures r == if CanAttempt(frags, p, PlainCount(|af|)) != No then Packet(af) else Nothing
  {
    hide PlainCount, PlainSent, CheckCrc, Receivable, Joined, SenderFormat, Reference, CanAttempt;
    SizeLeAllBut(frags, PlainCount(|af|));
    if |frags| == PlainCount(|af|) {
      PlainAttempt(frags, af, p);
      PlainRecoveredIff(frags, af, p, r);
    } else {
      PlainWaits(frags, af, p);
    }
  }

  lemma PlainWaits(frags: Fragments, af: seq<Byte>, p: nat)
    requires Proper(Plain(af), p) && PartsOf(frags, Plain(af), p) && |frags| != PlainCount(|af|)
    ensures CanAttempt(frags, p, PlainCount(|af|)) == No
  {
    hide PlainCount, PlainLen, Piece, CheckCrc, SenderFormat, Receivable;
    forall i, j | i in frags && j in frags ensures frags[i].CheckConsistency(frags[j]) {
      PartFormat(Plain(af), p, i, j);
    }
  }

  /** Some chunk of a protected packet costs the decoder more than it has, but not in listed erasures alone. */
  ghost predicate Overdrawn(frags: Fragments, o: Outgoing, p: nat)
    requires Proper(o, p)
  {
    o.Protected? && Sizes(|o.af|, o.s).fcount > 0 &&
    var g := Sizes(|o.af|, o.s);
    !WithinBudget(frags, g) && FewErasures(frags, g.fcount, g.plen, g.chunkLen + NROOTS)
  }

  /** The receiver tries to decode, and no list has more than 48 erasures. */
  ghost predicate Enough(frags: Fragments, o: Outgoing, p: nat)
    requires Proper(o, p)
  {
    CanAttempt(frags, p, Count(o, p)) != No &&
      (o.Protected? && Count(o, p) > 0 ==>
        var g := Sizes(|o.af|, o.s); FewErasures(frags, g.fcount, g.plen, g.chunkLen + NROOTS))
  }

  /** Unless a chunk is overdrawn, the packet itself is rebuilt or nothing is, and exactly when it is known. */
  lemma NeverWrong(frags: Fragments, o: Outgoing, p: nat, r: Extracted)
    requires Proper(o, p) && PartsOf(frags, o, p) && Outcome(frags, p, Count(o, p), r)
    ensures Overdrawn(frags, o, p) || r == if Enough(frags, o, p) then Packet(o.af) else Nothing
  {
    hide Sizes, PlainCount, Sent, PlainSent, CheckCrc, WithinBudget, FewErasures, Outcome, CanAttempt, Sendable,
      Receivable;
    match o
    case Protected(af, s) => ProtectedOutcome(frags, af, s, p, r);
    case Plain(af) => PlainPartsOutcome(frags, af, p, r);
  }

  /** Full chunks are never overdrawn: their cost is the length of their erasure list. */
  lemma FullChunksNotOverdrawn(frags: Fragments, o: Outgoing, p: nat)
    requires Proper(o, p)
    requires o.Protected? ==> Sizes(|o.af|, o.s).chunkLen == KK
    ensures !Overdrawn(frags, o, p)
  {
    hide Sizes, CeilDiv, FewErasures, Budget, Receivable, CheckCrc;
    if Overdrawn(frags, o, p) {
      forall i | 0 <= i < Sizes(|o.af|, o.s).chunks ensures Budget(frags, Sizes(|o.af|, o.s), i) <= NROOTS {
        FullChunkBudget(frags, |o.af|, o.s, i);
      }
    }
  }

  lemma FullChunkBudget(frags: Fragments, l: nat, s: Settings, i: nat)
    requires l > 0 && s.Valid() && Sizes(l, s).chunkLen == KK && Sizes(l, s).fcount > 0 && i < Sizes(l, s).chunks
    requires var g := Sizes(l, s); FewErasures(frags, g.fcount, g.plen, g.chunkLen + NROOTS)
    ensures Budget(frags, Sizes(l, s), i) <= NROOTS
  {
    hide Sizes, CeilDiv, HitSet, LostSet, HitCount, At, ChunkExtent, Missed;
    var g := Sizes(l, s);
    var w := g.chunkLen + NROOTS;
    ChunkInBlock(l, s, i);
    assert |ErasedIn(frags, g.fcount, g.plen, w, i)| <= NROOTS;
    FullChunkCost(At(i, w, 0), g.fcount, LostSet(frags, g.fcount));
    CostAtMost(KK, At(i, w, 0), g.fcount, LostSet(frags, g.fcount));
  }
}
