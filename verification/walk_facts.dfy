/** Facts about the CIGAR walk of `get_column_x`: which op it stops at,
    when it fails to place the position, and what a gap yields. */
module WalkFacts {
  import opened Results
  import opened Nucleotides
  import opened Tokens
  import opened Cigar
  import opened Quality
  import opened Entries
  import opened ColumnX

  /** Reference position of the first base of op `j`. */
  function OpRefStart(al: Alignment, j: nat): int
    requires j <= |al.cigar|
  {
    al.position + RefSpan(al.cigar[..j])
  }

  /** Op `j` consumes reference and reaches `refPos` (the walk's stop test). */
  predicate OpHolds(al: Alignment, refPos: int, j: nat)
    requires j < |al.cigar|
  {
    ConsumesRef(al.cigar[j].code) && OpRefStart(al, j) + al.cigar[j].len - 1 >= refPos
  }

  /** Op `i` is the first op holding `refPos`, and every op before it has a
      known code. */
  predicate Locates(al: Alignment, refPos: int, i: nat) {
    && i < |al.cigar|
    && OpHolds(al, refPos, i)
    && forall j :: 0 <= j < i ==> IsKnown(al.cigar[j].code) && !OpHolds(al, refPos, j)
  }

  /** The observation built at the locating op with the cursors the
      invariant predicts there. */
  function AtLocated(al: Alignment, refPos: int, qq: map<int, int>, i: nat): Result<Obs>
    requires i < |al.cigar| && ConsumesRef(al.cigar[i].code) && OpRefStart(al, i) + al.cigar[i].len - 1 >= refPos
    requires NonEmpty(qq) && ReadFitsCigar(al)
  {
    if IsMatchClass(al.cigar[i].code) then
      MatchObs(al, refPos, qq, i, OpRefStart(al, i), ReadSpan(al.cigar[..i]))
    else GapObs(al, refPos, qq, i, OpRefStart(al, i), ReadSpan(al.cigar[..i]))
  }

  /** Past an op that does not hold the position, the walk moves both
      cursors by the op's reference and read lengths. */
  lemma WalkPasses(al: Alignment, refPos: int, k: nat, idxRef: int, idxRead: int)
    requires AtCursor(al, k, idxRef, idxRead)
    requires k < |al.cigar| && IsKnown(al.cigar[k].code)
    requires !(ConsumesRef(al.cigar[k].code) && idxRef + al.cigar[k].len - 1 >= refPos)
    ensures AtCursor(al, k + 1, idxRef + RefLen(al.cigar[k]), idxRead + ReadLen(al.cigar[k]))
    ensures Seek(al, refPos, k, idxRef, idxRead)
         == Seek(al, refPos, k + 1, idxRef + RefLen(al.cigar[k]), idxRead + ReadLen(al.cigar[k]))
  {
    PrefixStep(al.cigar, k);
  }

  lemma {:induction false} WalkToLocated(al: Alignment, refPos: int,
                                         k: nat, idxRef: int, idxRead: int, i: nat)
    requires AtCursor(al, k, idxRef, idxRead)
    requires Locates(al, refPos, i) && k <= i
    ensures Seek(al, refPos, k, idxRef, idxRead) == Ok(Stop(i, OpRefStart(al, i), ReadSpan(al.cigar[..i])))
    decreases i - k
  {
    if k < i {
      assert IsKnown(al.cigar[k].code) && !OpHolds(al, refPos, k);
      WalkPasses(al, refPos, k, idxRef, idxRead);
      WalkToLocated(al, refPos, k + 1, idxRef + RefLen(al.cigar[k]), idxRead + ReadLen(al.cigar[k]), i);
    }
  }

  /** The observation the walk builds once `Seek` has stopped, or the fault
      `Seek` ended with. */
  function AtStop(al: Alignment, refPos: int, qq: map<int, int>, k: nat, idxRef: int, idxRead: int): Result<Obs>
    requires AtCursor(al, k, idxRef, idxRead) && NonEmpty(qq) && ReadFitsCigar(al)
  {
    var s :- Seek(al, refPos, k, idxRef, idxRead);
    if IsMatchClass(al.cigar[s.op].code) then MatchObs(al, refPos, qq, s.op, s.idxRef, s.idxRead)
    else GapObs(al, refPos, qq, s.op, s.idxRef, s.idxRead)
  }

  /** Past an op that does not hold the position, the observation walk moves
      on exactly as `Seek` does. */
  lemma WalkStep(al: Alignment, refPos: int, qq: map<int, int>, k: nat, idxRef: int, idxRead: int)
    requires AtCursor(al, k, idxRef, idxRead) && NonEmpty(qq) && ReadFitsCigar(al)
    requires k < |al.cigar| && IsKnown(al.cigar[k].code)
    requires !(ConsumesRef(al.cigar[k].code) && idxRef + al.cigar[k].len - 1 >= refPos)
    ensures AtCursor(al, k + 1, idxRef + RefLen(al.cigar[k]), idxRead + ReadLen(al.cigar[k]))
    ensures Walk(al, refPos, qq, k, idxRef, idxRead)
         == Walk(al, refPos, qq, k + 1, idxRef + RefLen(al.cigar[k]), idxRead + ReadLen(al.cigar[k]))
    ensures AtStop(al, refPos, qq, k, idxRef, idxRead)
         == AtStop(al, refPos, qq, k + 1, idxRef + RefLen(al.cigar[k]), idxRead + ReadLen(al.cigar[k]))
  {
    PrefixStep(al.cigar, k);
  }

  /** Where `Seek` stops at op `k` (or faults there), the walk builds the
      same result. */
  lemma WalkHere(al: Alignment, refPos: int, qq: map<int, int>, k: nat, idxRef: int, idxRead: int)
    requires AtCursor(al, k, idxRef, idxRead) && NonEmpty(qq) && ReadFitsCigar(al)
    requires k < |al.cigar| ==> !IsKnown(al.cigar[k].code) || (ConsumesRef(al.cigar[k].code) && idxRef + al.cigar[k].len - 1 >= refPos)
    ensures Walk(al, refPos, qq, k, idxRef, idxRead) == AtStop(al, refPos, qq, k, idxRef, idxRead)
  {
    if k < |al.cigar| {
      PrefixStep(al.cigar, k);
    }
  }

  /** The walk is `Seek` followed by the observation at the op it stops
      at; a fault of `Seek` is the walk's fault. */
  lemma {:induction false} WalkSeeks(al: Alignment, refPos: int, qq: map<int, int>, k: nat, idxRef: int, idxRead: int)
    requires AtCursor(al, k, idxRef, idxRead) && NonEmpty(qq) && ReadFitsCigar(al)
    ensures Walk(al, refPos, qq, k, idxRef, idxRead) == AtStop(al, refPos, qq, k, idxRef, idxRead)
    decreases |al.cigar| - k
  {
    if k < |al.cigar| && IsKnown(al.cigar[k].code) && !(ConsumesRef(al.cigar[k].code) && idxRef + al.cigar[k].len - 1 >= refPos) {
      WalkStep(al, refPos, qq, k, idxRef, idxRead);
      WalkSeeks(al, refPos, qq, k + 1, idxRef + RefLen(al.cigar[k]), idxRead + ReadLen(al.cigar[k]));
    } else {
      WalkHere(al, refPos, qq, k, idxRef, idxRead);
    }
  }

  /** `get_column_x` stops at the first op holding the position, with the
      reference cursor at that op's start and the read cursor advanced over
      every earlier M, =, X, I, S and H op. */
  lemma GetColumnXLocated(al: Alignment, refPos: int, qq: map<int, int>, i: nat)
    requires NonEmpty(qq) && ReadFitsCigar(al) && Locates(al, refPos, i)
    ensures GetColumnX(refPos, al, qq) == AtLocated(al, refPos, qq, i)
  {
    assert al.cigar[..0] == [];
    WalkToLocated(al, refPos, 0, al.position, 0, i);    WalkSeeks(al, refPos, qq, 0, al.position, 0);
  }

  /** Forward strand, match-class op: the read cycle is the read cursor
      plus the offset into the op; a non-nucleotide current base is
      dropped; past the op's first base the token is (previous base,
      current base); the quality bucket is the lookup of the base's quality. */
  lemma ForwardMatch(al: Alignment, refPos: int, qq: map<int, int>, i: nat)
    requires NonEmpty(qq) && ReadFitsCigar(al) && Locates(al, refPos, i)
    requires IsMatchClass(al.cigar[i].code) && !al.isReverse
    ensures var r := GetColumnX(refPos, al, qq);
      var rc := ReadSpan(al.cigar[..i]) + (refPos - OpRefStart(al, i));
      && (r.Ok? && r.value.Keep? ==>
            && r.value.entry.rcycle == rc
            && 0 <= rc < |al.quals| && r.value.entry.qt == Lookup(qq, al.quals[rc]))
      && (0 <= rc < |al.quals| && 0 <= rc < |al.bases| && !IsNt(Upper(al.bases[rc])) ==> r == Ok(Drop))
      && (refPos > OpRefStart(al, i) && 0 <= rc < |al.quals| && 0 <= rc < |al.bases| ==>
            && r.Ok?
            && (r.value.Drop? <==> !IsNt(Upper(al.bases[rc - 1])) || !IsNt(Upper(al.bases[rc])))
            && (r.value.Keep? ==> r.value.entry.dt == [Upper(al.bases[rc - 1]), Upper(al.bases[rc])]))
      && (!(0 <= rc < |al.quals|) ==> r == Err(OutOfRange))
      && (0 <= rc < |al.quals| && !(0 <= rc < |al.bases|) ==> r == Err(OutOfRange))
  {
    GetColumnXLocated(al, refPos, qq, i);
  }

  /** Forward strand, current base `al.bases[rc]` at the first base of op
      `i`: at the read's first base the token is the base alone; past it
      there is an op before, and that op shapes the token as
      `BeforeOpToken` says. */
  predicate FirstBaseToken(al: Alignment, i: nat, rc: int, r: Result<Obs>)
    requires i < |al.cigar|
  {
    0 <= rc < |al.quals| && rc < |al.bases| && IsNt(Upper(al.bases[rc])) ==>
      var cur := Upper(al.bases[rc]);
      && (rc == 0 ==> r.Ok? && r.value.Keep? && r.value.entry.dt == [cur])
      && (rc > 0 ==> i > 0)
      && (rc > 0 && i > 0 ==> BeforeOpToken(al, i, rc, cur, r))
  }

  /** Reverse strand, current base `al.bases[rc]` at the last base of op
      `i`: at the read's last base the token is the complemented base alone;
      before it there is an op after, and that op shapes the token as
      `AfterOpToken` says. */
  predicate LastBaseToken(al: Alignment, i: nat, rc: int, r: Result<Obs>)
    requires i < |al.cigar|
  {
    0 <= rc < |al.quals| && rc < |al.bases| && IsNt(Upper(al.bases[rc])) ==>
      var cur := Upper(al.bases[rc]);
      && (rc == |al.bases| - 1 ==> r.Ok? && r.value.Keep? && r.value.entry.dt == RevComp([cur]))
      && (rc < |al.bases| - 1 ==> i + 1 < |al.cigar|)
      && (rc < |al.bases| - 1 && i + 1 < |al.cigar| ==> AfterOpToken(al, i, rc, cur, r))
  }

  /** Forward strand, first base of a match-class op: the token is as
      `FirstBaseToken` says. */
  lemma ForwardFirstBase(al: Alignment, refPos: int, qq: map<int, int>, i: nat)
    requires NonEmpty(qq) && ReadFitsCigar(al) && Locates(al, refPos, i)
    requires IsMatchClass(al.cigar[i].code) && !al.isReverse && refPos == OpRefStart(al, i)
    ensures FirstBaseToken(al, i, ReadSpan(al.cigar[..i]), GetColumnX(refPos, al, qq))
  {
    GetColumnXLocated(al, refPos, qq, i);
    FirstBaseAt(al, refPos, qq, i, GetColumnX(refPos, al, qq));
  }

  /** `ForwardFirstBase` for the observation built at the locating op. */
  lemma FirstBaseAt(al: Alignment, refPos: int, qq: map<int, int>, i: nat, r: Result<Obs>)
    requires NonEmpty(qq) && ReadFitsCigar(al) && Locates(al, refPos, i)
    requires IsMatchClass(al.cigar[i].code) && !al.isReverse && refPos == OpRefStart(al, i)
    requires r == AtLocated(al, refPos, qq, i)
    ensures FirstBaseToken(al, i, ReadSpan(al.cigar[..i]), r)
  {
    var rc := ReadSpan(al.cigar[..i]);
    assert rc > 0 ==> i > 0 by {
      assert al.cigar[..0] == [];
    }
  }

  /** Reverse strand, last base of a match-class op: the token is as
      `LastBaseToken` says. */
  lemma ReverseLastBase(al: Alignment, refPos: int, qq: map<int, int>, i: nat)
    requires NonEmpty(qq) && ReadFitsCigar(al) && Locates(al, refPos, i)
    requires IsMatchClass(al.cigar[i].code) && al.isReverse
    requires refPos == OpRefStart(al, i) + al.cigar[i].len - 1
    ensures LastBaseToken(al, i, ReadSpan(al.cigar[..i]) + al.cigar[i].len - 1, GetColumnX(refPos, al, qq))
  {
    GetColumnXLocated(al, refPos, qq, i);
    LastBaseAt(al, refPos, qq, i, GetColumnX(refPos, al, qq));
  }

  /** `ReverseLastBase` for the observation built at the locating op. */
  lemma LastBaseAt(al: Alignment, refPos: int, qq: map<int, int>, i: nat, r: Result<Obs>)
    requires NonEmpty(qq) && ReadFitsCigar(al) && Locates(al, refPos, i)
    requires IsMatchClass(al.cigar[i].code) && al.isReverse
    requires refPos == OpRefStart(al, i) + al.cigar[i].len - 1
    requires r == AtLocated(al, refPos, qq, i)
    ensures LastBaseToken(al, i, ReadSpan(al.cigar[..i]) + al.cigar[i].len - 1, r)
  {
    var rc := ReadSpan(al.cigar[..i]) + al.cigar[i].len - 1;
    if rc < |al.bases| - 1 {
      assert i + 1 < |al.cigar| by {
        PrefixStep(al.cigar, i);
        assert al.cigar[..|al.cigar|] == al.cigar;
      }
    }
  }

  /** Reverse strand, match-class op: the read cycle is renumbered from the
      far end of the read; a non-nucleotide current base is dropped; before
      the op's last base the token is the reverse complement of (current
      base, next base), dropped exactly when either is not a nucleotide. */
  lemma ReverseMatch(al: Alignment, refPos: int, qq: map<int, int>, i: nat)
    requires NonEmpty(qq) && ReadFitsCigar(al) && Locates(al, refPos, i)
    requires IsMatchClass(al.cigar[i].code) && al.isReverse
    ensures var r := GetColumnX(refPos, al, qq);
      var rc := ReadSpan(al.cigar[..i]) + (refPos - OpRefStart(al, i));
      && (r.Ok? && r.value.Keep? ==>
            && r.value.entry.rcycle == |al.bases| - rc - 1
            && 0 <= rc < |al.quals| && r.value.entry.qt == Lookup(qq, al.quals[rc]))
      && (0 <= rc < |al.quals| && 0 <= rc < |al.bases| && !IsNt(Upper(al.bases[rc])) ==> r == Ok(Drop))
      && (refPos < OpRefStart(al, i) + al.cigar[i].len - 1 && 0 <= rc && rc + 1 < |al.bases| && rc < |al.quals| ==>
            && r.Ok?
            && (r.value.Drop? <==> !IsNt(Upper(al.bases[rc])) || !IsNt(Upper(al.bases[rc + 1])))
            && (r.value.Keep? ==> r.value.entry.dt == RevComp([Upper(al.bases[rc]), Upper(al.bases[rc + 1])])))
      && (!(0 <= rc < |al.quals|) ==> r == Err(OutOfRange))
      && (0 <= rc < |al.quals| && !(0 <= rc < |al.bases|) ==> r == Err(OutOfRange))
  {
    GetColumnXLocated(al, refPos, qq, i);
  }

  /** A deletion or skip yields an observation only at its first reference
      position, and then it is the adjacent base, D, and the gap length. */
  lemma GapFirstPositionOnly(al: Alignment, refPos: int, qq: map<int, int>, i: nat)
    requires NonEmpty(qq) && ReadFitsCigar(al) && Locates(al, refPos, i)
    requires IsGap(al.cigar[i].code)
    ensures refPos != OpRefStart(al, i) ==> GetColumnX(refPos, al, qq) == Ok(Drop)
    ensures var r := GetColumnX(refPos, al, qq);
      var n := ReadSpan(al.cigar[..i]);
      r.Ok? && r.value.Keep? ==>
        && refPos == OpRefStart(al, i)
        && 1 <= n < |al.bases|
        && r.value.entry.dt ==
             [if al.isReverse then Upper(Complement(al.bases[n])) else Upper(al.bases[n - 1])]
             + "D" + Decimal.FromNat(al.cigar[i].len)
  {
    GetColumnXLocated(al, refPos, qq, i);
  }

  /** At the first reference position of a deletion or skip, with `n` the
      read cursor there, `get_column_x` ends as `FwdGapOutcome` or
      `RevGapOutcome` says; with both neighbours nucleotides and their
      quality in range it keeps the adjacent base, D and the gap length. */
  lemma GapFirstPosition(al: Alignment, refPos: int, qq: map<int, int>, i: nat)
    requires NonEmpty(qq) && ReadFitsCigar(al) && Locates(al, refPos, i)
    requires IsGap(al.cigar[i].code) && refPos == OpRefStart(al, i)
    ensures var n := ReadSpan(al.cigar[..i]);
      !al.isReverse ==> FwdGapOutcome(al, n, GetColumnX(refPos, al, qq))
    ensures var n := ReadSpan(al.cigar[..i]);
      al.isReverse ==> RevGapOutcome(al, n, GetColumnX(refPos, al, qq))
    ensures var r := GetColumnX(refPos, al, qq);
      var n := ReadSpan(al.cigar[..i]);
      && 1 <= n < |al.bases|
      && (if al.isReverse then n - 1 < |al.quals| else n < |al.quals|)
      && (if al.isReverse then IsNt(Upper(Complement(al.bases[n]))) && IsNt(Upper(Complement(al.bases[n - 1])))
          else IsNt(Upper(al.bases[n - 1])) && IsNt(Upper(al.bases[n])))
      ==>
        && r.Ok? && r.value.Keep?
        && r.value.entry.dt ==
             [if al.isReverse then Upper(Complement(al.bases[n])) else Upper(al.bases[n - 1])]
             + "D" + Decimal.FromNat(al.cigar[i].len)
  {
    GetColumnXLocated(al, refPos, qq, i);
  }

  /** Two positions inside one gap never both yield an observation. */
  lemma OneObservationPerGap(al: Alignment, p: int, q: int, qq: map<int, int>, i: nat)
    requires NonEmpty(qq) && ReadFitsCigar(al)
    requires Locates(al, p, i) && Locates(al, q, i) && IsGap(al.cigar[i].code) && p != q
    requires GetColumnX(p, al, qq).Ok? && GetColumnX(p, al, qq).value.Keep?
    ensures GetColumnX(q, al, qq) == Ok(Drop)
  {
    GapFirstPositionOnly(al, p, qq, i);
    GapFirstPositionOnly(al, q, qq, i);
  }

  /** The walk reaches an op with an unknown code, every op before it known
      and not holding the position: it stops there with that code's fault. */
  lemma {:induction false} WalkToUnknown(al: Alignment, refPos: int,
                                         j: nat, idxRef: int, idxRead: int, k: nat)
    requires AtCursor(al, j, idxRef, idxRead)
    requires j <= k < |al.cigar| && !IsKnown(al.cigar[k].code)
    requires forall m :: 0 <= m < k ==> IsKnown(al.cigar[m].code) && !OpHolds(al, refPos, m)
    ensures Seek(al, refPos, j, idxRef, idxRead) == Err(UnknownCigarOp(al.cigar[k].code))
    decreases k - j
  {
    if j < k {
      assert IsKnown(al.cigar[j].code) && !OpHolds(al, refPos, j);
      WalkPasses(al, refPos, j, idxRef, idxRead);
      WalkToUnknown(al, refPos, j + 1, idxRef + RefLen(al.cigar[j]), idxRead + ReadLen(al.cigar[j]), k);
    }
  }

  /** `get_column_x` aborts on an unknown CIGAR code as soon as the walk
      reaches it, that is when no earlier op holds the position. */
  lemma UnknownOpFaults(al: Alignment, refPos: int, qq: map<int, int>, k: nat)
    requires NonEmpty(qq) && ReadFitsCigar(al)
    requires k < |al.cigar| && !IsKnown(al.cigar[k].code)
    requires forall m :: 0 <= m < k ==> IsKnown(al.cigar[m].code) && !OpHolds(al, refPos, m)
    ensures GetColumnX(refPos, al, qq) == Err(UnknownCigarOp(al.cigar[k].code))
  {
    assert al.cigar[..0] == [];
    WalkToUnknown(al, refPos, 0, al.position, 0, k);    WalkSeeks(al, refPos, qq, 0, al.position, 0);
  }

  /** At an op that holds the position, the walk places it, and the
      position is no later than the alignment's end. */
  lemma WalkStops(al: Alignment, refPos: int, k: nat, idxRef: int, idxRead: int)
    requires AtCursor(al, k, idxRef, idxRead)
    requires k < |al.cigar| && ConsumesRef(al.cigar[k].code) && idxRef + al.cigar[k].len - 1 >= refPos
    ensures Seek(al, refPos, k, idxRef, idxRead) == Ok(Stop(k, idxRef, idxRead))
    ensures refPos <= AlnEnd(al)
  {
    PrefixStep(al.cigar, k);
    PrefixBound(al.cigar, k + 1);
  }

  lemma {:induction false} WalkNotFound(al: Alignment, refPos: int,
                                        k: nat, idxRef: int, idxRead: int)
    requires AtCursor(al, k, idxRef, idxRead)
    requires forall j :: k <= j < |al.cigar| ==> IsKnown(al.cigar[j].code)
    requires refPos >= idxRef
    ensures Seek(al, refPos, k, idxRef, idxRead) == Err(MappingNotFound) <==> refPos > AlnEnd(al)
    decreases |al.cigar| - k
  {
    if k == |al.cigar| {
      assert al.cigar[..k] == al.cigar;
    } else if ConsumesRef(al.cigar[k].code) && idxRef + al.cigar[k].len - 1 >= refPos {
      WalkStops(al, refPos, k, idxRef, idxRead);
    } else {
      WalkPasses(al, refPos, k, idxRef, idxRead);
      WalkNotFound(al, refPos, k + 1, idxRef + RefLen(al.cigar[k]), idxRead + ReadLen(al.cigar[k]));
    }
  }

  /** With every op code known and the position at or after the start, the
      walk fails to place the position exactly when it lies past the end
      `calculate_aln_end` computes. */
  lemma NotFoundIffPastEnd(al: Alignment, refPos: int, qq: map<int, int>)
    requires NonEmpty(qq) && ReadFitsCigar(al)
    requires forall j :: 0 <= j < |al.cigar| ==> IsKnown(al.cigar[j].code)
    requires refPos >= al.position
    ensures GetColumnX(refPos, al, qq) == Err(MappingNotFound) <==> refPos > AlnEnd(al)
  {
    assert al.cigar[..0] == [];
    WalkNotFound(al, refPos, 0, al.position, 0);    WalkSeeks(al, refPos, qq, 0, al.position, 0);
  }
}
