/** `get_column_x`: what one alignment shows at one reference position.
    The walk moves a reference cursor and a read cursor over the CIGAR
    until it reaches the op holding the position, then builds the token. */
module ColumnX {
  import opened Results
  import opened Nucleotides
  import opened Tokens
  import opened Cigar
  import opened Quality
  import opened Entries

  /** A reverse-strand read never has more bases than its CIGAR advances the
      read cursor over; otherwise the walk would read the op after the last
      one. Every well-formed record satisfies it. */
  predicate ReadFitsCigar(al: Alignment) {
    al.isReverse ==> |al.bases| <= ReadSpan(al.cigar)
  }

  /** The cursor invariant: before op `i` the reference cursor has moved by
      the reference span of ops [0, i) and the read cursor by their read
      span. */
  predicate AtCursor(al: Alignment, i: nat, idxRef: int, idxRead: int) {
    && i <= |al.cigar|
    && idxRef == al.position + RefSpan(al.cigar[..i])
    && idxRead == ReadSpan(al.cigar[..i])
  }

  /** A kept observation with token `t`, flanking base `fl` and inserted
      bases `cons`. */
  function Emit(al: Alignment, rcycle: int, qt: int, t: Token, fl: char, cons: string): (o: Obs)
    requires Valid(t)
    requires t.InsThen? ==> IsNt(fl) && |cons| == t.len && IsNtString(cons)
    requires !t.InsThen? ==> cons == ""
    requires (t.GapThen? || t.BaseGap?) ==> IsNt(fl)
    requires (t.Single? || t.Pair?) ==> fl == NoBase
    ensures o.Keep? && WellFormedObs(o.entry)
    ensures o.entry == AlnColEntry(al.isReverse, al.isFirstMate, rcycle, qt, Render(t), fl, cons, NoIndex)
  {
    ParseRender(t);
    Keep(AlnColEntry(al.isReverse, al.isFirstMate, rcycle, qt, Render(t), fl, cons, NoIndex))
  }

  // Where the source reads a base with `at` at an index its own guards
  // already keep inside the read, the model indexes directly.

  /** Forward strand, first base `cur` of op `i` at read cycle `rcycle`
      past the read's first base: what op `i - 1` makes of the token. A
      hard clip stands in 'A'; a soft clip gives its last base; a deletion
      or skip gives `D<len>` with the base before the gap as flanking base;
      an insertion gives `I<len>` with the base before the inserted bases as
      flanking base and those bases as `cons`, and is fatal when no base
      precedes it; a flanking, context or inserted base that is not a
      nucleotide drops the observation; any other op is fatal. */
  predicate BeforeOpToken(al: Alignment, i: nat, rcycle: int, cur: char, r: Result<Obs>)
    requires 0 < i < |al.cigar| && 0 < rcycle < |al.bases|
  {
    var prev := al.cigar[i - 1];
    && (prev.code == 'H' ==>
          r.Ok? && r.value.Keep? && r.value.entry.dt == ['A', cur] && r.value.entry.flanking == NoBase)
    && (prev.code == 'S' ==>
          var ctx := Upper(al.bases[rcycle - 1]);
          && r.Ok? && (r.value.Drop? <==> !IsNt(ctx))
          && (r.value.Keep? ==> r.value.entry.dt == [ctx, cur] && r.value.entry.flanking == NoBase))
    && (IsGap(prev.code) ==>
          var fl := Upper(al.bases[rcycle - 1]);
          && r.Ok? && (r.value.Drop? <==> !IsNt(fl))
          && (r.value.Keep? ==>
                && r.value.entry.dt == "D" + Decimal.FromNat(prev.len) + [cur]
                && r.value.entry.flanking == fl && r.value.entry.cons == ""))
    && (prev.code == 'I' ==>
          && (r.Err? <==> rcycle - prev.len - 1 < 0)
          && (r.Err? ==> r.fault == NoBaseBeforeInsertion)
          && (r.Ok? ==>
                var fl := Upper(al.bases[rcycle - prev.len - 1]);
                var cons := UpperStr(al.bases[rcycle - prev.len..rcycle]);
                && (r.value.Drop? <==> !IsNt(fl) || !IsNtString(cons))
                && (r.value.Keep? ==>
                      && r.value.entry.dt == "I" + Decimal.FromNat(prev.len) + [cur]
                      && r.value.entry.flanking == fl && r.value.entry.cons == cons)))
    && (prev.code != 'H' && prev.code != 'S' && prev.code != 'I' && !IsGap(prev.code) ==>
          r == Err(WrongPreviousOp(prev.code)))
  }

  /** Reverse strand, last base `cur` of op `i` at read cycle `rcycle`
      before the read's last base: the mirror image of `BeforeOpToken`,
      with op `i + 1` supplying what stands after `cur`, bases after a gap
      or insertion complemented, and the token reverse-complemented. */
  predicate AfterOpToken(al: Alignment, i: nat, rcycle: int, cur: char, r: Result<Obs>)
    requires i + 1 < |al.cigar| && 0 <= rcycle < |al.bases| - 1
  {
    var next := al.cigar[i + 1];
    && (next.code == 'H' ==>
          r.Ok? && r.value.Keep? && r.value.entry.dt == RevComp([cur, 'A']) && r.value.entry.flanking == NoBase)
    && (next.code == 'S' ==>
          var nx := Upper(al.bases[rcycle + 1]);
          && r.Ok? && (r.value.Drop? <==> !IsNt(nx))
          && (r.value.Keep? ==> r.value.entry.dt == RevComp([cur, nx]) && r.value.entry.flanking == NoBase))
    && (IsGap(next.code) ==>
          var fl := Upper(Complement(al.bases[rcycle + 1]));
          && r.Ok? && (r.value.Drop? <==> !IsNt(fl))
          && (r.value.Keep? ==>
                && r.value.entry.dt == "D" + Decimal.FromNat(next.len) + [Complement(cur)]
                && r.value.entry.flanking == fl && r.value.entry.cons == ""))
    && (next.code == 'I' ==>
          && (r.Err? <==> rcycle + next.len + 1 > |al.bases| - 1)
          && (r.Err? ==> r.fault == NoBaseAfterInsertion)
          && (r.Ok? ==>
                var fl := Upper(Complement(al.bases[rcycle + next.len + 1]));
                var cons := UpperStr(al.bases[rcycle + 1..rcycle + 1 + next.len]);
                && (r.value.Drop? <==> !IsNt(fl) || !IsNtString(cons))
                && (r.value.Keep? ==>
                      && r.value.entry.dt == "I" + Decimal.FromNat(next.len) + [Complement(cur)]
                      && r.value.entry.flanking == fl && r.value.entry.cons == RevComp(cons))))
    && (next.code != 'H' && next.code != 'S' && next.code != 'I' && !IsGap(next.code) ==>
          r == Err(WrongNextOp(next.code)))
  }

  /** Forward strand, match-class op: the token is the base before the
      current one (in the op, or taken from the previous op) followed by the
      current base `cur` at read cycle `rcycle`. */
  function MatchFwd(al: Alignment, i: nat, cigarPos: int, rcycle: int, qt: int, cur: char): (r: Result<Obs>)
    requires i < |al.cigar| && !al.isReverse
    requires 0 <= rcycle < |al.bases| && cigarPos <= rcycle && IsNt(cur)
    ensures r.Ok? && r.value.Keep? ==>
      var e := r.value.entry;
      && WellFormedObs(e) && !e.isRev && e.isFirstMate == al.isFirstMate && e.idx == NoIndex
      && e.rcycle == rcycle && e.qt == qt && e.dt[|e.dt| - 1] == cur
    ensures cigarPos > 0 ==> r.Ok? && (r.value.Drop? <==> !IsNt(Upper(al.bases[rcycle - 1])))
    ensures cigarPos > 0 && r.Ok? && r.value.Keep? ==> r.value.entry.dt == [Upper(al.bases[rcycle - 1]), cur]
    ensures cigarPos <= 0 && rcycle == 0 ==> r.Ok? && r.value.Keep? && r.value.entry.dt == [cur]
    // at the op's first base, past the read's first base, the previous op
    // supplies what stands before `cur`
    ensures cigarPos <= 0 && rcycle > 0 && i == 0 ==> r == Err(NoPreviousOp)
    ensures cigarPos <= 0 && rcycle > 0 && i > 0 ==> BeforeOpToken(al, i, rcycle, cur, r)
    ensures r != Err(MappingNotFound)
  {
    if cigarPos > 0 then
      // the previous base lies in the same op
      var ctx := Upper(al.bases[rcycle - 1]);
      if !IsNt(ctx) then Ok(Drop) else Ok(Emit(al, rcycle, qt, Pair(ctx, cur), NoBase, ""))
    else if rcycle > 0 then
      if i - 1 < 0 then Err(NoPreviousOp)
      else PrevOpToken(al, i, rcycle, qt, cur)
    else
      // the first base of the read has no context
      Ok(Emit(al, rcycle, qt, Single(cur), NoBase, ""))
  }

  /** The forward token at the first base of op `i`, built from op `i - 1`. */
  function PrevOpToken(al: Alignment, i: nat, rcycle: int, qt: int, cur: char): (r: Result<Obs>)
    requires 0 < i < |al.cigar| && !al.isReverse
    requires 0 < rcycle < |al.bases| && IsNt(cur)
    ensures r.Ok? && r.value.Keep? ==>
      var e := r.value.entry;
      && WellFormedObs(e) && !e.isRev && e.isFirstMate == al.isFirstMate && e.idx == NoIndex
      && e.rcycle == rcycle && e.qt == qt && e.dt[|e.dt| - 1] == cur
    ensures BeforeOpToken(al, i, rcycle, cur, r)
    ensures r != Err(MappingNotFound)
  {
    var prev := al.cigar[i - 1];
    if prev.code == 'H' then
      // no base is kept for a hard clip: 'A' stands in as context
      Ok(Emit(al, rcycle, qt, Pair('A', cur), NoBase, ""))
    else if prev.code == 'S' then
      var ctx := Upper(al.bases[rcycle - 1]);
      if !IsNt(ctx) then Ok(Drop) else Ok(Emit(al, rcycle, qt, Pair(ctx, cur), NoBase, ""))
    else if IsGap(prev.code) then
      var fl := Upper(al.bases[rcycle - 1]);
      if !IsNt(fl) then Ok(Drop)
      else Ok(Emit(al, rcycle, qt, GapThen(prev.len, cur), fl, ""))
    else if prev.code == 'I' then PrevInsToken(al, prev.len, rcycle, qt, cur)
    else Err(WrongPreviousOp(prev.code))
  }

  /** The forward token after an insertion of `n` bases ending just before
      read cycle `rcycle`: the base before the insertion flanks it. */
  function PrevInsToken(al: Alignment, n: nat, rcycle: int, qt: int, cur: char): (r: Result<Obs>)
    requires !al.isReverse && 0 < rcycle < |al.bases| && IsNt(cur)
    ensures r.Ok? && r.value.Keep? ==>
      var e := r.value.entry;
      && WellFormedObs(e) && !e.isRev && e.isFirstMate == al.isFirstMate && e.idx == NoIndex
      && e.rcycle == rcycle && e.qt == qt && e.dt[|e.dt| - 1] == cur
    ensures r.Err? <==> rcycle - n - 1 < 0
    ensures r.Err? ==> r.fault == NoBaseBeforeInsertion
    ensures r.Ok? ==>
      var fl := Upper(al.bases[rcycle - n - 1]);
      var cons := UpperStr(al.bases[rcycle - n..rcycle]);
      && (r.value.Drop? <==> !IsNt(fl) || !IsNtString(cons))
      && (r.value.Keep? ==>
            && r.value.entry.dt == "I" + Decimal.FromNat(n) + [cur]
            && r.value.entry.flanking == fl && r.value.entry.cons == cons)
  {
    if rcycle - n - 1 < 0 then Err(NoBaseBeforeInsertion)
    else
      var fl := Upper(al.bases[rcycle - n - 1]);
      var cons := UpperStr(al.bases[rcycle - n..rcycle]);
      if !IsNt(fl) || !IsNtString(cons) then Ok(Drop)
      else Ok(Emit(al, rcycle, qt, InsThen(n, cur), fl, cons))
  }

  /** Reverse strand, match-class op: the mirror image, looking at the base
      after the current one, complementing every base pulled in, and
      renumbering the read cycle from the other end of the read. */
  function MatchRev(al: Alignment, i: nat, cigarPos: int, rcycle: int, qt: int, cur: char): (r: Result<Obs>)
    requires i < |al.cigar| && al.isReverse && IsMatchClass(al.cigar[i].code)
    requires 0 <= rcycle < |al.bases| && IsNt(cur)
    requires cigarPos <= al.cigar[i].len - 1
    requires i + 1 == |al.cigar| ==> |al.bases| <= rcycle - cigarPos + al.cigar[i].len
    ensures r.Ok? && r.value.Keep? ==>
      var e := r.value.entry;
      && WellFormedObs(e) && e.isRev && e.isFirstMate == al.isFirstMate && e.idx == NoIndex
      && e.rcycle == |al.bases| - rcycle - 1 && e.qt == qt
    ensures cigarPos < al.cigar[i].len - 1 ==>
      (r.Ok? <==> rcycle + 1 < |al.bases|)
      && (r.Ok? ==> (r.value.Drop? <==> !IsNt(Upper(al.bases[rcycle + 1]))))
      && (r.Ok? && r.value.Keep? ==> r.value.entry.dt == RevComp([cur, Upper(al.bases[rcycle + 1])]))
    ensures cigarPos == al.cigar[i].len - 1 && rcycle == |al.bases| - 1 ==>
      r.Ok? && r.value.Keep? && r.value.entry.dt == RevComp([cur])
    // at the op's last base, before the read's last base, the next op
    // supplies what stands after `cur`; the token is then reverse-complemented
    ensures cigarPos == al.cigar[i].len - 1 && rcycle < |al.bases| - 1 ==>
      i + 1 < |al.cigar| && AfterOpToken(al, i, rcycle, cur, r)
    ensures r != Err(MappingNotFound)
  {
    var l := al.cigar[i].len;
    var rlen := |al.bases|;
    var flip := rlen - rcycle - 1;
    if cigarPos < l - 1 then
      // the next base lies in the same op; the token is rvc(cur + next)
      var n :- At(al.bases, rcycle + 1);
      var nx := Upper(n);
      if !IsNt(nx) then Ok(Drop)
      else Ok(Emit(al, flip, qt, Pair(Complement(nx), Complement(cur)), NoBase, ""))
    else if rcycle == rlen - 1 then
      // the last base of the read
      Ok(Emit(al, flip, qt, Single(Complement(cur)), NoBase, ""))
    else if i + 1 > |al.cigar| then Err(NoNextOp)
    else NextOpToken(al, i, rcycle, qt, cur)
  }

  /** The reverse token at the last base of op `i`, built from op `i + 1`. */
  function NextOpToken(al: Alignment, i: nat, rcycle: int, qt: int, cur: char): (r: Result<Obs>)
    requires i + 1 < |al.cigar| && al.isReverse
    requires 0 <= rcycle < |al.bases| - 1 && IsNt(cur)
    ensures r.Ok? && r.value.Keep? ==>
      var e := r.value.entry;
      && WellFormedObs(e) && e.isRev && e.isFirstMate == al.isFirstMate && e.idx == NoIndex
      && e.rcycle == |al.bases| - rcycle - 1 && e.qt == qt
    ensures AfterOpToken(al, i, rcycle, cur, r)
    ensures r != Err(MappingNotFound)
  {
    var rlen := |al.bases|;
    var flip := rlen - rcycle - 1;
    var next := al.cigar[i + 1];
    if next.code == 'H' then
      // rvc(cur + 'A')
      Ok(Emit(al, flip, qt, Pair(Complement('A'), Complement(cur)), NoBase, ""))
    else if next.code == 'S' then
      var nx := Upper(al.bases[rcycle + 1]);
      if !IsNt(nx) then Ok(Drop)
      else Ok(Emit(al, flip, qt, Pair(Complement(nx), Complement(cur)), NoBase, ""))
    else if IsGap(next.code) then
      var fl := Upper(Complement(al.bases[rcycle + 1]));
      if !IsNt(fl) then Ok(Drop)
      else Ok(Emit(al, flip, qt, GapThen(next.len, Complement(cur)), fl, ""))
    else if next.code == 'I' then
      if rcycle + next.len + 1 > rlen - 1 then Err(NoBaseAfterInsertion)
      else
        var fl := Upper(Complement(al.bases[rcycle + next.len + 1]));
        var cons := UpperStr(al.bases[rcycle + 1..rcycle + 1 + next.len]);
        if !IsNt(fl) || !IsNtString(cons) then Ok(Drop)
        else
          RevCompInvolution(cons);
          Ok(Emit(al, flip, qt, InsThen(next.len, Complement(cur)), fl, RevComp(cons)))
    else Err(WrongNextOp(next.code))
  }

  /** The op at index `i` is match-class and holds `refPos`: quality lookup,
      the nucleotide test on the current base, then the strand's token. */
  function MatchObs(al: Alignment, refPos: int, qq: map<int, int>, i: nat, idxRef: int, idxRead: int): (r: Result<Obs>)
    requires AtCursor(al, i, idxRef, idxRead) && i < |al.cigar|
    requires IsMatchClass(al.cigar[i].code) && idxRef + al.cigar[i].len - 1 >= refPos
    requires NonEmpty(qq) && ReadFitsCigar(al)
    ensures r.Ok? && r.value.Keep? ==>
      var e := r.value.entry;
      var rc := idxRead + (refPos - idxRef);
      && WellFormedObs(e) && e.isRev == al.isReverse && e.isFirstMate == al.isFirstMate
      && e.idx == NoIndex
      && 0 <= rc < |al.quals| && e.qt == Lookup(qq, al.quals[rc])
      && (!al.isReverse ==> e.rcycle == rc)
      && (al.isReverse ==> e.rcycle == |al.bases| - rc - 1)
    ensures var rc := idxRead + (refPos - idxRef);
      0 <= rc < |al.quals| && 0 <= rc < |al.bases| && !IsNt(Upper(al.bases[rc])) ==> r == Ok(Drop)
    ensures var rc := idxRead + (refPos - idxRef);
      !al.isReverse && refPos > idxRef && 0 <= rc < |al.quals| && 0 <= rc < |al.bases| ==>
        && r.Ok?
        && (r.value.Drop? <==> !IsNt(Upper(al.bases[rc - 1])) || !IsNt(Upper(al.bases[rc])))
        && (r.value.Keep? ==> r.value.entry.dt == [Upper(al.bases[rc - 1]), Upper(al.bases[rc])])
    ensures var rc := idxRead + (refPos - idxRef);
      al.isReverse && refPos - idxRef < al.cigar[i].len - 1 && 0 <= rc && rc + 1 < |al.bases| && rc < |al.quals| ==>
        && r.Ok?
        && (r.value.Drop? <==> !IsNt(Upper(al.bases[rc])) || !IsNt(Upper(al.bases[rc + 1])))
        && (r.value.Keep? ==> r.value.entry.dt == RevComp([Upper(al.bases[rc]), Upper(al.bases[rc + 1])]))
    // the quality is read first, then the base, both bounds-checked
    ensures var rc := idxRead + (refPos - idxRef);
      !(0 <= rc < |al.quals|) ==> r == Err(OutOfRange)
    ensures var rc := idxRead + (refPos - idxRef);
      0 <= rc < |al.quals| && !(0 <= rc < |al.bases|) ==> r == Err(OutOfRange)
    ensures r != Err(MappingNotFound)
  {
    var l := al.cigar[i].len;
    var cigarPos := refPos - idxRef;
    var rcycle := idxRead + cigarPos;
    var q :- At(al.quals, rcycle);
    var qt := Lookup(qq, q);
    var raw :- At(al.bases, rcycle);
    var cur := Upper(raw);
    if !IsNt(cur) then Ok(Drop)
    else if !al.isReverse then MatchFwd(al, i, cigarPos, rcycle, qt, cur)
    else
      PrefixStep(al.cigar, i);
      assert i + 1 == |al.cigar| ==> al.cigar[..i + 1] == al.cigar;
      MatchRev(al, i, cigarPos, rcycle, qt, cur)
  }

  /** What the first position of a gap yields on the forward strand with
      the read cursor at `idxRead`, fault by fault: no base before the gap
      (or a cursor past the read) is out of range, no base after it is
      `NoBaseAfterDeletion`; otherwise the entry is dropped exactly when
      either neighbour is not a nucleotide, and a kept entry needs the
      quality of the base after the gap. */
  predicate FwdGapOutcome(al: Alignment, idxRead: int, r: Result<Obs>)
  {
    && (idxRead < 1 || idxRead > |al.bases| ==> r == Err(OutOfRange))
    && (1 <= idxRead && idxRead == |al.bases| ==> r == Err(NoBaseAfterDeletion))
    && (1 <= idxRead < |al.bases| ==>
          var drop := !IsNt(Upper(al.bases[idxRead - 1])) || !IsNt(Upper(al.bases[idxRead]));
          && (drop ==> r == Ok(Drop))
          && (!drop ==> (r.Ok? <==> idxRead < |al.quals|))
          && (!drop && r.Ok? ==> r.value.Keep?)
          && (!drop && r.Err? ==> r.fault == OutOfRange))
  }

  /** The reverse-strand mirror: a cursor past the read is
      `NextCycleOutOfRange`, one on the read's end out of range, one on its
      start `NoBaseBeforeDeletion`; otherwise the quality of the base before
      the gap is read first, and the entry is dropped exactly when either
      complemented neighbour is not a nucleotide. */
  predicate RevGapOutcome(al: Alignment, idxRead: int, r: Result<Obs>)
  {
    && (idxRead > |al.bases| ==> r == Err(NextCycleOutOfRange))
    && (idxRead < 0 || idxRead == |al.bases| ==> r == Err(OutOfRange))
    && (idxRead == 0 < |al.bases| ==> r == Err(NoBaseBeforeDeletion))
    && (1 <= idxRead < |al.bases| ==>
          && (r.Ok? <==> idxRead - 1 < |al.quals|)
          && (r.Err? ==> r.fault == OutOfRange)
          && (r.Ok? ==> (r.value.Drop? <==>
                !IsNt(Upper(Complement(al.bases[idxRead]))) || !IsNt(Upper(Complement(al.bases[idxRead - 1]))))))
  }

  /** The op at index `i` is a deletion or skip holding `refPos`. Only the
      first reference position of the gap yields an observation: the base
      before the gap (forward) or after it (reverse), then D and the gap
      length. */
  function GapObs(al: Alignment, refPos: int, qq: map<int, int>, i: nat, idxRef: int, idxRead: int): (r: Result<Obs>)
    requires i < |al.cigar| && IsGap(al.cigar[i].code) && NonEmpty(qq)
    ensures refPos != idxRef ==> r == Ok(Drop)
    ensures r.Ok? && r.value.Keep? ==>
      var e := r.value.entry;
      && WellFormedObs(e) && e.isRev == al.isReverse && e.isFirstMate == al.isFirstMate
      && e.idx == NoIndex
      && (!al.isReverse ==>
            && 1 <= idxRead < |al.bases| && idxRead < |al.quals|
            && e.dt == [Upper(al.bases[idxRead - 1])] + "D" + Decimal.FromNat(al.cigar[i].len)
            && e.flanking == Upper(al.bases[idxRead])
            && e.rcycle == idxRead - 1 && e.qt == Lookup(qq, al.quals[idxRead]))
      && (al.isReverse ==>
            && 1 <= idxRead < |al.bases| && idxRead - 1 < |al.quals|
            && e.dt == [Upper(Complement(al.bases[idxRead]))] + "D" + Decimal.FromNat(al.cigar[i].len)
            && e.flanking == Upper(Complement(al.bases[idxRead - 1]))
            && e.rcycle == |al.bases| - idxRead - 1 && e.qt == Lookup(qq, al.quals[idxRead - 1]))
    ensures refPos == idxRef && !al.isReverse ==> FwdGapOutcome(al, idxRead, r)
    ensures refPos == idxRef && al.isReverse ==> RevGapOutcome(al, idxRead, r)
    ensures r != Err(MappingNotFound)
  {
    if refPos - idxRef != 0 then
      // a later position inside the same gap
      Ok(Drop)
    else if !al.isReverse then GapFwd(al, qq, al.cigar[i].len, idxRead)
    else GapRev(al, qq, al.cigar[i].len, idxRead)
  }

  /** Forward strand, first position of a gap of length `l` with the read
      cursor at `idxRead`: the base before the gap leads, the base after it
      flanks and gives the quality. */
  function GapFwd(al: Alignment, qq: map<int, int>, l: nat, idxRead: int): (r: Result<Obs>)
    requires !al.isReverse && NonEmpty(qq)
    ensures r.Ok? && r.value.Keep? ==>
      var e := r.value.entry;
      && WellFormedObs(e) && !e.isRev && e.isFirstMate == al.isFirstMate && e.idx == NoIndex
      && 1 <= idxRead < |al.bases| && idxRead < |al.quals|
      && e.dt == [Upper(al.bases[idxRead - 1])] + "D" + Decimal.FromNat(l)
      && e.flanking == Upper(al.bases[idxRead])
      && e.rcycle == idxRead - 1 && e.qt == Lookup(qq, al.quals[idxRead])
    ensures FwdGapOutcome(al, idxRead, r)
    ensures r != Err(MappingNotFound)
  {
    var rc := idxRead - 1;
    var b :- At(al.bases, rc);
    var lead := Upper(b);
    if rc + 1 > |al.bases| - 1 then Err(NoBaseAfterDeletion)
    else
      var fl := Upper(al.bases[rc + 1]);
      if !IsNt(lead) || !IsNt(fl) then Ok(Drop)
      else
        var q :- At(al.quals, rc + 1);
        Ok(Emit(al, rc, Lookup(qq, q), BaseGap(lead, l), fl, ""))
  }

  /** Reverse strand, first position of a gap of length `l`: the complement
      of the base after the gap leads, the complement of the base before it
      flanks and gives the quality. */
  function GapRev(al: Alignment, qq: map<int, int>, l: nat, idxRead: int): (r: Result<Obs>)
    requires al.isReverse && NonEmpty(qq)
    ensures r.Ok? && r.value.Keep? ==>
      var e := r.value.entry;
      && WellFormedObs(e) && e.isRev && e.isFirstMate == al.isFirstMate && e.idx == NoIndex
      && 1 <= idxRead < |al.bases| && idxRead - 1 < |al.quals|
      && e.dt == [Upper(Complement(al.bases[idxRead]))] + "D" + Decimal.FromNat(l)
      && e.flanking == Upper(Complement(al.bases[idxRead - 1]))
      && e.rcycle == |al.bases| - idxRead - 1 && e.qt == Lookup(qq, al.quals[idxRead - 1])
    ensures RevGapOutcome(al, idxRead, r)
    ensures r != Err(MappingNotFound)
  {
    var rlen := |al.bases|;
    if (idxRead - 1) + 1 > rlen then Err(NextCycleOutOfRange)
    else
      var rc := idxRead;
      var b :- At(al.bases, rc);
      var lead := Upper(Complement(b));
      if rc - 1 < 0 then Err(NoBaseBeforeDeletion)
      else
        // 0 <= rc - 1 < rc, and the read at rc succeeded
        var fl := Upper(Complement(al.bases[rc - 1]));
        var q :- At(al.quals, rc - 1);
        if !IsNt(lead) || !IsNt(fl) then Ok(Drop)
        else Ok(Emit(al, rlen - rc - 1, Lookup(qq, q), BaseGap(lead, l), fl, ""))
  }

  /** Where the CIGAR walk stops: the op holding the position, with the
      reference and read cursors at that op. */
  datatype Stop = Stop(op: nat, idxRef: int, idxRead: int)

  /** The cursor part of the CIGAR walk from op `i` with the cursors at
      `idxRef` / `idxRead`: a reference-consuming op that reaches `refPos`
      stops the walk; every other op moves the cursors by its spans; an
      unknown code aborts, and running off the CIGAR is "not found". A stop
      is at a reference-consuming op reaching `refPos`, with the cursors
      at that op's prefix spans. */
  function Seek(al: Alignment, refPos: int, i: nat, idxRef: int, idxRead: int): (r: Result<Stop>)
    requires AtCursor(al, i, idxRef, idxRead)
    ensures r.Ok? ==>
      var s := r.value;
      && i <= s.op < |al.cigar| && AtCursor(al, s.op, s.idxRef, s.idxRead)
      && ConsumesRef(al.cigar[s.op].code) && s.idxRef + al.cigar[s.op].len - 1 >= refPos
    ensures r.Err? ==> r.fault == MappingNotFound || r.fault.UnknownCigarOp?
    decreases |al.cigar| - i
  {
    if i == |al.cigar| then Err(MappingNotFound)
    else
      var op := al.cigar[i];
      PrefixStep(al.cigar, i);
      if IsMatchClass(op.code) then
        if idxRef + op.len - 1 >= refPos then Ok(Stop(i, idxRef, idxRead))
        else Seek(al, refPos, i + 1, idxRef + op.len, idxRead + op.len)
      else if IsGap(op.code) then
        if idxRef + op.len - 1 >= refPos then Ok(Stop(i, idxRef, idxRead))
        else Seek(al, refPos, i + 1, idxRef + op.len, idxRead)
      else if op.code == 'I' || op.code == 'S' || op.code == 'H' then
        Seek(al, refPos, i + 1, idxRef, idxRead + op.len)
      else if op.code == 'P' then
        Seek(al, refPos, i + 1, idxRef, idxRead)
      else Err(UnknownCigarOp(op.code))
  }

  /** The CIGAR walk from op `i` with the cursors at `idxRef` / `idxRead`. */
  function Walk(al: Alignment, refPos: int, qq: map<int, int>, i: nat, idxRef: int, idxRead: int): (r: Result<Obs>)
    requires AtCursor(al, i, idxRef, idxRead) && NonEmpty(qq) && ReadFitsCigar(al)
    ensures r.Ok? && r.value.Keep? ==>
      var e := r.value.entry;
      && WellFormedObs(e) && e.isRev == al.isReverse && e.isFirstMate == al.isFirstMate
      && e.idx == NoIndex
    decreases |al.cigar| - i
  {
    if i == |al.cigar| then Err(MappingNotFound)
    else
      var op := al.cigar[i];
      PrefixStep(al.cigar, i);
      if IsMatchClass(op.code) then
        if idxRef + op.len - 1 >= refPos then MatchObs(al, refPos, qq, i, idxRef, idxRead)
        else Walk(al, refPos, qq, i + 1, idxRef + op.len, idxRead + op.len)
      else if IsGap(op.code) then
        if idxRef + op.len - 1 >= refPos then GapObs(al, refPos, qq, i, idxRef, idxRead)
        else Walk(al, refPos, qq, i + 1, idxRef + op.len, idxRead)
      else if op.code == 'I' || op.code == 'S' || op.code == 'H' then
        Walk(al, refPos, qq, i + 1, idxRef, idxRead + op.len)
      else if op.code == 'P' then
        Walk(al, refPos, qq, i + 1, idxRef, idxRead)
      else Err(UnknownCigarOp(op.code))
  }

  /** `get_column_x`: the observation of alignment `al` at `refPos`. A kept
      observation is never empty and never built from a non-nucleotide. */
  function GetColumnX(refPos: int, al: Alignment, qq: map<int, int>): (r: Result<Obs>)
    requires NonEmpty(qq) && ReadFitsCigar(al)
    ensures r.Ok? && r.value.Keep? ==>
      var e := r.value.entry;
      && WellFormedObs(e) && |e.dt| > 0 && Valid(Parse(e.dt).value)
      && e.isRev == al.isReverse && e.isFirstMate == al.isFirstMate && e.idx == NoIndex
  {
    assert al.cigar[..0] == [];
    var r := Walk(al, refPos, qq, 0, al.position, 0);
    assert r.Ok? && r.value.Keep? ==> |r.value.entry.dt| > 0 && Valid(Parse(r.value.entry.dt).value) by {
      if r.Ok? && r.value.Keep? {
        RenderParse(r.value.entry.dt);
      }
    }
    r
  }
}
