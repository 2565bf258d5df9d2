/** `get_aln_column`: the pileup column of one reference position over a
    position-sorted alignment array. */
module AlnColumn {
  import opened Results
  import opened Cigar
  import opened Quality
  import opened Entries
  import opened ColumnX

  /** Every alignment has a read that fits its CIGAR (see `ReadFitsCigar`). */
  predicate AllFit(alns: seq<Alignment>) {
    forall k :: 0 <= k < |alns| ==> ReadFitsCigar(alns[k])
  }

  /** The read covers `refPos` once `ign` bases are trimmed at both ends. */
  predicate Covers(refPos: int, ign: int, al: Alignment, end: int) {
    al.position + ign <= refPos <= end - ign
  }

  /** Index where the scan from `i` breaks off: the first alignment whose
      trimmed start lies right of `refPos`, or the end of the array. */
  function Stop(refPos: int, ign: int, alns: seq<Alignment>, i: nat): (s: nat)
    requires i <= |alns|
    ensures i <= s <= |alns|
    ensures forall j :: i <= j < s ==> alns[j].position + ign <= refPos
    ensures s < |alns| ==> refPos < alns[s].position + ign
    decreases |alns| - i
  {
    if i == |alns| || refPos < alns[i].position + ign then i
    else Stop(refPos, ign, alns, i + 1)
  }

  /** Alignment `j` is examined by the scan and its walk yields a kept entry. */
  predicate Yields(refPos: int, ign: int, alns: seq<Alignment>, ends: seq<int>,
                   qq: map<int, int>, j: nat)
    requires |alns| <= |ends| && j < |alns| && NonEmpty(qq) && AllFit(alns)
  {
    Covers(refPos, ign, alns[j], ends[j])
    && GetColumnX(refPos, alns[j], qq).Ok? && GetColumnX(refPos, alns[j], qq).value.Keep?
  }

  /** Alignment `j` is examined by the scan and its walk fails. */
  predicate Fails(refPos: int, ign: int, alns: seq<Alignment>, ends: seq<int>,
                  qq: map<int, int>, j: nat)
    requires |alns| <= |ends| && j < |alns| && NonEmpty(qq) && AllFit(alns)
  {
    Covers(refPos, ign, alns[j], ends[j]) && GetColumnX(refPos, alns[j], qq).Err?
  }

  /** Each entry comes from an examined alignment below the stop index and
      equals that alignment's walk result stamped with its index. */
  predicate EntriesFrom(refPos: int, ign: int, alns: seq<Alignment>, ends: seq<int>,
                        qq: map<int, int>, i: nat, col: seq<AlnColEntry>)
    requires |alns| <= |ends| && i <= |alns| && NonEmpty(qq) && AllFit(alns)
  {
    forall k :: 0 <= k < |col| ==>
      && i <= col[k].idx < Stop(refPos, ign, alns, i)
      && Covers(refPos, ign, alns[col[k].idx], ends[col[k].idx])
      && GetColumnX(refPos, alns[col[k].idx], qq) == Ok(Keep(col[k].(idx := NoIndex)))
  }

  predicate Increasing(col: seq<AlnColEntry>) {
    forall k1, k2 :: 0 <= k1 < k2 < |col| ==> col[k1].idx < col[k2].idx
  }

  /** Every alignment below the stop index that yields an entry has one. */
  predicate Complete(refPos: int, ign: int, alns: seq<Alignment>, ends: seq<int>,
                     qq: map<int, int>, i: nat, col: seq<AlnColEntry>)
    requires |alns| <= |ends| && i <= |alns| && NonEmpty(qq) && AllFit(alns)
  {
    forall j :: i <= j < Stop(refPos, ign, alns, i) && Yields(refPos, ign, alns, ends, qq, j) ==>
      exists k :: 0 <= k < |col| && col[k].idx == j
  }

  /** What a scan from `i` promises of a successful column. */
  predicate ColumnFrom(refPos: int, ign: int, alns: seq<Alignment>, ends: seq<int>,
                       qq: map<int, int>, i: nat, col: seq<AlnColEntry>)
    requires |alns| <= |ends| && i <= |alns| && NonEmpty(qq) && AllFit(alns)
  {
    && EntriesFrom(refPos, ign, alns, ends, qq, i, col)
    && Increasing(col)
    && Complete(refPos, ign, alns, ends, qq, i, col)
  }

  /** The loop of `get_aln_column` from index `i` on. */
  function Scan(refPos: int, ign: int, alns: seq<Alignment>, ends: seq<int>,
                qq: map<int, int>, i: nat): (r: Result<seq<AlnColEntry>>)
    requires |alns| <= |ends| && i <= |alns| && NonEmpty(qq) && AllFit(alns)
    ensures r.Err? <==> exists j :: i <= j < Stop(refPos, ign, alns, i) && Fails(refPos, ign, alns, ends, qq, j)
    ensures r.Ok? ==> ColumnFrom(refPos, ign, alns, ends, qq, i, r.value)
    decreases |alns| - i
  {
    if i == |alns| || refPos < alns[i].position + ign then Ok([])
    else
      assert i < Stop(refPos, ign, alns, i) && Stop(refPos, ign, alns, i) == Stop(refPos, ign, alns, i + 1);
      var x := if refPos <= ends[i] - ign then GetColumnX(refPos, alns[i], qq) else Ok(Drop);
      if x.Err? then
        assert Fails(refPos, ign, alns, ends, qq, i);
        Err(x.fault)
      else
        var here := x.value;
        var rest :- Scan(refPos, ign, alns, ends, qq, i + 1);
        var head := if here.Keep? then [here.entry.(idx := i)] else [];
        ScanStep(refPos, ign, alns, ends, qq, i, here, head, rest);
        Ok(head + rest)
  }

  /** One step of the scan: prepending alignment `i`'s contribution to a
      column that satisfies the promise from `i + 1` satisfies it from `i`. */
  lemma ScanStep(refPos: int, ign: int, alns: seq<Alignment>, ends: seq<int>, qq: map<int, int>,
                 i: nat, here: Obs, head: seq<AlnColEntry>, rest: seq<AlnColEntry>)
    requires |alns| <= |ends| && i < |alns| && NonEmpty(qq) && AllFit(alns)
    requires alns[i].position + ign <= refPos
    requires refPos <= ends[i] - ign ==> GetColumnX(refPos, alns[i], qq) == Ok(here)
    requires refPos > ends[i] - ign ==> here == Drop
    requires head == if here.Keep? then [here.entry.(idx := i)] else []
    requires ColumnFrom(refPos, ign, alns, ends, qq, i + 1, rest)
    ensures ColumnFrom(refPos, ign, alns, ends, qq, i, head + rest)
  {
    assert Stop(refPos, ign, alns, i) == Stop(refPos, ign, alns, i + 1);
    StepEntries(refPos, ign, alns, ends, qq, i, here, head, rest);
    StepComplete(refPos, ign, alns, ends, qq, i, here, head, rest);
  }

  lemma StepEntries(refPos: int, ign: int, alns: seq<Alignment>, ends: seq<int>, qq: map<int, int>,
                    i: nat, here: Obs, head: seq<AlnColEntry>, rest: seq<AlnColEntry>)
    requires |alns| <= |ends| && i < |alns| && NonEmpty(qq) && AllFit(alns)
    requires alns[i].position + ign <= refPos
    requires refPos <= ends[i] - ign ==> GetColumnX(refPos, alns[i], qq) == Ok(here)
    requires refPos > ends[i] - ign ==> here == Drop
    requires head == if here.Keep? then [here.entry.(idx := i)] else []
    requires EntriesFrom(refPos, ign, alns, ends, qq, i + 1, rest)
    requires Stop(refPos, ign, alns, i) == Stop(refPos, ign, alns, i + 1)
    ensures EntriesFrom(refPos, ign, alns, ends, qq, i, head + rest)
    ensures Increasing(rest) ==> Increasing(head + rest)
  {
    var s := Stop(refPos, ign, alns, i);
    var col := head + rest;
    forall k | 0 <= k < |col|
      ensures i <= col[k].idx < s
      ensures Covers(refPos, ign, alns[col[k].idx], ends[col[k].idx])
      ensures GetColumnX(refPos, alns[col[k].idx], qq) == Ok(Keep(col[k].(idx := NoIndex)))
    {
      if k < |head| {
        assert col[k] == here.entry.(idx := i);
        assert here.entry.idx == NoIndex;
      } else {
        assert col[k] == rest[k - |head|];
      }
    }
  }

  lemma StepComplete(refPos: int, ign: int, alns: seq<Alignment>, ends: seq<int>, qq: map<int, int>,
                     i: nat, here: Obs, head: seq<AlnColEntry>, rest: seq<AlnColEntry>)
    requires |alns| <= |ends| && i < |alns| && NonEmpty(qq) && AllFit(alns)
    requires alns[i].position + ign <= refPos
    requires refPos <= ends[i] - ign ==> GetColumnX(refPos, alns[i], qq) == Ok(here)
    requires refPos > ends[i] - ign ==> here == Drop
    requires head == if here.Keep? then [here.entry.(idx := i)] else []
    requires Complete(refPos, ign, alns, ends, qq, i + 1, rest)
    requires Stop(refPos, ign, alns, i) == Stop(refPos, ign, alns, i + 1)
    ensures Complete(refPos, ign, alns, ends, qq, i, head + rest)
  {
    var col := head + rest;
    forall j | i <= j < Stop(refPos, ign, alns, i) && Yields(refPos, ign, alns, ends, qq, j)
      ensures exists k :: 0 <= k < |col| && col[k].idx == j
    {
      if j == i {
        assert col[0].idx == i;
      } else {
        var k' :| 0 <= k' < |rest| && rest[k'].idx == j;
        assert col[|head| + k'] == rest[k'];
      }
    }
  }

  /** `get_aln_column`: on success every entry is a well-formed observation
      with a non-empty token, taken from an alignment that covers the
      position and lies before the early-exit index, with its index
      stamped in, in strictly increasing index order; every such alignment
      whose walk keeps an observation is present. The column fails exactly
      when some examined walk fails. */
  function GetAlnColumn(refPos: int, ign: int, alns: seq<Alignment>, ends: seq<int>,
                        qq: map<int, int>): (r: Result<seq<AlnColEntry>>)
    requires |alns| <= |ends| && NonEmpty(qq) && AllFit(alns)
    ensures r.Err? <==> exists j :: 0 <= j < Stop(refPos, ign, alns, 0) && Fails(refPos, ign, alns, ends, qq, j)
    ensures r.Ok? ==> ColumnFrom(refPos, ign, alns, ends, qq, 0, r.value)
    ensures r.Ok? ==> forall k :: 0 <= k < |r.value| ==>
      && WellFormedObs(r.value[k]) && |r.value[k].dt| > 0
      && r.value[k].isRev == alns[r.value[k].idx].isReverse
      && 0 <= r.value[k].idx < |alns|
  {
    var r := Scan(refPos, ign, alns, ends, qq, 0);
    if r.Ok? then
      assert forall k :: 0 <= k < |r.value| ==> GetColumnX(refPos, alns[r.value[k].idx], qq) == Ok(Keep(r.value[k].(idx := NoIndex)));
      r
    else r
  }

  predicate SortedByPosition(alns: seq<Alignment>) {
    forall j, k :: 0 <= j <= k < |alns| ==> alns[j].position <= alns[k].position
  }

  /** On a position-sorted array the early exit loses nothing: no
      alignment at or after the stop index covers the position. */
  lemma EarlyExitSound(refPos: int, ign: int, alns: seq<Alignment>, ends: seq<int>, j: nat)
    requires |alns| <= |ends| && SortedByPosition(alns)
    requires Stop(refPos, ign, alns, 0) <= j < |alns|
    ensures !Covers(refPos, ign, alns[j], ends[j])
  {
    var s := Stop(refPos, ign, alns, 0);
    assert alns[s].position <= alns[j].position;
  }

  /** Hence, on a sorted array, every alignment anywhere in the array that
      covers the position and keeps an observation appears in the column. */
  lemma SortedColumnComplete(refPos: int, ign: int, alns: seq<Alignment>, ends: seq<int>,
                             qq: map<int, int>, j: nat)
    requires |alns| <= |ends| && NonEmpty(qq) && AllFit(alns) && SortedByPosition(alns)
    requires j < |alns| && Yields(refPos, ign, alns, ends, qq, j)
    requires GetAlnColumn(refPos, ign, alns, ends, qq).Ok?
    ensures var col := GetAlnColumn(refPos, ign, alns, ends, qq).value;
      exists k :: 0 <= k < |col| && col[k].idx == j
  {
    if j >= Stop(refPos, ign, alns, 0) {
      EarlyExitSound(refPos, ign, alns, ends, j);
    }
  }
}
