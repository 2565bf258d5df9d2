/** Insertion-column assembly (`add_ins_entry`, `get_ins_column`) and
    column normalisation (`clean_aln_column`). */
module Insertion {
  import opened Results
  import opened Nucleotides
  import opened Tokens
  import opened Entries

  function Last(s: string): char
    requires |s| > 0
  {
    s[|s| - 1]
  }

  /** An entry can be offered to `add_ins_entry`: the source reads the last
      token character of every entry carrying inserted bases. */
  predicate Offerable(e: AlnColEntry) {
    |e.cons| > 0 ==> |e.dt| > 0
  }

  /** The insertion rewrite: flanking base, then the base after the insertion. */
  function InsRewrite(e: AlnColEntry): AlnColEntry
    requires |e.dt| > 0
  {
    e.(dt := [e.flanking, Last(e.dt)])
  }

  /** The token has at least two characters and neither of its first two
      is a deletion mark. */
  predicate NoGapAtStart(dt: string) {
    |dt| > 1 && dt[0] != 'D' && dt[1] != 'D'
  }

  /** `add_ins_entry`: an entry with inserted bases is pushed rewritten and
      reports an insertion; any other entry is pushed unchanged exactly
      when its token starts without a deletion mark, and reports none.
      Nothing already in the column changes. */
  function AddInsEntry(col: seq<AlnColEntry>, e: AlnColEntry): (r: (seq<AlnColEntry>, bool))
    requires Offerable(e)
    ensures r.1 <==> |e.cons| > 0
    ensures r.1 ==> r.0 == col + [InsRewrite(e)]
    ensures !r.1 && NoGapAtStart(e.dt) ==> r.0 == col + [e]
    ensures !r.1 && !NoGapAtStart(e.dt) ==> r.0 == col
  {
    if |e.cons| > 0 then (col + [e.(dt := [e.flanking, e.dt[|e.dt| - 1]])], true)
    else if |e.dt| > 1 && e.dt[0] != 'D' && e.dt[1] != 'D' then (col + [e], false)
    else (col, false)
  }

  /** What `add_ins_entry` makes of a well-formed walk entry: it keeps
      exactly the substitution and insertion tokens; an insertion with
      bases becomes the substitution (flanking base, base after the
      insertion); a substitution is kept as it is. */
  lemma AddInsOnWellFormed(col: seq<AlnColEntry>, e: AlnColEntry)
    requires WellFormedObs(e)
    ensures Offerable(e)
    ensures var r := AddInsEntry(col, e);
      var t := Parse(e.dt).value;
      && (|r.0| == |col| + 1 <==> t.Pair? || t.InsThen?)
      && (t.InsThen? && t.len > 0 ==> Parse(r.0[|col|].dt) == Some(Pair(e.flanking, t.b)))
      && (t.Pair? || (t.InsThen? && t.len == 0) ==> r.0 == col + [e])
  {
    RenderParse(e.dt);
    var t := Parse(e.dt).value;
    match t
    case InsThen(n, b) =>
      assert e.dt[1] == Decimal.FromNat(n)[0];
      assert Last(e.dt) == b;
    case GapThen(n, b) =>
      assert e.dt[0] == 'D';
    case BaseGap(b, n) =>
      assert e.dt[1] == 'D';
    case Single(b) =>
    case Pair(a, b) =>
  }

  /** The entry is considered for the insertion column: forward-strand
      entries of the current column, reverse-strand ones of the previous. */
  predicate Considered(e: AlnColEntry, wantRev: bool) {
    e.isRev == wantRev
  }

  /** `add_ins_entry` pushes the entry: it carries inserted bases, or its
      token starts without a deletion mark. */
  predicate Pushed(e: AlnColEntry) {
    |e.cons| > 0 || NoGapAtStart(e.dt)
  }

  /** What `add_ins_entry` pushes for an entry it pushes (an offerable
      entry with inserted bases has a non-empty token). */
  function Convert(e: AlnColEntry): AlnColEntry {
    if |e.cons| > 0 && |e.dt| > 0 then InsRewrite(e) else e
  }

  /** The indices of the entries of `es` that are considered and pushed,
      in increasing order. `PickedExactly` shows every such index is there. */
  function Picked(es: seq<AlnColEntry>, wantRev: bool): (p: seq<nat>)
    ensures forall t :: 0 <= t < |p| ==> p[t] < |es|
    decreases |es|
  {
    if |es| == 0 then []
    else
      var n := |es| - 1;
      var before := Picked(es[..n], wantRev);
      before + (if Considered(es[n], wantRev) && Pushed(es[n]) then [n] else [])
  }

  /** Every index in `p` is that of a considered entry of `es` that
      `add_ins_entry` pushes. */
  predicate OnlyPushed(p: seq<nat>, es: seq<AlnColEntry>, wantRev: bool) {
    forall t :: 0 <= t < |p| ==> p[t] < |es| && Considered(es[p[t]], wantRev) && Pushed(es[p[t]])
  }

  /** Only considered entries that `add_ins_entry` pushes are picked. */
  lemma {:induction false} PickedSound(es: seq<AlnColEntry>, wantRev: bool)
    ensures OnlyPushed(Picked(es, wantRev), es, wantRev)
    decreases |es|
  {
    if |es| > 0 {
      var n := |es| - 1;
      var before := Picked(es[..n], wantRev);
      var p := before + (if Considered(es[n], wantRev) && Pushed(es[n]) then [n] else []);
      assert p == Picked(es, wantRev);
      PickedSound(es[..n], wantRev);
      forall t | 0 <= t < |p|
        ensures Considered(es[p[t]], wantRev) && Pushed(es[p[t]])
      {
        if t < |before| {
          assert p[t] == before[t] && es[..n][before[t]] == es[before[t]];
        } else {
          assert p[t] == n;
        }
      }
    }
  }

  /** Every considered entry of `es` that `add_ins_entry` pushes has its
      index in `p`. */
  predicate Covers(p: seq<nat>, es: seq<AlnColEntry>, wantRev: bool) {
    forall k :: 0 <= k < |es| && Considered(es[k], wantRev) && Pushed(es[k]) ==> k in p
  }

  predicate Ascending(p: seq<nat>) {
    forall t1, t2 :: 0 <= t1 < t2 < |p| ==> p[t1] < p[t2]
  }

  /** The picked indices strictly increase, and every considered entry
      that `add_ins_entry` pushes is among them. */
  lemma PickedExactly(es: seq<AlnColEntry>, wantRev: bool)
    ensures Ascending(Picked(es, wantRev))
    ensures Covers(Picked(es, wantRev), es, wantRev)
  {
    PickedAscending(es, wantRev);
    PickedComplete(es, wantRev);
  }

  lemma {:induction false} PickedAscending(es: seq<AlnColEntry>, wantRev: bool)
    ensures Ascending(Picked(es, wantRev))
    decreases |es|
  {
    if |es| > 0 {
      var n := |es| - 1;
      var before := Picked(es[..n], wantRev);
      var p := before + (if Considered(es[n], wantRev) && Pushed(es[n]) then [n] else []);
      assert p == Picked(es, wantRev);
      PickedAscending(es[..n], wantRev);
      forall t1, t2 | 0 <= t1 < t2 < |p|
        ensures p[t1] < p[t2]
      {
        assert p[t1] == before[t1];
        if t2 < |before| {
          assert p[t2] == before[t2];
        } else {
          assert p[t2] == n;
        }
      }
    }
  }

  lemma {:induction false} PickedComplete(es: seq<AlnColEntry>, wantRev: bool)
    ensures Covers(Picked(es, wantRev), es, wantRev)
    decreases |es|
  {
    if |es| > 0 {
      var n := |es| - 1;
      var before := Picked(es[..n], wantRev);
      var p := before + (if Considered(es[n], wantRev) && Pushed(es[n]) then [n] else []);
      assert p == Picked(es, wantRev);
      PickedComplete(es[..n], wantRev);
      forall k | 0 <= k < |es| && Considered(es[k], wantRev) && Pushed(es[k])
        ensures k in p
      {
        if k < n {
          assert es[..n][k] == es[k];
          assert k in before;
        } else {
          assert p[|p| - 1] == n;
        }
      }
    }
  }

  /** One loop of `get_ins_column`: offers every considered entry in order.
      The column is extended by exactly the converted considered entries
      that `add_ins_entry` pushes, in their order in `es`, and the flag
      says whether an entry with inserted bases was considered. */
  function AppendIns(col: seq<AlnColEntry>, es: seq<AlnColEntry>, wantRev: bool): (r: (seq<AlnColEntry>, bool))
    requires forall k :: 0 <= k < |es| ==> Offerable(es[k])
    ensures r.1 <==> exists k :: 0 <= k < |es| && Considered(es[k], wantRev) && |es[k].cons| > 0
    ensures var p := Picked(es, wantRev);
      && |r.0| == |col| + |p| && r.0[..|col|] == col
      && forall k :: |col| <= k < |r.0| ==> r.0[k] == Convert(es[p[k - |col|]])
    decreases |es|
  {
    if |es| == 0 then (col, false)
    else
      var n := |es| - 1;
      var before := AppendIns(col, es[..n], wantRev);
      var step := if es[n].isRev == wantRev then AddInsEntry(before.0, es[n]) else (before.0, false);
      AppendInsStep(col, es, wantRev, before, step);
      (step.0, before.1 || step.1)
  }

  /** One iteration of the loop of `AppendIns`: after the entries before
      the last, offering the last one. */
  lemma AppendInsStep(col: seq<AlnColEntry>, es: seq<AlnColEntry>, wantRev: bool,
                      before: (seq<AlnColEntry>, bool), step: (seq<AlnColEntry>, bool))
    requires |es| > 0 && forall k :: 0 <= k < |es| ==> Offerable(es[k])
    requires var n := |es| - 1;
      && (before.1 <==> exists k :: 0 <= k < n && Considered(es[k], wantRev) && |es[k].cons| > 0)
      && var p := Picked(es[..n], wantRev);
      && |before.0| == |col| + |p| && before.0[..|col|] == col
      && forall k :: |col| <= k < |before.0| ==> before.0[k] == Convert(es[p[k - |col|]])
    requires var n := |es| - 1;
      step == if es[n].isRev == wantRev then AddInsEntry(before.0, es[n]) else (before.0, false)
    ensures before.1 || step.1 <==> exists k :: 0 <= k < |es| && Considered(es[k], wantRev) && |es[k].cons| > 0
    ensures var p := Picked(es, wantRev);
      && |step.0| == |col| + |p| && step.0[..|col|] == col
      && forall k :: |col| <= k < |step.0| ==> step.0[k] == Convert(es[p[k - |col|]])
  {
    var n := |es| - 1;
    var last := Considered(es[n], wantRev) && Pushed(es[n]);
    assert step.0 == if last then before.0 + [Convert(es[n])] else before.0;
    StepColumn(col, es, wantRev, before.0, step.0);
    if exists k :: 0 <= k < |es| && Considered(es[k], wantRev) && |es[k].cons| > 0 {
      var k :| 0 <= k < |es| && Considered(es[k], wantRev) && |es[k].cons| > 0;
      assert k == n || exists k :: 0 <= k < n && Considered(es[k], wantRev) && |es[k].cons| > 0;
    }
  }

  /** The column half of `AppendInsStep`. */
  lemma StepColumn(col: seq<AlnColEntry>, es: seq<AlnColEntry>, wantRev: bool, b: seq<AlnColEntry>, s: seq<AlnColEntry>)
    requires |es| > 0
    requires var p := Picked(es[..|es| - 1], wantRev);
      && |b| == |col| + |p| && b[..|col|] == col
      && forall k :: |col| <= k < |b| ==> b[k] == Convert(es[p[k - |col|]])
    requires var n := |es| - 1;
      s == if Considered(es[n], wantRev) && Pushed(es[n]) then b + [Convert(es[n])] else b
    ensures var p := Picked(es, wantRev);
      && |s| == |col| + |p| && s[..|col|] == col
      && forall k :: |col| <= k < |s| ==> s[k] == Convert(es[p[k - |col|]])
  {
    var n := |es| - 1;
    var pb := Picked(es[..n], wantRev);
    var p := Picked(es, wantRev);
    var last := Considered(es[n], wantRev) && Pushed(es[n]);
    assert p == pb + (if last then [n] else []);
    assert s[..|col|] == b[..|col|];
    forall k | |col| <= k < |s|
      ensures s[k] == Convert(es[p[k - |col|]])
    {
      if k < |b| {
        assert s[k] == b[k];
        assert p[k - |col|] == pb[k - |col|];
      }
    }
  }

  /** Some forward entry of the current column or some reverse entry of
      the previous column carries inserted bases. */
  predicate InsFound(cur: seq<AlnColEntry>, prev: seq<AlnColEntry>) {
    || (exists k :: 0 <= k < |cur| && Considered(cur[k], false) && |cur[k].cons| > 0)
    || (exists k :: 0 <= k < |prev| && Considered(prev[k], true) && |prev[k].cons| > 0)
  }

  /** `r` is the column `ins`, then the converted picked forward entries of
      `cur`, then the converted picked reverse entries of `prev`. */
  predicate LaidOut(r: seq<AlnColEntry>, ins: seq<AlnColEntry>, cur: seq<AlnColEntry>, prev: seq<AlnColEntry>)
  {
    var pc := Picked(cur, false);
    var pp := Picked(prev, true);
    && |r| == |ins| + |pc| + |pp| && r[..|ins|] == ins
    && Part(r, |ins|, cur, pc)
    && Part(r, |ins| + |pc|, prev, pp)
  }

  /** From `from` on, `r` holds the converted entries of `es` that `p`
      indexes, in the order of `p`. */
  predicate Part(r: seq<AlnColEntry>, from: nat, es: seq<AlnColEntry>, p: seq<nat>)
  {
    && from + |p| <= |r|
    && (forall t :: 0 <= t < |p| ==> p[t] < |es|)
    && forall k :: from <= k < from + |p| ==> r[k] == Convert(es[p[k - from]])
  }

  /** `get_ins_column`: when no insertion is found among the forward
      entries of the current column and the reverse entries of the previous
      one, the result is empty; otherwise it is the given column, then the
      converted pushed forward entries of the current column, then the
      converted pushed reverse entries of the previous column, each part in
      its column's order (the `Picked` indices increase, `PickedExactly`),
      and every such entry has its place there. */
  function GetInsColumn(ins: seq<AlnColEntry>, cur: seq<AlnColEntry>, prev: seq<AlnColEntry>): (r: seq<AlnColEntry>)
    requires forall k :: 0 <= k < |cur| ==> Offerable(cur[k])
    requires forall k :: 0 <= k < |prev| ==> Offerable(prev[k])
    ensures !InsFound(cur, prev) ==> r == []
    ensures InsFound(cur, prev) ==> LaidOut(r, ins, cur, prev)
    ensures InsFound(cur, prev) ==> forall k1, k2 :: |ins| <= k1 < k2 < |r| && r[k1].isRev ==> r[k2].isRev
    ensures InsFound(cur, prev) ==> ColumnPlaced(r, ins, cur, prev)
  {
    var a := AppendIns(ins, cur, false);
    var b := AppendIns(a.0, prev, true);
    if a.1 || b.1 then
      InsColumnParts(ins, a.0, b.0, cur, prev);
      StrandsOrdered(b.0, ins, cur, prev);
      PickedExactly(cur, false);
      PickedExactly(prev, true);
      LaidOutPlaced(b.0, ins, cur, prev);
      b.0
    else []
  }

  /** Every forward entry of `cur` and every reverse entry of `prev` that
      `add_ins_entry` pushes sits, converted, in `r` after `ins`: the
      forward ones at their rank among the picked forward ones, the reverse
      ones at their rank among the picked reverse ones after all of those. */
  predicate ColumnPlaced(r: seq<AlnColEntry>, ins: seq<AlnColEntry>, cur: seq<AlnColEntry>, prev: seq<AlnColEntry>)
  {
    && Placed(r, |ins|, cur, false, Picked(cur, false))
    && Placed(r, |ins| + |Picked(cur, false)|, prev, true, Picked(prev, true))
  }

  /** A laid-out column places every entry its parts cover. */
  lemma LaidOutPlaced(r: seq<AlnColEntry>, ins: seq<AlnColEntry>, cur: seq<AlnColEntry>, prev: seq<AlnColEntry>)
    requires LaidOut(r, ins, cur, prev)
    requires Covers(Picked(cur, false), cur, false)
    requires Covers(Picked(prev, true), prev, true)
    ensures ColumnPlaced(r, ins, cur, prev)
  {
    var pc := Picked(cur, false);
    var pp := Picked(prev, true);
    assert Placed(r, |ins|, cur, false, pc) by {
      PartComplete(r, |ins|, cur, false, pc);
    }
    assert Placed(r, |ins| + |pc|, prev, true, pp) by {
      PartComplete(r, |ins| + |pc|, prev, true, pp);
    }
  }

  /** Every considered entry of `es` that `add_ins_entry` pushes sits,
      converted, in `r` at `from` plus its rank among the picked ones. */
  predicate Placed(r: seq<AlnColEntry>, from: nat, es: seq<AlnColEntry>, wantRev: bool, p: seq<nat>)
  {
    forall k :: 0 <= k < |es| && Considered(es[k], wantRev) && Pushed(es[k]) ==>
      exists t :: 0 <= t < |p| && p[t] == k && from + t < |r| && r[from + t] == Convert(es[k])
  }

  /** One part of a laid-out column: every picked entry sits, converted,
      at its rank after `from`. */
  lemma PartComplete(r: seq<AlnColEntry>, from: nat, es: seq<AlnColEntry>, wantRev: bool, p: seq<nat>)
    requires Part(r, from, es, p)
    requires Covers(p, es, wantRev)
    ensures Placed(r, from, es, wantRev, p)
  {
    forall k | 0 <= k < |es| && Considered(es[k], wantRev) && Pushed(es[k])
      ensures exists t :: 0 <= t < |p| && p[t] == k && from + t < |r| && r[from + t] == Convert(es[k])
    {
      var t :| 0 <= t < |p| && p[t] == k;
      assert r[from + t] == Convert(es[p[from + t - from]]);
    }
  }

  /** The two loops of `get_ins_column` one after the other: the given
      column, then the current column's pushed forward entries, then the
      previous column's pushed reverse entries. */
  lemma InsColumnParts(ins: seq<AlnColEntry>, a: seq<AlnColEntry>, b: seq<AlnColEntry>,
                       cur: seq<AlnColEntry>, prev: seq<AlnColEntry>)
    requires var pc := Picked(cur, false);
      && |a| == |ins| + |pc| && a[..|ins|] == ins
      && forall k :: |ins| <= k < |a| ==> a[k] == Convert(cur[pc[k - |ins|]])
    requires var pp := Picked(prev, true);
      && |b| == |a| + |pp| && b[..|a|] == a
      && forall k :: |a| <= k < |b| ==> b[k] == Convert(prev[pp[k - |a|]])
    ensures LaidOut(b, ins, cur, prev)
  {
    assert b[..|ins|] == b[..|a|][..|ins|];
    forall k | |ins| <= k < |a|
      ensures b[k] == a[k]
    {
      assert b[k] == b[..|a|][k];
    }
  }

  /** Laid out as `get_ins_column` lays it out, the forward entries come
      before the reverse ones. */
  lemma StrandsOrdered(r: seq<AlnColEntry>, ins: seq<AlnColEntry>, cur: seq<AlnColEntry>, prev: seq<AlnColEntry>)
    requires LaidOut(r, ins, cur, prev)
    ensures forall k1, k2 :: |ins| <= k1 < k2 < |r| && r[k1].isRev ==> r[k2].isRev
  {
    var pc := Picked(cur, false);
    var pp := Picked(prev, true);
    PickedSound(cur, false);
    PickedSound(prev, true);
    assert forall k :: |ins| <= k < |ins| + |pc| ==> !r[k].isRev by {
      forall k | |ins| <= k < |ins| + |pc|
        ensures !r[k].isRev
      {
        assert Considered(cur[pc[k - |ins|]], false);
      }
    }
    assert forall k :: |ins| + |pc| <= k < |r| ==> r[k].isRev by {
      forall k | |ins| + |pc| <= k < |r|
        ensures r[k].isRev
      {
        assert Considered(prev[pp[k - (|ins| + |pc|)]], true);
      }
    }
  }

  /** The rewrite `clean_aln_column` applies to one entry. */
  predicate CleanedFrom(x: AlnColEntry, e: AlnColEntry) {
    && |e.dt| > 0
    && (e.dt[0] == 'I' ==> x == e.(dt := [e.flanking, Last(e.dt)], flanking := NoBase, cons := ""))
    && (e.dt[0] != 'I' ==> x == e)
  }

  /** `clean_aln_column`: the column keeps its length and order, entries
      whose token starts with an insertion mark are rewritten to
      (flanking base, last base) with flanking base and inserted bases
      cleared, all others are unchanged; an entry with an empty token
      makes the source's bounds-checked read throw. */
  function CleanAlnColumn(col: seq<AlnColEntry>): (r: Result<seq<AlnColEntry>>)
    ensures r.Err? <==> exists k :: 0 <= k < |col| && |col[k].dt| == 0
    ensures r.Err? ==> r.fault == OutOfRange
    ensures r.Ok? ==> |r.value| == |col| && forall k :: 0 <= k < |col| ==> CleanedFrom(r.value[k], col[k])
    decreases |col|
  {
    if |col| == 0 then Ok([])
    else if |col[0].dt| == 0 then Err(OutOfRange)
    else
      var x := CleanEntry(col[0]);
      var rest := CleanAlnColumn(col[1..]);
      if rest.Err? then
        assert exists k :: 0 <= k < |col| && |col[k].dt| == 0 by {
          var k :| 0 <= k < |col| - 1 && |col[1..][k].dt| == 0;
          assert col[k + 1] == col[1..][k];
        }
        Err(rest.fault)
      else
        var r := [x] + rest.value;
        assert forall k :: 0 <= k < |col| ==> CleanedFrom(r[k], col[k]) by {
          forall k | 1 <= k < |col|
            ensures CleanedFrom(r[k], col[k])
          {
            assert r[k] == rest.value[k - 1] && col[k] == col[1..][k - 1];
          }
        }
        Ok(r)
  }

  /** One entry as `clean_aln_column` rewrites it. */
  function CleanEntry(e: AlnColEntry): (x: AlnColEntry)
    requires |e.dt| > 0
    ensures CleanedFrom(x, e)
  {
    if e.dt[0] == 'I' then e.(dt := [e.flanking, e.dt[|e.dt| - 1]], flanking := NoBase, cons := "") else e
  }

  /** Cleaning a column of well-formed walk entries succeeds, leaves every
      entry well-formed, and leaves no insertion token: each one becomes the
      substitution (flanking base, base after the insertion). */
  lemma CleanWellFormed(col: seq<AlnColEntry>)
    requires forall k :: 0 <= k < |col| ==> WellFormedObs(col[k])
    ensures CleanAlnColumn(col).Ok?
    ensures var r := CleanAlnColumn(col).value;
      forall k :: 0 <= k < |col| ==>
        && WellFormedObs(r[k])
        && !Parse(r[k].dt).value.InsThen?
        && Parse(col[k].dt).Some?
        && (Parse(col[k].dt).value.InsThen? ==>
              Parse(r[k].dt) == Some(Pair(col[k].flanking, Parse(col[k].dt).value.b)))
  {
    forall k | 0 <= k < |col|
      ensures |col[k].dt| > 0
    {
      CleanEntryWellFormed(col[k]);
    }
    var r := CleanAlnColumn(col).value;
    forall k | 0 <= k < |col|
      ensures WellFormedObs(r[k]) && !Parse(r[k].dt).value.InsThen?
      ensures Parse(col[k].dt).value.InsThen? ==>
                Parse(r[k].dt) == Some(Pair(col[k].flanking, Parse(col[k].dt).value.b))
    {
      CleanEntryWellFormed(col[k]);
    }
  }

  lemma CleanEntryWellFormed(e: AlnColEntry)
    requires WellFormedObs(e)
    ensures |e.dt| > 0
    ensures forall x :: CleanedFrom(x, e) ==>
      && WellFormedObs(x) && !Parse(x.dt).value.InsThen?
      && (Parse(e.dt).value.InsThen? ==> Parse(x.dt) == Some(Pair(e.flanking, Parse(e.dt).value.b)))
  {
    RenderParse(e.dt);
    var t := Parse(e.dt).value;
    match t
    case InsThen(n, b) =>
      assert e.dt[0] == 'I' && Last(e.dt) == b;
    case GapThen(n, b) =>
      assert e.dt[0] == 'D';
    case BaseGap(b, n) =>
      assert e.dt[0] == b;
    case Single(b) =>
    case Pair(a, b) =>
  }

  /** A well-formed entry without an insertion token does not start with
      the insertion mark. */
  lemma NoInsMark(e: AlnColEntry)
    requires WellFormedObs(e) && !Parse(e.dt).value.InsThen?
    ensures |e.dt| > 0 && e.dt[0] != 'I'
  {
    RenderParse(e.dt);
  }

  /** A column whose tokens are non-empty and free of insertion marks is
      left as it is. */
  lemma CleanFixesClean(col: seq<AlnColEntry>)
    requires forall k :: 0 <= k < |col| ==> |col[k].dt| > 0 && col[k].dt[0] != 'I'
    ensures CleanAlnColumn(col) == Ok(col)
  {
    assert CleanAlnColumn(col).Ok?;
    var r := CleanAlnColumn(col).value;
    assert forall k :: 0 <= k < |col| ==> r[k] == col[k];
    assert r == col;
  }

  /** Cleaning a column of well-formed walk entries a second time changes
      nothing. */
  lemma CleanIdempotent(col: seq<AlnColEntry>)
    requires forall k :: 0 <= k < |col| ==> WellFormedObs(col[k])
    ensures CleanAlnColumn(col).Ok?
    ensures CleanAlnColumn(CleanAlnColumn(col).value) == CleanAlnColumn(col)
  {
    CleanWellFormed(col);
    var r := CleanAlnColumn(col).value;
    forall k | 0 <= k < |r|
      ensures |r[k].dt| > 0 && r[k].dt[0] != 'I'
    {
      NoInsMark(r[k]);
    }
    CleanFixesClean(r);
  }
}
