/** One read's observation at one reference position. */
module Entries {
  import opened Results
  import opened Nucleotides
  import opened Tokens

  /** The flanking-base field when nothing was stored there. */
  const NoBase: char := '\0'

  /** The alignment-array index of an entry not yet placed in a column. */
  const NoIndex: int := -1

  datatype AlnColEntry = AlnColEntry(
    isRev: bool,
    isFirstMate: bool,
    rcycle: int,       // read cycle, counted from the 5' end of the read
    qt: int,           // quantised quality bucket
    dt: string,        // the token
    flanking: char,    // base on the other side of an indel
    cons: string,      // inserted bases of an insertion token
    idx: int)          // index of the source alignment

  /** What the walk yields for one read: the source clears `dt` to drop an
      observation; a kept one carries the entry. */
  datatype Obs = Drop | Keep(entry: AlnColEntry)

  /** An entry as the walk builds it: its token is in the grammar with
      nucleotide bases only, a flanking base exactly for indel tokens, and
      the inserted bases exactly for insertion tokens. */
  predicate WellFormedObs(e: AlnColEntry) {
    match Parse(e.dt)
    case None => false
    case Some(t) =>
      && (t.InsThen? ==> IsNt(e.flanking) && |e.cons| == t.len && IsNtString(e.cons))
      && (!t.InsThen? ==> e.cons == "")
      && ((t.GapThen? || t.BaseGap?) ==> IsNt(e.flanking))
      && ((t.Single? || t.Pair?) ==> e.flanking == NoBase)
  }
}
