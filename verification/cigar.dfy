/** CIGAR operations, the decoded alignment record, and the arithmetic of
    where an alignment lies on the reference. */
module Cigar {

  /** One CIGAR operation: its code character and run length. */
  datatype CigarOp = CigarOp(code: char, len: nat)

  /** The part of a decoded alignment the engine reads. `quals` holds the
      raw quality characters as integers. */
  datatype Alignment = Alignment(
    name: string,
    refId: int,
    position: int,      // leftmost mapped reference position, 0-based
    isReverse: bool,
    isFirstMate: bool,
    bases: string,
    quals: seq<int>,
    cigar: seq<CigarOp>)

  predicate IsMatchClass(c: char) {
    c == 'M' || c == '=' || c == 'X'
  }

  predicate IsGap(c: char) {
    c == 'D' || c == 'N'
  }

  predicate ConsumesRef(c: char) {
    IsMatchClass(c) || IsGap(c)
  }

  /** The ops on which the column walk advances its read cursor (hard clips
      included, as the walk does). */
  predicate AdvancesRead(c: char) {
    IsMatchClass(c) || c == 'I' || c == 'S' || c == 'H'
  }

  predicate IsKnown(c: char) {
    ConsumesRef(c) || c == 'I' || c == 'S' || c == 'H' || c == 'P'
  }

  function RefLen(op: CigarOp): nat {
    if ConsumesRef(op.code) then op.len else 0
  }

  function ReadLen(op: CigarOp): nat {
    if AdvancesRead(op.code) then op.len else 0
  }

  /** Reference length covered by a run of ops. */
  function RefSpan(ops: seq<CigarOp>): nat
    decreases |ops|
  {
    if |ops| == 0 then 0 else RefSpan(ops[..|ops| - 1]) + RefLen(ops[|ops| - 1])
  }

  /** Read-cursor advance over a run of ops. */
  function ReadSpan(ops: seq<CigarOp>): nat
    decreases |ops|
  {
    if |ops| == 0 then 0 else ReadSpan(ops[..|ops| - 1]) + ReadLen(ops[|ops| - 1])
  }

  lemma {:induction false} SpansAppend(a: seq<CigarOp>, b: seq<CigarOp>)
    ensures RefSpan(a + b) == RefSpan(a) + RefSpan(b)
    ensures ReadSpan(a + b) == ReadSpan(a) + ReadSpan(b)
    decreases |b|
  {
    if |b| > 0 {
      var b' := b[..|b| - 1];
      assert (a + b)[..|a + b| - 1] == a + b';
      SpansAppend(a, b');
    } else {
      assert a + b == a;
    }
  }

  /** Extending a prefix by one op adds exactly that op's lengths. */
  lemma PrefixStep(ops: seq<CigarOp>, i: nat)
    requires i < |ops|
    ensures RefSpan(ops[..i + 1]) == RefSpan(ops[..i]) + RefLen(ops[i])
    ensures ReadSpan(ops[..i + 1]) == ReadSpan(ops[..i]) + ReadLen(ops[i])
  {
    assert ops[..i + 1][..i] == ops[..i];
  }

  /** A prefix never covers more reference than the whole run. */
  lemma PrefixBound(ops: seq<CigarOp>, i: nat)
    requires i <= |ops|
    ensures RefSpan(ops[..i]) <= RefSpan(ops)
  {
    SpansAppend(ops[..i], ops[i..]);
    assert ops[..i] + ops[i..] == ops;
  }

  /** Derived end position: the last reference base the alignment covers. */
  function AlnEnd(al: Alignment): int {
    al.position + RefSpan(al.cigar) - 1
  }

  /** `calculate_aln_end`: walks the ops adding the length of every
      M, =, X, D and N op to the start position. */
  method CalculateAlnEnd(al: Alignment) returns (end: int)
    ensures end == al.position + RefSpan(al.cigar) - 1
  {
    var pos := al.position;
    var i := 0;
    while i < |al.cigar|
      invariant 0 <= i <= |al.cigar|
      invariant pos == al.position + RefSpan(al.cigar[..i])
    {
      PrefixStep(al.cigar, i);
      var op := al.cigar[i];
      if op.code == 'M' || op.code == '=' || op.code == 'X' || op.code == 'D' || op.code == 'N' {
        pos := pos + op.len;
      }
      i := i + 1;
    }
    assert al.cigar[..i] == al.cigar;
    end := pos - 1;
  }

  /** Inserting an I, S, H or P op anywhere leaves the end unchanged. */
  lemma NonRefOpsDoNotMoveEnd(a: seq<CigarOp>, op: CigarOp, b: seq<CigarOp>)
    requires op.code == 'I' || op.code == 'S' || op.code == 'H' || op.code == 'P'
    ensures RefSpan(a + [op] + b) == RefSpan(a + b)
  {
    SpansAppend(a + [op], b);
    SpansAppend(a, b);
    assert (a + [op])[..|a + [op]| - 1] == a;
  }

  /** One op spelt out as a run of its code character. */
  function Run(op: CigarOp): seq<char> {
    seq(op.len, _ => op.code)
  }

  /** The ops spelt out one character per base, in order. */
  function Expand(ops: seq<CigarOp>): seq<char>
    decreases |ops|
  {
    if |ops| == 0 then [] else Expand(ops[..|ops| - 1]) + Run(ops[|ops| - 1])
  }

  /** `get_extended_cigar_string`: appends each op's run to `ext`. */
  method GetExtendedCigarString(ext: seq<char>, ops: seq<CigarOp>) returns (r: seq<char>)
    ensures r == ext + Expand(ops)
  {
    r := ext;
    var i := 0;
    while i < |ops|
      invariant 0 <= i <= |ops|
      invariant r == ext + Expand(ops[..i])
    {
      assert ops[..i + 1][..i] == ops[..i];
      var tmp := seq(ops[i].len, _ => ops[i].code);
      r := r + tmp;
      i := i + 1;
    }
    assert ops[..i] == ops;
  }

  /** Number of reference-consuming characters in an expanded CIGAR. */
  function CountRef(s: seq<char>): nat
    decreases |s|
  {
    if |s| == 0 then 0
    else CountRef(s[..|s| - 1]) + (if ConsumesRef(s[|s| - 1]) then 1 else 0)
  }

  lemma {:induction false} CountRefAppend(a: seq<char>, b: seq<char>)
    ensures CountRef(a + b) == CountRef(a) + CountRef(b)
    decreases |b|
  {
    if |b| == 0 {
      assert a + b == a;
    } else {
      assert (a + b)[..|a + b| - 1] == a + b[..|b| - 1];
      CountRefAppend(a, b[..|b| - 1]);
    }
  }

  lemma {:induction false} CountRefRun(c: char, n: nat)
    ensures CountRef(seq(n, _ => c)) == (if ConsumesRef(c) then n else 0)
    decreases n
  {
    if n > 0 {
      assert seq(n, _ => c)[..n - 1] == seq(n - 1, _ => c);
      CountRefRun(c, n - 1);
    }
  }

  /** The reference-consuming characters of the expanded CIGAR number
      exactly the reference span of the ops. */
  lemma {:induction false} ExpandCounts(ops: seq<CigarOp>)
    ensures CountRef(Expand(ops)) == RefSpan(ops)
    decreases |ops|
  {
    if |ops| > 0 {
      var last := ops[|ops| - 1];
      ExpandCounts(ops[..|ops| - 1]);
      CountRefAppend(Expand(ops[..|ops| - 1]), Run(last));
      CountRefRun(last.code, last.len);
    }
  }

  /** The end position read off the expanded CIGAR. */
  lemma AlnEndFromExpanded(al: Alignment)
    ensures AlnEnd(al) == al.position + CountRef(Expand(al.cigar)) - 1
  {
    ExpandCounts(al.cigar);
  }
}
