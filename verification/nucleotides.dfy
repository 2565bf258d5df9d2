/** The base-level helpers the engine borrows from its string library:
    the nucleotide test, upper-casing and reverse complement. */
module Nucleotides {

  /** A nucleotide call; anything else (N, gaps, IUPAC codes) is not. */
  predicate IsNt(c: char) {
    c == 'A' || c == 'C' || c == 'G' || c == 'T'
  }

  predicate IsNtString(s: string) {
    forall k :: 0 <= k < |s| ==> IsNt(s[k])
  }

  /** `std::toupper` on ASCII letters. */
  function Upper(c: char): char {
    if 'a' <= c <= 'z' then (c as int - 32) as char else c
  }

  function UpperStr(s: string): (r: string)
    ensures |r| == |s|
    ensures forall k :: 0 <= k < |s| ==> r[k] == Upper(s[k])
  {
    seq(|s|, k requires 0 <= k < |s| => Upper(s[k]))
  }

  /** Base complement: A/T and C/G swapped in either case, other
      characters left alone. */
  function Complement(c: char): char {
    match c
    case 'A' => 'T'
    case 'T' => 'A'
    case 'C' => 'G'
    case 'G' => 'C'
    case 'a' => 't'
    case 't' => 'a'
    case 'c' => 'g'
    case 'g' => 'c'
    case _ => c
  }

  /** Reverse complement of a string (`get_rvc_str` / `rvc_str`): read
      backwards and complemented, the result gives back `s`. */
  function RevComp(s: string): (r: string)
    ensures |r| == |s|
    ensures forall k :: 0 <= k < |s| ==> Complement(r[|s| - 1 - k]) == s[k]
  {
    seq(|s|, k requires 0 <= k < |s| => Complement(s[|s| - 1 - k]))
  }

  lemma ComplementInvolution(c: char)
    ensures Complement(Complement(c)) == c
  {
  }

  lemma ComplementKeepsNt(c: char)
    ensures IsNt(Complement(c)) <==> IsNt(c)
    ensures Upper(Complement(c)) == Complement(Upper(c))
  {
  }

  /** Reverse complement undoes itself, and keeps a nucleotide string one. */
  lemma RevCompInvolution(s: string)
    ensures RevComp(RevComp(s)) == s
    ensures IsNtString(s) ==> IsNtString(RevComp(s))
  {
    var r := RevComp(s);
    forall k | 0 <= k < |s|
      ensures RevComp(r)[k] == s[k]
    {
      ComplementInvolution(s[k]);
    }
    forall k | 0 <= k < |s| && IsNtString(s)
      ensures IsNt(r[k])
    {
      ComplementKeepsNt(s[|s| - 1 - k]);
    }
  }
}
