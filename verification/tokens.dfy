/** The token grammar of a column observation (`dt`), strand-normalised to
    the forward orientation. */
module Tokens {
  import opened Results
  import opened Nucleotides
  import opened Decimal

  datatype Token =
    | Single(b: char)              // first or last base of a read, no context
    | Pair(ctx: char, b: char)     // substitution: context base, observed base
    | GapThen(len: nat, b: char)   // "D<len><b>": base right after a deletion
    | InsThen(len: nat, b: char)   // "I<len><b>": base right after an insertion
    | BaseGap(b: char, len: nat)   // "<b>D<len>": deletion seen at its first position

  /** Every base the token carries is a nucleotide. */
  predicate Valid(t: Token) {
    match t
    case Single(b) => IsNt(b)
    case Pair(a, b) => IsNt(a) && IsNt(b)
    case GapThen(_, b) => IsNt(b)
    case InsThen(_, b) => IsNt(b)
    case BaseGap(b, _) => IsNt(b)
  }

  function Render(t: Token): string {
    match t
    case Single(b) => [b]
    case Pair(a, b) => [a, b]
    case GapThen(n, b) => "D" + FromNat(n) + [b]
    case InsThen(n, b) => "I" + FromNat(n) + [b]
    case BaseGap(b, n) => [b] + "D" + FromNat(n)
  }

  /** Reads a token back; `None` for a string outside the grammar. */
  function Parse(s: string): Option<Token> {
    if |s| == 1 then
      if IsNt(s[0]) then Some(Single(s[0])) else None
    else if |s| == 2 then
      if IsNt(s[0]) && IsNt(s[1]) then Some(Pair(s[0], s[1])) else None
    else if |s| >= 3 && (s[0] == 'D' || s[0] == 'I') then
      var digits := s[1..|s| - 1];
      if Canonical(digits) && IsNt(s[|s| - 1]) then
        if s[0] == 'D' then Some(GapThen(ToNat(digits), s[|s| - 1]))
        else Some(InsThen(ToNat(digits), s[|s| - 1]))
      else None
    else if |s| >= 3 && IsNt(s[0]) && s[1] == 'D' && Canonical(s[2..]) then
      Some(BaseGap(s[0], ToNat(s[2..])))
    else None
  }

  /** A mark followed by a rendered length and a base reads back as the
      length and the base. */
  lemma MarkedLength(m: char, n: nat, b: char)
    requires (m == 'D' || m == 'I') && IsNt(b)
    ensures var s := [m] + FromNat(n) + [b];
      && |s| >= 3 && s[0] == m && s[|s| - 1] == b
      && Canonical(s[1..|s| - 1]) && ToNat(s[1..|s| - 1]) == n
  {
    ToNatFromNat(n);
    var s := [m] + FromNat(n) + [b];
    assert s[1..|s| - 1] == FromNat(n);
  }

  /** A valid token reads back as itself. */
  lemma ParseRender(t: Token)
    requires Valid(t)
    ensures Parse(Render(t)) == Some(t)
  {
    var s := Render(t);
    match t
    case Single(_) =>
    case Pair(_, _) =>
    case GapThen(n, b) =>
      MarkedLength('D', n, b);
    case InsThen(n, b) =>
      MarkedLength('I', n, b);
    case BaseGap(b, n) =>
      ToNatFromNat(n);
      assert s[2..] == FromNat(n);
  }

  /** Whatever parses is a valid token whose rendering is the string. */
  lemma RenderParse(s: string)
    requires Parse(s).Some?
    ensures Valid(Parse(s).value)
    ensures Render(Parse(s).value) == s
  {
    if |s| >= 3 && (s[0] == 'D' || s[0] == 'I') {
      var digits := s[1..|s| - 1];
      FromNatToNat(digits);
      assert s == [s[0]] + digits + [s[|s| - 1]];
    } else if |s| >= 3 {
      FromNatToNat(s[2..]);
      assert s == [s[0]] + "D" + s[2..];
    }
  }
}
