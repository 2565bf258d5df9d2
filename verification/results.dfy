/** Outcomes of the pileup engine: a value, or one of the fatal conditions on
    which V-Phaser aborts (`abording`, an uncaught `std::out_of_range`
    thrown by `std::string::at`, or a vector built with a negative count). */
module Results {

  datatype Option<+T> = None | Some(value: T)

  /** The fatal conditions, one per abort site of the engine. */
  datatype Fault =
    | OutOfRange                 // a bounds-checked at threw
    | NoPreviousOp               // "pre cigar idx undefined"
    | NoBaseBeforeInsertion      // "cigar idx b4 I undefined"
    | WrongPreviousOp(code: char)
    | NoNextOp                   // "next cigar idx undefined"
    | NoBaseAfterInsertion       // "next cigar idx after I undefined"
    | WrongNextOp(code: char)
    | NoBaseAfterDeletion        // "cigar idx after D undefined"
    | NextCycleOutOfRange        // "next rcycle out of range"
    | NoBaseBeforeDeletion       // "cigar idx b4 D undefined"
    | UnknownCigarOp(code: char)
    | MappingNotFound            // "fail to identify mapping"
    | InconsistentMates          // mates on different files or references
    | NegativeLength             // std::vector built with a negative count

  datatype Result<+T> = Ok(value: T) | Err(fault: Fault) {
    predicate IsFailure() { Err? }

    function PropagateFailure<U>(): Result<U>
      requires Err?
    {
      Err(fault)
    }

    function Extract(): T
      requires Ok?
    {
      value
    }
  }

  /** `s.at(k)`: the element, or the exception for an index outside `s`. */
  function At<T>(s: seq<T>, k: int): (r: Result<T>)
    ensures r.Ok? <==> 0 <= k < |s|
    ensures r.Ok? ==> r.value == s[k]
    ensures r.Err? ==> r.fault == OutOfRange
  {
    if 0 <= k < |s| then Ok(s[k]) else Err(OutOfRange)
  }
}
