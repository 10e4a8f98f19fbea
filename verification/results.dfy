/** Failure-compatible result type shared by every decoder of the reader.
    Each error kind stands for an exception the reader throws and never
    catches: any of them ends the run. */
module Results {

  datatype Error =
    | IoError                          // Seek before the start of the file, or a short ReadExactly
    | CorruptPage(pageType: int)       // a page type byte that is neither leaf nor interior table
    | UnknownSerialType(serialType: int) // a root-page serial type ParseRootPage cannot read
    | MissingColumn(index: int)        // Dictionary lookup of a column index nothing was decoded for
    | NoSuchTable                      // Enumerable.First found no schema row with that name
    | Exhausted                        // page recursion deeper than the fuel allows

  datatype Result<+T> = Ok(value: T) | Err(error: Error) {

    predicate IsFailure() {
      Err?
    }

    function PropagateFailure<U>(): Result<U>
      requires Err?
    {
      Err(error)
    }

    function Extract(): T
      requires Ok?
    {
      value
    }
  }

  /** Evaluates `g` at `lo`, `lo + 1`, ..., `hi - 1` in turn and collects
      the results, stopping at the first failure: a counted C# loop whose
      body may throw. */
  function Collect<T>(lo: nat, hi: nat, g: nat -> Result<T>): (r: Result<seq<T>>)
    requires lo <= hi
    decreases hi - lo
    ensures r.Ok? <==> forall j :: lo <= j < hi ==> g(j).Ok?
    ensures r.Ok? ==> |r.value| == hi - lo
    ensures r.Ok? ==> forall j :: lo <= j < hi ==> g(j) == Ok(r.value[j - lo])
    ensures r.Err? ==> exists j :: lo <= j < hi && g(j) == Err(r.error)
  {
    if lo == hi then Ok([])
    else
      var head :- g(lo);
      var tail :- Collect(lo + 1, hi, g);
      Ok([head] + tail)
  }
}
