/** The exceptions a fetch can end with, and results that carry either a value or one of them. */
module Outcomes {
  import opened Options
  import opened Calendar

  datatype Error =
    | NullArgument(nullMessage: Option<string>) // NullPointerException on a null request field, with its message if any
    | IllegalArgument(message: string)          // IllegalArgumentException from request validation
    | TransportFailure                          // UncheckedIOException wrapping the transport's IOException
    | UnexpectedStatus(status: int)             // UncheckedIOException: the response status is not 2xx
    | DateParse(text: string)                   // DateTimeParseException from LocalDate.parse
    | NumberParse(text: string)                 // NumberFormatException from Double.valueOf
    | NotFinite                                 // NumberFormatException from BigDecimal.valueOf on NaN or an infinity
    | MissingBaseline(month: Date)              // NullPointerException unboxing the baseline of a growth factor
    | DivisionByZero                            // ArithmeticException from BigDecimal.divide

  datatype Result<+T> = Ok(value: T) | Err(error: Error)

  /** The values of a run of steps in order, or the error of the first step that fails. */
  function Collect<T>(rs: seq<Result<T>>): Result<seq<T>> {
    if rs == [] then Ok([])
    else
      match Collect(rs[..|rs| - 1])
      case Err(e) => Err(e)
      case Ok(vs) =>
        match rs[|rs| - 1]
        case Err(e) => Err(e)
        case Ok(v) => Ok(vs + [v])
  }

  /** A run succeeds exactly when every step does, and then yields every step's value in order. */
  lemma {:induction false} CollectOk<T>(rs: seq<Result<T>>)
    ensures Collect(rs).Ok? <==> forall i :: 0 <= i < |rs| ==> rs[i].Ok?
    ensures Collect(rs).Ok? ==> |Collect(rs).value| == |rs| && forall i :: 0 <= i < |rs| ==> Collect(rs).value[i] == rs[i].value
  {
    if rs != [] {
      var init := rs[..|rs| - 1];
      assert forall i :: 0 <= i < |init| ==> init[i] == rs[i];
      CollectOk(init);
    }
  }

  /** A run fails with the error of its first failing step. */
  lemma {:induction false} CollectFirstError<T>(rs: seq<Result<T>>, i: nat)
    requires i < |rs| && rs[i].Err?
    requires forall j :: 0 <= j < i ==> rs[j].Ok?
    ensures Collect(rs) == Err(rs[i].error)
  {
    var init := rs[..|rs| - 1];
    if i < |rs| - 1 {
      assert init[i] == rs[i];
      assert forall j :: 0 <= j < i ==> init[j] == rs[j];
      CollectFirstError(init, i);
    } else {
      assert forall j :: 0 <= j < |init| ==> init[j] == rs[j];
      CollectOk(init);
    }
  }

  /** A run whose first `i` steps succeed fails with the error of step `i` when that one fails. */
  lemma CollectAfterPrefix<T>(rs: seq<Result<T>>, i: nat)
    requires i < |rs| && rs[i].Err?
    requires Collect(rs[..i]).Ok?
    ensures Collect(rs) == Err(rs[i].error)
  {
    CollectOk(rs[..i]);
    forall j | 0 <= j < i ensures rs[j].Ok? {
      assert rs[..i][j] == rs[j];
    }
    CollectFirstError(rs, i);
  }

  /** One more successful step of a run whose prefix succeeded. */
  lemma CollectPrefixStep<T>(rs: seq<Result<T>>, i: nat)
    requires i < |rs| && Collect(rs[..i]).Ok? && rs[i].Ok?
    ensures Collect(rs[..i + 1]) == Ok(Collect(rs[..i]).value + [rs[i].value])
  {
    assert rs[..i + 1][..i] == rs[..i];
  }

  /** One more step: its value is appended, or the run fails with the first error. */
  lemma CollectSnoc<T>(rs: seq<Result<T>>, x: Result<T>)
    ensures Collect(rs + [x]) == if Collect(rs).Err? then Collect(rs) else if x.Err? then Err(x.error) else Ok(Collect(rs).value + [x.value])
  {
    assert (rs + [x])[..|rs|] == rs;
  }

  /** A run whose first `j` steps already fail fails with the same error, whatever comes after. */
  lemma {:induction false} CollectErrPrefix<T>(rs: seq<Result<T>>, j: nat)
    requires j <= |rs| && Collect(rs[..j]).Err?
    ensures Collect(rs) == Collect(rs[..j])
    decreases |rs|
  {
    if j < |rs| {
      var init := rs[..|rs| - 1];
      assert init[..j] == rs[..j];
      CollectErrPrefix(init, j);
    } else {
      assert rs[..j] == rs;
    }
  }
}
