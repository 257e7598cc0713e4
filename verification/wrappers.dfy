/** Optional values and the results of operations that may raise.

    The modelled program signals failure with Python exceptions; the model
    returns `Err(kind)` instead, keeping the exception's class but not its
    message text. */
module Wrappers {

  datatype Option<+T> = None | Some(value: T)

  /** The exception classes the modelled code raises or lets escape. */
  datatype PyError =
    | ValueError      // explicit `raise ValueError`, `int("")`, a missing row id
    | KeyError        // a `dict[key]` lookup of an absent key
    | IndexError      // a `list[i]` / `str[i]` read past the end
    | TypeError       // arithmetic or formatting on a value of the wrong type
    | AttributeError  // a method called on a value that does not have it
    | RuntimeError    // explicit `raise RuntimeError`
    | NameError       // a local variable read before any branch assigned it

  datatype Result<+T> = Ok(value: T) | Err(error: PyError) {

    predicate IsFailure() {
      Err?
    }

    function PropagateFailure<U>(): Result<U>
      requires Err?
    {
      Err(error)
    }

    function Extract(): T
      requires Ok?
    {
      value
    }
  }

  /** A loop that stops at the first step that raises: the results of all
      steps in order, or the error of the first that failed. */
  function Sequence<T>(rs: seq<Result<T>>): (r: Result<seq<T>>)
    ensures r.Ok? <==> forall k :: 0 <= k < |rs| ==> rs[k].Ok?
    ensures r.Ok? ==> |r.value| == |rs| && forall k :: 0 <= k < |rs| ==> rs[k] == Ok(r.value[k])
    decreases |rs|
  {
    if |rs| == 0 then Ok([])
    else
      var first :- rs[0];
      match Sequence(rs[1..])
      case Err(e) =>
        assert exists k :: 0 < k < |rs| && rs[k].Err? by {
          var k :| 0 <= k < |rs[1..]| && rs[1..][k].Err?;
          assert rs[1..][k] == rs[k + 1];
        }
        Err(e)
      case Ok(rest) =>
        assert forall k :: 0 < k < |rs| ==> rs[k] == rs[1..][k - 1];
        Ok([first] + rest)
  }

  /** The error of a failed loop is that of its first failing step. */
  lemma {:induction false} SequenceStopsAt<T>(rs: seq<Result<T>>, k: nat)
    requires k < |rs| && rs[k].Err?
    requires forall j :: 0 <= j < k ==> rs[j].Ok?
    ensures Sequence(rs) == Err(rs[k].error)
    decreases k
  {
    if k > 0 {
      assert forall j :: 0 <= j < k - 1 ==> rs[1..][j] == rs[j + 1];
      SequenceStopsAt(rs[1..], k - 1);
    }
  }
}
