/** The optional-value datatype used throughout the model for Python's `None`, and the sequence facts the proofs share. */
module Wrappers {

  datatype Option<+T> = None | Some(value: T) {

    /** Returns the value in Some, or `default` for None. */
    function GetOr(default: T): T {
      match this
      case Some(v) => v
      case None => default
    }
  }

  /** Concatenation regrouped; stated once so the proofs need not re-derive it from element equality. */
  lemma Reassociate<T>(a: seq<T>, b: seq<T>, c: seq<T>)
    ensures a + (b + c) == (a + b) + c
  {
  }

  /**
   * Concatenations regrouped to the right. Each is stated once, over
   * abstract sequences, so that a proof about long concatenations of
   * recursive-function results need not re-derive it element by element.
   */
  lemma Regroup<T>(a: seq<T>, b: seq<T>, c: seq<T>, d: seq<T>)
    ensures a + b + c + d == a + (b + c + d)
  {
  }

  lemma Regroup4<T>(a: seq<T>, b: seq<T>, c: seq<T>, d: seq<T>, e: seq<T>)
    ensures a + b + c + d + e == a + (b + c + d + e)
  {
  }

  lemma AppendAssoc<T>(a: seq<T>, b: seq<T>, c: seq<T>, d: seq<T>, e: seq<T>, f: seq<T>)
    ensures a + b + c + d + e + f == a + (b + (c + (d + e + f)))
  {
  }

  lemma DropEmpty<T>(a: seq<T>, b: seq<T>, rest: seq<T>)
    ensures a + [] + b + rest == a + b + rest
  {
  }

  lemma FirstAndRest<T>(ms: seq<T>)
    requires |ms| > 0
    ensures [ms[0]] + ms[1..] == ms
  {
  }
}
