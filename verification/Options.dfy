/** Optional values, and "the last value given" over a sequence of happenings. */
module Options {

  datatype Option<+T> = None | Some(value: T) {
    function GetOr(default: T): T {
      match this
      case Some(v) => v
      case None => default
    }
  }

  /** What `f` last extracted from a sequence, or `initial` when it never extracted anything. */
  function LastOf<M, T>(initial: T, ms: seq<M>, f: M -> Option<T>): (r: T)
  {
    if ms == [] then initial
    else if f(ms[|ms| - 1]).Some? then f(ms[|ms| - 1]).value
    else LastOf(initial, ms[..|ms| - 1], f)
  }

  /** A run starts from what the run before it left. */
  lemma {:induction false} LastOfSplit<M, T>(initial: T, a: seq<M>, b: seq<M>, f: M -> Option<T>)
    ensures LastOf(initial, a + b, f) == LastOf(LastOf(initial, a, f), b, f)
  {
    if b == [] {
      assert a + b == a;
    } else {
      var front := b[..|b| - 1];
      assert (a + b)[..|a + b| - 1] == a + front;
      LastOfSplit(initial, a, front, f);
    }
  }

  /** When nothing is given, what was there stays. */
  lemma {:induction false} LastOfNone<M, T>(initial: T, ms: seq<M>, f: M -> Option<T>)
    requires forall j :: 0 <= j < |ms| ==> f(ms[j]).None?
    ensures LastOf(initial, ms, f) == initial
  {
    if ms != [] {
      LastOfNone(initial, ms[..|ms| - 1], f);
    }
  }
}
