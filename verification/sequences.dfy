/** Order-preserving operations on sequences: `map`, and a `filter` by a type
    guard followed by the narrowing it licenses. */
module Sequences {
  import opened Options

  /** `xs.map(f)`. */
  function Map<T, U>(xs: seq<T>, f: T -> U): (r: seq<U>)
    ensures |r| == |xs|
    ensures forall i :: 0 <= i < |xs| ==> r[i] == f(xs[i])
  {
    seq(|xs|, i requires 0 <= i < |xs| => f(xs[i]))
  }

  /** Mapping distributes over concatenation. */
  lemma MapAppend<T, U>(a: seq<T>, b: seq<T>, f: T -> U)
    ensures Map(a + b, f) == Map(a, f) + Map(b, f)
  {
  }

  /** The `u` for which `pick(x) == Some(u)`, for each `x` of `xs` in order. */
  function Select<T, U>(xs: seq<T>, pick: T -> Option<U>): (r: seq<U>)
    ensures |r| <= |xs|
    decreases |xs|
  {
    if |xs| == 0 then []
    else
      var rest := Select(xs[1..], pick);
      match pick(xs[0])
      case Some(u) => [u] + rest
      case None => rest
  }

  /** Everything accepted is selected, and everything selected was accepted. */
  lemma {:induction false} SelectMembers<T, U>(xs: seq<T>, pick: T -> Option<U>)
    ensures forall i :: 0 <= i < |xs| && pick(xs[i]).Some? ==> pick(xs[i]).value in Select(xs, pick)
    ensures forall k :: 0 <= k < |Select(xs, pick)| ==> exists i :: 0 <= i < |xs| && pick(xs[i]) == Some(Select(xs, pick)[k])
    decreases |xs|
  {
    if |xs| > 0 {
      var rest := xs[1..];
      SelectMembers(rest, pick);
      assert forall i :: 1 <= i < |xs| ==> xs[i] == rest[i - 1];
      forall k | 0 <= k < |Select(xs, pick)|
        ensures exists i :: 0 <= i < |xs| && pick(xs[i]) == Some(Select(xs, pick)[k])
      {
        if pick(xs[0]).Some? {
          assert Select(xs, pick) == [pick(xs[0]).value] + Select(rest, pick);
          if k > 0 {
            var i :| 0 <= i < |rest| && pick(rest[i]) == Some(Select(rest, pick)[k - 1]);
            assert pick(xs[i + 1]) == Some(Select(xs, pick)[k]);
          } else {
            assert pick(xs[0]) == Some(Select(xs, pick)[0]);
          }
        } else {
          assert Select(xs, pick) == Select(rest, pick);
          var i :| 0 <= i < |rest| && pick(rest[i]) == Some(Select(rest, pick)[k]);
          assert pick(xs[i + 1]) == Some(Select(xs, pick)[k]);
        }
      }
    } else {
      assert Select(xs, pick) == [];
    }
  }

  /** Selection distributes over concatenation, so it keeps the relative order
      of what it selects. */
  lemma {:induction false} SelectAppend<T, U>(a: seq<T>, b: seq<T>, pick: T -> Option<U>)
    ensures Select(a + b, pick) == Select(a, pick) + Select(b, pick)
    decreases |a|
  {
    if |a| > 0 {
      assert (a + b)[0] == a[0];
      assert (a + b)[1..] == a[1..] + b;
      SelectAppend(a[1..], b, pick);
      match pick(a[0])
      case Some(u) =>
        assert Select(a + b, pick) == [u] + (Select(a[1..], pick) + Select(b, pick));
        assert Select(a, pick) == [u] + Select(a[1..], pick);
      case None =>
        assert Select(a + b, pick) == Select(a[1..], pick) + Select(b, pick);
        assert Select(a, pick) == Select(a[1..], pick);
    } else {
      assert a + b == b;
    }
  }

  /** A single element is selected exactly when `pick` accepts it. */
  lemma SelectSingle<T, U>(x: T, pick: T -> Option<U>)
    ensures Select([x], pick) == if pick(x).Some? then [pick(x).value] else []
  {
  }

  /** Two selectors that never both accept the same element select at most
      as many elements together as there are. */
  lemma {:induction false} SelectDisjointSize<T, U, V>(xs: seq<T>, p: T -> Option<U>, q: T -> Option<V>)
    requires forall i :: 0 <= i < |xs| ==> p(xs[i]).None? || q(xs[i]).None?
    ensures |Select(xs, p)| + |Select(xs, q)| <= |xs|
    decreases |xs|
  {
    if |xs| > 0 {
      assert forall i :: 1 <= i < |xs| ==> xs[1..][i - 1] == xs[i];
      SelectDisjointSize(xs[1..], p, q);
    }
  }
}
