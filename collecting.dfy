/** The traversal shape shared by every level of the tree builder: visit
    the elements in order, keep what each step yields, skip what it drops,
    and stop at the first step that raises. */
module Collecting {
  import opened Wrappers

  /** The result of visiting `xs` in order with `step`. */
  function Collect<A, B, E>(xs: seq<A>, step: A -> Result<Option<B>, E>): Result<seq<B>, E>
  {
    if xs == [] then Ok([])
    else
      match Collect(xs[..|xs| - 1], step)
      case Err(e) => Err(e)
      case Ok(done) =>
        match step(xs[|xs| - 1])
        case Err(e) => Err(e)
        case Ok(None) => Ok(done)
        case Ok(Some(y)) => Ok(done + [y])
  }

  /** What the steps yield, ignoring errors. */
  function Yielded<A, B, E>(xs: seq<A>, step: A -> Result<Option<B>, E>): seq<B>
  {
    if xs == [] then []
    else
      Yielded(xs[..|xs| - 1], step)
      + match step(xs[|xs| - 1]) case Ok(Some(y)) => [y] case _ => []
  }

  /** Visiting one more element extends the visit of the prefix. */
  lemma CollectStep<A, B, E>(xs: seq<A>, i: nat, step: A -> Result<Option<B>, E>)
    requires i < |xs|
    ensures Collect(xs[..i + 1], step)
            == match Collect(xs[..i], step)
               case Err(e) => Err(e)
               case Ok(done) =>
                 match step(xs[i])
                 case Err(e) => Err(e)
                 case Ok(None) => Ok(done)
                 case Ok(Some(y)) => Ok(done + [y])
  {
    assert xs[..i + 1][..i] == xs[..i];
  }

  /** Visiting a concatenation visits the front, then the back; an error in
      the front wins. */
  lemma {:induction false} CollectAppend<A, B, E>(a: seq<A>, b: seq<A>, step: A -> Result<Option<B>, E>)
    ensures Collect(a + b, step)
            == match Collect(a, step)
               case Err(e) => Err(e)
               case Ok(x) =>
                 match Collect(b, step)
                 case Err(e) => Err(e)
                 case Ok(y) => Ok(x + y)
    decreases |b|
  {
    if b == [] {
      assert a + b == a;
      match Collect(a, step)
      case Err(e) =>
      case Ok(x) => assert x + [] == x;
    } else {
      var b' := b[..|b| - 1];
      assert (a + b)[..|a + b| - 1] == a + b';
      CollectAppend(a, b', step);
      match Collect(a, step)
      case Err(e) =>
      case Ok(x) =>
        match Collect(b', step)
        case Err(e) =>
        case Ok(y) =>
          match step(b[|b| - 1])
          case Err(e) =>
          case Ok(None) =>
          case Ok(Some(z)) => assert x + y + [z] == x + (y + [z]);
    }
  }

  /** An error in a prefix is the error of the whole visit. */
  lemma PrefixErrorStops<A, B, E>(xs: seq<A>, i: nat, step: A -> Result<Option<B>, E>)
    requires i <= |xs| && Collect(xs[..i], step).Err?
    ensures Collect(xs, step) == Collect(xs[..i], step)
  {
    CollectAppend(xs[..i], xs[i..], step);
    assert xs[..i] + xs[i..] == xs;
  }

  /** The visit succeeds exactly when no step raises, and then it yields
      what the steps yield, in order. */
  lemma {:induction false} CollectOk<A, B, E>(xs: seq<A>, step: A -> Result<Option<B>, E>)
    ensures Collect(xs, step).Ok? <==> forall k :: 0 <= k < |xs| ==> step(xs[k]).Ok?
    ensures Collect(xs, step).Ok? ==> Collect(xs, step).value == Yielded(xs, step)
    decreases |xs|
  {
    if xs != [] {
      var front := xs[..|xs| - 1];
      CollectOk(front, step);
      assert forall k :: 0 <= k < |front| ==> front[k] == xs[k];
    }
  }

  /** The visit succeeds exactly when every element satisfies `ok`, given
      that `ok` tells which steps succeed. */
  lemma CollectOkWhen<A, B, E>(xs: seq<A>, step: A -> Result<Option<B>, E>, ok: A -> bool)
    requires forall k :: 0 <= k < |xs| ==> (step(xs[k]).Ok? <==> ok(xs[k]))
    ensures Collect(xs, step).Ok? <==> forall k :: 0 <= k < |xs| ==> ok(xs[k])
  {
    CollectOk(xs, step);
  }

  /** A failed visit reports the error of the first step that raises,
      after every earlier step succeeded. */
  lemma {:induction false} CollectFirstError<A, B, E>(xs: seq<A>, step: A -> Result<Option<B>, E>) returns (i: nat)
    requires Collect(xs, step).Err?
    ensures i < |xs| && step(xs[i]).Err? && Collect(xs, step).error == step(xs[i]).error
    ensures forall j :: 0 <= j < i ==> step(xs[j]).Ok?
    decreases |xs|
  {
    var front := xs[..|xs| - 1];
    if Collect(front, step).Err? {
      i := CollectFirstError(front, step);
      assert forall j :: 0 <= j < |front| ==> front[j] == xs[j];
    } else {
      i := |xs| - 1;
      CollectOk(front, step);
      assert forall j :: 0 <= j < |front| ==> front[j] == xs[j];
    }
  }

  /** When every step yields a value, one value per element, in order. */
  lemma {:induction false} YieldedEach<A, B, E>(xs: seq<A>, step: A -> Result<Option<B>, E>)
    requires forall k :: 0 <= k < |xs| ==> step(xs[k]).Ok? && step(xs[k]).value.Some?
    ensures |Yielded(xs, step)| == |xs|
    ensures forall k :: 0 <= k < |xs| ==> Ok(Some(Yielded(xs, step)[k])) == step(xs[k])
    decreases |xs|
  {
    if xs != [] {
      var front := xs[..|xs| - 1];
      assert forall k :: 0 <= k < |front| ==> front[k] == xs[k];
      YieldedEach(front, step);
    }
  }

  /** The elements of `xs` that satisfy `keep`, in order. */
  function Kept<A>(xs: seq<A>, keep: A -> bool): seq<A>
  {
    if xs == [] then []
    else Kept(xs[..|xs| - 1], keep) + (if keep(xs[|xs| - 1]) then [xs[|xs| - 1]] else [])
  }

  /** An element is kept exactly when it is in `xs` and satisfies `keep`. */
  lemma {:induction false} KeptMembers<A>(xs: seq<A>, keep: A -> bool)
    ensures forall x :: x in Kept(xs, keep) <==> x in xs && keep(x)
    decreases |xs|
  {
    if xs != [] {
      var front := xs[..|xs| - 1];
      KeptMembers(front, keep);
      assert forall x :: x in xs <==> x in front || x == xs[|xs| - 1];
    }
  }

  /** When a step yields `f(x)` exactly for the elements that satisfy
      `keep`, the visit yields `f` of the kept elements, in order. */
  lemma {:induction false} YieldedKept<A, B, E>(xs: seq<A>, step: A -> Result<Option<B>, E>, keep: A -> bool, f: A -> B)
    requires forall k :: 0 <= k < |xs| ==> (keep(xs[k]) <==> step(xs[k]).Ok? && step(xs[k]).value.Some?)
    requires forall k :: 0 <= k < |xs| && keep(xs[k]) ==> step(xs[k]) == Ok(Some(f(xs[k])))
    ensures var kept := Kept(xs, keep);
            Yielded(xs, step) == seq(|kept|, i requires 0 <= i < |kept| => f(kept[i]))
    decreases |xs|
  {
    if xs != [] {
      var front := xs[..|xs| - 1];
      assert forall k :: 0 <= k < |front| ==> front[k] == xs[k];
      YieldedKept(front, step, keep, f);
      var kf := Kept(front, keep);
      var x := xs[|xs| - 1];
      if keep(x) {
        assert Kept(xs, keep) == kf + [x];
        assert Yielded(xs, step) == Yielded(front, step) + [f(x)];
      } else {
        assert Kept(xs, keep) == kf;
        assert Yielded(xs, step) == Yielded(front, step);
      }
    }
  }

  /** `f` applied to every element, in order. */
  function Mapped<A, B>(xs: seq<A>, f: A -> B): seq<B>
  {
    if xs == [] then [] else Mapped(xs[..|xs| - 1], f) + [f(xs[|xs| - 1])]
  }

  /** One image per element, at the same position. */
  lemma {:induction false} MappedAt<A, B>(xs: seq<A>, f: A -> B)
    ensures |Mapped(xs, f)| == |xs|
    ensures forall i :: 0 <= i < |xs| ==> Mapped(xs, f)[i] == f(xs[i])
    decreases |xs|
  {
    if xs != [] {
      var front := xs[..|xs| - 1];
      MappedAt(front, f);
      assert forall i :: 0 <= i < |front| ==> front[i] == xs[i];
    }
  }
}
