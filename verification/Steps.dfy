/** Running a list of steps on a tree, forwards until one fails and backwards past every failure,
    and the same when the list comes in pieces, one for each line of a plan. */
module Steps {
  import opened FileTree

  /** The steps in order, stopping at the first that fails. */
  function Forward<S>(t: Tree, steps: seq<S>, step: (Tree, S) -> Outcome): Outcome {
    if steps == [] then Outcome(true, t)
    else
      var before := Forward(t, steps[..|steps| - 1], step);
      if before.ok then step(before.tree, steps[|steps| - 1]) else before
  }

  /** The steps from the last to the first, going on after an error. */
  function Backward<S>(t: Tree, steps: seq<S>, step: (Tree, S) -> Outcome): Outcome
    decreases |steps|
  {
    if steps == [] then Outcome(true, t)
    else
      var last := step(t, steps[|steps| - 1]);
      var rest := Backward(last.tree, steps[..|steps| - 1], step);
      Outcome(last.ok && rest.ok, rest.tree)
  }

  /** The steps from the last to the first, stopping at the first that fails. */
  function BackwardUntil<S>(t: Tree, steps: seq<S>, step: (Tree, S) -> Outcome): Outcome
    decreases |steps|
  {
    if steps == [] then Outcome(true, t)
    else
      var last := step(t, steps[|steps| - 1]);
      if last.ok then BackwardUntil(last.tree, steps[..|steps| - 1], step) else last
  }

  /** The first n lines in order, stopping at the first that fails. */
  function Lines(n: nat, t: Tree, line: (nat, Tree) -> Outcome): Outcome {
    if n == 0 then Outcome(true, t)
    else
      var before := Lines(n - 1, t, line);
      if before.ok then line(n - 1, before.tree) else before
  }

  /** The first n lines backwards, going on after an error. */
  function LinesBack(n: nat, t: Tree, line: (nat, Tree) -> Outcome): Outcome
    decreases n
  {
    if n == 0 then Outcome(true, t)
    else
      var last := line(n - 1, t);
      var rest := LinesBack(n - 1, last.tree, line);
      Outcome(last.ok && rest.ok, rest.tree)
  }

  lemma {:induction false} ForwardConcat<S>(t: Tree, a: seq<S>, b: seq<S>, step: (Tree, S) -> Outcome)
    ensures var before := Forward(t, a, step);
            Forward(t, a + b, step) == if before.ok then Forward(before.tree, b, step) else before
  {
    if b == [] {
      assert a + b == a;
    } else {
      assert (a + b)[..|a + b| - 1] == a + b[..|b| - 1];
      ForwardConcat(t, a, b[..|b| - 1], step);
    }
  }

  lemma {:induction false} BackwardConcat<S>(t: Tree, a: seq<S>, b: seq<S>, step: (Tree, S) -> Outcome)
    ensures var last := Backward(t, b, step); var rest := Backward(last.tree, a, step);
            Backward(t, a + b, step) == Outcome(last.ok && rest.ok, rest.tree)
    decreases |b|
  {
    if b == [] {
      assert a + b == a;
    } else {
      assert (a + b)[..|a + b| - 1] == a + b[..|b| - 1];
      BackwardConcat(step(t, b[|b| - 1]).tree, a, b[..|b| - 1], step);
    }
  }

  lemma {:induction false} ForwardStops<S>(t: Tree, steps: seq<S>, n: nat, step: (Tree, S) -> Outcome)
    requires n <= |steps| && !Forward(t, steps[..n], step).ok
    ensures Forward(t, steps, step) == Forward(t, steps[..n], step)
    decreases |steps| - n
  {
    if n == |steps| {
      assert steps[..n] == steps;
    } else {
      assert steps[..n + 1][..n] == steps[..n];
      ForwardStops(t, steps, n + 1, step);
    }
  }

  lemma ForwardOn<S>(t: Tree, steps: seq<S>, k: nat, step: (Tree, S) -> Outcome)
    requires k < |steps|
    ensures var before := Forward(t, steps[..k], step);
            Forward(t, steps[..k + 1], step) == if before.ok then step(before.tree, steps[k]) else before
  {
    assert steps[..k + 1][..k] == steps[..k];
  }

  /** The property holds at the start, and each step keeps it. */
  ghost predicate Kept<S>(t: Tree, steps: seq<S>, step: (Tree, S) -> Outcome, inv: (nat, Outcome) -> bool) {
    && inv(0, Outcome(true, t))
    && forall k: nat, before: Outcome {:trigger inv(k, before)} :: k < |steps| && inv(k, before) ==>
         inv(k + 1, if before.ok then step(before.tree, steps[k]) else before)
  }

  /** So it holds after any number of them. */
  lemma {:induction false} ForwardKeeps<S>(t: Tree, steps: seq<S>, n: nat, step: (Tree, S) -> Outcome,
                                                 inv: (nat, Outcome) -> bool)
    requires n <= |steps| && Kept(t, steps, step, inv)
    ensures inv(n, Forward(t, steps[..n], step))
  {
    if n == 0 {
      assert steps[..0] == [];
    } else {
      var k: nat := n - 1;
      assert k + 1 == n;
      ForwardKeeps(t, steps, k, step, inv);
      ForwardOn(t, steps, k, step);
    }
  }

  lemma BackwardUntilFrom<S>(t: Tree, steps: seq<S>, k: nat, step: (Tree, S) -> Outcome)
    requires k < |steps|
    ensures var last := step(t, steps[k]);
            BackwardUntil(t, steps[..k + 1], step) == if last.ok then BackwardUntil(last.tree, steps[..k], step)
                else last
  {
    assert steps[..k + 1][..k] == steps[..k];
  }

  /** The steps of the first k lines are those of one line less and the piece of that line. */
  ghost predicate InPieces<S>(upTo: seq<seq<S>>, pieces: seq<seq<S>>) {
    |upTo| == |pieces| + 1 && upTo[0] == [] && forall k :: 0 <= k < |pieces| ==> upTo[k + 1] == upTo[k] + pieces[k]
  }

  lemma {:induction false} NoPieces<S>(upTo: seq<seq<S>>, pieces: seq<seq<S>>, n: nat)
    requires InPieces(upTo, pieces) && n <= |pieces|
    ensures upTo[n] == [] <==> forall i :: 0 <= i < n ==> pieces[i] == []
  {
    if n > 0 {
      var k: nat := n - 1;
      NoPieces(upTo, pieces, k);
      assert upTo[k + 1] == upTo[k] + pieces[k];
      assert |upTo[k + 1]| == |upTo[k]| + |pieces[k]|;
    }
  }

  lemma {:induction false} ForwardByLine<S>(t: Tree, upTo: seq<seq<S>>, pieces: seq<seq<S>>, n: nat,
                                            step: (Tree, S) -> Outcome, line: (nat, Tree) -> Outcome)
    requires InPieces(upTo, pieces) && n <= |pieces|
    requires forall k: nat, u: Tree {:trigger line(k, u)} :: k < n ==> line(k, u) == Forward(u, pieces[k], step)
    ensures Forward(t, upTo[n], step) == Lines(n, t, line)
  {
    if n > 0 {
      var k: nat := n - 1;
      ForwardByLine(t, upTo, pieces, k, step, line);
      ForwardConcat(t, upTo[k], pieces[k], step);
      assert upTo[k + 1] == upTo[k] + pieces[k];
    }
  }

  lemma {:induction false} BackwardByLine<S>(t: Tree, upTo: seq<seq<S>>, pieces: seq<seq<S>>, n: nat,
                                             step: (Tree, S) -> Outcome, line: (nat, Tree) -> Outcome)
    requires InPieces(upTo, pieces) && n <= |pieces|
    requires forall k: nat, u: Tree {:trigger line(k, u)} :: k < n ==> line(k, u) == Backward(u, pieces[k], step)
    ensures Backward(t, upTo[n], step) == LinesBack(n, t, line)
    decreases n
  {
    if n > 0 {
      var k: nat := n - 1;
      BackwardConcat(t, upTo[k], pieces[k], step);
      assert upTo[k + 1] == upTo[k] + pieces[k];
      BackwardByLine(line(k, t).tree, upTo, pieces, k, step, line);
    }
  }

  // ---------------------------------------------------------------- the trees in between

  /** Going forwards: the lines 0, ..., k - 1 worked and led from each tree to the next; either they
      are all n, or line k failed. */
  lemma {:induction false} LinesCourse(n: nat, t: Tree, line: (nat, Tree) -> Outcome) returns (k: nat, trees: seq<Tree>)
    ensures k <= n && |trees| == k + 1 && trees[0] == t
    ensures forall i: nat :: i < k ==> line(i, trees[i]) == Outcome(true, trees[i + 1])
    ensures Lines(n, t, line).ok <==> k == n
    ensures k == n ==> Lines(n, t, line).tree == trees[n]
    ensures k < n ==> !line(k, trees[k]).ok && Lines(n, t, line) == line(k, trees[k])
  {
    if n == 0 {
      k, trees := 0, [t];
    } else {
      k, trees := LinesCourse(n - 1, t, line);
      if k == n - 1 && line(k, trees[k]).ok {
        trees := trees + [line(k, trees[k]).tree];
        k := n;
      }
    }
  }

  /** Going backwards without an error. */
  lemma {:induction false} LinesBackCourse(n: nat, t: Tree, line: (nat, Tree) -> Outcome) returns (trees: seq<Tree>)
    requires LinesBack(n, t, line).ok
    ensures |trees| == n + 1 && trees[n] == t && trees[0] == LinesBack(n, t, line).tree
    ensures forall i: nat :: i < n ==> line(i, trees[i + 1]) == Outcome(true, trees[i])
    decreases n
  {
    if n == 0 {
      trees := [t];
    } else {
      var rest := LinesBackCourse(n - 1, line(n - 1, t).tree, line);
      trees := rest + [t];
    }
  }

  /** When each line takes each tree back to the one before, the lines together take the last tree
      back to the first. */
  lemma {:induction false} LinesBackAlong(n: nat, trees: seq<Tree>, line: (nat, Tree) -> Outcome)
    requires n < |trees| && forall i: nat :: i < n ==> line(i, trees[i + 1]) == Outcome(true, trees[i])
    ensures LinesBack(n, trees[n], line) == Outcome(true, trees[0])
  {
    if n > 0 { LinesBackAlong(n - 1, trees, line); }
  }

  /** Lines that leave the tree alone can be left out. */
  lemma {:induction false} IdleLines(n: nat, m: nat, t: Tree, line: (nat, Tree) -> Outcome)
    requires n <= m && forall i: nat :: n <= i < m ==> line(i, t).tree == t
    ensures LinesBack(m, t, line).tree == LinesBack(n, t, line).tree
    decreases m
  {
    if n < m { IdleLines(n, m - 1, t, line); }
  }
}
