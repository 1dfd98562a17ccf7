/** Everything that depends on a set of packages, directly or not. */
module ReverseClosure {
  type Name = string

  /** An edge runs from a dependent to its dependency. */
  type Edges = set<(Name, Name)>

  /** A chain of dependents that ends in `start`. */
  predicate IsChain(edges: Edges, chain: seq<Name>)
  {
    chain != [] && forall i :: 0 <= i < |chain| - 1 ==> (chain[i], chain[i + 1]) in edges
  }

  ghost predicate DependsOn(edges: Edges, x: Name, start: set<Name>)
  {
    exists chain :: IsChain(edges, chain) && chain[0] == x && chain[|chain| - 1] in start
  }

  lemma StartDependsOnItself(edges: Edges, x: Name, start: set<Name>)
    requires x in start
    ensures DependsOn(edges, x, start)
  {
    assert IsChain(edges, [x]);
  }

  lemma DependentDependsToo(edges: Edges, x: Name, y: Name, start: set<Name>)
    requires (x, y) in edges && DependsOn(edges, y, start)
    ensures DependsOn(edges, x, start)
  {
    var chain :| IsChain(edges, chain) && chain[0] == y && chain[|chain| - 1] in start;
    var longer := [x] + chain;
    assert forall i :: 1 <= i < |longer| ==> longer[i] == chain[i - 1];
    assert IsChain(edges, longer) && longer[0] == x && longer[|longer| - 1] in start;
  }

  /** A set that holds `start` and is closed under dependents holds every chain into `start`. */
  lemma {:induction false} ClosedSetHoldsChain(edges: Edges, chain: seq<Name>, start: set<Name>, seen: set<Name>)
    requires start <= seen && forall x, y :: (x, y) in edges && y in seen ==> x in seen
    requires IsChain(edges, chain) && chain[|chain| - 1] in start
    ensures chain[0] in seen
    decreases |chain|
  {
    if |chain| > 1 {
      assert forall i :: 0 <= i < |chain| - 1 ==> chain[1..][i] == chain[i + 1];
      ClosedSetHoldsChain(edges, chain[1..], start, seen);
      assert (chain[0], chain[1]) in edges;
    }
  }

  ghost predicate Inverts(dependents: map<Name, set<Name>>, edges: Edges)
  {
    forall x, y :: (y in dependents && x in dependents[y]) <==> (x, y) in edges
  }

  /** The dependents of each package. */
  method Dependents(edges: Edges) returns (dependents: map<Name, set<Name>>)
    ensures Inverts(dependents, edges)
  {
    dependents := map[];
    var todo := edges;
    while todo != {}
      invariant todo <= edges
      invariant forall x, y :: (y in dependents && x in dependents[y]) <==> (x, y) in edges - todo
      decreases todo
    {
      var e :| e in todo;
      var known := if e.1 in dependents then dependents[e.1] else {};
      dependents := dependents[e.1 := known + {e.0}];
      todo := todo - {e};
    }
  }

  lemma ClosedSetHoldsAll(edges: Edges, start: set<Name>, seen: set<Name>)
    requires start <= seen && forall x, y :: (x, y) in edges && y in seen ==> x in seen
    ensures forall x :: DependsOn(edges, x, start) ==> x in seen
  {
    forall x | DependsOn(edges, x, start)
      ensures x in seen
    {
      var chain :| IsChain(edges, chain) && chain[0] == x && chain[|chain| - 1] in start;
      ClosedSetHoldsChain(edges, chain, start, seen);
    }
  }

  /** Marks and stacks the packages of `found` not seen before. */
  method Visit(found: set<Name>, seen: set<Name>, stack: seq<Name>) returns (seen': set<Name>, stack': seq<Name>)
    ensures seen' == seen + found
    ensures forall x :: x in stack' <==> x in stack || x in found - seen
    ensures found <= seen ==> stack' == stack
  {
    seen', stack' := seen, stack;
    var todo := found;
    while todo != {}
      invariant todo <= found
      invariant seen' == seen + (found - todo)
      invariant forall x :: x in stack' <==> x in stack || x in found - todo - seen
      invariant found <= seen ==> stack' == stack
      decreases todo
    {
      var x :| x in todo;
      todo := todo - {x};
      if x !in seen' {
        seen' := seen' + {x};
        stack' := stack' + [x];
      }
    }
  }

  ghost predicate AllDepend(edges: Edges, names: set<Name>, start: set<Name>)
  {
    forall x :: x in names ==> DependsOn(edges, x, start)
  }

  /** Every dependent of a package that has been seen has been seen too, or will be found. */
  ghost predicate ClosedButFor(edges: Edges, seen: set<Name>, stack: seq<Name>)
  {
    && (forall x :: x in stack ==> x in seen)
    && (forall x, y :: (x, y) in edges && y in seen ==> x in seen || y in stack)
  }

  lemma FoundDepend(edges: Edges, y: Name, found: set<Name>, start: set<Name>)
    requires DependsOn(edges, y, start) && forall x :: x in found ==> (x, y) in edges
    ensures AllDepend(edges, found, start)
  {
    forall x | x in found
      ensures DependsOn(edges, x, start)
    {
      DependentDependsToo(edges, x, y, start);
    }
  }

  lemma VisitCloses(edges: Edges, seen: set<Name>, stack: seq<Name>, y: Name, found: set<Name>, stack': seq<Name>)
    requires ClosedButFor(edges, seen, stack + [y]) && forall x :: (x, y) in edges ==> x in found
    requires forall x :: x in stack' <==> x in stack || x in found - seen
    ensures ClosedButFor(edges, seen + found, stack')
  {
    assert forall x :: x in stack + [y] <==> x in stack || x == y;
    assert y in stack + [y];
  }

  /** All that can ever be seen. */
  ghost function Universe(start: set<Name>, edges: Edges): (u: set<Name>)
    ensures start <= u && forall x, y :: (x, y) in edges ==> x in u
  {
    var dependents := set e | e in edges :: e.0;
    assert forall x, y :: (x, y) in edges ==> (x, y).0 in dependents;
    start + dependents
  }

  lemma AllStartDepend(edges: Edges, start: set<Name>)
    ensures AllDepend(edges, start, start)
  {
    forall x | x in start
      ensures DependsOn(edges, x, start)
    {
      StartDependsOnItself(edges, x, start);
    }
  }

  /** What the loop keeps. */
  ghost predicate Exploring(edges: Edges, start: set<Name>, seen: set<Name>, stack: seq<Name>)
  {
    start <= seen && AllDepend(edges, seen, start) && ClosedButFor(edges, seen, stack)
  }

  /** One round: the dependents of the top of the stack are marked and stacked. */
  method Round(dependents: map<Name, set<Name>>, seen: set<Name>, stack: seq<Name>,
               ghost edges: Edges, ghost start: set<Name>)
    returns (seen': set<Name>, stack': seq<Name>)
    requires Inverts(dependents, edges) && stack != [] && Exploring(edges, start, seen, stack)
    ensures Exploring(edges, start, seen', stack')
    ensures seen <= seen' <= seen + Universe(start, edges)
    ensures seen' == seen ==> |stack'| < |stack|
  {
    var y := stack[|stack| - 1];
    var rest := stack[..|stack| - 1];
    var found := if y in dependents then dependents[y] else {};
    assert forall x :: x in found <==> (x, y) in edges;
    assert stack == rest + [y];
    FoundDepend(edges, y, found, start);
    seen', stack' := Visit(found, seen, rest);
    VisitCloses(edges, seen, rest, y, found, stack');
    assert found <= seen' && (seen' == seen ==> found <= seen);
  }

  /** The worklist computes exactly the packages from which a chain of dependencies leads to `start`. */
  method Closure(start: set<Name>, edges: Edges) returns (seen: set<Name>)
    ensures forall x :: x in seen <==> DependsOn(edges, x, start)
  {
    var dependents := Dependents(edges);
    seen := start;
    var stack := SetToSeq(start);
    AllStartDepend(edges, start);
    while stack != []
      invariant seen <= Universe(start, edges) && Exploring(edges, start, seen, stack)
      decreases Universe(start, edges) - seen, |stack|
    {
      seen, stack := Round(dependents, seen, stack, edges, start);
    }
    ClosedSetHoldsAll(edges, start, seen);
  }

  method SetToSeq(s: set<Name>) returns (q: seq<Name>)
    ensures forall x :: x in q <==> x in s
  {
    q := [];
    var todo := s;
    while todo != {}
      invariant todo <= s
      invariant forall x :: x in q <==> x in s - todo
      decreases todo
    {
      var x :| x in todo;
      q := q + [x];
      todo := todo - {x};
    }
  }
}
