/** The walk over the resolved dependency graph that finds every shipped package. */
module ShippedPackages {
  import opened Wrappers

  type Id = string

  /** `None` is a normal dependency; other kinds carry their name. */
  datatype Dependency = Dependency(pkg: Id, kinds: seq<Option<string>>)

  datatype Metadata = Metadata(packages: seq<(Id, string)>, nodes: map<Id, seq<Dependency>>)

  /** An edge ships unless it says what it is for and none of that is normal or build. */
  predicate Ships(d: Dependency)
  {
    d.kinds == [] || None in d.kinds || Some("build") in d.kinds
  }

  // ----- Reachability

  predicate Edge(m: Metadata, a: Id, b: Id)
  {
    a in m.nodes && exists i :: 0 <= i < |m.nodes[a]| && m.nodes[a][i].pkg == b && Ships(m.nodes[a][i])
  }

  predicate IsRoot(m: Metadata, roots: seq<string>, id: Id)
  {
    exists i :: 0 <= i < |m.packages| && m.packages[i].0 == id && m.packages[i].1 in roots
  }

  /** A path of resolved packages along shipped edges, starting at a root. */
  ghost predicate IsPath(m: Metadata, roots: seq<string>, path: seq<Id>)
  {
    && path != [] && IsRoot(m, roots, path[0])
    && (forall i :: 0 <= i < |path| ==> path[i] in m.nodes)
    && (forall i :: 0 <= i < |path| - 1 ==> Edge(m, path[i], path[i + 1]))
  }

  ghost predicate Shipped(m: Metadata, roots: seq<string>, id: Id)
  {
    exists path :: IsPath(m, roots, path) && path[|path| - 1] == id
  }

  /** An identifier worth looking at: a root, or the target of an edge from a shipped package. */
  ghost predicate Justified(m: Metadata, roots: seq<string>, id: Id)
  {
    IsRoot(m, roots, id) || exists a :: Shipped(m, roots, a) && Edge(m, a, id)
  }

  lemma JustifiedAndResolvedIsShipped(m: Metadata, roots: seq<string>, id: Id)
    requires Justified(m, roots, id) && id in m.nodes
    ensures Shipped(m, roots, id)
  {
    if IsRoot(m, roots, id) {
      assert IsPath(m, roots, [id]);
    } else {
      var a :| Shipped(m, roots, a) && Edge(m, a, id);
      var path :| IsPath(m, roots, path) && path[|path| - 1] == a;
      assert IsPath(m, roots, path + [id]);
      assert (path + [id])[|path|] == id;
    }
  }

  /** A set that has the resolved roots and is closed under shipped edges has every shipped package. */
  lemma ClosedSetHasAllShipped(m: Metadata, roots: seq<string>, seen: set<Id>, id: Id)
    requires forall r :: IsRoot(m, roots, r) && r in m.nodes ==> r in seen
    requires forall a, b :: a in seen && Edge(m, a, b) && b in m.nodes ==> b in seen
    requires Shipped(m, roots, id)
    ensures id in seen
  {
    var path :| IsPath(m, roots, path) && path[|path| - 1] == id;
    PathStaysInside(m, roots, seen, path, |path| - 1);
  }

  lemma {:induction false} PathStaysInside(m: Metadata, roots: seq<string>, seen: set<Id>, path: seq<Id>, i: nat)
    requires forall r :: IsRoot(m, roots, r) && r in m.nodes ==> r in seen
    requires forall a, b :: a in seen && Edge(m, a, b) && b in m.nodes ==> b in seen
    requires IsPath(m, roots, path) && i < |path|
    ensures path[i] in seen
  {
    if i > 0 {
      PathStaysInside(m, roots, seen, path, i - 1);
      assert Edge(m, path[i - 1], path[i]);
    }
  }

  // ----- The walk

  /** The identifiers of the packages a root names, for every root that resolves. */
  method InitialFrontier(m: Metadata, roots: seq<string>) returns (frontier: seq<Id>)
    ensures forall id :: id in frontier <==> IsRoot(m, roots, id)
  {
    frontier := [];
    for r := 0 to |roots|
      invariant forall id :: id in frontier <==> IsRoot(m, roots[..r], id)
    {
      for i := 0 to |m.packages|
        invariant forall id :: id in frontier <==>
          IsRoot(m, roots[..r], id) || NamedBefore(m, roots[r], id, i)
      {
        if m.packages[i].1 == roots[r] {
          frontier := frontier + [m.packages[i].0];
        }
      }
      assert forall id :: IsRoot(m, roots[..r + 1], id) <==>
        IsRoot(m, roots[..r], id) || NamedBefore(m, roots[r], id, |m.packages|);
    }
    assert roots[..|roots|] == roots;
  }

  predicate NamedBefore(m: Metadata, name: string, id: Id, n: nat)
  {
    exists i :: 0 <= i < n && i < |m.packages| && m.packages[i].0 == id && m.packages[i].1 == name
  }

  /** Appends the targets of the shipped edges of one package. */
  method AddDependencies(m: Metadata, frontier: seq<Id>, id: Id) returns (longer: seq<Id>)
    requires id in m.nodes
    ensures forall x :: x in longer <==> x in frontier || Edge(m, id, x)
  {
    var deps := m.nodes[id];
    longer := frontier;
    for i := 0 to |deps|
      invariant forall x :: x in frontier ==> x in longer
      invariant forall x :: x in longer ==> x in frontier || Edge(m, id, x)
      invariant forall j :: 0 <= j < i && Ships(deps[j]) ==> deps[j].pkg in longer
    {
      if Ships(deps[i]) {
        assert Edge(m, id, deps[i].pkg);
        longer := longer + [deps[i].pkg];
      }
    }
  }

  /** What has been seen is shipped, what is still to be looked at is justified. */
  ghost predicate Sound(m: Metadata, roots: seq<string>, seen: set<Id>, frontier: seq<Id>)
  {
    && (forall id :: id in seen ==> id in m.nodes && Shipped(m, roots, id))
    && (forall id :: id in frontier ==> Justified(m, roots, id))
  }

  /** Nothing shipped has been forgotten. */
  ghost predicate Complete(m: Metadata, roots: seq<string>, seen: set<Id>, frontier: seq<Id>)
  {
    && (forall r :: IsRoot(m, roots, r) && r in m.nodes ==> r in seen || r in frontier)
    && (forall a, b :: a in seen && Edge(m, a, b) && b in m.nodes ==> b in seen || b in frontier)
  }

  lemma VisitIsSound(m: Metadata, roots: seq<string>, seen: set<Id>, frontier: seq<Id>, id: Id, longer: seq<Id>)
    requires Sound(m, roots, seen, frontier) && id in frontier && id in m.nodes
    requires forall x :: x in longer ==> x in frontier || Edge(m, id, x)
    ensures Sound(m, roots, seen + {id}, longer)
  {
    JustifiedAndResolvedIsShipped(m, roots, id);
  }

  lemma VisitIsComplete(m: Metadata, roots: seq<string>, seen: set<Id>, frontier: seq<Id>, id: Id, longer: seq<Id>)
    requires Complete(m, roots, seen, frontier)
    requires forall x :: x in frontier || Edge(m, id, x) ==> x in longer || x == id
    ensures Complete(m, roots, seen + {id}, longer)
  {
  }

  lemma SkipIsComplete(m: Metadata, roots: seq<string>, seen: set<Id>, frontier: seq<Id>, id: Id)
    requires Complete(m, roots, seen, frontier + [id]) && (id in seen || id !in m.nodes)
    ensures Complete(m, roots, seen, frontier)
  {
    assert forall x :: x in frontier + [id] ==> x in frontier || x == id;
  }

  /** The walk returns exactly the shipped packages, although its frontier may hold duplicates,
      packages already seen and identifiers that do not resolve. */
  method ShippedPackageIds(m: Metadata, roots: seq<string>) returns (seen: set<Id>)
    ensures forall id :: id in seen <==> Shipped(m, roots, id)
  {
    var frontier := InitialFrontier(m, roots);
    seen := {};
    while frontier != []
      invariant Sound(m, roots, seen, frontier) && Complete(m, roots, seen, frontier)
      decreases m.nodes.Keys - seen, |frontier|
    {
      ghost var before := frontier;
      var id := frontier[|frontier| - 1];
      frontier := frontier[..|frontier| - 1];
      assert before == frontier + [id];
      if id in seen || id !in m.nodes {
        SkipIsComplete(m, roots, seen, frontier, id);
        continue;
      }
      frontier := AddDependencies(m, frontier, id);
      VisitIsSound(m, roots, seen, before, id, frontier);
      VisitIsComplete(m, roots, seen, before, id, frontier);
      seen := seen + {id};
    }
    forall id | Shipped(m, roots, id)
      ensures id in seen
    {
      ClosedSetHasAllShipped(m, roots, seen, id);
    }
  }

  /** An edge is followed exactly if it names no kind, or a normal or a build kind among them; an edge
      for development only is not. */
  lemma ShipsIff(d: Dependency)
    ensures Ships(d) <==>
      d.kinds == [] || exists i :: 0 <= i < |d.kinds| && (d.kinds[i].None? || d.kinds[i].value == "build")
  {
    if None in d.kinds {
      var i :| 0 <= i < |d.kinds| && d.kinds[i] == None;
      assert d.kinds[i].None?;
    }
    if Some("build") in d.kinds {
      var i :| 0 <= i < |d.kinds| && d.kinds[i] == Some("build");
      assert d.kinds[i].value == "build";
    }
    if i :| 0 <= i < |d.kinds| && (d.kinds[i].None? || d.kinds[i].value == "build") {
      assert d.kinds[i] == if d.kinds[i].None? then None else Some("build");
      assert d.kinds[i] in d.kinds;
    }
  }
}
