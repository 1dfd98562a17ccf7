/** Computing the impact of a change and what keeps its gate closed. */
module ChangeImpact {
  import opened Wrappers
  import opened ReverseClosure
  import opened ContractGate

  // ----- Dropped requirements

  method ToSet(vs: seq<Validation>) returns (r: set<Validation>)
    ensures forall v :: v in r <==> v in vs
  {
    r := set i | 0 <= i < |vs| :: vs[i];
  }

  type References = map<string, set<Validation>>

  predicate Refers(refs: References, id: string, v: Validation) { id in refs && v in refs[id] }

  method AddPaths(refs: References, paths: seq<Path>) returns (r: References)
    ensures forall id, v :: Refers(r, id, v) <==> Refers(refs, id, v) || PathsAsk(paths, Some(id), v)
  {
    r := refs;
    for p := 0 to |paths|
      invariant forall id, v :: Refers(r, id, v) <==> Refers(refs, id, v) || PathsAsk(paths[..p], Some(id), v)
    {
      ghost var before := r;
      if paths[p].id.Some? {
        var id := paths[p].id.value;
        var known := if id in r then r[id] else {};
        var vs := ToSet(paths[p].validation);
        r := r[id := known + vs];
      }
      assert forall id, v :: Refers(r, id, v) <==>
        Refers(before, id, v) || (paths[p].id == Some(id) && v in paths[p].validation);
      PathsAskStep(paths, p);
      forall id, v
        ensures Refers(r, id, v) <==> Refers(refs, id, v) || PathsAsk(paths[..p + 1], Some(id), v)
      {
        assert Refers(before, id, v) <==> Refers(refs, id, v) || PathsAsk(paths[..p], Some(id), v);
      }
    }
    assert paths[..|paths|] == paths;
  }

  lemma PathsAskStep(paths: seq<Path>, p: nat)
    requires p < |paths|
    ensures forall id, v :: PathsAsk(paths[..p + 1], id, v) <==>
      PathsAsk(paths[..p], id, v) || (paths[p].id == id && v in paths[p].validation)
  {
    forall id, v
      ensures PathsAsk(paths[..p + 1], id, v) <==>
        PathsAsk(paths[..p], id, v) || (paths[p].id == id && v in paths[p].validation)
    {
      if PathsAsk(paths[..p], id, v) {
        var j :| 0 <= j < p && paths[..p][j].id == id && v in paths[..p][j].validation;
        assert paths[..p + 1][j] == paths[..p][j];
      }
      if paths[p].id == id && v in paths[p].validation {
        assert paths[..p + 1][p] == paths[p];
      }
      if PathsAsk(paths[..p + 1], id, v) {
        var j :| 0 <= j < p + 1 && paths[..p + 1][j].id == id && v in paths[..p + 1][j].validation;
        assert j < p ==> paths[..p][j] == paths[..p + 1][j];
      }
    }
  }

  method AddRegister(refs: References, register: Register) returns (r: References)
    ensures forall id, v :: Refers(r, id, v) <==> Refers(refs, id, v) || RegisterAsks(register, Some(id), v)
  {
    r := refs;
    for k := 0 to |register.consumers|
      invariant forall id, v :: Refers(r, id, v) <==>
        Refers(refs, id, v) || exists j :: 0 <= j < k && PathsAsk(register.consumers[j].paths, Some(id), v)
    {
      r := AddPaths(r, register.consumers[k].paths);
    }
  }

  /** What the registers of a snapshot reference, by path ID, and the crates' own validations. */
  method RegisterReferences(s: Snapshot) returns (byPath: References, own: set<Validation>)
    ensures forall id, v :: Refers(byPath, id, v) <==> PathAsks(s, Some(id), v)
    ensures forall v :: v in own <==> OwnAsks(s, v)
  {
    byPath, own := map[], {};
    var todo := s.registers.Keys;
    while todo != {}
      invariant todo <= s.registers.Keys
      invariant forall id, v :: Refers(byPath, id, v) <==>
        exists c :: c in s.registers.Keys - todo && RegisterAsks(s.registers[c], Some(id), v)
      invariant forall v :: v in own <==> exists c :: c in s.registers.Keys - todo && v in s.registers[c].validation
      decreases todo
    {
      var c :| c in todo;
      byPath := AddRegister(byPath, s.registers[c]);
      var vs := ToSet(s.registers[c].validation);
      own := own + vs;
      todo := todo - {c};
    }
  }

  /** A path record's validation that the head no longer requires under the same path ID. */
  predicate Lost(headIds: set<Validation>, headPaths: References, id: Option<string>, v: Validation)
  {
    v !in headIds || id.None? || !Refers(headPaths, id.value, v)
  }

  predicate PathsLose(paths: seq<Path>, headIds: set<Validation>, headPaths: References, v: Validation)
  {
    exists p :: 0 <= p < |paths| && v in paths[p].validation && Lost(headIds, headPaths, paths[p].id, v)
  }

  method LostByPaths(paths: seq<Path>, headIds: set<Validation>, headPaths: References) returns (lost: set<Validation>)
    ensures forall v :: v in lost <==> PathsLose(paths, headIds, headPaths, v)
  {
    lost := {};
    for p := 0 to |paths|
      invariant forall v :: v in lost <==>
        exists q :: 0 <= q < p && v in paths[q].validation && Lost(headIds, headPaths, paths[q].id, v)
    {
      var vs := paths[p].validation;
      lost := lost + set i | 0 <= i < |vs| && Lost(headIds, headPaths, paths[p].id, vs[i]) :: vs[i];
    }
  }

  predicate RegisterLoses(r: Register, headIds: set<Validation>, headOwn: set<Validation>, headPaths: References,
                          v: Validation)
  {
    || (v in r.validation && (v !in headIds || v !in headOwn))
    || exists k :: 0 <= k < |r.consumers| && PathsLose(r.consumers[k].paths, headIds, headPaths, v)
  }

  method LostByRegister(r: Register, headIds: set<Validation>, headOwn: set<Validation>, headPaths: References)
    returns (lost: set<Validation>)
    ensures forall v :: v in lost <==> RegisterLoses(r, headIds, headOwn, headPaths, v)
  {
    lost := set i | 0 <= i < |r.validation| && (r.validation[i] !in headIds || r.validation[i] !in headOwn)
      :: r.validation[i];
    ghost var own := lost;
    for k := 0 to |r.consumers|
      invariant forall v :: v in lost <==>
        v in own || exists j :: 0 <= j < k && PathsLose(r.consumers[j].paths, headIds, headPaths, v)
    {
      var more := LostByPaths(r.consumers[k].paths, headIds, headPaths);
      lost := lost + more;
    }
  }

  /** Exactly the obligations the base had and the head no longer has. */
  method DroppedRequirements(base: Snapshot, head: Snapshot) returns (dropped: set<Validation>)
    ensures forall v :: v in dropped <==> Drops(base, head, v)
  {
    var headIds := if head.catalogue.Some? then head.catalogue.value.validations.Keys else {};
    var headPaths, headOwn := RegisterReferences(head);
    dropped := {};
    var todo := base.registers.Keys;
    while todo != {}
      invariant todo <= base.registers.Keys
      invariant forall v :: v in dropped <==>
        exists c :: c in base.registers.Keys - todo && RegisterLoses(base.registers[c], headIds, headOwn, headPaths, v)
      decreases todo
    {
      var c :| c in todo;
      var more := LostByRegister(base.registers[c], headIds, headOwn, headPaths);
      dropped := dropped + more;
      todo := todo - {c};
    }
    ghost var byRegisters := dropped;
    if base.catalogue.Some? {
      dropped := dropped + (base.catalogue.value.validations.Keys - headIds);
    }
    forall v
      ensures v in byRegisters || (Defines(base, v) && !Defines(head, v)) <==> Drops(base, head, v)
    {
      LostMeansDropped(base, head, headIds, headOwn, headPaths, v);
    }
  }

  lemma LostMeansDropped(base: Snapshot, head: Snapshot, headIds: set<Validation>, headOwn: set<Validation>,
                         headPaths: References, v: Validation)
    requires forall w :: w in headIds <==> Defines(head, w)
    requires forall w :: w in headOwn <==> OwnAsks(head, w)
    requires forall id, w :: Refers(headPaths, id, w) <==> PathAsks(head, Some(id), w)
    ensures Drops(base, head, v) <==>
      ((exists c :: c in base.registers && RegisterLoses(base.registers[c], headIds, headOwn, headPaths, v))
       || (Defines(base, v) && !Defines(head, v)))
  {
    forall c | c in base.registers && RegisterLoses(base.registers[c], headIds, headOwn, headPaths, v)
      ensures Drops(base, head, v)
    {
      var r := base.registers[c];
      if exists k :: 0 <= k < |r.consumers| && PathsLose(r.consumers[k].paths, headIds, headPaths, v) {
        var k :| 0 <= k < |r.consumers| && PathsLose(r.consumers[k].paths, headIds, headPaths, v);
        var p :| 0 <= p < |r.consumers[k].paths| && v in r.consumers[k].paths[p].validation
          && Lost(headIds, headPaths, r.consumers[k].paths[p].id, v);
        var id := r.consumers[k].paths[p].id;
        assert PathsAsk(r.consumers[k].paths, id, v);
        assert RegisterAsks(r, id, v);
        assert PathAsks(base, id, v);
      } else {
        assert OwnAsks(base, v);
      }
    }
    if OwnAsks(base, v) && !(Defines(head, v) && OwnAsks(head, v)) {
      var c :| c in base.registers && v in base.registers[c].validation;
      assert RegisterLoses(base.registers[c], headIds, headOwn, headPaths, v);
    }
    forall id | PathAsks(base, id, v) && !(Defines(head, v) && id.Some? && PathAsks(head, id, v))
      ensures exists c :: c in base.registers && RegisterLoses(base.registers[c], headIds, headOwn, headPaths, v)
    {
      var c :| c in base.registers && RegisterAsks(base.registers[c], id, v);
      var r := base.registers[c];
      var k :| 0 <= k < |r.consumers| && PathsAsk(r.consumers[k].paths, id, v);
      var p :| 0 <= p < |r.consumers[k].paths| && r.consumers[k].paths[p].id == id
        && v in r.consumers[k].paths[p].validation;
      assert Lost(headIds, headPaths, id, v);
      assert PathsLose(r.consumers[k].paths, headIds, headPaths, v);
      assert RegisterLoses(r, headIds, headOwn, headPaths, v);
    }
  }

  method WeakenedDefinitions(base: Snapshot, head: Catalogue) returns (weakened: set<Validation>)
    ensures forall v :: v in weakened <==>
      (Defines(base, v) && v in head.validations && Weakens(base.catalogue.value.validations[v], head.validations[v]))
  {
    if base.catalogue.None? { return {}; }
    var was := base.catalogue.value.validations;
    weakened := set v | v in was && v in head.validations && Weakens(was[v], head.validations[v]);
  }

  // ----- The impact of a change

  predicate Touches(includes: seq<string>, files: set<string>)
  {
    exists i :: 0 <= i < |includes| && includes[i] in files
  }

  /** Source inclusions `(crate, package)` whose included files changed. */
  function SourceHits(s: Snapshot, files: set<string>): set<(Name, Name)>
  {
    set c, k | c in s.registers && 0 <= k < |s.registers[c].consumers|
      && s.registers[c].consumers[k].kind == "source" && Touches(s.registers[c].consumers[k].includes, files)
      :: (c, s.registers[c].consumers[k].package)
  }

  /** Embedding edges, which Cargo does not see. */
  function EmbeddedEdges(s: Snapshot): Edges
  {
    set c, k, i | c in s.registers && 0 <= k < |s.registers[c].consumers|
      && s.registers[c].consumers[k].kind == "embedded" && 0 <= i < |s.registers[c].consumers[k].via|
      :: (s.registers[c].consumers[k].package, s.registers[c].consumers[k].via[i])
  }

  /** Cargo and embedding edges of both revisions. */
  function UnionEdges(base: Snapshot, head: Snapshot): Edges
  {
    base.cargoEdges + EmbeddedEdges(base) + head.cargoEdges + EmbeddedEdges(head)
  }

  predicate PathsDemand(paths: seq<Path>, v: Validation)
  {
    exists p :: 0 <= p < |paths| && v in paths[p].validation
  }

  /** A source record counts only if a file it includes changed. */
  predicate Counted(crate: Name, consumer: Consumer, hits: set<(Name, Name)>)
  {
    consumer.kind != "source" || (crate, consumer.package) in hits
  }

  predicate CrateDemands(s: Snapshot, crate: Name, hits: set<(Name, Name)>, v: Validation)
  {
    crate in s.registers &&
    (v in s.registers[crate].validation
     || exists k :: 0 <= k < |s.registers[crate].consumers|
          && Counted(crate, s.registers[crate].consumers[k], hits)
          && PathsDemand(s.registers[crate].consumers[k].paths, v))
  }

  predicate CrateCovers(s: Snapshot, crate: Name, hits: set<(Name, Name)>, package: Name)
  {
    crate in s.registers &&
    exists k :: 0 <= k < |s.registers[crate].consumers|
      && Counted(crate, s.registers[crate].consumers[k], hits) && s.registers[crate].consumers[k].package == package
  }

  predicate RegisterServes(r: Register, product: Name, v: Validation)
  {
    exists k :: 0 <= k < |r.consumers| && r.consumers[k].package == product && PathsDemand(r.consumers[k].paths, v)
  }

  predicate ProductDemands(s: Snapshot, product: Name, v: Validation)
  {
    exists c :: c in s.registers && RegisterServes(s.registers[c], product, v)
  }

  predicate IsHardware(catalogue: Catalogue, v: Validation)
  {
    v in catalogue.validations && catalogue.validations[v].kind == "hardware"
  }

  datatype Change = Change(
    base: Snapshot, head: Snapshot, changed: set<Name>, files: set<string>, registryTouched: bool)

  function Hits(ch: Change): set<(Name, Name)> { SourceHits(ch.base, ch.files) + SourceHits(ch.head, ch.files) }

  function Start(ch: Change): set<Name> { ch.changed + set h | h in Hits(ch) :: h.1 }

  function Shared(ch: Change): set<Name> { ch.base.shared + ch.head.shared }

  /** In the reverse closure of the change over the edges of both revisions. */
  ghost predicate Affected(ch: Change, x: Name)
  {
    DependsOn(UnionEdges(ch.base, ch.head), x, Start(ch))
  }

  predicate EitherCovers(ch: Change, crate: Name, package: Name)
  {
    CrateCovers(ch.base, crate, Hits(ch), package) || CrateCovers(ch.head, crate, Hits(ch), package)
  }

  predicate EitherCrateDemands(ch: Change, crate: Name, v: Validation)
  {
    CrateDemands(ch.base, crate, Hits(ch), v) || CrateDemands(ch.head, crate, Hits(ch), v)
  }

  predicate EitherProductDemands(ch: Change, product: Name, v: Validation)
  {
    ProductDemands(ch.base, product, v) || ProductDemands(ch.head, product, v)
  }

  /** A product a counted record of an affected crate names keeps its hardware runs to that record. */
  ghost predicate Covered(ch: Change, package: Name)
  {
    exists crate :: crate in Shared(ch) && Affected(ch, crate)
      && EitherCovers(ch, crate, package)
  }

  ghost predicate DemandedByCrates(ch: Change, v: Validation)
  {
    exists crate :: crate in Shared(ch) && Affected(ch, crate)
      && EitherCrateDemands(ch, crate, v)
  }

  ghost predicate DemandedByProducts(ch: Change, catalogue: Catalogue, v: Validation)
  {
    exists product :: product !in Shared(ch) && Affected(ch, product)
      && (!Covered(ch, product) || !IsHardware(catalogue, v)) && EitherProductDemands(ch, product, v)
  }

  ghost predicate Demanded(ch: Change, catalogue: Catalogue, v: Validation)
  {
    || DemandedByCrates(ch, v)
    || DemandedByProducts(ch, catalogue, v)
    || (ch.registryTouched && v == catalogue.registryValidation)
  }

  datatype Impact = Impact(requirements: set<Validation>, retired: set<Validation>, weakened: set<Validation>)

  method CrateDemand(s: Snapshot, crate: Name, hits: set<(Name, Name)>)
    returns (asked: set<Validation>, covered: set<Name>)
    ensures forall v :: v in asked <==> CrateDemands(s, crate, hits, v)
    ensures forall x :: x in covered <==> CrateCovers(s, crate, hits, x)
  {
    asked, covered := {}, {};
    if crate !in s.registers { return; }
    var r := s.registers[crate];
    asked := set i | 0 <= i < |r.validation| :: r.validation[i];
    for k := 0 to |r.consumers|
      invariant forall v :: v in asked <==>
        v in r.validation ||
        exists j :: 0 <= j < k && Counted(crate, r.consumers[j], hits) && PathsDemand(r.consumers[j].paths, v)
      invariant forall x :: x in covered <==>
        exists j :: 0 <= j < k && Counted(crate, r.consumers[j], hits) && r.consumers[j].package == x
    {
      if !Counted(crate, r.consumers[k], hits) { continue; }
      covered := covered + {r.consumers[k].package};
      var more := PathDemand(r.consumers[k].paths);
      asked := asked + more;
    }
  }

  method PathDemand(paths: seq<Path>) returns (asked: set<Validation>)
    ensures forall v :: v in asked <==> PathsDemand(paths, v)
  {
    asked := {};
    for p := 0 to |paths|
      invariant forall v :: v in asked <==> exists q :: 0 <= q < p && v in paths[q].validation
    {
      var vs := ToSet(paths[p].validation);
      asked := asked + vs;
    }
  }

  method ProductDemand(s: Snapshot, product: Name) returns (asked: set<Validation>)
    ensures forall v :: v in asked <==> ProductDemands(s, product, v)
  {
    asked := {};
    var todo := s.registers.Keys;
    while todo != {}
      invariant todo <= s.registers.Keys
      invariant forall v :: v in asked <==>
        exists c :: c in s.registers.Keys - todo && RegisterServes(s.registers[c], product, v)
      decreases todo
    {
      var c :| c in todo;
      var r := s.registers[c];
      ghost var before := asked;
      for k := 0 to |r.consumers|
        invariant forall v :: v in asked <==>
          v in before ||
          exists j :: 0 <= j < k && r.consumers[j].package == product && PathsDemand(r.consumers[j].paths, v)
      {
        if r.consumers[k].package == product {
          var more := PathDemand(r.consumers[k].paths);
          asked := asked + more;
        }
      }
      assert forall v :: v in asked <==> v in before || RegisterServes(r, product, v);
      todo := todo - {c};
    }
  }

  method CratesDemand(ch: Change, crates: set<Name>) returns (asked: set<Validation>, covered: set<Name>)
    ensures forall v :: v in asked <==> exists crate :: crate in crates && EitherCrateDemands(ch, crate, v)
    ensures forall x :: x in covered <==> exists crate :: crate in crates && EitherCovers(ch, crate, x)
  {
    asked, covered := {}, {};
    var todo := crates;
    while todo != {}
      invariant todo <= crates
      invariant forall v :: v in asked <==> exists crate :: crate in crates - todo && EitherCrateDemands(ch, crate, v)
      invariant forall x :: x in covered <==> exists crate :: crate in crates - todo && EitherCovers(ch, crate, x)
      decreases todo
    {
      var crate :| crate in todo;
      var asked1, covered1 := CrateDemand(ch.base, crate, Hits(ch));
      var asked2, covered2 := CrateDemand(ch.head, crate, Hits(ch));
      assert forall v :: v in asked1 + asked2 <==> EitherCrateDemands(ch, crate, v);
      assert forall x :: x in covered1 + covered2 <==> EitherCovers(ch, crate, x);
      asked, covered := asked + (asked1 + asked2), covered + (covered1 + covered2);
      todo := todo - {crate};
    }
  }

  /** Builds and tests of every path of an affected product; hardware runs only of an uncovered one. */
  predicate ProductAsks(ch: Change, product: Name, covered: set<Name>, catalogue: Catalogue, v: Validation)
  {
    (product !in covered || !IsHardware(catalogue, v)) && EitherProductDemands(ch, product, v)
  }

  method ProductsDemand(ch: Change, products: set<Name>, covered: set<Name>, catalogue: Catalogue)
    returns (asked: set<Validation>)
    ensures forall v :: v in asked <==> exists x :: x in products && ProductAsks(ch, x, covered, catalogue, v)
  {
    asked := {};
    var todo := products;
    while todo != {}
      invariant todo <= products
      invariant forall v :: v in asked <==>
        exists x :: x in products - todo && ProductAsks(ch, x, covered, catalogue, v)
      decreases todo
    {
      var product :| product in todo;
      var asked1 := ProductDemand(ch.base, product);
      var asked2 := ProductDemand(ch.head, product);
      var more := set v | v in asked1 + asked2 && (product !in covered || !IsHardware(catalogue, v));
      assert forall v :: v in more <==> ProductAsks(ch, product, covered, catalogue, v);
      asked := asked + more;
      todo := todo - {product};
    }
  }

  method AskedFor(ch: Change, catalogue: Catalogue) returns (asked: set<Validation>)
    ensures forall v :: v in asked <==> Demanded(ch, catalogue, v)
  {
    var closure := Closure(Start(ch), UnionEdges(ch.base, ch.head));
    var crates, products := closure * Shared(ch), closure - Shared(ch);
    var byCrates, covered := CratesDemand(ch, crates);
    var byProducts := ProductsDemand(ch, products, covered, catalogue);
    forall v
      ensures v in byCrates <==> DemandedByCrates(ch, v)
      ensures v in byProducts <==> DemandedByProducts(ch, catalogue, v)
    {
      DemandOfClosure(ch, catalogue, closure, covered, v);
    }
    asked := byCrates + byProducts;
    if ch.registryTouched { asked := asked + {catalogue.registryValidation}; }
  }

  lemma DemandOfClosure(ch: Change, catalogue: Catalogue, closure: set<Name>, covered: set<Name>, v: Validation)
    requires forall x :: x in closure <==> Affected(ch, x)
    requires forall x :: x in covered <==> exists crate :: crate in closure * Shared(ch) && EitherCovers(ch, crate, x)
    ensures DemandedByCrates(ch, v) <==>
      exists crate :: crate in closure * Shared(ch) && EitherCrateDemands(ch, crate, v)
    ensures DemandedByProducts(ch, catalogue, v) <==>
      exists x :: x in closure - Shared(ch) && ProductAsks(ch, x, covered, catalogue, v)
  {
    forall x
      ensures x in covered <==> Covered(ch, x)
    {
      if x in covered {
        var crate :| crate in closure * Shared(ch) && EitherCovers(ch, crate, x);
        assert Affected(ch, crate);
      }
      if Covered(ch, x) {
        var crate :| crate in Shared(ch) && Affected(ch, crate) && EitherCovers(ch, crate, x);
        assert crate in closure * Shared(ch);
      }
    }
    if DemandedByCrates(ch, v) {
      var crate :| crate in Shared(ch) && Affected(ch, crate) && EitherCrateDemands(ch, crate, v);
      assert crate in closure * Shared(ch);
    }
    if DemandedByProducts(ch, catalogue, v) {
      var x :| x !in Shared(ch) && Affected(ch, x)
        && (!Covered(ch, x) || !IsHardware(catalogue, v)) && EitherProductDemands(ch, x, v);
      assert x in closure - Shared(ch) && ProductAsks(ch, x, covered, catalogue, v);
    }
    forall x | x in closure - Shared(ch) && ProductAsks(ch, x, covered, catalogue, v)
      ensures DemandedByProducts(ch, catalogue, v)
    {
      assert Affected(ch, x);
    }
  }

  /** What a change requires, what it retires and what it weakens. */
  ghost predicate IsImpact(ch: Change, impact: Impact)
  {
    && ch.head.catalogue.Some?
    && (forall v :: v in impact.requirements <==> Demanded(ch, ch.head.catalogue.value, v) && Defines(ch.head, v))
    && (forall v :: v in impact.retired <==>
          (Demanded(ch, ch.head.catalogue.value, v) && !Defines(ch.head, v)) || Drops(ch.base, ch.head, v))
    && (forall v :: v in impact.weakened <==> IsWeakened(ch.base, ch.head, v))
  }

  datatype NoCatalogue = NoCatalogue

  method ComputeImpact(ch: Change) returns (r: Result<Impact, NoCatalogue>)
    ensures r.Ok? <==> ch.head.catalogue.Some?
    ensures r.Ok? ==> IsImpact(ch, r.value)
  {
    if ch.head.catalogue.None? { return Err(NoCatalogue); }
    var catalogue := ch.head.catalogue.value;
    var asked := AskedFor(ch, catalogue);
    var dropped := DroppedRequirements(ch.base, ch.head);
    var weakened := WeakenedDefinitions(ch.base, catalogue);
    var requirements := set v | v in asked && v in catalogue.validations;
    var retired := (set v | v in asked && v !in catalogue.validations) + dropped;
    return Ok(Impact(requirements, retired, weakened));
  }

  // ----- The gate

  /** A required validation that is mandatory under one of its definitions but not passed under all. */
  ghost predicate Unmet(ch: Change, evidence: Option<seq<Record>>, v: Validation)
    requires Defines(ch.head, v)
  {
    var found := Definitions(ch.base.catalogue, ch.head.catalogue.value, v);
    && (exists d :: d in found && d.mandatory)
    && !(evidence.Some? && forall d :: d in found ==> StatusOf(d, v, ch.head.revision, evidence.value) == Passed)
  }

  ghost predicate KeepsGateClosed(ch: Change, impact: Impact, evidence: Option<seq<Record>>,
                                  acknowledged: set<Validation>, v: Validation)
  {
    || (v in impact.requirements && Defines(ch.head, v) && Unmet(ch, evidence, v))
    || (v in impact.retired + impact.weakened && v !in acknowledged)
  }

  method Missing(ch: Change, impact: Impact, evidence: Option<seq<Record>>, acknowledged: set<Validation>)
    returns (missing: set<Validation>)
    requires IsImpact(ch, impact)
    ensures forall v :: v in missing <==> KeepsGateClosed(ch, impact, evidence, acknowledged, v)
  {
    missing := {};
    var todo := impact.requirements;
    while todo != {}
      invariant todo <= impact.requirements
      invariant forall v :: v in missing <==> v in impact.requirements - todo && Unmet(ch, evidence, v)
      decreases todo
    {
      var v :| v in todo;
      var e := Evaluate(ch.base.catalogue, ch.head.catalogue.value, ch.head.revision, v, evidence);
      if e.mandatory && e.status != Passed { missing := missing + {v}; }
      todo := todo - {v};
    }
    missing := missing + set v | v in impact.retired + impact.weakened && v !in acknowledged;
  }
}
