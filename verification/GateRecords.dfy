/**
 The gate in terms of the registers' own records: who is affected, what is demanded and what an
 open gate guarantees, record by record.
 */
module GateRecords {
  import opened Wrappers
  import opened ReverseClosure
  import opened ContractGate
  import opened ChangeImpact
  import opened GateTheorems

  // ----- Who is affected

  /** Consumer record `k` in the register of `c` embeds `y` in `x`. */
  predicate Embeds(s: Snapshot, c: Name, k: nat, i: nat, x: Name, y: Name)
  {
    && c in s.registers && k < |s.registers[c].consumers| && i < |s.registers[c].consumers[k].via|
    && s.registers[c].consumers[k].kind == "embedded"
    && s.registers[c].consumers[k].package == x && s.registers[c].consumers[k].via[i] == y
  }

  /** Consumer record `k` in the register of `c` compiles one of the files into `x`. */
  predicate Compiles(s: Snapshot, files: set<string>, c: Name, k: nat, i: nat, x: Name)
  {
    && c in s.registers && k < |s.registers[c].consumers| && i < |s.registers[c].consumers[k].includes|
    && s.registers[c].consumers[k].kind == "source"
    && s.registers[c].consumers[k].package == x && s.registers[c].consumers[k].includes[i] in files
  }

  /** An edge of one revision: Cargo's, or an embedding that a consumer record names. */
  ghost predicate EdgeIn(s: Snapshot, x: Name, y: Name)
  {
    (x, y) in s.cargoEdges || exists c, k: nat, i: nat :: Embeds(s, c, k, i, x, y)
  }

  ghost predicate Includes(s: Snapshot, files: set<string>, x: Name)
  {
    exists c, k: nat, i: nat :: Compiles(s, files, c, k, i, x)
  }

  /** A chain of dependents, over the edges of either revision, into what the change touched. */
  ghost predicate ChainTo(ch: Change, chain: seq<Name>)
  {
    && chain != []
    && (chain[|chain| - 1] in ch.changed || Includes(ch.base, ch.files, chain[|chain| - 1])
        || Includes(ch.head, ch.files, chain[|chain| - 1]))
    && forall i :: 0 <= i < |chain| - 1 ==>
         EdgeIn(ch.base, chain[i], chain[i + 1]) || EdgeIn(ch.head, chain[i], chain[i + 1])
  }

  lemma EmbeddedIff(s: Snapshot, x: Name, y: Name)
    ensures EdgeIn(s, x, y) <==> (x, y) in s.cargoEdges + EmbeddedEdges(s)
  {
    if c, k: nat, i: nat :| Embeds(s, c, k, i, x, y) {
      assert (s.registers[c].consumers[k].package, s.registers[c].consumers[k].via[i]) in EmbeddedEdges(s);
    }
    if (x, y) in EmbeddedEdges(s) {
      var c, k: nat, i: nat :| c in s.registers && k < |s.registers[c].consumers|
        && s.registers[c].consumers[k].kind == "embedded" && i < |s.registers[c].consumers[k].via|
        && (s.registers[c].consumers[k].package, s.registers[c].consumers[k].via[i]) == (x, y);
      assert Embeds(s, c, k, i, x, y);
    }
  }

  lemma EdgeIff(ch: Change, x: Name, y: Name)
    ensures EdgeIn(ch.base, x, y) || EdgeIn(ch.head, x, y) <==> (x, y) in UnionEdges(ch.base, ch.head)
  {
    EmbeddedIff(ch.base, x, y);
    EmbeddedIff(ch.head, x, y);
  }

  lemma HitIff(s: Snapshot, files: set<string>, c: Name, x: Name)
    ensures (c, x) in SourceHits(s, files) <==> exists k: nat, i: nat :: Compiles(s, files, c, k, i, x)
  {
    if (c, x) in SourceHits(s, files) {
      var k: nat :| c in s.registers && k < |s.registers[c].consumers| && s.registers[c].consumers[k].kind == "source"
        && Touches(s.registers[c].consumers[k].includes, files) && s.registers[c].consumers[k].package == x;
      var i: nat :| i < |s.registers[c].consumers[k].includes| && s.registers[c].consumers[k].includes[i] in files;
      assert Compiles(s, files, c, k, i, x);
    }
    if k: nat, i: nat :| Compiles(s, files, c, k, i, x) {
      assert Touches(s.registers[c].consumers[k].includes, files);
      assert (c, s.registers[c].consumers[k].package) in SourceHits(s, files);
    }
  }

  lemma StartIff(ch: Change, x: Name)
    ensures x in Start(ch) <==> x in ch.changed || Includes(ch.base, ch.files, x) || Includes(ch.head, ch.files, x)
  {
    forall c
      ensures (c, x) in SourceHits(ch.base, ch.files) <==>
        exists k: nat, i: nat :: Compiles(ch.base, ch.files, c, k, i, x)
      ensures (c, x) in SourceHits(ch.head, ch.files) <==>
        exists k: nat, i: nat :: Compiles(ch.head, ch.files, c, k, i, x)
    {
      HitIff(ch.base, ch.files, c, x);
      HitIff(ch.head, ch.files, c, x);
    }
    if x in Start(ch) && x !in ch.changed {
      var h :| h in Hits(ch) && h.1 == x;
      assert (h.0, x) in Hits(ch);
    }
    if Includes(ch.base, ch.files, x) || Includes(ch.head, ch.files, x) {
      var c :| (c, x) in Hits(ch);
      assert (c, x).1 in Start(ch);
    }
  }

  lemma ChainIff(ch: Change, chain: seq<Name>)
    ensures ChainTo(ch, chain) <==>
      IsChain(UnionEdges(ch.base, ch.head), chain) && chain[|chain| - 1] in Start(ch)
  {
    if chain != [] { StartIff(ch, chain[|chain| - 1]); }
    forall i | 0 <= i < |chain| - 1
      ensures EdgeIn(ch.base, chain[i], chain[i + 1]) || EdgeIn(ch.head, chain[i], chain[i + 1])
         <==> (chain[i], chain[i + 1]) in UnionEdges(ch.base, ch.head)
    {
      EdgeIff(ch, chain[i], chain[i + 1]);
    }
  }

  /** A package is affected exactly if a chain of dependents leads from it to what changed. */
  lemma AffectedIff(ch: Change, x: Name)
    ensures Affected(ch, x) <==> exists chain :: ChainTo(ch, chain) && chain[0] == x
  {
    if Affected(ch, x) {
      var chain :| IsChain(UnionEdges(ch.base, ch.head), chain) && chain[0] == x && chain[|chain| - 1] in Start(ch);
      ChainIff(ch, chain);
    }
    if chain :| ChainTo(ch, chain) && chain[0] == x {
      ChainIff(ch, chain);
    }
  }

  // ----- What is demanded

  predicate Either(ch: Change, s: Snapshot) { s == ch.base || s == ch.head }

  predicate IsShared(ch: Change, x: Name) { x in ch.base.shared || x in ch.head.shared }

  /** A consumer record of a shared crate counts for a change, unless it only includes source files
      none of which the change touched. */
  ghost predicate CountsFor(ch: Change, c: Name, consumer: Consumer)
  {
    consumer.kind == "source" ==>
      exists s, k: nat, i: nat :: Either(ch, s) && Compiles(s, ch.files, c, k, i, consumer.package)
  }

  lemma CountedIff(ch: Change, c: Name, consumer: Consumer)
    ensures Counted(c, consumer, Hits(ch)) <==> CountsFor(ch, c, consumer)
  {
    HitIff(ch.base, ch.files, c, consumer.package);
    HitIff(ch.head, ch.files, c, consumer.package);
    assert Either(ch, ch.base) && Either(ch, ch.head);
  }

  /** Path `p` of consumer record `k` in the register of `c` lists `v` for `package`. */
  predicate Lists(s: Snapshot, c: Name, k: nat, p: nat, package: Name, v: Validation)
  {
    && c in s.registers && k < |s.registers[c].consumers| && p < |s.registers[c].consumers[k].paths|
    && s.registers[c].consumers[k].package == package && v in s.registers[c].consumers[k].paths[p].validation
  }

  /** The register of a crate asks for `v`: as its own validation, or on a path of a record that
      counts. */
  ghost predicate CrateLists(ch: Change, s: Snapshot, crate: Name, v: Validation)
  {
    crate in s.registers &&
    (v in s.registers[crate].validation ||
     exists k: nat, p: nat, package ::
       Lists(s, crate, k, p, package, v) && CountsFor(ch, crate, s.registers[crate].consumers[k]))
  }

  lemma CrateDemandsIff(ch: Change, s: Snapshot, crate: Name, v: Validation)
    ensures CrateDemands(s, crate, Hits(ch), v) <==> CrateLists(ch, s, crate, v)
  {
    if crate in s.registers {
      var consumers := s.registers[crate].consumers;
      forall k | 0 <= k < |consumers|
        ensures Counted(crate, consumers[k], Hits(ch)) <==> CountsFor(ch, crate, consumers[k])
      {
        CountedIff(ch, crate, consumers[k]);
      }
      if k: nat :| k < |consumers| && Counted(crate, consumers[k], Hits(ch)) && PathsDemand(consumers[k].paths, v) {
        var p: nat :| p < |consumers[k].paths| && v in consumers[k].paths[p].validation;
        assert Lists(s, crate, k, p, consumers[k].package, v);
      }
      if k: nat, p: nat, x :| Lists(s, crate, k, p, x, v) && CountsFor(ch, crate, consumers[k]) {
        assert PathsDemand(consumers[k].paths, v);
      }
    }
  }

  /** Record `k` of an affected shared crate counts and is for the package. */
  ghost predicate RecordFor(ch: Change, s: Snapshot, crate: Name, k: nat, package: Name)
  {
    && Either(ch, s) && IsShared(ch, crate) && Affected(ch, crate)
    && crate in s.registers && k < |s.registers[crate].consumers|
    && CountsFor(ch, crate, s.registers[crate].consumers[k]) && s.registers[crate].consumers[k].package == package
  }

  lemma CoveredIff(ch: Change, package: Name)
    ensures Covered(ch, package) <==> exists s, crate, k: nat :: RecordFor(ch, s, crate, k, package)
  {
    if Covered(ch, package) {
      var crate :| crate in Shared(ch) && Affected(ch, crate) && EitherCovers(ch, crate, package);
      var s := if CrateCovers(ch.base, crate, Hits(ch), package) then ch.base else ch.head;
      var k: nat :| k < |s.registers[crate].consumers| && Counted(crate, s.registers[crate].consumers[k], Hits(ch))
        && s.registers[crate].consumers[k].package == package;
      CountedIff(ch, crate, s.registers[crate].consumers[k]);
      assert RecordFor(ch, s, crate, k, package);
    }
    if s, crate, k: nat :| RecordFor(ch, s, crate, k, package) {
      CountedIff(ch, crate, s.registers[crate].consumers[k]);
      assert CrateCovers(s, crate, Hits(ch), package);
      assert EitherCovers(ch, crate, package);
    }
  }

  lemma ProductListsIff(s: Snapshot, product: Name, v: Validation)
    ensures ProductDemands(s, product, v) <==> exists c, k: nat, p: nat :: Lists(s, c, k, p, product, v)
  {
    if ProductDemands(s, product, v) {
      var c :| c in s.registers && RegisterServes(s.registers[c], product, v);
      var k: nat :| k < |s.registers[c].consumers| && s.registers[c].consumers[k].package == product
        && PathsDemand(s.registers[c].consumers[k].paths, v);
      var p: nat :| p < |s.registers[c].consumers[k].paths| && v in s.registers[c].consumers[k].paths[p].validation;
      assert Lists(s, c, k, p, product, v);
    }
    if c, k: nat, p: nat :| Lists(s, c, k, p, product, v) {
      assert PathsDemand(s.registers[c].consumers[k].paths, v);
      assert RegisterServes(s.registers[c], product, v);
    }
  }

  /** An affected shared crate demands `v`. */
  ghost predicate CrateAsks(ch: Change, s: Snapshot, crate: Name, v: Validation)
  {
    Either(ch, s) && IsShared(ch, crate) && Affected(ch, crate) && CrateLists(ch, s, crate, v)
  }

  /** A record lists `v` for an affected product; a hardware run only counts if no affected crate has
      a record of its own for the product. */
  ghost predicate RecordAsks(ch: Change, catalogue: Catalogue, s: Snapshot, c: Name, k: nat, p: nat, product: Name,
                             v: Validation)
  {
    && Either(ch, s) && Lists(s, c, k, p, product, v) && !IsShared(ch, product) && Affected(ch, product)
    && (v in catalogue.validations && catalogue.validations[v].kind == "hardware" ==>
          !exists t, crate, j: nat :: RecordFor(ch, t, crate, j, product))
  }

  lemma CrateDemandIff(ch: Change, v: Validation)
    ensures DemandedByCrates(ch, v) <==> exists s, crate :: CrateAsks(ch, s, crate, v)
  {
    forall crate
      ensures EitherCrateDemands(ch, crate, v) <==>
        CrateLists(ch, ch.base, crate, v) || CrateLists(ch, ch.head, crate, v)
    {
      CrateDemandsIff(ch, ch.base, crate, v);
      CrateDemandsIff(ch, ch.head, crate, v);
    }
    if DemandedByCrates(ch, v) {
      var crate :| crate in Shared(ch) && Affected(ch, crate) && EitherCrateDemands(ch, crate, v);
      var s := if CrateLists(ch, ch.base, crate, v) then ch.base else ch.head;
      assert CrateAsks(ch, s, crate, v);
    }
  }

  lemma ProductDemandIff(ch: Change, catalogue: Catalogue, v: Validation)
    ensures DemandedByProducts(ch, catalogue, v) <==>
      exists s, c, k: nat, p: nat, product :: RecordAsks(ch, catalogue, s, c, k, p, product, v)
  {
    if DemandedByProducts(ch, catalogue, v) {
      var product :| product !in Shared(ch) && Affected(ch, product)
        && (!Covered(ch, product) || !IsHardware(catalogue, v)) && EitherProductDemands(ch, product, v);
      CoveredIff(ch, product);
      var s := if ProductDemands(ch.base, product, v) then ch.base else ch.head;
      ProductListsIff(s, product, v);
      var c, k: nat, p: nat :| Lists(s, c, k, p, product, v);
      assert RecordAsks(ch, catalogue, s, c, k, p, product, v);
    }
    if s, c, k: nat, p: nat, product :| RecordAsks(ch, catalogue, s, c, k, p, product, v) {
      CoveredIff(ch, product);
      ProductListsIff(s, product, v);
      assert EitherProductDemands(ch, product, v);
    }
  }

  /** A validation is demanded exactly if the register of an affected shared crate asks for it, or a
      record of either revision lists it for an affected product, or it is the one for changed
      registers. */
  lemma DemandedIff(ch: Change, catalogue: Catalogue, v: Validation)
    ensures Demanded(ch, catalogue, v) <==>
      || (exists s, crate :: CrateAsks(ch, s, crate, v))
      || (exists s, c, k: nat, p: nat, product :: RecordAsks(ch, catalogue, s, c, k, p, product, v))
      || (ch.registryTouched && v == catalogue.registryValidation)
  {
    CrateDemandIff(ch, v);
    ProductDemandIff(ch, catalogue, v);
  }

  // ----- What an open gate guarantees

  /** If the gate is open and a chain of dependents leads from a product to what changed, then each
      validation but a hardware one that any record of either revision lists for the product is met
      under both definitions, or advisory in both, or retired and acknowledged. */
  lemma EveryRecordIsValidated(g: Gated, chain: seq<Name>, s: Snapshot, c: Name, k: nat, p: nat, v: Validation)
    requires IsOpen(g) && ChainTo(g.change, chain) && Either(g.change, s) && !IsShared(g.change, chain[0])
    requires Lists(s, c, k, p, chain[0], v)
    requires Defines(g.change.head, v) ==> g.change.head.catalogue.value.validations[v].kind != "hardware"
    ensures if Defines(g.change.head, v) then MetUnderBoth(g, v) || AdvisoryInBoth(g.change, v)
            else v in g.acknowledged
  {
    AffectedIff(g.change, chain[0]);
    assert RecordAsks(g.change, g.change.head.catalogue.value, s, c, k, p, chain[0], v);
    DemandedIff(g.change, g.change.head.catalogue.value, v);
    DemandIsMet(g, v);
  }

  /** Along any chain of gated changes, a validation that a path of the first revision lists is listed
      by a path with the same identifier in the last. */
  lemma RecordsOutliveChains(chain: seq<Gated>, c: Name, k: nat, p: nat, x: Name, v: Validation)
    requires IsChainOfChanges(chain)
    requires forall i :: 0 <= i < |chain| ==> v !in chain[i].acknowledged
    requires Lists(chain[0].change.base, c, k, p, x, v)
    ensures var first, last := chain[0].change.base, chain[|chain| - 1].change.head;
      && last.catalogue.Some? && v in last.catalogue.value.validations
      && exists c', k': nat, p': nat, x' ::
        && Lists(last, c', k', p', x', v)
        && last.registers[c'].consumers[k'].paths[p'].id == first.registers[c].consumers[k].paths[p].id
  {
    ObligationsOutliveChains(chain, v);
    var first, last := chain[0].change.base, chain[|chain| - 1].change.head;
    var id := first.registers[c].consumers[k].paths[p].id;
    assert PathsAsk(first.registers[c].consumers[k].paths, id, v);
    assert RegisterAsks(first.registers[c], id, v);
    assert PathAsks(first, id, v);
    var c' :| c' in last.registers && RegisterAsks(last.registers[c'], id, v);
    var k': nat :| k' < |last.registers[c'].consumers| && PathsAsk(last.registers[c'].consumers[k'].paths, id, v);
    var p': nat :| p' < |last.registers[c'].consumers[k'].paths|
      && last.registers[c'].consumers[k'].paths[p'].id == id
      && v in last.registers[c'].consumers[k'].paths[p'].validation;
    assert Lists(last, c', k', p', last.registers[c'].consumers[k'].package, v);
  }
}
