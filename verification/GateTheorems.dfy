/** What an open gate guarantees, for one change and along whole chains of changes. */
module GateTheorems {
  import opened Wrappers
  import opened ReverseClosure
  import opened ContractGate
  import opened ChangeImpact
  import opened TargetTriples

  datatype Gated = Gated(change: Change, impact: Impact, evidence: Option<seq<Record>>, acknowledged: set<Validation>)

  /** Nothing keeps the gate closed. */
  ghost predicate IsOpen(g: Gated)
  {
    && IsImpact(g.change, g.impact)
    && forall v :: !KeepsGateClosed(g.change, g.impact, g.evidence, g.acknowledged, v)
  }

  // ----- One change

  /** The target a definition asks for: its Rust target if it names one, else its operating system,
      where `any` stands for each of the three and for every triple. */
  ghost predicate RightTarget(d: Definition, target: string)
  {
    if d.rustTarget.Some? && d.rustTarget.value != "" then target == d.rustTarget.value
    else if d.targetOs != "any" then target == d.targetOs
    else target == "linux" || target == "macos" || target == "windows" || NamesTriple(target)
  }

  /** A definition is met by evidence for exactly its revision, target and features: some record
      passed, none failed and none was blocked. */
  ghost predicate Met(d: Definition, v: Validation, revision: string, evidence: seq<Record>)
  {
    && (exists r ::
          r in evidence && r.validation == v && r.revision == revision && r.features == d.features
          && RightTarget(d, r.target) && r.result == Passed)
    && (forall r | r in evidence && r.validation == v && r.revision == revision && r.features == d.features ::
          RightTarget(d, r.target) ==> r.result != Failed && r.result != Blocked)
  }

  lemma TargetMatchesIff(d: Definition, target: string)
    ensures TargetMatches(d, target) <==> RightTarget(d, target)
  {
    TripleIff(target);
  }

  lemma CountsIff(d: Definition, v: Validation, revision: string, r: Record)
    ensures Counts(d, v, revision, r) <==>
      r.validation == v && r.revision == revision && r.features == d.features && RightTarget(d, r.target)
  {
    TargetMatchesIff(d, r.target);
  }

  lemma ShowsIff(d: Definition, v: Validation, revision: string, evidence: seq<Record>, result: Status)
    ensures Shows(d, v, revision, evidence, result) <==> exists r ::
      r in evidence && r.validation == v && r.revision == revision && r.features == d.features
      && RightTarget(d, r.target) && r.result == result
  {
    forall r
      ensures Counts(d, v, revision, r) <==>
        r.validation == v && r.revision == revision && r.features == d.features && RightTarget(d, r.target)
    {
      CountsIff(d, v, revision, r);
    }
  }

  /** A definition has passed exactly if the evidence meets it. */
  lemma PassedIffMet(d: Definition, v: Validation, revision: string, evidence: seq<Record>)
    ensures StatusOf(d, v, revision, evidence) == Passed <==> Met(d, v, revision, evidence)
  {
    ShowsIff(d, v, revision, evidence, Passed);
    ShowsIff(d, v, revision, evidence, Failed);
    ShowsIff(d, v, revision, evidence, Blocked);
  }

  /** Some record for exactly this validation, revision, target and features has this result. */
  ghost predicate Shown(d: Definition, v: Validation, revision: string, evidence: seq<Record>, result: Status)
  {
    exists r ::
      r in evidence && r.validation == v && r.revision == revision && r.features == d.features
      && RightTarget(d, r.target) && r.result == result
  }

  /** A failure outweighs a block, and a block a pass; without any of them it has not run. */
  lemma StatusIff(d: Definition, v: Validation, revision: string, evidence: seq<Record>)
    ensures var status := StatusOf(d, v, revision, evidence);
      && (status == Failed <==> Shown(d, v, revision, evidence, Failed))
      && (status == Blocked <==>
            !Shown(d, v, revision, evidence, Failed) && Shown(d, v, revision, evidence, Blocked))
      && (status == NotRun <==>
            !Shown(d, v, revision, evidence, Failed) && !Shown(d, v, revision, evidence, Blocked)
            && !Shown(d, v, revision, evidence, Passed))
  {
    ShowsIff(d, v, revision, evidence, Passed);
    ShowsIff(d, v, revision, evidence, Failed);
    ShowsIff(d, v, revision, evidence, Blocked);
  }

  function HeadDefinition(ch: Change, v: Validation): Definition
    requires Defines(ch.head, v)
  {
    ch.head.catalogue.value.validations[v]
  }

  function BaseDefinition(ch: Change, v: Validation): Definition
    requires Defines(ch.base, v)
  {
    ch.base.catalogue.value.validations[v]
  }

  /** Met at the head revision under the head's definition and under the base's, where there is one. */
  ghost predicate MetUnderBoth(g: Gated, v: Validation)
    requires Defines(g.change.head, v)
  {
    && g.evidence.Some?
    && Met(HeadDefinition(g.change, v), v, g.change.head.revision, g.evidence.value)
    && (Defines(g.change.base, v) ==>
          Met(BaseDefinition(g.change, v), v, g.change.head.revision, g.evidence.value))
  }

  predicate AdvisoryInBoth(ch: Change, v: Validation)
    requires Defines(ch.head, v)
  {
    !HeadDefinition(ch, v).mandatory && (Defines(ch.base, v) ==> !BaseDefinition(ch, v).mandatory)
  }

  lemma DefinitionsAre(ch: Change, v: Validation, d: Definition)
    requires Defines(ch.head, v)
    ensures d in Definitions(ch.base.catalogue, ch.head.catalogue.value, v) <==>
      d == HeadDefinition(ch, v) || (Defines(ch.base, v) && d == BaseDefinition(ch, v))
  {
    var found := Definitions(ch.base.catalogue, ch.head.catalogue.value, v);
    assert found[0] == HeadDefinition(ch, v);
    if |found| > 1 { assert found == [found[0], found[1]]; } else { assert found == [found[0]]; }
  }

  /** A requirement keeps the gate closed exactly if it is neither met under both definitions nor
      advisory in both. */
  lemma UnmetIff(g: Gated, v: Validation)
    requires Defines(g.change.head, v)
    ensures Unmet(g.change, g.evidence, v) <==> !MetUnderBoth(g, v) && !AdvisoryInBoth(g.change, v)
  {
    var ch := g.change;
    forall d
      ensures d in Definitions(ch.base.catalogue, ch.head.catalogue.value, v) <==>
        d == HeadDefinition(ch, v) || (Defines(ch.base, v) && d == BaseDefinition(ch, v))
    {
      DefinitionsAre(ch, v, d);
    }
    if g.evidence.Some? {
      PassedIffMet(HeadDefinition(ch, v), v, ch.head.revision, g.evidence.value);
      if Defines(ch.base, v) { PassedIffMet(BaseDefinition(ch, v), v, ch.head.revision, g.evidence.value); }
    }
  }

  lemma DemandIsMet(g: Gated, v: Validation)
    requires IsOpen(g) && Demanded(g.change, g.change.head.catalogue.value, v)
    ensures if Defines(g.change.head, v) then MetUnderBoth(g, v) || AdvisoryInBoth(g.change, v)
            else v in g.acknowledged
  {
    assert !KeepsGateClosed(g.change, g.impact, g.evidence, g.acknowledged, v);
    if Defines(g.change.head, v) {
      UnmetIff(g, v);
    } else {
      assert v in g.impact.retired;
    }
  }

  /** The gate is open exactly if every demand the head defines is met or advisory, every demand it
      does not define is acknowledged, and so is everything dropped or weakened. */
  lemma OpenIff(g: Gated)
    requires IsImpact(g.change, g.impact)
    ensures IsOpen(g) <==> forall v ::
      && (Demanded(g.change, g.change.head.catalogue.value, v) ==>
            if Defines(g.change.head, v) then MetUnderBoth(g, v) || AdvisoryInBoth(g.change, v)
            else v in g.acknowledged)
      && (Drops(g.change.base, g.change.head, v) || IsWeakened(g.change.base, g.change.head, v) ==>
            v in g.acknowledged)
  {
    forall v
      ensures KeepsGateClosed(g.change, g.impact, g.evidence, g.acknowledged, v) <==>
        !((Demanded(g.change, g.change.head.catalogue.value, v) ==>
             if Defines(g.change.head, v) then MetUnderBoth(g, v) || AdvisoryInBoth(g.change, v)
             else v in g.acknowledged)
          && (Drops(g.change.base, g.change.head, v) || IsWeakened(g.change.base, g.change.head, v) ==>
                v in g.acknowledged))
    {
      if Defines(g.change.head, v) { UnmetIff(g, v); }
    }
  }

  /** Gate soundness.  If the gate is open, then for every product in the reverse closure of the
      change, each validation but a hardware one on any of its paths, at the base or at the head,
      is met under both definitions, or advisory in both, or retired and acknowledged.  A product
      no counted record of an affected crate names gets no exception for hardware. */
  lemma ProductsAreValidated(g: Gated, product: Name, v: Validation)
    requires IsOpen(g)
    requires product !in Shared(g.change) && Affected(g.change, product)
    requires ProductDemands(g.change.base, product, v) || ProductDemands(g.change.head, product, v)
    requires !IsHardware(g.change.head.catalogue.value, v) || !Covered(g.change, product)
    ensures if Defines(g.change.head, v) then MetUnderBoth(g, v) || AdvisoryInBoth(g.change, v)
            else v in g.acknowledged
  {
    assert EitherProductDemands(g.change, product, v);
    assert DemandedByProducts(g.change, g.change.head.catalogue.value, v);
    DemandIsMet(g, v);
  }

  /** The same for the own validations of every affected shared crate, and for every counted
      consumer path of it, hardware runs included. */
  lemma CratesAreValidated(g: Gated, crate: Name, v: Validation)
    requires IsOpen(g)
    requires crate in Shared(g.change) && Affected(g.change, crate)
    requires CrateDemands(g.change.base, crate, Hits(g.change), v)
          || CrateDemands(g.change.head, crate, Hits(g.change), v)
    ensures if Defines(g.change.head, v) then MetUnderBoth(g, v) || AdvisoryInBoth(g.change, v)
            else v in g.acknowledged
  {
    assert EitherCrateDemands(g.change, crate, v);
    assert DemandedByCrates(g.change, v);
    DemandIsMet(g, v);
  }

  // ----- Chains of changes

  /** The same contract, or a stricter one by being mandatory. */
  predicate AtLeastAsStrict(now: Definition, was: Definition)
  {
    && now.kind == was.kind && now.targetOs == was.targetOs && now.rustTarget == was.rustTarget
    && now.features == was.features && now.command == was.command
    && (was.mandatory ==> now.mandatory)
  }

  lemma WeakensIffNotStrict(was: Definition, now: Definition)
    ensures Weakens(was, now) <==> !AtLeastAsStrict(now, was)
  {
  }

  /** Every obligation `v` stands for in `first` still stands in `last`. */
  ghost predicate Persists(first: Snapshot, last: Snapshot, v: Validation)
  {
    && (OwnAsks(first, v) ==> OwnAsks(last, v) && Defines(last, v))
    && (forall id :: PathAsks(first, id, v) ==> PathAsks(last, id, v) && Defines(last, v))
    && (Defines(first, v) ==>
          Defines(last, v)
          && AtLeastAsStrict(last.catalogue.value.validations[v], first.catalogue.value.validations[v]))
  }

  /** One gated change cannot silently lose or weaken anything. */
  lemma StepPersists(g: Gated, v: Validation)
    requires IsOpen(g) && v !in g.acknowledged
    ensures Persists(g.change.base, g.change.head, v)
  {
    var ch := g.change;
    assert !KeepsGateClosed(ch, g.impact, g.evidence, g.acknowledged, v);
    assert v !in g.impact.retired && v !in g.impact.weakened;
    assert !Drops(ch.base, ch.head, v) && !IsWeakened(ch.base, ch.head, v);
    if Defines(ch.base, v) && Defines(ch.head, v) {
      WeakensIffNotStrict(BaseDefinition(ch, v), HeadDefinition(ch, v));
    }
  }

  /** And losing or weakening keeps the gate closed whatever the evidence. */
  lemma LossKeepsGateClosed(g: Gated, v: Validation)
    requires IsImpact(g.change, g.impact) && v !in g.acknowledged
    requires !Persists(g.change.base, g.change.head, v)
    ensures KeepsGateClosed(g.change, g.impact, g.evidence, g.acknowledged, v)
  {
    var ch := g.change;
    if Defines(ch.base, v) && Defines(ch.head, v) {
      WeakensIffNotStrict(BaseDefinition(ch, v), HeadDefinition(ch, v));
    }
    assert v in g.impact.retired || v in g.impact.weakened;
  }

  /** What is reported as dropped or weakened is exactly what does not persist, and every path
      without an identifier, which nothing at the head can stand for. */
  lemma ReportedIff(base: Snapshot, head: Snapshot, v: Validation)
    ensures Drops(base, head, v) || IsWeakened(base, head, v) <==>
      !Persists(base, head, v) || PathAsks(base, None, v)
  {
    if Defines(base, v) && Defines(head, v) {
      WeakensIffNotStrict(base.catalogue.value.validations[v], head.catalogue.value.validations[v]);
    }
  }

  /** Consecutive gated changes: each starts from the revision the one before ended at. */
  ghost predicate IsChainOfChanges(chain: seq<Gated>)
  {
    && chain != []
    && (forall i :: 0 <= i < |chain| ==> IsOpen(chain[i]))
    && (forall i :: 0 <= i < |chain| - 1 ==> chain[i].change.head == chain[i + 1].change.base)
  }

  lemma PersistsIsTransitive(a: Snapshot, b: Snapshot, c: Snapshot, v: Validation)
    requires Persists(a, b, v) && Persists(b, c, v)
    ensures Persists(a, c, v)
  {
  }

  /** Along any chain of changes that each pass the gate, every obligation of the first revision
      whose validation no owner acknowledged dropping is still there in the last: under the same
      path ID, as an own validation, in the catalogue, with kind, target, features and command
      unchanged and never demoted from mandatory. */
  lemma {:induction false} ObligationsOutliveChains(chain: seq<Gated>, v: Validation)
    requires IsChainOfChanges(chain)
    requires forall i :: 0 <= i < |chain| ==> v !in chain[i].acknowledged
    ensures Persists(chain[0].change.base, chain[|chain| - 1].change.head, v)
    decreases |chain|
  {
    StepPersists(chain[0], v);
    if |chain| > 1 {
      var rest := chain[1..];
      assert forall i :: 0 <= i < |rest| ==> rest[i] == chain[i + 1];
      ObligationsOutliveChains(rest, v);
      PersistsIsTransitive(chain[0].change.base, chain[0].change.head, chain[|chain| - 1].change.head, v);
    }
  }
}
