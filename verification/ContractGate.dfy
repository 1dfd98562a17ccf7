/**
 The change-impact gate over shared contracts: which validations a change must pass, and which
 obligations it may not silently drop.

 A snapshot is the dependency graph, the consumer registers and the validation catalogue of one
 revision, taken as given.  Reasons and report texts are not modelled: the sets of validation
 identifiers they are attached to are.
 */
module ContractGate {
  import opened Wrappers
  import opened ReverseClosure

  type Validation = string

  datatype Path = Path(id: Option<string>, validation: seq<Validation>)

  datatype Consumer = Consumer(package: Name, kind: string, via: seq<Name>, includes: seq<string>, paths: seq<Path>)

  datatype Register = Register(validation: seq<Validation>, consumers: seq<Consumer>)

  /** A resolved definition with the keys that make up its contract.  Feature lists are compared
      sorted, so they are multisets. */
  datatype Definition = Definition(
    kind: string, targetOs: string, rustTarget: Option<string>, features: multiset<string>,
    mandatory: bool, command: Option<seq<string>>)

  datatype Catalogue = Catalogue(validations: map<Validation, Definition>, registryValidation: Validation)

  datatype Snapshot = Snapshot(
    revision: string, shared: set<Name>, cargoEdges: Edges, registers: map<Name, Register>,
    catalogue: Option<Catalogue>)

  // ----- What registers ask for

  predicate PathsAsk(paths: seq<Path>, id: Option<string>, v: Validation)
  {
    exists p :: 0 <= p < |paths| && paths[p].id == id && v in paths[p].validation
  }

  predicate RegisterAsks(r: Register, id: Option<string>, v: Validation)
  {
    exists k :: 0 <= k < |r.consumers| && PathsAsk(r.consumers[k].paths, id, v)
  }

  /** Some path record with this path ID requires `v`. */
  predicate PathAsks(s: Snapshot, id: Option<string>, v: Validation)
  {
    exists c :: c in s.registers && RegisterAsks(s.registers[c], id, v)
  }

  /** Some register lists `v` as its crate's own validation. */
  predicate OwnAsks(s: Snapshot, v: Validation)
  {
    exists c :: c in s.registers && v in s.registers[c].validation
  }

  predicate Defines(s: Snapshot, v: Validation) { s.catalogue.Some? && v in s.catalogue.value.validations }

  // ----- Dropped and weakened obligations

  /** The obligations `v` stands for at the base, of which the head has lost one. */
  ghost predicate Drops(base: Snapshot, head: Snapshot, v: Validation)
  {
    || (OwnAsks(base, v) && !(Defines(head, v) && OwnAsks(head, v)))
    || (exists id :: PathAsks(base, id, v) && !(Defines(head, v) && id.Some? && PathAsks(head, id, v)))
    || (Defines(base, v) && !Defines(head, v))
  }

  /** A definition that changed in any way but by becoming mandatory. */
  predicate Weakens(was: Definition, now: Definition)
  {
    || was.(mandatory := true) != now.(mandatory := true)
    || (was.mandatory != now.mandatory && !now.mandatory)
  }

  predicate IsWeakened(base: Snapshot, head: Snapshot, v: Validation)
  {
    Defines(base, v) && Defines(head, v)
    && Weakens(base.catalogue.value.validations[v], head.catalogue.value.validations[v])
  }

  // ----- Evidence

  datatype Status = Passed | Failed | Blocked | NotRun

  datatype Record = Record(
    validation: Validation, revision: string, target: string, features: multiset<string>, result: Status)

  predicate WordChar(c: char) { 'a' <= c <= 'z' || '0' <= c <= '9' || c == '_' }

  /** Words joined by dashes: how many, or 0 if the text is not of that form. */
  function Words(text: string, inWord: bool): nat
  {
    if text == "" then if inWord then 1 else 0
    else if WordChar(text[0]) then Words(text[1..], true)
    else if text[0] == '-' && inWord && Words(text[1..], false) > 0 then 1 + Words(text[1..], false)
    else 0
  }

  /** A target triple: three or four words; the pattern's end also matches before a final newline. */
  predicate IsTriple(text: string)
  {
    var t := if text != "" && text[|text| - 1] == '\n' then text[..|text| - 1] else text;
    3 <= Words(t, false) <= 4
  }

  predicate TargetMatches(d: Definition, target: string)
  {
    if d.rustTarget.Some? && d.rustTarget.value != "" then target == d.rustTarget.value
    else if d.targetOs == "any" then target in {"linux", "macos", "windows"} || IsTriple(target)
    else target == d.targetOs
  }

  /** Evidence counts for exactly this revision, target and feature set. */
  predicate Counts(d: Definition, v: Validation, revision: string, r: Record)
  {
    r.validation == v && r.revision == revision && TargetMatches(d, r.target) && r.features == d.features
  }

  predicate Shows(d: Definition, v: Validation, revision: string, evidence: seq<Record>, result: Status)
  {
    exists i :: 0 <= i < |evidence| && Counts(d, v, revision, evidence[i]) && evidence[i].result == result
  }

  function StatusOf(d: Definition, v: Validation, revision: string, evidence: seq<Record>): Status
  {
    if Shows(d, v, revision, evidence, Failed) then Failed
    else if Shows(d, v, revision, evidence, Blocked) then Blocked
    else if Shows(d, v, revision, evidence, Passed) then Passed
    else NotRun
  }

  /** The worst result of the records for exactly this validation, revision, target and feature set. */
  method DefinitionStatus(d: Definition, v: Validation, revision: string, evidence: seq<Record>)
    returns (status: Status)
    ensures status == StatusOf(d, v, revision, evidence)
    ensures status == Passed ==> exists r ::
      r in evidence && r.validation == v && r.revision == revision && r.features == d.features && r.result == Passed
    ensures status == Failed ==> exists r ::
      r in evidence && r.validation == v && r.revision == revision && r.features == d.features && r.result == Failed
  {
    var usable: seq<Status> := [];
    for i := 0 to |evidence|
      invariant forall result :: result in usable <==> Shows(d, v, revision, evidence[..i], result)
    {
      var r := evidence[i];
      assert evidence[..i + 1] == evidence[..i] + [r];
      ShowsStep(d, v, revision, evidence, i);
      if r.validation != v { continue; }
      if r.revision != revision { continue; }
      if !TargetMatches(d, r.target) { continue; }
      if r.features != d.features { continue; }
      usable := usable + [r.result];
    }
    assert evidence[..|evidence|] == evidence;
    if Failed in usable { return Failed; }
    if Blocked in usable { return Blocked; }
    if Passed in usable { return Passed; }
    return NotRun;
  }

  lemma ShowsStep(d: Definition, v: Validation, revision: string, evidence: seq<Record>, i: nat)
    requires i < |evidence|
    ensures forall result :: Shows(d, v, revision, evidence[..i + 1], result) <==>
      Shows(d, v, revision, evidence[..i], result) ||
      (Counts(d, v, revision, evidence[i]) && evidence[i].result == result)
  {
    forall result
      ensures Shows(d, v, revision, evidence[..i + 1], result) <==>
        Shows(d, v, revision, evidence[..i], result) ||
        (Counts(d, v, revision, evidence[i]) && evidence[i].result == result)
    {
      if Shows(d, v, revision, evidence[..i], result) {
        var j :| 0 <= j < i && Counts(d, v, revision, evidence[..i][j]) && evidence[..i][j].result == result;
        assert evidence[..i + 1][j] == evidence[..i][j];
      }
      if Counts(d, v, revision, evidence[i]) && evidence[i].result == result {
        assert evidence[..i + 1][i] == evidence[i];
      }
      if Shows(d, v, revision, evidence[..i + 1], result) {
        var j :| 0 <= j < i + 1
          && Counts(d, v, revision, evidence[..i + 1][j]) && evidence[..i + 1][j].result == result;
        assert j < i ==> evidence[..i][j] == evidence[..i + 1][j];
      }
    }
  }

  /** The head definition, and the base one where it differs: both must hold. */
  function Definitions(base: Option<Catalogue>, head: Catalogue, v: Validation): seq<Definition>
    requires v in head.validations
  {
    var now := head.validations[v];
    if base.Some? && v in base.value.validations && base.value.validations[v] != now
    then [now, base.value.validations[v]] else [now]
  }

  datatype Evaluation = Evaluation(mandatory: bool, status: Status)

  predicate AnyStatus(results: seq<Status>, status: Status) { exists i :: 0 <= i < |results| && results[i] == status }

  ghost predicate SomeDefinitionIs(base: Option<Catalogue>, head: Catalogue, revision: string, v: Validation,
                                   evidence: seq<Record>, status: Status)
    requires v in head.validations
  {
    exists d :: d in Definitions(base, head, v) && StatusOf(d, v, revision, evidence) == status
  }

  /** Mandatory if either definition says so, passed only if every definition is met, and otherwise
      the worst that either shows. */
  method Evaluate(base: Option<Catalogue>, head: Catalogue, revision: string, v: Validation,
                  evidence: Option<seq<Record>>)
    returns (e: Evaluation)
    requires v in head.validations
    ensures e.mandatory <==> exists d :: d in Definitions(base, head, v) && d.mandatory
    ensures e.status == Passed <==>
      (evidence.Some? &&
       forall d :: d in Definitions(base, head, v) ==> StatusOf(d, v, revision, evidence.value) == Passed)
    ensures e.status == Failed <==>
      evidence.Some? && SomeDefinitionIs(base, head, revision, v, evidence.value, Failed)
    ensures e.status == Blocked <==>
      evidence.Some? && SomeDefinitionIs(base, head, revision, v, evidence.value, Blocked)
      && !SomeDefinitionIs(base, head, revision, v, evidence.value, Failed)
  {
    var found := Definitions(base, head, v);
    var mandatory := found[0].mandatory || (|found| > 1 && found[1].mandatory);
    if evidence.None? { return Evaluation(mandatory, NotRun); }
    var results: seq<Status> := [];
    for i := 0 to |found|
      invariant |results| == i
      invariant forall j :: 0 <= j < i ==> results[j] == StatusOf(found[j], v, revision, evidence.value)
    {
      var status := DefinitionStatus(found[i], v, revision, evidence.value);
      results := results + [status];
    }
    assert forall d :: d in found <==> d == found[0] || (|found| > 1 && d == found[1]);
    var status :=
      if AnyStatus(results, Failed) then Failed
      else if AnyStatus(results, Blocked) then Blocked
      else if AnyStatus(results, NotRun) then NotRun
      else Passed;
    assert results[0] == StatusOf(found[0], v, revision, evidence.value);
    assert |found| > 1 ==> results[1] == StatusOf(found[1], v, revision, evidence.value);
    return Evaluation(mandatory, status);
  }
}
