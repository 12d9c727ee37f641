/** The list and map logic of `PathwaysDataPackage` (premise/pathways.py):
    scenario × year expansion, the active-variable list, `find_activities`,
    the first-writer-wins assignment of IAM variables to canonical variables,
    the "MODEL - pathway" scenario label and its split, and the descriptor
    and contributor rules of the exported data package. File output, xarray
    and the datapackage library are not modelled; their inputs and outputs
    are the parameters and results here. */
module Pathways {
  import opened Wrappers
  import opened Strings
  import opened Seqs
  import opened Inventory
  import opened ActivityMaps

  // ---------------------------------------------------------------------------
  // Scenario expansion

  /** A scenario entry: its IAM model, its pathway and, once expanded, its year. */
  datatype Scenario = Scenario(model: string, pathway: string, year: Option<int>)

  /** Copies of every scenario with `year` set to `y`. */
  function WithYear(scenarios: seq<Scenario>, y: int): (r: seq<Scenario>)
    ensures |r| == |scenarios|
    ensures forall j :: 0 <= j < |r| ==> r[j] == scenarios[j].(year := Some(y))
  {
    seq(|scenarios|, j requires 0 <= j < |scenarios| => scenarios[j].(year := Some(y)))
  }

  /** The `for year in years: for scenario in scenarios` loop of the
      constructor: year-major, one copy per (year, scenario) pair. */
  function ExpandScenarios(scenarios: seq<Scenario>, years: seq<int>): (r: seq<Scenario>)
    ensures |r| == |years| * |scenarios|
    ensures |scenarios| == 0 ==> r == []
    ensures forall k :: 0 <= k < |r| ==> r[k].year.Some? && r[k].year.value in years
    decreases |years|
  {
    if |years| == 0 then []
    else
      var rest := ExpandScenarios(scenarios, years[1..]);
      MulSucc(|years| - 1, |scenarios|);
      WithYear(scenarios, years[0]) + rest
  }

  lemma MulSucc(a: nat, n: nat)
    ensures (a + 1) * n == n + a * n
  {
  }

  /** Entry `i * |scenarios| + j` of the expansion is scenario `j` in year `i`. */
  lemma {:induction false} ExpandedAt(scenarios: seq<Scenario>, years: seq<int>, i: nat, j: nat)
    requires i < |years| && j < |scenarios|
    ensures i * |scenarios| + j < |ExpandScenarios(scenarios, years)|
    ensures ExpandScenarios(scenarios, years)[i * |scenarios| + j] == scenarios[j].(year := Some(years[i]))
    decreases i
  {
    var n := |scenarios|;
    var head := WithYear(scenarios, years[0]);
    var rest := ExpandScenarios(scenarios, years[1..]);
    assert ExpandScenarios(scenarios, years) == head + rest;
    if i > 0 {
      ExpandedAt(scenarios, years[1..], i - 1, j);
      MulSucc(i - 1, n);
      assert (head + rest)[i * n + j] == rest[(i - 1) * n + j];
    } else {
      MulSucc(|years| - 1, n);
      assert |years| * n >= n by { MulMono(|years|, 1, n); }
    }
  }

  lemma MulMono(a: nat, b: nat, n: nat)
    requires b <= a
    ensures b * n <= a * n
  {
  }

  lemma DivBound(k: nat, n: nat, a: nat) returns (i: nat, j: nat)
    requires k < a * n
    ensures i < a && j < n && k == i * n + j
  {
    i, j := k / n, k % n;
  }

  /** Every expanded entry is a copy of the scenario and year its position
      names; in particular no entry has any other model or pathway. */
  lemma ExpandedEntry(scenarios: seq<Scenario>, years: seq<int>, k: nat)
    requires k < |ExpandScenarios(scenarios, years)|
    ensures exists i, j :: 0 <= i < |years| && 0 <= j < |scenarios| && k == i * |scenarios| + j &&
              ExpandScenarios(scenarios, years)[k] == scenarios[j].(year := Some(years[i]))
  {
    var i, j := DivBound(k, |scenarios|, |years|);
    ExpandedAt(scenarios, years, i, j);
  }

  /** `[s["model"] for s in self.scenarios]` */
  function ScenarioModels(scenarios: seq<Scenario>): (r: seq<string>)
    ensures |r| == |scenarios|
    ensures forall m :: m in r <==> exists j :: 0 <= j < |scenarios| && scenarios[j].model == m
  {
    var r := seq(|scenarios|, j requires 0 <= j < |scenarios| => scenarios[j].model);
    assert forall j :: 0 <= j < |scenarios| ==> r[j] == scenarios[j].model;
    r
  }

  // ---------------------------------------------------------------------------
  // Active variables

  /** A variable name kept for mapping: it does not mention "efficiency" or
      "emission" in any letter case. */
  predicate IsActive(v: string) {
    !Contains(Lower(v), "efficiency") && !Contains(Lower(v), "emission")
  }

  function Flatten(xss: seq<seq<string>>): (r: seq<string>)
    ensures forall x :: x in r <==> exists s :: 0 <= s < |xss| && x in xss[s]
    decreases |xss|
  {
    if |xss| == 0 then []
    else
      var rest := Flatten(xss[1..]);
      assert forall s :: 0 < s < |xss| ==> xss[s] == xss[1..][s - 1];
      xss[0] + rest
  }

  /** Variable `v` is reported by some scenario. */
  ghost predicate Reported(scenarioVariables: seq<seq<string>>, v: string) {
    exists s :: 0 <= s < |scenarioVariables| && v in scenarioVariables[s]
  }

  /** The `vars` list of `add_variables_mapping`: the variables of every
      scenario, without efficiency or emission variables, without repetitions. */
  function ActiveVariables(scenarioVariables: seq<seq<string>>): (r: seq<string>)
    ensures NoDuplicates(r)
    ensures forall i :: 0 <= i < |r| ==> IsActive(r[i])
    ensures forall v :: v in r <==> IsActive(v) && Reported(scenarioVariables, v)
  {
    var filtered := seq(|scenarioVariables|, s requires 0 <= s < |scenarioVariables| => Filter(scenarioVariables[s], IsActive));
    var r := Dedupe(Flatten(filtered));
    forall v ensures v in r <==> IsActive(v) && Reported(scenarioVariables, v) {
      if v in r {
        var s :| 0 <= s < |filtered| && v in filtered[s];
        var k :| 0 <= k < |filtered[s]| && filtered[s][k] == v;
      }
      if IsActive(v) && Reported(scenarioVariables, v) {
        var s :| 0 <= s < |scenarioVariables| && v in scenarioVariables[s];
        var k :| 0 <= k < |scenarioVariables[s]| && scenarioVariables[s][k] == v;
        assert 0 <= s < |filtered| && v in filtered[s];
        assert v in Flatten(filtered);
      }
    }
    r
  }

  // ---------------------------------------------------------------------------
  // find_activities

  /** The (name, reference product, unit) entry a matched dataset contributes. */
  datatype Triple = Triple(name: string, referenceProduct: string, unit: string)

  const REFERENCE_PRODUCT: string := "reference product"
  const UNIT: string := "unit"

  predicate HasTripleFields(r: Record) {
    NAME in r && REFERENCE_PRODUCT in r && UNIT in r
  }

  /** The dictionary comprehension of `find_activities`: one triple per record,
      in order; a record lacking one of the three fields raises. */
  function Project(acts: seq<Record>): (r: Result<seq<Triple>>)
    ensures r.Success? <==> forall i :: 0 <= i < |acts| ==> HasTripleFields(acts[i])
    ensures r.Failure? ==> r.error == KeyError
    ensures r.Success? ==> |r.value| == |acts| && forall i :: 0 <= i < |acts| ==>
              r.value[i] == Triple(acts[i][NAME], acts[i][REFERENCE_PRODUCT], acts[i][UNIT])
    decreases |acts|
  {
    if |acts| == 0 then Success([])
    else if !HasTripleFields(acts[0]) then Failure(KeyError)
    else
      assert forall i :: 0 < i < |acts| ==> acts[i] == acts[1..][i - 1];
      var rest :- Project(acts[1..]);
      Success([Triple(acts[0][NAME], acts[0][REFERENCE_PRODUCT], acts[0][UNIT])] + rest)
  }

  /** `find_activities(filters, mask, database)`: one triple per record the
      activity filter selects, in the filter's order. */
  function FindActivities(fltr: Spec, mask: Spec, db: seq<Record>): (r: Result<seq<Triple>>)
    ensures r.Success? ==> ActFltr(db, fltr, mask, false, false).Success?
    ensures r.Success? ==>
              var acts := ActFltr(db, fltr, mask, false, false).value;
              |r.value| == |acts| &&
              forall i :: 0 <= i < |acts| ==>
                Matches(acts[i], Normalize(fltr), Normalize(mask)) && HasTripleFields(acts[i]) &&
                r.value[i] == Triple(acts[i][NAME], acts[i][REFERENCE_PRODUCT], acts[i][UNIT])
    ensures ActFltr(db, fltr, mask, false, false).Failure? ==> r == Failure(ActFltr(db, fltr, mask, false, false).error)
    ensures ActFltr(db, fltr, mask, false, false).Success? ==>
              var acts := ActFltr(db, fltr, mask, false, false).value;
              (r.Success? <==> forall i :: 0 <= i < |acts| ==> HasTripleFields(acts[i])) &&
              (r.Failure? ==> r.error == KeyError)
  {
    var acts :- ActFltr(db, fltr, mask, false, false);
    Project(acts)
  }

  // ---------------------------------------------------------------------------
  // The variable reconciler of add_variables_mapping

  /** The `ecoinvent_aliases` of a mapping entry; a missing `fltr` or `mask`
      key reads as `None`. */
  datatype EcoinventAliases = EcoinventAliases(fltr: Spec, mask: Spec)

  /** One canonical variable of a mapping file: its IAM aliases (model →
      model variable, in file order) and its inventory aliases, either of
      which may be missing. */
  datatype AliasEntry = AliasEntry(iamAliases: Option<Dict<string>>, ecoinventAliases: Option<EcoinventAliases>)

  /** `mapping[var]`: the model variable that claimed it and its datasets. */
  datatype Claim = Claim(scenarioVariable: string, dataset: seq<Triple>)

  /** The loop state: `mapping` and the `model_variables` claimed so far. */
  datatype Reconciler = Reconciler(mapping: Dict<Claim>, claimed: seq<string>)

  /** Entry `e` of the mapping files makes `model` → `mv` a claim on `key`. */
  ghost predicate Aliased(entries: Dict<AliasEntry>, e: int, m: int, key: string, mv: string, models: seq<string>) {
    0 <= e < |entries| && entries[e].0 == key &&
    entries[e].1.iamAliases.Some? && entries[e].1.ecoinventAliases.Some? &&
    0 <= m < |entries[e].1.iamAliases.value| && entries[e].1.iamAliases.value[m].1 == mv &&
    entries[e].1.iamAliases.value[m].0 in models
  }

  /** Alias `m` of entry `e` is one the loop claims while it is still free:
      the entry has both alias kinds and the alias names an active model
      variable of one of the scenarios' models. */
  predicate Qualifying(entries: Dict<AliasEntry>, e: int, m: int, active: seq<string>, models: seq<string>) {
    0 <= e < |entries| && entries[e].1.iamAliases.Some? && entries[e].1.ecoinventAliases.Some? &&
    0 <= m < |entries[e].1.iamAliases.value| &&
    entries[e].1.iamAliases.value[m].1 in active && entries[e].1.iamAliases.value[m].0 in models
  }

  /** The model variable that alias `m` of entry `e` names. */
  function AliasVar(entries: Dict<AliasEntry>, e: int, m: int): string
    requires 0 <= e < |entries| && entries[e].1.iamAliases.Some? && 0 <= m < |entries[e].1.iamAliases.value|
  {
    entries[e].1.iamAliases.value[m].1
  }

  /** `find_activities` on the inventory aliases of entry `e`. */
  function Found(entries: Dict<AliasEntry>, e: int, db: seq<Record>): Result<seq<Triple>>
    requires 0 <= e < |entries| && entries[e].1.ecoinventAliases.Some?
  {
    FindActivities(entries[e].1.ecoinventAliases.value.fltr, entries[e].1.ecoinventAliases.value.mask, db)
  }

  /** Alias `m` of entry `e` is the first qualifying alias of its model
      variable among the entries from `from` on, and that variable was not
      claimed before them: the loop claims it for the entry's variable. */
  ghost predicate FirstClaim(entries: Dict<AliasEntry>, from: int, e: int, m: int,
                       active: seq<string>, models: seq<string>, claimed: seq<string>) {
    Qualifying(entries, e, m, active, models) && AliasVar(entries, e, m) !in claimed &&
    forall e', m' :: from <= e' < e && Qualifying(entries, e', m', active, models) ==>
      AliasVar(entries, e', m') != AliasVar(entries, e, m)
  }

  /** `after` holds exactly the claims of `before` and the model variables of
      the qualifying aliases of entry `e` from position `m` on. */
  ghost predicate ClaimsOfEntry(entries: Dict<AliasEntry>, e: int, m: int, active: seq<string>, models: seq<string>,
                                before: seq<string>, after: seq<string>) {
    forall mv :: mv in after <==>
      mv in before || exists j :: m <= j && Qualifying(entries, e, j, active, models) && AliasVar(entries, e, j) == mv
  }

  /** `after` holds exactly the claims of `before` and the model variables of
      the qualifying aliases of the entries from `from` on. */
  ghost predicate ClaimsOfEntries(entries: Dict<AliasEntry>, from: int, active: seq<string>, models: seq<string>,
                                  before: seq<string>, after: seq<string>) {
    forall mv :: mv in after <==>
      mv in before || exists e, j :: from <= e && Qualifying(entries, e, j, active, models) && AliasVar(entries, e, j) == mv
  }

  /** Every mapped variable holds a model variable that an entry with both
      alias kinds names for one of the scenarios' models, and the datasets
      `find_activities` returned for that entry. */
  ghost predicate Justified(mapping: Dict<Claim>, entries: Dict<AliasEntry>, models: seq<string>, db: seq<Record>) {
    forall i :: 0 <= i < |mapping| ==> HasSource(entries, mapping[i].0, mapping[i].1, models, db)
  }

  /** Some entry makes `c.scenarioVariable` a claim on `key` and finds `c.dataset`. */
  ghost predicate HasSource(entries: Dict<AliasEntry>, key: string, c: Claim, models: seq<string>, db: seq<Record>) {
    exists e, m :: Aliased(entries, e, m, key, c.scenarioVariable, models) && Found(entries, e, db) == Success(c.dataset)
  }

  /** No two mapped variables hold the same model variable. */
  ghost predicate DistinctVariables(mapping: Dict<Claim>) {
    forall i, j :: 0 <= i < j < |mapping| ==> mapping[i].1.scenarioVariable != mapping[j].1.scenarioVariable
  }

  /** What the loop maintains: claims are unique and active, each mapped
      variable holds a distinct claimed model variable, and every mapping is
      justified by an entry. */
  ghost predicate Consistent(st: Reconciler, entries: Dict<AliasEntry>, active: seq<string>, models: seq<string>, db: seq<Record>) {
    NoDuplicates(st.claimed) && DistinctKeys(st.mapping) && DistinctVariables(st.mapping) &&
    (forall k :: 0 <= k < |st.claimed| ==> st.claimed[k] in active) &&
    (forall i :: 0 <= i < |st.mapping| ==> st.mapping[i].1.scenarioVariable in st.claimed) &&
    Justified(st.mapping, entries, models, db)
  }

  /** Adding the claim of a fresh, justified model variable keeps the state
      consistent. */
  lemma ClaimKeepsConsistent(st: Reconciler, entries: Dict<AliasEntry>, active: seq<string>, models: seq<string>,
                             db: seq<Record>, key: string, mv: string, ds: seq<Triple>, e: int, m: int)
    requires Consistent(st, entries, active, models, db)
    requires mv in active && mv !in st.claimed
    requires Aliased(entries, e, m, key, mv, models) && Found(entries, e, db) == Success(ds)
    ensures Consistent(Reconciler(Put(st.mapping, key, Claim(mv, ds)), st.claimed + [mv]), entries, active, models, db)
  {
    var c := Claim(mv, ds);
    var mapping, claimed := Put(st.mapping, key, c), st.claimed + [mv];
    assert NoDuplicates(claimed) by {
      forall i, j | 0 <= i < j < |claimed| ensures claimed[i] != claimed[j] {
        if j == |st.claimed| {
          assert claimed[i] == st.claimed[i];
        } else {
          assert claimed[i] == st.claimed[i] && claimed[j] == st.claimed[j];
        }
      }
    }
    assert forall k :: 0 <= k < |claimed| ==> claimed[k] in active by {
      forall k | 0 <= k < |claimed| ensures claimed[k] in active {
        if k < |st.claimed| {
          assert claimed[k] == st.claimed[k];
        }
      }
    }
    assert forall i :: 0 <= i < |mapping| ==> mapping[i].1.scenarioVariable in claimed by {
      forall i | 0 <= i < |mapping| ensures mapping[i].1.scenarioVariable in claimed {
        if mapping[i] != (key, c) {
          assert mapping[i] == st.mapping[i];
        }
      }
    }
    assert DistinctVariables(mapping) by {
      forall i, j | 0 <= i < j < |mapping|
        ensures mapping[i].1.scenarioVariable != mapping[j].1.scenarioVariable
      {
        assert mapping[i].0 != mapping[j].0;
        if mapping[i] != (key, c) {
          assert mapping[i] == st.mapping[i];
        }
        if mapping[j] != (key, c) {
          assert mapping[j] == st.mapping[j];
        }
      }
    }
    forall i | 0 <= i < |mapping|
      ensures HasSource(entries, mapping[i].0, mapping[i].1, models, db)
    {
      if mapping[i] == (key, c) {
        assert Aliased(entries, e, m, mapping[i].0, mapping[i].1.scenarioVariable, models);
      } else {
        assert mapping[i] == st.mapping[i];
      }
    }
  }

  /** One `model, model_var` pair of entry `e`: a qualifying alias whose model
      variable is still free is claimed for the entry's variable, with the
      datasets `find_activities` returns for the entry (its error propagates);
      any other pair changes nothing. */
  function ClaimModelVariable(st: Reconciler, entries: Dict<AliasEntry>, e: nat, m: nat,
                              active: seq<string>, models: seq<string>, db: seq<Record>): (r: Result<Reconciler>)
    requires e < |entries| && entries[e].1.iamAliases.Some? && entries[e].1.ecoinventAliases.Some?
    requires m < |entries[e].1.iamAliases.value|
    ensures !Qualifying(entries, e, m, active, models) || AliasVar(entries, e, m) in st.claimed ==> r == Success(st)
    ensures Qualifying(entries, e, m, active, models) && AliasVar(entries, e, m) !in st.claimed ==>
              (r.Success? <==> Found(entries, e, db).Success?) &&
              (r.Failure? ==> Found(entries, e, db) == Failure(r.error)) &&
              (r.Success? ==> r.value == Reconciler(Put(st.mapping, entries[e].0, Claim(AliasVar(entries, e, m), Found(entries, e, db).value)),
                                                    st.claimed + [AliasVar(entries, e, m)]))
    ensures r.Success? ==> IsPrefix(st.claimed, r.value.claimed)
  {
    var (model, mv) := entries[e].1.iamAliases.value[m];
    if mv in active && model in models && mv !in st.claimed then
      var eco := entries[e].1.ecoinventAliases.value;
      var ds :- FindActivities(eco.fltr, eco.mask, db);
      Success(Reconciler(Put(st.mapping, entries[e].0, Claim(mv, ds)), st.claimed + [mv]))
    else
      Success(st)
  }

  lemma ClaimModelVariableConsistent(st: Reconciler, entries: Dict<AliasEntry>, e: nat, m: nat,
                                     active: seq<string>, models: seq<string>, db: seq<Record>)
    requires e < |entries| && entries[e].1.iamAliases.Some? && entries[e].1.ecoinventAliases.Some?
    requires m < |entries[e].1.iamAliases.value|
    requires Consistent(st, entries, active, models, db)
    requires ClaimModelVariable(st, entries, e, m, active, models, db).Success?
    ensures Consistent(ClaimModelVariable(st, entries, e, m, active, models, db).value, entries, active, models, db)
  {
    if Qualifying(entries, e, m, active, models) && AliasVar(entries, e, m) !in st.claimed {
      var mv := AliasVar(entries, e, m);
      assert Aliased(entries, e, m, entries[e].0, mv, models);
      ClaimKeepsConsistent(st, entries, active, models, db, entries[e].0, mv, Found(entries, e, db).value, e, m);
    }
  }

  /** `for model, model_var in val["iam_aliases"].items()`, from position `m`:
      the claims grow by exactly the qualifying model variables of the entry;
      the mapping gains at most the entry's variable, and gains it when one of
      them was still free; the pass fails only with the entry's
      `find_activities` error. */
  function ClaimEntryFrom(st: Reconciler, entries: Dict<AliasEntry>, e: nat, m: nat,
                          active: seq<string>, models: seq<string>, db: seq<Record>): (r: Result<Reconciler>)
    requires e < |entries| && entries[e].1.iamAliases.Some? && entries[e].1.ecoinventAliases.Some?
    requires m <= |entries[e].1.iamAliases.value|
    ensures r.Success? ==> IsPrefix(st.claimed, r.value.claimed)
    ensures r.Success? ==> ClaimsOfEntry(entries, e, m, active, models, st.claimed, r.value.claimed)
    ensures r.Success? ==> forall k :: k in KeysOf(r.value.mapping) <==>
              k in KeysOf(st.mapping) ||
              (k == entries[e].0 &&
               exists j :: m <= j && Qualifying(entries, e, j, active, models) && AliasVar(entries, e, j) !in st.claimed)
    ensures Found(entries, e, db).Success? ==> r.Success?
    ensures r.Failure? ==> (Found(entries, e, db) == Failure(r.error) &&
              exists j :: m <= j && Qualifying(entries, e, j, active, models) && AliasVar(entries, e, j) !in st.claimed)
    decreases |entries[e].1.iamAliases.value| - m
  {
    if m == |entries[e].1.iamAliases.value| then Success(st)
    else
      var st1 := ClaimModelVariable(st, entries, e, m, active, models, db);
      if st1.Failure? then Failure(st1.error)
      else
        var r := ClaimEntryFrom(st1.value, entries, e, m + 1, active, models, db);
        ClaimEntryStep(st, st1.value, r, entries, e, m, active, models, db);
        r
  }

  /** The step of `ClaimEntryFrom`: the contract for position `m + 1` from the
      state after alias `m`, gives the contract for position `m`. */
  lemma ClaimEntryStep(st: Reconciler, st1: Reconciler, r: Result<Reconciler>, entries: Dict<AliasEntry>, e: nat, m: nat,
                       active: seq<string>, models: seq<string>, db: seq<Record>)
    requires e < |entries| && entries[e].1.iamAliases.Some? && entries[e].1.ecoinventAliases.Some?
    requires m < |entries[e].1.iamAliases.value|
    requires ClaimModelVariable(st, entries, e, m, active, models, db) == Success(st1)
    requires r.Success? ==> IsPrefix(st1.claimed, r.value.claimed)
    requires r.Success? ==> ClaimsOfEntry(entries, e, m + 1, active, models, st1.claimed, r.value.claimed)
    requires r.Success? ==> forall k :: k in KeysOf(r.value.mapping) <==>
               k in KeysOf(st1.mapping) ||
               (k == entries[e].0 &&
                exists j :: m + 1 <= j && Qualifying(entries, e, j, active, models) && AliasVar(entries, e, j) !in st1.claimed)
    requires Found(entries, e, db).Success? ==> r.Success?
    requires r.Failure? ==> (Found(entries, e, db) == Failure(r.error) &&
               exists j :: m + 1 <= j && Qualifying(entries, e, j, active, models) && AliasVar(entries, e, j) !in st1.claimed)
    ensures r.Success? ==> IsPrefix(st.claimed, r.value.claimed)
    ensures r.Success? ==> ClaimsOfEntry(entries, e, m, active, models, st.claimed, r.value.claimed)
    ensures r.Success? ==> forall k :: k in KeysOf(r.value.mapping) <==>
              k in KeysOf(st.mapping) ||
              (k == entries[e].0 &&
               exists j :: m <= j && Qualifying(entries, e, j, active, models) && AliasVar(entries, e, j) !in st.claimed)
    ensures r.Failure? ==> (Found(entries, e, db) == Failure(r.error) &&
              exists j :: m <= j && Qualifying(entries, e, j, active, models) && AliasVar(entries, e, j) !in st.claimed)
  {
    var isNew := Qualifying(entries, e, m, active, models) && AliasVar(entries, e, m) !in st.claimed;
    assert forall x :: x in st1.claimed <==> x in st.claimed || (isNew && x == AliasVar(entries, e, m));
    assert KeysOf(st1.mapping) == KeysOf(st.mapping) + (if isNew then {entries[e].0} else {});
    if r.Success? {
      PrefixTransitive(st.claimed, st1.claimed, r.value.claimed);
    }
  }

  lemma {:induction false} ClaimEntryFromConsistent(st: Reconciler, entries: Dict<AliasEntry>, e: nat, m: nat,
                                                    active: seq<string>, models: seq<string>, db: seq<Record>)
    requires e < |entries| && entries[e].1.iamAliases.Some? && entries[e].1.ecoinventAliases.Some?
    requires m <= |entries[e].1.iamAliases.value|
    requires Consistent(st, entries, active, models, db)
    requires ClaimEntryFrom(st, entries, e, m, active, models, db).Success?
    ensures Consistent(ClaimEntryFrom(st, entries, e, m, active, models, db).value, entries, active, models, db)
    decreases |entries[e].1.iamAliases.value| - m
  {
    if m < |entries[e].1.iamAliases.value| {
      var st' := ClaimModelVariable(st, entries, e, m, active, models, db);
      ClaimModelVariableConsistent(st, entries, e, m, active, models, db);
      ClaimEntryFromConsistent(st'.value, entries, e, m + 1, active, models, db);
    }
  }

  /** The body of `for var, val in data.items()` for entry `e`: entries lacking
      either alias kind are skipped. */
  function ClaimEntry(st: Reconciler, entries: Dict<AliasEntry>, e: nat,
                      active: seq<string>, models: seq<string>, db: seq<Record>): (r: Result<Reconciler>)
    requires e < |entries|
    ensures entries[e].1.iamAliases.None? || entries[e].1.ecoinventAliases.None? ==> r == Success(st)
    ensures r.Success? ==> IsPrefix(st.claimed, r.value.claimed)
    ensures r.Success? ==> ClaimsOfEntry(entries, e, 0, active, models, st.claimed, r.value.claimed)
    ensures r.Success? ==> forall k :: k in KeysOf(r.value.mapping) <==>
              k in KeysOf(st.mapping) ||
              (k == entries[e].0 &&
               exists j :: 0 <= j && Qualifying(entries, e, j, active, models) && AliasVar(entries, e, j) !in st.claimed)
    ensures (forall j :: Qualifying(entries, e, j, active, models) ==> Found(entries, e, db).Success?) ==> r.Success?
    ensures r.Failure? ==> exists j :: Qualifying(entries, e, j, active, models) && Found(entries, e, db) == Failure(r.error)
  {
    if entries[e].1.iamAliases.Some? && entries[e].1.ecoinventAliases.Some? then
      ClaimEntryFrom(st, entries, e, 0, active, models, db)
    else
      Success(st)
  }

  /** The entries of all mapping files, in reading order, from position `e`:
      the claims grow by exactly the qualifying model variables of these
      entries; the mapping keeps its variables and gains those of entries with
      a qualifying alias, among them every entry holding the first qualifying
      alias of a still free model variable; and the pass succeeds whenever
      `find_activities` succeeds for every entry with a qualifying alias,
      failing otherwise only with the error of such an entry. */
  function ReconcileFrom(st: Reconciler, entries: Dict<AliasEntry>, e: nat,
                         active: seq<string>, models: seq<string>, db: seq<Record>): (r: Result<Reconciler>)
    requires e <= |entries|
    ensures r.Success? ==> IsPrefix(st.claimed, r.value.claimed)
    ensures r.Success? ==> ClaimsOfEntries(entries, e, active, models, st.claimed, r.value.claimed)
    ensures r.Success? ==> KeysOf(st.mapping) <= KeysOf(r.value.mapping)
    ensures r.Success? ==> forall k :: k in KeysOf(r.value.mapping) ==>
              k in KeysOf(st.mapping) || exists e', j :: e <= e' && Qualifying(entries, e', j, active, models) && entries[e'].0 == k
    ensures r.Success? ==> forall e', j :: e <= e' && FirstClaim(entries, e, e', j, active, models, st.claimed) ==>
              entries[e'].0 in KeysOf(r.value.mapping)
    ensures (forall e', j :: e <= e' && Qualifying(entries, e', j, active, models) ==> Found(entries, e', db).Success?) ==> r.Success?
    ensures r.Failure? ==> exists e', j :: e <= e' && Qualifying(entries, e', j, active, models) && Found(entries, e', db) == Failure(r.error)
    decreases |entries| - e
  {
    if e == |entries| then Success(st)
    else
      var st1 := ClaimEntry(st, entries, e, active, models, db);
      if st1.Failure? then Failure(st1.error)
      else
        var r := ReconcileFrom(st1.value, entries, e + 1, active, models, db);
        ReconcileStep(st, st1.value, r, entries, e, e + 1, active, models, db);
        r
  }

  /** The step of `ReconcileFrom`: entry `e`, then the entries after it. */
  lemma ReconcileStep(st: Reconciler, st1: Reconciler, r: Result<Reconciler>, entries: Dict<AliasEntry>, e: nat, next: nat,
                      active: seq<string>, models: seq<string>, db: seq<Record>)
    requires e < |entries| && next == e + 1
    requires ClaimEntry(st, entries, e, active, models, db) == Success(st1)
    requires r.Success? ==> IsPrefix(st1.claimed, r.value.claimed)
    requires r.Success? ==> ClaimsOfEntries(entries, next, active, models, st1.claimed, r.value.claimed)
    requires r.Success? ==> KeysOf(st1.mapping) <= KeysOf(r.value.mapping)
    requires r.Success? ==> forall k :: k in KeysOf(r.value.mapping) ==>
               k in KeysOf(st1.mapping) || exists e', j :: next <= e' && Qualifying(entries, e', j, active, models) && entries[e'].0 == k
    requires r.Success? ==> forall e', j :: next <= e' && FirstClaim(entries, next, e', j, active, models, st1.claimed) ==>
               entries[e'].0 in KeysOf(r.value.mapping)
    requires (forall e', j :: next <= e' && Qualifying(entries, e', j, active, models) ==> Found(entries, e', db).Success?) ==> r.Success?
    requires r.Failure? ==> exists e', j :: next <= e' && Qualifying(entries, e', j, active, models) && Found(entries, e', db) == Failure(r.error)
    ensures r.Success? ==> IsPrefix(st.claimed, r.value.claimed)
    ensures r.Success? ==> ClaimsOfEntries(entries, e, active, models, st.claimed, r.value.claimed)
    ensures r.Success? ==> KeysOf(st.mapping) <= KeysOf(r.value.mapping)
    ensures r.Success? ==> forall k :: k in KeysOf(r.value.mapping) ==>
              k in KeysOf(st.mapping) || exists e', j :: e <= e' && Qualifying(entries, e', j, active, models) && entries[e'].0 == k
    ensures r.Success? ==> forall e', j :: e <= e' && FirstClaim(entries, e, e', j, active, models, st.claimed) ==>
              entries[e'].0 in KeysOf(r.value.mapping)
    ensures (forall e', j :: e <= e' && Qualifying(entries, e', j, active, models) ==> Found(entries, e', db).Success?) ==> r.Success?
    ensures r.Failure? ==> exists e', j :: e <= e' && Qualifying(entries, e', j, active, models) && Found(entries, e', db) == Failure(r.error)
  {
    if r.Success? {
      PrefixTransitive(st.claimed, st1.claimed, r.value.claimed);
      ClaimsOfEntriesStep(st.claimed, st1.claimed, r.value.claimed, entries, e, active, models);
      forall e', j | e <= e' && FirstClaim(entries, e, e', j, active, models, st.claimed)
        ensures entries[e'].0 in KeysOf(r.value.mapping)
      {
        if e' > e {
          assert FirstClaim(entries, next, e', j, active, models, st1.claimed);
        }
      }
    }
  }

  /** The claims of entry `e` followed by those of the entries after it are
      the claims of the entries from `e` on. */
  lemma ClaimsOfEntriesStep(before: seq<string>, mid: seq<string>, after: seq<string>, entries: Dict<AliasEntry>, e: nat,
                            active: seq<string>, models: seq<string>)
    requires ClaimsOfEntry(entries, e, 0, active, models, before, mid)
    requires ClaimsOfEntries(entries, e + 1, active, models, mid, after)
    ensures ClaimsOfEntries(entries, e, active, models, before, after)
  {
    forall mv ensures mv in after <==>
      mv in before || exists e', j :: e <= e' && Qualifying(entries, e', j, active, models) && AliasVar(entries, e', j) == mv
    {
      if exists e', j :: e <= e' && Qualifying(entries, e', j, active, models) && AliasVar(entries, e', j) == mv {
        var e', j :| e <= e' && Qualifying(entries, e', j, active, models) && AliasVar(entries, e', j) == mv;
        if e' == e {
          assert mv in mid;
        }
      }
    }
  }

  lemma {:induction false} ReconcileFromConsistent(st: Reconciler, entries: Dict<AliasEntry>, e: nat,
                                                   active: seq<string>, models: seq<string>, db: seq<Record>)
    requires e <= |entries|
    requires Consistent(st, entries, active, models, db)
    requires ReconcileFrom(st, entries, e, active, models, db).Success?
    ensures Consistent(ReconcileFrom(st, entries, e, active, models, db).value, entries, active, models, db)
    decreases |entries| - e
  {
    if e < |entries| {
      var st' := ClaimEntry(st, entries, e, active, models, db);
      if entries[e].1.iamAliases.Some? && entries[e].1.ecoinventAliases.Some? {
        ClaimEntryFromConsistent(st, entries, e, 0, active, models, db);
      }
      ReconcileFromConsistent(st'.value, entries, e + 1, active, models, db);
    }
  }

  /** `p` is a prefix of `s`: claims are only ever appended. */
  predicate IsPrefix<T(==)>(p: seq<T>, s: seq<T>) {
    |p| <= |s| && s[..|p|] == p
  }

  lemma PrefixTransitive<T>(a: seq<T>, b: seq<T>, c: seq<T>)
    requires IsPrefix(a, b) && IsPrefix(b, c)
    ensures IsPrefix(a, c)
  {
    assert c[..|a|] == c[..|b|][..|a|];
  }

  /** The deduplication pass: each dataset list keeps one copy of each triple,
      at its first occurrence. */
  function DedupeDatasets(mapping: Dict<Claim>): (r: Dict<Claim>)
    ensures |r| == |mapping|
    ensures forall i :: 0 <= i < |r| ==>
              r[i].0 == mapping[i].0 && r[i].1.scenarioVariable == mapping[i].1.scenarioVariable &&
              NoDuplicates(r[i].1.dataset) &&
              forall t :: t in r[i].1.dataset <==> t in mapping[i].1.dataset
  {
    seq(|mapping|, i requires 0 <= i < |mapping| =>
      (mapping[i].0, Claim(mapping[i].1.scenarioVariable, Dedupe(mapping[i].1.dataset))))
  }

  /** Deduplicating twice is deduplicating once. */
  lemma DedupeDatasetsIdempotent(mapping: Dict<Claim>)
    ensures DedupeDatasets(DedupeDatasets(mapping)) == DedupeDatasets(mapping)
  {
    var once := DedupeDatasets(mapping);
    forall i | 0 <= i < |once| ensures DedupeDatasets(once)[i] == once[i] {
      DedupeIdempotent(mapping[i].1.dataset);
    }
  }

  /** Some entry makes `c.scenarioVariable` a claim on `key`, and `c.dataset`
      is what `find_activities` returned for it, without duplicates. */
  ghost predicate DedupedSource(entries: Dict<AliasEntry>, key: string, c: Claim, models: seq<string>, db: seq<Record>) {
    exists e, m :: Aliased(entries, e, m, key, c.scenarioVariable, models) &&
                   Found(entries, e, db).Success? && c.dataset == Dedupe(Found(entries, e, db).value)
  }

  /** `add_variables_mapping` without the file output: the mapping written to
      mapping.yaml. `entries` are the items of all mapping files in reading
      order, `db` the first scenario's database. */
  function AddVariablesMapping(scenarios: seq<Scenario>, scenarioVariables: seq<seq<string>>,
                               entries: Dict<AliasEntry>, db: seq<Record>): (r: Result<Dict<Claim>>)
    ensures r.Success? ==> DistinctKeys(r.value) && DistinctVariables(r.value)
    ensures r.Success? ==> forall i :: 0 <= i < |r.value| ==>
              DedupedSource(entries, r.value[i].0, r.value[i].1, ScenarioModels(scenarios), db)
    ensures r.Success? ==> forall i :: 0 <= i < |r.value| ==>
              IsActive(r.value[i].1.scenarioVariable) &&
              Reported(scenarioVariables, r.value[i].1.scenarioVariable) &&
              NoDuplicates(r.value[i].1.dataset)
  {
    var active := ActiveVariables(scenarioVariables);
    var models := ScenarioModels(scenarios);
    var st :- ReconcileFrom(Reconciler([], []), entries, 0, active, models, db);
    ReconcileFromConsistent(Reconciler([], []), entries, 0, active, models, db);
    DedupedConsistent(st, entries, scenarioVariables, active, models, db);
    Success(DedupeDatasets(st.mapping))
  }

  /** Deduplicating the datasets of a consistent state keeps its keys and
      variables distinct and active, and every dataset traced to its entry. */
  lemma DedupedConsistent(st: Reconciler, entries: Dict<AliasEntry>, scenarioVariables: seq<seq<string>>,
                           active: seq<string>, models: seq<string>, db: seq<Record>)
    requires active == ActiveVariables(scenarioVariables)
    requires Consistent(st, entries, active, models, db)
    ensures var r := DedupeDatasets(st.mapping);
            DistinctKeys(r) && DistinctVariables(r) &&
            (forall i :: 0 <= i < |r| ==> DedupedSource(entries, r[i].0, r[i].1, models, db)) &&
            (forall i :: 0 <= i < |r| ==>
               IsActive(r[i].1.scenarioVariable) &&
               Reported(scenarioVariables, r[i].1.scenarioVariable) &&
               NoDuplicates(r[i].1.dataset))
  {
    var r := DedupeDatasets(st.mapping);
    KeysOfSameKeys(r, st.mapping);
    forall i | 0 <= i < |r|
      ensures IsActive(r[i].1.scenarioVariable) && Reported(scenarioVariables, r[i].1.scenarioVariable)
    {
      assert r[i].1.scenarioVariable == st.mapping[i].1.scenarioVariable;
      assert st.mapping[i].1.scenarioVariable in st.claimed;
    }
    DedupedSources(st.mapping, entries, models, db);
  }

  /** Which variables `add_variables_mapping` maps and when it raises: it
      succeeds whenever `find_activities` succeeds for every entry with a
      qualifying alias, and otherwise fails only with the error of such an
      entry; every entry holding the first qualifying alias of a model
      variable is mapped, and only entries with a qualifying alias are. */
  lemma AddVariablesMappingCoverage(scenarios: seq<Scenario>, scenarioVariables: seq<seq<string>>,
                                    entries: Dict<AliasEntry>, db: seq<Record>)
    ensures var active, models := ActiveVariables(scenarioVariables), ScenarioModels(scenarios);
            var r := AddVariablesMapping(scenarios, scenarioVariables, entries, db);
            ((forall e, j :: Qualifying(entries, e, j, active, models) ==> Found(entries, e, db).Success?) ==> r.Success?) &&
            (r.Failure? ==> exists e, j :: Qualifying(entries, e, j, active, models) && Found(entries, e, db) == Failure(r.error)) &&
            (r.Success? ==> forall e, j :: FirstClaim(entries, 0, e, j, active, models, []) ==> entries[e].0 in KeysOf(r.value)) &&
            (r.Success? ==> forall k :: k in KeysOf(r.value) ==> exists e, j :: Qualifying(entries, e, j, active, models) && entries[e].0 == k)
  {
    var active, models := ActiveVariables(scenarioVariables), ScenarioModels(scenarios);
    var pass := ReconcileFrom(Reconciler([], []), entries, 0, active, models, db);
    if pass.Success? {
      KeysOfSameKeys(DedupeDatasets(pass.value.mapping), pass.value.mapping);
      assert KeysOf(Reconciler([], []).mapping) == {};
    }
  }

  /** Deduplicating a justified mapping leaves each variable with the
      deduplicated datasets of an entry that justifies it. */
  lemma DedupedSources(mapping: Dict<Claim>, entries: Dict<AliasEntry>, models: seq<string>, db: seq<Record>)
    requires Justified(mapping, entries, models, db)
    ensures var r := DedupeDatasets(mapping);
            forall i :: 0 <= i < |r| ==> DedupedSource(entries, r[i].0, r[i].1, models, db)
  {
    var r := DedupeDatasets(mapping);
    forall i | 0 <= i < |r| ensures DedupedSource(entries, r[i].0, r[i].1, models, db) {
      assert HasSource(entries, mapping[i].0, mapping[i].1, models, db);
      var e, m :| Aliased(entries, e, m, mapping[i].0, mapping[i].1.scenarioVariable, models) &&
                  Found(entries, e, db) == Success(mapping[i].1.dataset);
      assert Aliased(entries, e, m, r[i].0, r[i].1.scenarioVariable, models);
    }
  }

  /** First writer wins: a model variable that is already claimed leaves the
      mapping and the claims as they are, whatever entry it comes from. */
  lemma LaterClaimIgnored(st: Reconciler, entries: Dict<AliasEntry>, e: nat, m: nat,
                          active: seq<string>, models: seq<string>, db: seq<Record>)
    requires e < |entries| && entries[e].1.iamAliases.Some? && entries[e].1.ecoinventAliases.Some?
    requires m < |entries[e].1.iamAliases.value|
    requires entries[e].1.iamAliases.value[m].1 in st.claimed
    ensures ClaimModelVariable(st, entries, e, m, active, models, db) == Success(st)
  {
  }

  /** Two entries whose aliases name the same active model variable: the first
      entry's variable gets it and the second is not mapped. */
  lemma FirstWriterWinsExample()
    ensures
      var db: seq<Record> := [map[NAME := "heat production", REFERENCE_PRODUCT := "heat", UNIT := "MJ"]];
      var eco := Some(EcoinventAliases(Bare("heat"), Absent));
      var entries := [("Heat A", AliasEntry(Some([("remind", "FE|Heat")]), eco)),
                      ("Heat B", AliasEntry(Some([("remind", "FE|Heat")]), eco))];
      var r := AddVariablesMapping([Scenario("remind", "SSP2-Base", Some(2020))], [["FE|Heat"]], entries, db);
      r.Success? && |r.value| == 1 && r.value[0].0 == "Heat A"
  {
    var rec: Record := map[NAME := "heat production", REFERENCE_PRODUCT := "heat", UNIT := "MJ"];
    var db: seq<Record> := [rec];
    var eco := Some(EcoinventAliases(Bare("heat"), Absent));
    var entries := [("Heat A", AliasEntry(Some([("remind", "FE|Heat")]), eco)),
                    ("Heat B", AliasEntry(Some([("remind", "FE|Heat")]), eco))];
    var scenarios := [Scenario("remind", "SSP2-Base", Some(2020))];
    var active := ActiveVariables([["FE|Heat"]]);
    var models := ScenarioModels(scenarios);
    assert "FE|Heat" in active by {
      assert !Contains(Lower("FE|Heat"), "efficiency");
      assert !Contains(Lower("FE|Heat"), "emission");
      assert "FE|Heat" in [["FE|Heat"]][0];
    }
    assert models == ["remind"];
    var ds := ExampleFound(db);
    var s1 := Success(Reconciler([("Heat A", Claim("FE|Heat", ds))], ["FE|Heat"]));
    ExampleFirstEntry(db, entries, active, models, ds);
    ExampleSecondEntry(db, entries, active, models, ds);
    assert ReconcileFrom(s1.value, entries, 2, active, models, db) == s1;
    assert ReconcileFrom(s1.value, entries, 1, active, models, db) == s1;
    assert ReconcileFrom(Reconciler([], []), entries, 0, active, models, db) == s1;
  }

  /** The example's heat dataset is found. */
  lemma ExampleFound(db: seq<Record>) returns (ds: seq<Triple>)
    requires db == [map[NAME := "heat production", REFERENCE_PRODUCT := "heat", UNIT := "MJ"]]
    ensures FindActivities(Bare("heat"), Absent, db) == Success(ds)
  {
    assert OccursAt(db[0][NAME], "heat", 0);
    assert Matches(db[0], Normalize(Bare("heat")), []);
    ds := FindActivities(Bare("heat"), Absent, db).value;
  }

  /** The example's first entry claims the variable. */
  lemma ExampleFirstEntry(db: seq<Record>, entries: Dict<AliasEntry>, active: seq<string>, models: seq<string>, ds: seq<Triple>)
    requires entries == [("Heat A", AliasEntry(Some([("remind", "FE|Heat")]), Some(EcoinventAliases(Bare("heat"), Absent)))),
                         ("Heat B", AliasEntry(Some([("remind", "FE|Heat")]), Some(EcoinventAliases(Bare("heat"), Absent))))]
    requires "FE|Heat" in active && models == ["remind"]
    requires FindActivities(Bare("heat"), Absent, db) == Success(ds)
    ensures ClaimEntry(Reconciler([], []), entries, 0, active, models, db) ==
            Success(Reconciler([("Heat A", Claim("FE|Heat", ds))], ["FE|Heat"]))
  {
    var s0 := Reconciler([], []);
    var s1 := Success(Reconciler([("Heat A", Claim("FE|Heat", ds))], ["FE|Heat"]));
    assert entries[0].1.iamAliases.value[0] == ("remind", "FE|Heat");
    assert "remind" in models && "FE|Heat" !in s0.claimed;
    assert Put([], "Heat A", Claim("FE|Heat", ds)) == [("Heat A", Claim("FE|Heat", ds))];
    assert s0.claimed + ["FE|Heat"] == ["FE|Heat"];
    assert ClaimModelVariable(s0, entries, 0, 0, active, models, db) == s1;
    assert ClaimEntryFrom(s1.value, entries, 0, 1, active, models, db) == s1;
    assert ClaimEntryFrom(s0, entries, 0, 0, active, models, db) == s1;
  }

  /** The example's second entry finds the variable claimed and changes nothing. */
  lemma ExampleSecondEntry(db: seq<Record>, entries: Dict<AliasEntry>, active: seq<string>, models: seq<string>, ds: seq<Triple>)
    requires entries == [("Heat A", AliasEntry(Some([("remind", "FE|Heat")]), Some(EcoinventAliases(Bare("heat"), Absent)))),
                         ("Heat B", AliasEntry(Some([("remind", "FE|Heat")]), Some(EcoinventAliases(Bare("heat"), Absent))))]
    ensures var s1 := Reconciler([("Heat A", Claim("FE|Heat", ds))], ["FE|Heat"]);
            ClaimEntry(s1, entries, 1, active, models, db) == Success(s1)
  {
    var s1 := Reconciler([("Heat A", Claim("FE|Heat", ds))], ["FE|Heat"]);
    assert entries[1].1.iamAliases.value[0] == ("remind", "FE|Heat");
    assert "FE|Heat" in s1.claimed;
    assert ClaimModelVariable(s1, entries, 1, 0, active, models, db) == Success(s1);
    assert ClaimEntryFrom(s1, entries, 1, 1, active, models, db) == Success(s1);
    assert ClaimEntryFrom(s1, entries, 1, 0, active, models, db) == Success(s1);
  }

  // ---------------------------------------------------------------------------
  // The scenario label and the scenario-data table

  const SEPARATOR: string := " - "

  /** `f"{s['model'].upper()} - {s['pathway']}"` */
  function Label(model: string, pathway: string): (r: string)
    ensures StartsWith(r, Upper(model) + SEPARATOR) && EndsWith(r, pathway)
    ensures |r| == |model| + |SEPARATOR| + |pathway|
  {
    assert (Upper(model) + SEPARATOR + pathway)[..|Upper(model) + SEPARATOR|] == Upper(model) + SEPARATOR;
    assert (Upper(model) + SEPARATOR + pathway)[|Upper(model) + SEPARATOR|..] == pathway;
    Upper(model) + SEPARATOR + pathway
  }

  /** `str.split(" - ", n=1, expand=True)` on one label: the model column
      and, if the separator occurs, the pathway column. */
  function SplitLabel(text: string): (r: (string, Option<string>))
    ensures r.1.None? <==> !Contains(text, SEPARATOR)
    ensures r.1.None? ==> r.0 == text
    ensures r.1.Some? ==> r.0 + SEPARATOR + r.1.value == text && !Contains(r.0 + SEPARATOR[..|SEPARATOR| - 1], SEPARATOR)
  {
    SplitOnce(text, SEPARATOR)
  }

  /** The model name is safe to split on when neither it nor its trailing
      " -" can join with the separator. */
  predicate SplittableModel(model: string) {
    !Contains(Upper(model) + " -", SEPARATOR)
  }

  /** Splitting a label gives back the upper-cased model and the pathway,
      whatever the pathway, when the model name is splittable. */
  lemma LabelRoundTrip(model: string, pathway: string)
    requires SplittableModel(model)
    ensures SplitLabel(Label(model, pathway)) == (Upper(model), Some(pathway))
  {
    assert SEPARATOR[..|SEPARATOR| - 1] == " -";
    SplitOnceJoin(Upper(model), SEPARATOR, pathway);
  }

  /** A model name without " - " that ends in " -" does not round-trip: the
      label of model "a -" and pathway "x" splits as ("A", "- x"). */
  lemma LabelRoundTripNeedsTrailingCheck()
    ensures !Contains(Upper("a -"), SEPARATOR)
    ensures SplitLabel(Label("a -", "x")) == ("A", Some("- x"))
  {
    assert Upper("a -") == "A -";
    assert "A -"[0..3] == "A -" && "A -"[0] != SEPARATOR[0];
    assert !OccursAt("A -", SEPARATOR, 0);
    assert Label("a -", "x") == "A" + SEPARATOR + "- x";
    assert !Contains("A" + " -", SEPARATOR) by {
      assert !OccursAt("A -", SEPARATOR, 0);
    }
    SplitOnceJoin("A", SEPARATOR, "- x");
  }

  /** A row of the concatenated scenario array after `to_dataframe()`. */
  datatype ArrayRow = ArrayRow(scenario: string, variable: string, region: string, year: int, value: real)

  /** A row of scenario_data.csv: the unit of the variable (missing when the
      unit attribute has none) and the model and pathway columns that replace
      the scenario label. */
  datatype DataRow = DataRow(variable: string, region: string, year: int, value: real,
                             unit: Option<string>, model: string, pathway: Option<string>)

  /** The scenario coordinate of the concatenated array: one label per scenario. */
  function ScenarioCoordinates(scenarios: seq<Scenario>): (r: seq<string>)
    ensures |r| == |scenarios|
    ensures forall j :: 0 <= j < |r| ==> r[j] == Label(scenarios[j].model, scenarios[j].pathway)
  {
    seq(|scenarios|, j requires 0 <= j < |scenarios| => Label(scenarios[j].model, scenarios[j].pathway))
  }

  /** The unit column and the model/pathway split of `add_scenario_data`. */
  function ScenarioTable(rows: seq<ArrayRow>, units: map<string, string>): (r: seq<DataRow>)
    ensures |r| == |rows|
    ensures forall i :: 0 <= i < |rows| ==>
              r[i].variable == rows[i].variable && r[i].region == rows[i].region &&
              r[i].year == rows[i].year && r[i].value == rows[i].value &&
              (r[i].unit.Some? <==> rows[i].variable in units) &&
              (r[i].unit.Some? ==> r[i].unit.value == units[rows[i].variable]) &&
              (r[i].pathway.Some? ==> r[i].model + SEPARATOR + r[i].pathway.value == rows[i].scenario)
  {
    seq(|rows|, i requires 0 <= i < |rows| =>
      var (model, pathway) := SplitLabel(rows[i].scenario);
      DataRow(rows[i].variable, rows[i].region, rows[i].year, rows[i].value,
              if rows[i].variable in units then Some(units[rows[i].variable]) else None,
              model, pathway))
  }

  /** A row of scenario `j` carries that scenario's upper-cased model and its
      pathway in the written table. */
  lemma ScenarioTableRecoversScenario(scenarios: seq<Scenario>, rows: seq<ArrayRow>, units: map<string, string>, i: nat, j: nat)
    requires i < |rows| && j < |scenarios|
    requires rows[i].scenario == ScenarioCoordinates(scenarios)[j]
    requires SplittableModel(scenarios[j].model)
    ensures ScenarioTable(rows, units)[i].model == Upper(scenarios[j].model)
    ensures ScenarioTable(rows, units)[i].pathway == Some(scenarios[j].pathway)
  {
    LabelRoundTrip(scenarios[j].model, scenarios[j].pathway);
  }

  // ---------------------------------------------------------------------------
  // The data-package descriptor

  /** `s.replace(" ", "_").lower()` */
  function Slug(s: string): (r: string)
    ensures |r| == |s|
    ensures forall i :: 0 <= i < |s| ==> r[i] == LowerChar(if s[i] == ' ' then '_' else s[i])
    ensures forall i :: 0 <= i < |r| ==> r[i] != ' '
  {
    ReplaceCharPointwise(s, ' ', '_');
    Lower(Replace(s, [' '], ['_']))
  }

  /** Slugging a slug changes nothing. */
  lemma SlugIdempotent(s: string)
    ensures Slug(Slug(s)) == Slug(s)
  {
    var t := Slug(s);
    assert forall i :: 0 <= i < |t| ==> LowerChar(t[i]) == t[i];
  }

  const PATHWAYS_DIR: string := "pathways/"

  /** `path.replace("pathways/", "")` */
  function ResourcePath(path: string): (r: string)
    ensures !Contains(path, PATHWAYS_DIR) ==> r == path
  {
    var r := Replace(path, PATHWAYS_DIR, "");
    assert !Contains(path, PATHWAYS_DIR) ==> r == path by {
      if !Contains(path, PATHWAYS_DIR) {
        ReplaceAbsent(path, PATHWAYS_DIR, "");
      }
    }
    r
  }

  /** Every occurrence goes: the text before the first "pathways/" is kept,
      and the rest after it is stripped in turn. With the no-occurrence case
      of the contract this determines the result. */
  lemma ResourcePathFirst(path: string)
    requires Contains(path, PATHWAYS_DIR)
    ensures var (before, after) := SplitOnce(path, PATHWAYS_DIR);
            after.Some? && ResourcePath(path) == before + ResourcePath(after.value)
  {
    ReplaceAtSplit(path, PATHWAYS_DIR, "");
  }

  /** A resource under the pathways folder is referred to relative to it. */
  lemma ResourcePathStripsFolder(rest: string)
    ensures ResourcePath(PATHWAYS_DIR + rest) == ResourcePath(rest)
    ensures !Contains(rest, PATHWAYS_DIR) ==> ResourcePath(PATHWAYS_DIR + rest) == rest
  {
    ReplaceLeading(rest, PATHWAYS_DIR, "");
  }

  datatype Contributor = Contributor(title: string, name: string, email: string)

  const DEFAULT_TITLE: string := "undefined"
  const DEFAULT_NAME: string := "anonymous"
  const DEFAULT_EMAIL: string := "anonymous@anonymous.com"

  /** `c.get(key, default)` */
  function GetOr(c: map<string, string>, key: string, default: string): (r: string)
    ensures key in c ==> r == c[key]
    ensures key !in c ==> r == default
  {
    if key in c then c[key] else default
  }

  /** The contributor rule of `build_datapackage`: without contributors a
      single anonymous one; otherwise each given contributor, every missing
      field filled with its default. */
  function Contributors(given: Option<seq<map<string, string>>>): (r: seq<Contributor>)
    ensures given.None? ==> r == [Contributor(DEFAULT_TITLE, DEFAULT_NAME, DEFAULT_EMAIL)]
    ensures given.Some? ==> |r| == |given.value| && forall i :: 0 <= i < |r| ==>
              r[i].title == GetOr(given.value[i], "title", DEFAULT_TITLE) &&
              r[i].name == GetOr(given.value[i], "name", DEFAULT_NAME) &&
              r[i].email == GetOr(given.value[i], "email", DEFAULT_EMAIL)
  {
    match given
    case None => [Contributor(DEFAULT_TITLE, DEFAULT_NAME, DEFAULT_EMAIL)]
    case Some(cs) =>
      seq(|cs|, i requires 0 <= i < |cs| =>
        Contributor(GetOr(cs[i], "title", DEFAULT_TITLE), GetOr(cs[i], "name", DEFAULT_NAME),
                    GetOr(cs[i], "email", DEFAULT_EMAIL)))
  }

  /** The name and description entry of one scenario in the descriptor. */
  datatype ScenarioDescriptor = ScenarioDescriptor(name: string, description: string)

  /** A resource of the package: its name and path as the library infers them. */
  datatype Resource = Resource(name: string, path: string)

  datatype Descriptor = Descriptor(
    name: string,
    title: string,
    description: string,
    premiseVersion: string,
    scenarios: seq<ScenarioDescriptor>,
    keywords: seq<string>,
    contributors: seq<Contributor>,
    resources: seq<Resource>)

  const KEYWORDS: seq<string> := ["ecoinvent", "scenario", "data package", "premise", "pathways"]

  /** `build_datapackage(name, contributors)` up to the saved datapackage.json:
      `inferred` are the resources the library infers from the csv and yaml
      files, `version` the package version. */
  function BuildDatapackage(name: string, version: string, scenarios: seq<Scenario>,
                            contributors: Option<seq<map<string, string>>>, inferred: seq<Resource>): (d: Descriptor)
    ensures d.name == Slug(name) && d.title == Capitalize(name)
    ensures d.premiseVersion == version
    ensures d.keywords == KEYWORDS
    ensures d.contributors == Contributors(contributors)
    ensures |d.scenarios| == |scenarios| && forall j :: 0 <= j < |scenarios| ==>
              d.scenarios[j].name == Label(scenarios[j].model, scenarios[j].pathway)
    ensures |d.resources| == |inferred| && forall i :: 0 <= i < |inferred| ==>
              d.resources[i] == Resource(Slug(inferred[i].name), ResourcePath(inferred[i].path))
  {
    Descriptor(
      Slug(name),
      Capitalize(name),
      "Data package generated by premise " + version + ".",
      version,
      seq(|scenarios|, j requires 0 <= j < |scenarios| =>
        ScenarioDescriptor(Label(scenarios[j].model, scenarios[j].pathway),
                           "Prospective db, based on " + Upper(scenarios[j].model) + ", pathway " + scenarios[j].pathway + ".")),
      KEYWORDS,
      Contributors(contributors),
      seq(|inferred|, i requires 0 <= i < |inferred| => Resource(Slug(inferred[i].name), ResourcePath(inferred[i].path))))
  }

  /** `export_datapackage(name, contributors)`, as far as the descriptor goes. */
  function ExportDatapackage(name: string, version: string, scenarios: seq<Scenario>,
                             contributors: Option<seq<map<string, string>>>, inferred: seq<Resource>): (d: Descriptor)
    ensures d.contributors == Contributors(contributors)
    ensures d.name == Slug(name)
  {
    BuildDatapackage(name, version, scenarios, contributors, inferred)
  }

  /** `create_datapackage(name, contributors)` as written: the contributors are
      not passed on to the export. */
  function CreateDatapackageAsWritten(name: string, version: string, scenarios: seq<Scenario>,
                                      contributors: Option<seq<map<string, string>>>, inferred: seq<Resource>): (d: Descriptor)
    ensures d.contributors == [Contributor(DEFAULT_TITLE, DEFAULT_NAME, DEFAULT_EMAIL)]
  {
    ExportDatapackage(name, version, scenarios, None, inferred)
  }

  /** `create_datapackage` passing its contributors on, as its signature
      promises. */
  function CreateDatapackage(name: string, version: string, scenarios: seq<Scenario>,
                             contributors: Option<seq<map<string, string>>>, inferred: seq<Resource>): (d: Descriptor)
    ensures d.contributors == Contributors(contributors)
    ensures d.(contributors := [Contributor(DEFAULT_TITLE, DEFAULT_NAME, DEFAULT_EMAIL)]) ==
            CreateDatapackageAsWritten(name, version, scenarios, contributors, inferred)
  {
    ExportDatapackage(name, version, scenarios, contributors, inferred)
  }

  /** A named contributor handed to `create_datapackage` is lost as written and
      kept when passed on. */
  lemma CreateDatapackageDropsContributors(name: string, version: string, scenarios: seq<Scenario>, inferred: seq<Resource>)
    ensures
      var given := Some([map["name" := "Ada"]]);
      CreateDatapackageAsWritten(name, version, scenarios, given, inferred).contributors[0].name == DEFAULT_NAME &&
      CreateDatapackage(name, version, scenarios, given, inferred).contributors[0].name == "Ada"
  {
  }
}
