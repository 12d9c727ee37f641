/** The record rewriting of the freight-transport transformation
    (premise/transport_new.py): normalising market exchange amounts, deleting
    superseded datasets, relinking freight exchanges to the new markets, the
    construction of regional, World and size-specific markets, and the
    regional copies of transport datasets.

    Market shares come from IAM arrays; here they are given reals, supplied as
    functions of the region and variable. The location translation of the
    geography helper and the dataset-to-proxy region mapping are functions
    too. Dataset codes, logging and efficiency rescaling are not modelled. */
module Transport {
  import opened Wrappers
  import opened Strings
  import opened Seqs
  import opened Inventory

  const TON_KM: string := "ton kilometer"
  const FREIGHT: string := "transport, freight"
  const WORLD: string := "World"
  const LORRY_MARKET: string := "market for transport, freight, lorry, unspecified powertrain"
  const TRAIN_MARKET: string := "market for transport, freight train, unspecified powertrain"
  const LORRY_PRODUCT: string := "transport, freight, lorry"
  const TRAIN_PRODUCT: string := "transport, freight train"
  const EURO_VI: string := ", EURO-VI"

  // ---------------------------------------------------------------------------
  // normalize_exchange_amounts

  /** The sum of the technosphere amounts of `excs`. */
  function TechnosphereTotal(excs: seq<Exchange>): real
    decreases |excs|
  {
    if |excs| == 0 then 0.0
    else (if IsTechnosphere(excs[0]) then excs[0].amount else 0.0) + TechnosphereTotal(excs[1..])
  }

  predicate HasTechnosphere(excs: seq<Exchange>) {
    exists i :: 0 <= i < |excs| && IsTechnosphere(excs[i])
  }

  /** Every technosphere amount divided by `total`. */
  function DivideTechnosphere(excs: seq<Exchange>, total: real): (r: seq<Exchange>)
    requires total != 0.0
    ensures |r| == |excs|
    ensures forall i :: 0 <= i < |excs| ==>
              if IsTechnosphere(excs[i]) then r[i] == excs[i].(amount := excs[i].amount / total) else r[i] == excs[i]
  {
    seq(|excs|, i requires 0 <= i < |excs| =>
      if IsTechnosphere(excs[i]) then excs[i].(amount := excs[i].amount / total) else excs[i])
  }

  lemma {:induction false} TechnosphereTotalDivided(excs: seq<Exchange>, total: real)
    requires total != 0.0
    ensures TechnosphereTotal(DivideTechnosphere(excs, total)) == TechnosphereTotal(excs) / total
    decreases |excs|
  {
    if |excs| > 0 {
      var d := DivideTechnosphere(excs, total);
      TechnosphereTotalDivided(excs[1..], total);
      assert d[1..] == DivideTechnosphere(excs[1..], total);
      var head := if IsTechnosphere(excs[0]) then excs[0].amount else 0.0;
      assert (if IsTechnosphere(d[0]) then d[0].amount else 0.0) == head / total;
      assert TechnosphereTotal(d) == head / total + TechnosphereTotal(excs[1..]) / total;
      DivideSum(head, TechnosphereTotal(excs[1..]), total);
    }
  }

  lemma DivideSum(a: real, b: real, t: real)
    requires t != 0.0
    ensures (a + b) / t == a / t + b / t
  {
  }

  /** The normalisation of one activity: a technosphere total of zero with a
      technosphere exchange to divide raises. */
  function NormalizeActivity(d: Dataset): (r: Result<Dataset>)
    ensures r.Failure? <==> HasTechnosphere(d.exchanges) && TechnosphereTotal(d.exchanges) == 0.0
    ensures r.Failure? ==> r.error == ZeroDivisionError
    ensures r.Success? ==> r.value.(exchanges := d.exchanges) == d && |r.value.exchanges| == |d.exchanges|
    ensures r.Success? ==> forall i :: 0 <= i < |d.exchanges| ==>
              r.value.exchanges[i].(amount := d.exchanges[i].amount) == d.exchanges[i] &&
              (!IsTechnosphere(d.exchanges[i]) ==> r.value.exchanges[i] == d.exchanges[i])
    ensures r.Success? && HasTechnosphere(d.exchanges) ==> TechnosphereTotal(r.value.exchanges) == 1.0
  {
    var total := TechnosphereTotal(d.exchanges);
    if !HasTechnosphere(d.exchanges) then Success(d)
    else if total == 0.0 then Failure(ZeroDivisionError)
    else
      var excs := DivideTechnosphere(d.exchanges, total);
      TechnosphereTotalDivided(d.exchanges, total);
      assert TechnosphereTotal(excs) == total / total == 1.0;
      Success(d.(exchanges := excs))
  }

  /** `normalize_exchange_amounts(list_act)` */
  function NormalizeExchangeAmounts(acts: seq<Dataset>): (r: Result<seq<Dataset>>)
    ensures r.Success? <==> forall i :: 0 <= i < |acts| ==> NormalizeActivity(acts[i]).Success?
    ensures r.Success? ==> |r.value| == |acts| && forall i :: 0 <= i < |acts| ==> Success(r.value[i]) == NormalizeActivity(acts[i])
    decreases |acts|
  {
    if |acts| == 0 then Success([])
    else
      var d :- NormalizeActivity(acts[0]);
      assert forall i :: 0 < i < |acts| ==> acts[i] == acts[1..][i - 1];
      var rest :- NormalizeExchangeAmounts(acts[1..]);
      Success([d] + rest)
  }

  /** After normalisation the technosphere amounts of an activity that has
      any sum to one, and their ratios are those of the input. */
  lemma NormalizedProportions(d: Dataset, i: nat, j: nat)
    requires NormalizeActivity(d).Success?
    requires i < |d.exchanges| && j < |d.exchanges|
    requires IsTechnosphere(d.exchanges[i]) && IsTechnosphere(d.exchanges[j])
    ensures var out := NormalizeActivity(d).value.exchanges;
            TechnosphereTotal(out) == 1.0 &&
            out[i].amount * d.exchanges[j].amount == out[j].amount * d.exchanges[i].amount
  {
    assert HasTechnosphere(d.exchanges);
    NormalizedRatio(d, i, j);
  }

  /** The ratio of two normalised technosphere amounts is that of the input. */
  lemma NormalizedRatio(d: Dataset, i: nat, j: nat)
    requires NormalizeActivity(d).Success?
    requires i < |d.exchanges| && j < |d.exchanges|
    requires IsTechnosphere(d.exchanges[i]) && IsTechnosphere(d.exchanges[j])
    ensures var out := NormalizeActivity(d).value.exchanges;
            out[i].amount * d.exchanges[j].amount == out[j].amount * d.exchanges[i].amount
  {
    assert HasTechnosphere(d.exchanges);
    var total := TechnosphereTotal(d.exchanges);
    var a, b := d.exchanges[i].amount, d.exchanges[j].amount;
    var out := NormalizeActivity(d).value.exchanges;
    assert out == DivideTechnosphere(d.exchanges, total);
    assert out[i].amount == a / total && out[j].amount == b / total;
    QuotientRatio(a, b, total);
  }

  lemma QuotientRatio(a: real, b: real, t: real)
    requires t != 0.0
    ensures (a / t) * b == (b / t) * a
  {
    calc {
      (a / t) * b;
      (a * b) / t;
      (b * a) / t;
      (b / t) * a;
    }
  }

  // ---------------------------------------------------------------------------
  // delete_inventory_datasets

  /** `delete_inventory_datasets()`: the datasets whose name is not listed, in order. */
  function DeleteInventoryDatasets(db: seq<Dataset>, toDelete: seq<string>): (r: seq<Dataset>)
    ensures forall d :: d in r <==> d in db && d.name !in toDelete
    ensures IsSubsequence(r, db)
    ensures forall d :: multiset(r)[d] == if d.name in toDelete then 0 else multiset(db)[d]
  {
    var keep := (d: Dataset) => d.name !in toDelete;
    var r := Filter(db, keep);
    FilterIsSubsequence(db, keep);
    forall d ensures multiset(r)[d] == if d.name in toDelete then 0 else multiset(db)[d] {
      FilterCount(db, keep, d);
    }
    assert forall d :: d in r ==> d in db && d.name !in toDelete by {
      forall d | d in r ensures d in db && d.name !in toDelete {
        var i :| 0 <= i < |r| && r[i] == d;
      }
    }
    assert forall d :: d in db && d.name !in toDelete ==> d in r by {
      forall d | d in db && d.name !in toDelete ensures d in r {
        var i :| 0 <= i < |db| && db[i] == d;
      }
    }
    r
  }

  // ---------------------------------------------------------------------------
  // relink_exchanges

  /** The position of the first key of `freightMap` that occurs, case
      insensitively, in `name`. */
  function FirstMatchingKey(freightMap: Dict<string>, name: string): (r: Option<nat>)
    ensures r.Some? ==> r.value < |freightMap| && Contains(Lower(name), Lower(freightMap[r.value].0))
    ensures r.Some? ==> forall k :: 0 <= k < r.value ==> !Contains(Lower(name), Lower(freightMap[k].0))
    ensures r.None? ==> forall k :: 0 <= k < |freightMap| ==> !Contains(Lower(name), Lower(freightMap[k].0))
    decreases |freightMap|
  {
    if |freightMap| == 0 then None
    else if Contains(Lower(name), Lower(freightMap[0].0)) then Some(0)
    else
      var r := FirstMatchingKey(freightMap[1..], name);
      assert forall k :: 0 < k < |freightMap| ==> freightMap[k] == freightMap[1..][k - 1];
      if r.Some? then Some(r.value + 1) else None
  }

  /** The exchanges `ws.technosphere(dataset, contains("name", "transport,
      freight"), equals("unit", "ton kilometer"))` yields. */
  predicate IsFreightInput(e: Exchange) {
    IsTechnosphere(e) && Contains(e.name, FREIGHT) && e.unit == TON_KM
  }

  /** One exchange of a dataset at `location` after relinking. */
  function RelinkExchange(e: Exchange, freightMap: Dict<string>, location: string, toIam: string -> string): (r: Exchange)
    ensures !IsFreightInput(e) || FirstMatchingKey(freightMap, e.name).None? ==> r == e
    ensures IsFreightInput(e) && FirstMatchingKey(freightMap, e.name).Some? ==>
              var target := freightMap[FirstMatchingKey(freightMap, e.name).value].1;
              r == e.(name := target, product := MarketProduct(target), location := toIam(location), input := None)
  {
    if !IsFreightInput(e) then e
    else match FirstMatchingKey(freightMap, e.name)
      case None => e
      case Some(k) =>
        var target := freightMap[k].1;
        e.(name := target, product := MarketProduct(target), location := toIam(location), input := None)
  }

  /** `relink_exchanges()` with the model's freight-transport map and the
      location translation as parameters. Datasets that are themselves
      freight transport keep their exchanges. */
  function RelinkExchanges(db: seq<Dataset>, freightMap: Dict<string>, toIam: string -> string): (r: seq<Dataset>)
    ensures |r| == |db|
    ensures forall i :: 0 <= i < |db| ==> r[i].(exchanges := db[i].exchanges) == db[i] && |r[i].exchanges| == |db[i].exchanges|
    ensures forall i :: 0 <= i < |db| && Contains(db[i].name, FREIGHT) ==> r[i] == db[i]
    ensures forall i, j :: 0 <= i < |db| && !Contains(db[i].name, FREIGHT) && 0 <= j < |db[i].exchanges| ==>
              r[i].exchanges[j] == RelinkExchange(db[i].exchanges[j], freightMap, db[i].location, toIam)
  {
    seq(|db|, i requires 0 <= i < |db| =>
      if Contains(db[i].name, FREIGHT) then db[i]
      else db[i].(exchanges := seq(|db[i].exchanges|, j requires 0 <= j < |db[i].exchanges| =>
                                     RelinkExchange(db[i].exchanges[j], freightMap, db[i].location, toIam))))
  }

  // ---------------------------------------------------------------------------
  // generate_transport_markets

  /** The (product, euro suffix) a vehicle name selects; a name mentioning
      neither lorry nor train keeps the previous vehicle's choice. */
  function VehicleProduct(vehicle: string, previous: Option<(string, string)>): (r: Option<(string, string)>)
    ensures Contains(vehicle, "lorry") ==>
              r == Some((LORRY_PRODUCT,
                         if Contains(vehicle, "diesel") || Contains(vehicle, "compressed gas") then EURO_VI else ""))
    ensures !Contains(vehicle, "lorry") && Contains(vehicle, "train") ==> r == Some((TRAIN_PRODUCT, ""))
    ensures !Contains(vehicle, "lorry") && !Contains(vehicle, "train") ==> r == previous
  {
    if Contains(vehicle, "lorry") then
      Some((LORRY_PRODUCT, if Contains(vehicle, "diesel") || Contains(vehicle, "compressed gas") then EURO_VI else ""))
    else if Contains(vehicle, "train") then Some((TRAIN_PRODUCT, ""))
    else previous
  }

  /** The market product of a lorry carries the EURO-VI suffix exactly when
      the vehicle runs on diesel or compressed gas. */
  lemma LorryEuroSuffix(vehicle: string, previous: Option<(string, string)>)
    requires Contains(vehicle, "lorry")
    ensures VehicleProduct(vehicle, previous).Some?
    ensures var (p, euro) := VehicleProduct(vehicle, previous).value;
            p == LORRY_PRODUCT && (euro == EURO_VI <==> Contains(vehicle, "diesel") || Contains(vehicle, "compressed gas"))
  {
  }

  /** A new market of `name` at `region`: its product is the name without
      "market for ", and its only exchange is its production of one ton
      kilometer. */
  function NewMarket(name: string, region: string, year: string): (d: Dataset)
    ensures d.name == name && d.referenceProduct == MarketProduct(name) && d.location == region && d.unit == TON_KM
    ensures d.exchanges == [Exchange(name, MarketProduct(name), TON_KM, region, PRODUCTION, 1.0, None)]
  {
    Dataset(name, MarketProduct(name), TON_KM, region,
            "Fleet-average vehicle for the year " + year + ", for the region " + region + ".",
            [Exchange(name, MarketProduct(name), TON_KM, region, PRODUCTION, 1.0, None)])
  }

  /** The product choice after the vehicles `vs`, starting from `previous`:
      each vehicle in turn updates it as `VehicleProduct` says. */
  function ChoiceAfter(vs: seq<string>, previous: Option<(string, string)>): Option<(string, string)>
    decreases |vs|
  {
    if |vs| == 0 then previous else VehicleProduct(vs[|vs| - 1], ChoiceAfter(vs[..|vs| - 1], previous))
  }

  /** A vehicle that names a lorry or a train decides the product. */
  predicate Decides(v: string) {
    Contains(v, "lorry") || Contains(v, "train")
  }

  /** Choosing over `a` and then over `b` is choosing over `a + b`. */
  lemma {:induction false} ChoiceAfterAppend(a: seq<string>, b: seq<string>, previous: Option<(string, string)>)
    ensures ChoiceAfter(b, ChoiceAfter(a, previous)) == ChoiceAfter(a + b, previous)
    decreases |b|
  {
    if |b| > 0 {
      ChoiceAfterAppend(a, b[..|b| - 1], previous);
      assert (a + b)[..|a + b| - 1] == a + b[..|b| - 1];
      assert (a + b)[|a + b| - 1] == b[|b| - 1];
    } else {
      assert a + b == a;
    }
  }

  /** Once some vehicle decides, the choice no longer depends on where it
      started; when none decides, the starting choice is kept. */
  lemma {:induction false} ChoiceAfterDeciders(vs: seq<string>, p: Option<(string, string)>, q: Option<(string, string)>)
    ensures (exists k :: 0 <= k < |vs| && Decides(vs[k])) ==> ChoiceAfter(vs, p) == ChoiceAfter(vs, q)
    ensures (forall k :: 0 <= k < |vs| ==> !Decides(vs[k])) ==> ChoiceAfter(vs, p) == p
    decreases |vs|
  {
    if |vs| > 0 {
      var init := vs[..|vs| - 1];
      ChoiceAfterDeciders(init, p, q);
      assert forall k :: 0 <= k < |init| ==> init[k] == vs[k];
      if !Decides(vs[|vs| - 1]) {
        assert (exists k :: 0 <= k < |vs| && Decides(vs[k])) ==> exists k :: 0 <= k < |init| && Decides(init[k]);
      }
    }
  }

  /** Going through the same vehicles twice chooses as going through them once. */
  lemma ChoiceAfterTwice(vs: seq<string>, p: Option<(string, string)>)
    ensures ChoiceAfter(vs, ChoiceAfter(vs, p)) == ChoiceAfter(vs, p)
  {
    ChoiceAfterDeciders(vs, ChoiceAfter(vs, p), p);
  }

  /** The product name of a choice; unused when there is none. */
  function ProductOf(c: Option<(string, string)>): string {
    if c.Some? then c.value.0 + c.value.1 else ""
  }

  /** The exchange vehicle `k` stands for: its share, and the product chosen
      once it has been read. */
  function Offer(region: string, vehicles: seq<string>, share: string -> real, previous: Option<(string, string)>, k: nat)
    : Exchange
    requires k < |vehicles|
  {
    Exchange(vehicles[k], ProductOf(ChoiceAfter(vehicles[..k + 1], previous)), TON_KM, region, TECHNOSPHERE,
             share(vehicles[k]), None)
  }

  function Offers(region: string, vehicles: seq<string>, share: string -> real, previous: Option<(string, string)>)
    : (r: seq<Exchange>)
    ensures |r| == |vehicles| && forall k :: 0 <= k < |vehicles| ==> r[k] == Offer(region, vehicles, share, previous, k)
  {
    seq(|vehicles|, k requires 0 <= k < |vehicles| => Offer(region, vehicles, share, previous, k))
  }

  predicate IsPositive(e: Exchange) {
    e.amount > 0.0
  }

  /** The inputs a regional market receives: the exchange of every vehicle
      with a positive share, in vehicle order. */
  function VehicleInputs(region: string, vehicles: seq<string>, share: string -> real, previous: Option<(string, string)>)
    : seq<Exchange>
  {
    Filter(Offers(region, vehicles, share, previous), IsPositive)
  }

  /** Some vehicle with a positive share is reached while no product has been
      chosen yet. */
  predicate ReadsUnbound(vehicles: seq<string>, share: string -> real, previous: Option<(string, string)>) {
    exists k :: 0 <= k < |vehicles| && share(vehicles[k]) > 0.0 && ChoiceAfter(vehicles[..k + 1], previous).None?
  }

  /** How the reference definitions above split off the first vehicle. */
  lemma VehicleStep(region: string, vehicles: seq<string>, share: string -> real, previous: Option<(string, string)>)
    requires |vehicles| > 0
    ensures var c := VehicleProduct(vehicles[0], previous);
            var e := Exchange(vehicles[0], ProductOf(c), TON_KM, region, TECHNOSPHERE, share(vehicles[0]), None);
            VehicleInputs(region, vehicles, share, previous) ==
              (if share(vehicles[0]) > 0.0 then [e] else []) + VehicleInputs(region, vehicles[1..], share, c) &&
            ChoiceAfter(vehicles, previous) == ChoiceAfter(vehicles[1..], c) &&
            (ReadsUnbound(vehicles, share, previous) <==>
               (share(vehicles[0]) > 0.0 && c.None?) || ReadsUnbound(vehicles[1..], share, c))
  {
    ChoiceStep(vehicles, previous);
    OffersStep(region, vehicles, share, previous);
    UnboundStep(vehicles, share, previous);
  }

  /** Every choice after a prefix of the vehicles is the choice after the
      first vehicle continued over the rest of the prefix. */
  lemma ChoiceStep(vehicles: seq<string>, previous: Option<(string, string)>)
    requires |vehicles| > 0
    ensures var c := VehicleProduct(vehicles[0], previous);
            ChoiceAfter(vehicles[..1], previous) == c &&
            ChoiceAfter(vehicles, previous) == ChoiceAfter(vehicles[1..], c) &&
            forall k :: 1 <= k < |vehicles| ==> ChoiceAfter(vehicles[1..][..k], c) == ChoiceAfter(vehicles[..k + 1], previous)
  {
    var c := VehicleProduct(vehicles[0], previous);
    var head := vehicles[..1];
    assert head[..0] == [];
    assert ChoiceAfter(head, previous) == c;
    forall k | 1 <= k < |vehicles|
      ensures ChoiceAfter(vehicles[1..][..k], c) == ChoiceAfter(vehicles[..k + 1], previous)
    {
      ChoiceAfterAppend(head, vehicles[1..][..k], previous);
      assert head + vehicles[1..][..k] == vehicles[..k + 1];
    }
    ChoiceAfterAppend(head, vehicles[1..], previous);
    assert head + vehicles[1..] == vehicles;
  }

  lemma OffersStep(region: string, vehicles: seq<string>, share: string -> real, previous: Option<(string, string)>)
    requires |vehicles| > 0
    ensures var c := VehicleProduct(vehicles[0], previous);
            var e := Exchange(vehicles[0], ProductOf(c), TON_KM, region, TECHNOSPHERE, share(vehicles[0]), None);
            VehicleInputs(region, vehicles, share, previous) ==
              (if share(vehicles[0]) > 0.0 then [e] else []) + VehicleInputs(region, vehicles[1..], share, c)
  {
    var c := VehicleProduct(vehicles[0], previous);
    ChoiceStep(vehicles, previous);
    var all, tail := Offers(region, vehicles, share, previous), Offers(region, vehicles[1..], share, c);
    assert all == [all[0]] + tail by {
      forall k | 0 < k < |all| ensures all[k] == tail[k - 1] {
        assert vehicles[1..][k - 1] == vehicles[k];
      }
    }
  }

  lemma UnboundStep(vehicles: seq<string>, share: string -> real, previous: Option<(string, string)>)
    requires |vehicles| > 0
    ensures var c := VehicleProduct(vehicles[0], previous);
            ReadsUnbound(vehicles, share, previous) <==>
              (share(vehicles[0]) > 0.0 && c.None?) || ReadsUnbound(vehicles[1..], share, c)
  {
    var c := VehicleProduct(vehicles[0], previous);
    ChoiceStep(vehicles, previous);
    if ReadsUnbound(vehicles, share, previous) {
      var k :| 0 <= k < |vehicles| && share(vehicles[k]) > 0.0 && ChoiceAfter(vehicles[..k + 1], previous).None?;
      if k > 0 {
        assert vehicles[1..][k - 1] == vehicles[k];
      }
    }
    if ReadsUnbound(vehicles[1..], share, c) {
      var k :| 0 <= k < |vehicles[1..]| && share(vehicles[1..][k]) > 0.0 && ChoiceAfter(vehicles[1..][..k + 1], c).None?;
      assert vehicles[k + 1] == vehicles[1..][k];
    }
  }

  /** The exchanges the vehicles of a regional market add, threading the
      product choice of the last vehicle. Only positive shares are added; a
      positive share before any lorry or train vehicle reads an unbound
      product and raises. */
  function VehicleExchanges(region: string, vehicles: seq<string>, share: string -> real, previous: Option<(string, string)>)
    : (r: Result<(seq<Exchange>, Option<(string, string)>)>)
    ensures r.Success? <==> !ReadsUnbound(vehicles, share, previous)
    ensures r.Success? ==> r.value == (VehicleInputs(region, vehicles, share, previous), ChoiceAfter(vehicles, previous))
    ensures r.Success? ==> forall k :: 0 <= k < |r.value.0| ==>
              IsTechnosphere(r.value.0[k]) && r.value.0[k].amount > 0.0 && r.value.0[k].location == region &&
              r.value.0[k].unit == TON_KM && r.value.0[k].name in vehicles && share(r.value.0[k].name) == r.value.0[k].amount
    ensures r.Success? ==> |r.value.0| <= |vehicles|
    ensures r.Failure? ==> r.error == UnboundLocalError
    decreases |vehicles|
  {
    if |vehicles| == 0 then Success(([], previous))
    else
      var v := vehicles[0];
      var choice := VehicleProduct(v, previous);
      VehicleStep(region, vehicles, share, previous);
      if share(v) > 0.0 then
        if choice.None? then Failure(UnboundLocalError)
        else
          var e := Exchange(v, choice.value.0 + choice.value.1, TON_KM, region, TECHNOSPHERE, share(v), None);
          var (rest, last) :- VehicleExchanges(region, vehicles[1..], share, choice);
          assert forall x :: x in vehicles[1..] ==> x in vehicles;
          Success(([e] + rest, last))
      else
        var (rest, last) :- VehicleExchanges(region, vehicles[1..], share, choice);
        assert forall x :: x in vehicles[1..] ==> x in vehicles;
        assert [] + rest == rest;
        Success((rest, last))
  }

  /** The shares of the vehicles of market `name` at `region`. */
  function SharesIn(share: (string, string, string) -> real, name: string, region: string): string -> real {
    v => share(name, region, v)
  }

  /** `d` is a market of `name` at `region`: it supplies its name's product,
      starts with one unit of production, and otherwise has only positive
      technosphere inputs from `vehicles` at its region, none when World. */
  predicate IsMarketOf(d: Dataset, name: string, region: string, vehicles: seq<string>) {
    d.name == name && d.location == region &&
    d.referenceProduct == MarketProduct(name) && |d.exchanges| >= 1 &&
    d.exchanges[0] == Exchange(name, MarketProduct(name), TON_KM, region, PRODUCTION, 1.0, None) &&
    (region == WORLD ==> |d.exchanges| == 1) &&
    forall m :: 1 <= m < |d.exchanges| ==>
      IsTechnosphere(d.exchanges[m]) && d.exchanges[m].amount > 0.0 &&
      d.exchanges[m].location == region && d.exchanges[m].name in vehicles
  }

  /** One regional market: the World market gets no vehicle exchanges here. */
  function RegionalMarket(name: string, region: string, vehicles: seq<string>, share: (string, string, string) -> real,
                          year: string, previous: Option<(string, string)>): (r: Result<(Dataset, Option<(string, string)>)>)
    ensures r.Success? <==> region == WORLD || !ReadsUnbound(vehicles, SharesIn(share, name, region), previous)
    ensures r.Success? && region != WORLD ==>
              var market := NewMarket(name, region, year);
              r.value == (market.(exchanges := market.exchanges + VehicleInputs(region, vehicles, SharesIn(share, name, region), previous)),
                          ChoiceAfter(vehicles, previous))
    ensures r.Success? ==> IsMarketOf(r.value.0, name, region, vehicles)
    ensures region == WORLD ==> r == Success((NewMarket(name, region, year), previous))
    ensures r.Failure? ==> r.error == UnboundLocalError
  {
    var market := NewMarket(name, region, year);
    if region == WORLD then Success((market, previous))
    else
      var (excs, last) :- VehicleExchanges(region, vehicles, SharesIn(share, name, region), previous);
      Success((market.(exchanges := market.exchanges + excs), last))
  }

  /** Some region of `regions` is not World. */
  predicate AnyRegional(regions: seq<string>) {
    exists j :: 0 <= j < |regions| && regions[j] != WORLD
  }

  /** The product choice the market at position `k` starts from: the choice
      after the vehicles once some earlier region was not World, and the
      starting one until then. */
  function ChoiceAt(regions: seq<string>, k: nat, vehicles: seq<string>, previous: Option<(string, string)>)
    : Option<(string, string)>
    requires k <= |regions|
  {
    if AnyRegional(regions[..k]) then ChoiceAfter(vehicles, previous) else previous
  }

  /** How `ChoiceAt` splits off the first region. */
  lemma ChoiceAtStep(regions: seq<string>, vehicles: seq<string>, previous: Option<(string, string)>, k: nat)
    requires k < |regions|
    ensures var p := if regions[0] == WORLD then previous else ChoiceAfter(vehicles, previous);
            ChoiceAt(regions[1..], k, vehicles, p) == ChoiceAt(regions, k + 1, vehicles, previous)
  {
    var tail := regions[1..][..k];
    assert regions[..k + 1] == [regions[0]] + tail;
    assert AnyRegional(regions[..k + 1]) <==> regions[0] != WORLD || AnyRegional(tail) by {
      if AnyRegional(regions[..k + 1]) && regions[0] == WORLD {
        var j :| 0 <= j < k + 1 && regions[..k + 1][j] != WORLD;
        assert tail[j - 1] == regions[..k + 1][j];
      }
      if AnyRegional(tail) {
        var j :| 0 <= j < k && tail[j] != WORLD;
        assert regions[..k + 1][j + 1] == tail[j];
      }
      if regions[0] != WORLD {
        assert regions[..k + 1][0] == regions[0];
      }
    }
    ChoiceAfterTwice(vehicles, previous);
  }

  /** Every non-World region of `regions` reaches its positive shares with a
      product chosen. */
  predicate BuildsAll(name: string, regions: seq<string>, vehicles: seq<string>,
                      share: (string, string, string) -> real, previous: Option<(string, string)>) {
    forall k :: 0 <= k < |regions| && regions[k] != WORLD ==>
      !ReadsUnbound(vehicles, SharesIn(share, name, regions[k]), ChoiceAt(regions, k, vehicles, previous))
  }

  /** The market at position `k`, built from the choice `ChoiceAt` names. */
  function MarketAt(name: string, regions: seq<string>, k: nat, vehicles: seq<string>,
                    share: (string, string, string) -> real, year: string, previous: Option<(string, string)>)
    : Result<(Dataset, Option<(string, string)>)>
    requires k < |regions|
  {
    RegionalMarket(name, regions[k], vehicles, share, year, ChoiceAt(regions, k, vehicles, previous))
  }

  /** How `BuildsAll` splits off the first region. */
  lemma BuildsAllStep(name: string, regions: seq<string>, vehicles: seq<string>,
                      share: (string, string, string) -> real, previous: Option<(string, string)>)
    requires |regions| > 0
    ensures var p := if regions[0] == WORLD then previous else ChoiceAfter(vehicles, previous);
            BuildsAll(name, regions, vehicles, share, previous) <==>
              (regions[0] == WORLD || !ReadsUnbound(vehicles, SharesIn(share, name, regions[0]), previous)) &&
              BuildsAll(name, regions[1..], vehicles, share, p)
  {
    var p := if regions[0] == WORLD then previous else ChoiceAfter(vehicles, previous);
    assert regions[..0] == [];
    assert ChoiceAt(regions, 0, vehicles, previous) == previous;
    if BuildsAll(name, regions, vehicles, share, previous) {
      BuildsAllTail(name, regions, vehicles, share, previous, p);
    }
    if (regions[0] == WORLD || !ReadsUnbound(vehicles, SharesIn(share, name, regions[0]), previous)) &&
       BuildsAll(name, regions[1..], vehicles, share, p) {
      BuildsAllFromTail(name, regions, vehicles, share, previous, p);
    }
  }

  lemma BuildsAllTail(name: string, regions: seq<string>, vehicles: seq<string>,
                      share: (string, string, string) -> real, previous: Option<(string, string)>, p: Option<(string, string)>)
    requires |regions| > 0 && p == if regions[0] == WORLD then previous else ChoiceAfter(vehicles, previous)
    requires BuildsAll(name, regions, vehicles, share, previous)
    ensures BuildsAll(name, regions[1..], vehicles, share, p)
  {
    forall k | 0 <= k < |regions| - 1 && regions[1..][k] != WORLD
      ensures !ReadsUnbound(vehicles, SharesIn(share, name, regions[1..][k]), ChoiceAt(regions[1..], k, vehicles, p))
    {
      ChoiceAtStep(regions, vehicles, previous, k);
      assert regions[1..][k] == regions[k + 1];
    }
  }

  lemma BuildsAllFromTail(name: string, regions: seq<string>, vehicles: seq<string>,
                          share: (string, string, string) -> real, previous: Option<(string, string)>, p: Option<(string, string)>)
    requires |regions| > 0 && p == if regions[0] == WORLD then previous else ChoiceAfter(vehicles, previous)
    requires ChoiceAt(regions, 0, vehicles, previous) == previous
    requires regions[0] == WORLD || !ReadsUnbound(vehicles, SharesIn(share, name, regions[0]), previous)
    requires BuildsAll(name, regions[1..], vehicles, share, p)
    ensures BuildsAll(name, regions, vehicles, share, previous)
  {
    forall k | 0 < k < |regions| && regions[k] != WORLD
      ensures !ReadsUnbound(vehicles, SharesIn(share, name, regions[k]), ChoiceAt(regions, k, vehicles, previous))
    {
      ChoiceAtStep(regions, vehicles, previous, k - 1);
      assert regions[1..][k - 1] == regions[k];
    }
  }

  /** How `MarketAt` splits off the first region. */
  lemma MarketAtStep(name: string, regions: seq<string>, vehicles: seq<string>,
                     share: (string, string, string) -> real, year: string, previous: Option<(string, string)>)
    requires |regions| > 0
    ensures MarketAt(name, regions, 0, vehicles, share, year, previous) ==
            RegionalMarket(name, regions[0], vehicles, share, year, previous)
    ensures var p := if regions[0] == WORLD then previous else ChoiceAfter(vehicles, previous);
            ChoiceAt(regions[1..], |regions| - 1, vehicles, p) == ChoiceAt(regions, |regions|, vehicles, previous)
    ensures var p := if regions[0] == WORLD then previous else ChoiceAfter(vehicles, previous);
            forall k :: 0 <= k < |regions| - 1 ==>
              MarketAt(name, regions[1..], k, vehicles, share, year, p) == MarketAt(name, regions, k + 1, vehicles, share, year, previous)
  {
    var p := if regions[0] == WORLD then previous else ChoiceAfter(vehicles, previous);
    assert regions[..0] == [];
    forall k | 0 <= k < |regions| - 1
      ensures MarketAt(name, regions[1..], k, vehicles, share, year, p) == MarketAt(name, regions, k + 1, vehicles, share, year, previous)
    {
      MarketAtShift(name, regions, vehicles, share, year, previous, p, k);
    }
    ChoiceAtEnd(regions, vehicles, previous, p);
  }

  lemma ChoiceAtEnd(regions: seq<string>, vehicles: seq<string>, previous: Option<(string, string)>, p: Option<(string, string)>)
    requires |regions| > 0 && p == if regions[0] == WORLD then previous else ChoiceAfter(vehicles, previous)
    ensures ChoiceAt(regions[1..], |regions| - 1, vehicles, p) == ChoiceAt(regions, |regions|, vehicles, previous)
  {
    ChoiceAtStep(regions, vehicles, previous, |regions| - 1);
  }

  lemma MarketAtShift(name: string, regions: seq<string>, vehicles: seq<string>,
                      share: (string, string, string) -> real, year: string, previous: Option<(string, string)>,
                      p: Option<(string, string)>, k: nat)
    requires k < |regions| - 1 && p == if regions[0] == WORLD then previous else ChoiceAfter(vehicles, previous)
    ensures MarketAt(name, regions[1..], k, vehicles, share, year, p) == MarketAt(name, regions, k + 1, vehicles, share, year, previous)
  {
    ChoiceAtStep(regions, vehicles, previous, k);
    assert regions[1..][k] == regions[k + 1];
  }

  /** `out` holds the market at every position of `regions`, in order. */
  ghost predicate MarketsMatch(name: string, regions: seq<string>, vehicles: seq<string>,
                               share: (string, string, string) -> real, year: string,
                               previous: Option<(string, string)>, out: seq<Dataset>) {
    |out| == |regions| &&
    forall k :: 0 <= k < |regions| ==>
      MarketAt(name, regions, k, vehicles, share, year, previous).Success? &&
      out[k] == MarketAt(name, regions, k, vehicles, share, year, previous).value.0 &&
      IsMarketOf(out[k], name, regions[k], vehicles)
  }

  /** The market of the first region followed by the markets of the rest. */
  lemma MarketsMatchCons(name: string, regions: seq<string>, vehicles: seq<string>,
                         share: (string, string, string) -> real, year: string, previous: Option<(string, string)>,
                         d: Dataset, p: Option<(string, string)>, rest: seq<Dataset>)
    requires |regions| > 0
    requires RegionalMarket(name, regions[0], vehicles, share, year, previous) == Success((d, p))
    requires MarketsMatch(name, regions[1..], vehicles, share, year, p, rest)
    ensures MarketsMatch(name, regions, vehicles, share, year, previous, [d] + rest)
  {
    MarketAtStep(name, regions, vehicles, share, year, previous);
    var out := [d] + rest;
    forall k | 0 < k < |regions|
      ensures MarketAt(name, regions, k, vehicles, share, year, previous).Success? &&
              out[k] == MarketAt(name, regions, k, vehicles, share, year, previous).value.0 &&
              IsMarketOf(out[k], name, regions[k], vehicles)
    {
      assert out[k] == rest[k - 1] && regions[k] == regions[1..][k - 1];
      assert MarketAt(name, regions[1..], k - 1, vehicles, share, year, p).Success?;
    }
  }

  /** The regional markets of `name`, one per region in region order. */
  function MarketsForRegions(name: string, regions: seq<string>, vehicles: seq<string>,
                             share: (string, string, string) -> real, year: string, previous: Option<(string, string)>)
    : (r: Result<(seq<Dataset>, Option<(string, string)>)>)
    ensures r.Success? <==> BuildsAll(name, regions, vehicles, share, previous)
    ensures r.Success? ==> r.value.1 == ChoiceAt(regions, |regions|, vehicles, previous)
    ensures r.Success? ==> MarketsMatch(name, regions, vehicles, share, year, previous, r.value.0)
    ensures r.Failure? ==> r.error == UnboundLocalError
    decreases |regions|
  {
    if |regions| == 0 then Success(([], previous))
    else
      match RegionalMarket(name, regions[0], vehicles, share, year, previous)
      case Failure(e) =>
        BuildsAllStep(name, regions, vehicles, share, previous);
        Failure(e)
      case Success((d, p)) =>
        match MarketsForRegions(name, regions[1..], vehicles, share, year, p)
        case Failure(e) =>
          BuildsAllStep(name, regions, vehicles, share, previous);
          Failure(e)
        case Success((rest, last)) =>
          MarketsCons(name, regions, vehicles, share, year, previous, d, p, rest, last);
          Success(([d] + rest, last))
  }

  /** The markets of the first region followed by those of the others. */
  lemma MarketsCons(name: string, regions: seq<string>, vehicles: seq<string>,
                    share: (string, string, string) -> real, year: string, previous: Option<(string, string)>,
                    d: Dataset, p: Option<(string, string)>, rest: seq<Dataset>, last: Option<(string, string)>)
    requires |regions| > 0
    requires RegionalMarket(name, regions[0], vehicles, share, year, previous) == Success((d, p))
    requires BuildsAll(name, regions[1..], vehicles, share, p)
    requires last == ChoiceAt(regions[1..], |regions| - 1, vehicles, p)
    requires MarketsMatch(name, regions[1..], vehicles, share, year, p, rest)
    ensures BuildsAll(name, regions, vehicles, share, previous)
    ensures last == ChoiceAt(regions, |regions|, vehicles, previous)
    ensures MarketsMatch(name, regions, vehicles, share, year, previous, [d] + rest)
  {
    BuildsAllStep(name, regions, vehicles, share, previous);
    ChoiceAtEnd(regions, vehicles, previous, p);
    MarketsMatchCons(name, regions, vehicles, share, year, previous, d, p, rest);
  }

  /** A lorry or train market supplying the product its name announces: one
      ton kilometer of production first, then, outside World, positive
      technosphere inputs at its own location. */
  predicate MarketShape(d: Dataset) {
    (d.name == LORRY_MARKET || d.name == TRAIN_MARKET) &&
    d.referenceProduct == MarketProduct(d.name) &&
    |d.exchanges| >= 1 &&
    d.exchanges[0] == Exchange(d.name, MarketProduct(d.name), TON_KM, d.location, PRODUCTION, 1.0, None) &&
    (d.location == WORLD ==> |d.exchanges| == 1) &&
    forall m :: 1 <= m < |d.exchanges| ==>
      IsTechnosphere(d.exchanges[m]) && d.exchanges[m].amount > 0.0 &&
      d.exchanges[m].location == d.location && d.location != WORLD
  }

  /** The regional-market loop of `generate_transport_markets`: the lorry
      market for every region, then the train market for every region, the
      trains starting from the product the lorries chose last. */
  function RegionalMarkets(regions: seq<string>, roadVehicles: seq<string>, railVehicles: seq<string>,
                           share: (string, string, string) -> real, year: string): (r: Result<seq<Dataset>>)
    ensures r.Success? <==>
              BuildsAll(LORRY_MARKET, regions, roadVehicles, share, None) &&
              BuildsAll(TRAIN_MARKET, regions, railVehicles, share, ChoiceAt(regions, |regions|, roadVehicles, None))
    ensures r.Success? ==> |r.value| == 2 * |regions|
    ensures r.Success? ==>
              MarketsMatch(LORRY_MARKET, regions, roadVehicles, share, year, None, r.value[..|regions|]) &&
              MarketsMatch(TRAIN_MARKET, regions, railVehicles, share, year,
                           ChoiceAt(regions, |regions|, roadVehicles, None), r.value[|regions|..])
    ensures r.Success? ==> forall k :: 0 <= k < |r.value| ==> MarketShape(r.value[k])
    ensures r.Failure? ==> r.error == UnboundLocalError
  {
    var (lorries, p) :- MarketsForRegions(LORRY_MARKET, regions, roadVehicles, share, year, None);
    var (trains, _) :- MarketsForRegions(TRAIN_MARKET, regions, railVehicles, share, year, p);
    var r := lorries + trains;
    assert r[..|regions|] == lorries && r[|regions|..] == trains;
    MatchedShapes(LORRY_MARKET, regions, roadVehicles, share, year, None, lorries);
    MatchedShapes(TRAIN_MARKET, regions, railVehicles, share, year, p, trains);
    ShapesAppend(lorries, trains);
    Success(r)
  }

  /** Matched lorry or train markets all have the market shape. */
  lemma MatchedShapes(name: string, regions: seq<string>, vehicles: seq<string>,
                      share: (string, string, string) -> real, year: string,
                      previous: Option<(string, string)>, out: seq<Dataset>)
    requires name == LORRY_MARKET || name == TRAIN_MARKET
    requires MarketsMatch(name, regions, vehicles, share, year, previous, out)
    ensures forall k :: 0 <= k < |out| ==> MarketShape(out[k])
  {
    forall k | 0 <= k < |out| ensures MarketShape(out[k]) {
      assert IsMarketOf(out[k], name, regions[k], vehicles);
    }
  }

  lemma ShapesAppend(a: seq<Dataset>, b: seq<Dataset>)
    requires forall k :: 0 <= k < |a| ==> MarketShape(a[k])
    requires forall k :: 0 <= k < |b| ==> MarketShape(b[k])
    ensures forall k :: 0 <= k < |a + b| ==> MarketShape((a + b)[k])
  {
    forall k | 0 <= k < |a + b| ensures MarketShape((a + b)[k]) {
      if k >= |a| {
        assert (a + b)[k] == b[k - |a|];
      }
    }
  }

  predicate IsRegional(region: string) {
    region != WORLD
  }

  /** The regions that are not World, in order. */
  function NonWorld(regions: seq<string>): seq<string> {
    Filter(regions, IsRegional)
  }

  /** The input of a World market from `region`: its own product, at `amount`. */
  function WorldInput(market: Dataset, region: string, amount: real): Exchange {
    Exchange(market.name, MarketProduct(market.name), TON_KM, region, TECHNOSPHERE, amount, None)
  }

  /** The inputs of a World market, one per non-World region in order, each at
      that region's share of `variable`. */
  function WorldInputs(market: Dataset, regions: seq<string>, variable: string, regionalShare: (string, string) -> real)
    : (r: seq<Exchange>)
    ensures |r| == |NonWorld(regions)|
    ensures forall j :: 0 <= j < |r| ==>
              r[j] == WorldInput(market, NonWorld(regions)[j], regionalShare(NonWorld(regions)[j], variable))
  {
    var nw := NonWorld(regions);
    seq(|nw|, j requires 0 <= j < |nw| => WorldInput(market, nw[j], regionalShare(nw[j], variable)))
  }

  /** Every non-World region has a share. */
  predicate SharesCover(regions: seq<string>, shares: map<string, real>) {
    forall k :: 0 <= k < |regions| && regions[k] != WORLD ==> regions[k] in shares
  }

  /** `out` holds, in order, the input from every non-World region at its share. */
  predicate InputsAtShares(market: Dataset, regions: seq<string>, shares: map<string, real>, out: seq<Exchange>) {
    |out| == |NonWorld(regions)| && forall j :: 0 <= j < |out| ==>
      NonWorld(regions)[j] in shares && out[j] == WorldInput(market, NonWorld(regions)[j], shares[NonWorld(regions)[j]])
  }

  /** The exchanges of a World market: its own product, from every non-World
      region, at that region's share; a region without a share raises. */
  function WorldExchanges(market: Dataset, regions: seq<string>, shares: map<string, real>): (r: Result<seq<Exchange>>)
    ensures r.Success? <==> SharesCover(regions, shares)
    ensures r.Failure? ==> r.error == KeyError
    ensures r.Success? ==> InputsAtShares(market, regions, shares, r.value)
    decreases |regions|
  {
    if |regions| == 0 then Success([])
    else
      SharesCoverCons(regions, shares);
      if regions[0] == WORLD then
        InputsSkipWorld(market, regions, shares);
        WorldExchanges(market, regions[1..], shares)
      else if regions[0] !in shares then Failure(KeyError)
      else
        var rest :- WorldExchanges(market, regions[1..], shares);
        InputsCons(market, regions, shares, rest);
        Success([WorldInput(market, regions[0], shares[regions[0]])] + rest)
  }

  lemma SharesCoverCons(regions: seq<string>, shares: map<string, real>)
    requires |regions| > 0
    ensures SharesCover(regions, shares) <==>
            (regions[0] == WORLD || regions[0] in shares) && SharesCover(regions[1..], shares)
  {
    assert forall k :: 0 < k < |regions| ==> regions[k] == regions[1..][k - 1];
  }

  lemma InputsSkipWorld(market: Dataset, regions: seq<string>, shares: map<string, real>)
    requires |regions| > 0 && regions[0] == WORLD
    ensures forall out :: InputsAtShares(market, regions[1..], shares, out) ==> InputsAtShares(market, regions, shares, out)
  {
    assert regions == [regions[0]] + regions[1..];
    assert NonWorld(regions) == NonWorld(regions[1..]);
  }

  lemma InputsCons(market: Dataset, regions: seq<string>, shares: map<string, real>, rest: seq<Exchange>)
    requires |regions| > 0 && regions[0] != WORLD && regions[0] in shares
    requires InputsAtShares(market, regions[1..], shares, rest)
    ensures InputsAtShares(market, regions, shares, [WorldInput(market, regions[0], shares[regions[0]])] + rest)
  {
    var out := [WorldInput(market, regions[0], shares[regions[0]])] + rest;
    var nw := NonWorld(regions);
    assert nw == [regions[0]] + NonWorld(regions[1..]);
    forall j | 0 < j < |out| ensures nw[j] in shares && out[j] == WorldInput(market, nw[j], shares[nw[j]]) {
      assert out[j] == rest[j - 1] && nw[j] == NonWorld(regions[1..])[j - 1];
    }
  }

  /** The World exchanges are the World inputs when every non-World region
      has its share of `variable`. */
  lemma WorldExchangesAreInputs(market: Dataset, regions: seq<string>, shares: map<string, real>,
                                variable: string, regionalShare: (string, string) -> real)
    requires forall x :: x in regions && x != WORLD ==> x in shares && shares[x] == regionalShare(x, variable)
    ensures WorldExchanges(market, regions, shares) == Success(WorldInputs(market, regions, variable, regionalShare))
  {
    var r := WorldExchanges(market, regions, shares);
    assert r.Success? by {
      forall k | 0 <= k < |regions| && regions[k] != WORLD ensures regions[k] in shares {
        assert regions[k] in regions;
      }
    }
    var w := WorldInputs(market, regions, variable, regionalShare);
    forall j | 0 <= j < |w| ensures r.value[j] == w[j] {
      var x := NonWorld(regions)[j];
      assert x in regions && IsRegional(x);
    }
    assert r.value == w;
  }

  /** The `dict_regional_shares` loop as written: one pass per transport mode
      over the non-World regions, each pass overwriting the previous one. */
  function OverwrittenShares(modes: Dict<string>, regions: seq<string>, regionalShare: (string, string) -> real,
                             acc: map<string, real>): (r: map<string, real>)
    ensures |modes| > 0 ==> forall x :: x in regions && x != WORLD ==>
              x in r && r[x] == regionalShare(x, modes[|modes| - 1].1)
    ensures |modes| == 0 ==> r == acc
    decreases |modes|
  {
    if |modes| == 0 then acc
    else OverwrittenShares(modes[1..], regions, regionalShare, ModeShares(modes[0].1, regions, regionalShare, acc))
  }

  /** The regional shares of one mode variable, over `acc`. */
  function ModeShares(variable: string, regions: seq<string>, regionalShare: (string, string) -> real,
                      acc: map<string, real>): (r: map<string, real>)
    ensures forall x :: x in regions && x != WORLD ==> x in r && r[x] == regionalShare(x, variable)
    ensures forall x :: x in acc ==> x in r && (r[x] == acc[x] || (x in regions && r[x] == regionalShare(x, variable)))
    ensures forall x :: x in r ==> x in acc || x in regions
    decreases |regions|
  {
    if |regions| == 0 then acc
    else
      var acc' := if regions[0] == WORLD then acc else acc[regions[0] := regionalShare(regions[0], variable)];
      var r := ModeShares(variable, regions[1..], regionalShare, acc');
      assert forall x :: x in regions ==> x == regions[0] || x in regions[1..];
      assert forall x :: x in regions[1..] ==> x in regions;
      assert forall x :: x in acc' ==> x in acc || x == regions[0];
      r
  }

  /** The World step as written: every World market takes the shares of the
      last transport mode. With no mode at all the shares are empty, and a
      World market with a non-World region to read raises. */
  function AddWorldExchangesAsWritten(markets: seq<Dataset>, regions: seq<string>, modes: Dict<string>,
                                      regionalShare: (string, string) -> real): (r: Result<seq<Dataset>>)
    ensures r.Success? <==>
              |modes| > 0 || |NonWorld(regions)| == 0 || forall k :: 0 <= k < |markets| ==> markets[k].location != WORLD
    ensures r.Success? ==> |r.value| == |markets|
    ensures r.Success? && |modes| > 0 ==> forall k :: 0 <= k < |markets| ==>
              r.value[k] == if markets[k].location == WORLD
                            then markets[k].(exchanges := markets[k].exchanges +
                                               WorldInputs(markets[k], regions, modes[|modes| - 1].1, regionalShare))
                            else markets[k]
    ensures r.Success? && |modes| == 0 ==> r.value == markets
  {
    var shares := OverwrittenShares(modes, regions, regionalShare, map[]);
    LastModeShares(markets, regions, modes, regionalShare);
    var r := AddWorldExchanges(markets, regions, _ => Success(shares));
    if r.Success? && |modes| == 0 then
      NothingAdded(markets, regions, shares, r.value);
      r
    else r
  }

  /** When no market gains a World input, the World step changes nothing. */
  lemma NothingAdded(markets: seq<Dataset>, regions: seq<string>, shares: map<string, real>, out: seq<Dataset>)
    requires |out| == |markets|
    requires forall k :: 0 <= k < |markets| ==> WorldAdded(markets[k], regions, _ => Success(shares), out[k])
    requires forall k :: 0 <= k < |markets| ==> markets[k].location != WORLD || |NonWorld(regions)| == 0
    ensures out == markets
  {
    forall k | 0 <= k < |markets| ensures out[k] == markets[k] {
      if markets[k].location == WORLD {
        var added := WorldExchanges(markets[k], regions, shares).value;
        assert InputsAtShares(markets[k], regions, shares, added);
        assert markets[k].exchanges + added == markets[k].exchanges;
      }
    }
  }

  /** The World exchanges over the shares as written. */
  lemma LastModeShares(markets: seq<Dataset>, regions: seq<string>, modes: Dict<string>,
                       regionalShare: (string, string) -> real)
    ensures var shares := OverwrittenShares(modes, regions, regionalShare, map[]);
            forall k :: 0 <= k < |markets| ==>
              (WorldExchanges(markets[k], regions, shares).Success? <==> |modes| > 0 || |NonWorld(regions)| == 0) &&
              (|modes| > 0 ==>
                 WorldExchanges(markets[k], regions, shares) ==
                 Success(WorldInputs(markets[k], regions, modes[|modes| - 1].1, regionalShare)))
  {
    var shares := OverwrittenShares(modes, regions, regionalShare, map[]);
    if |modes| > 0 {
      forall k | 0 <= k < |markets|
        ensures WorldExchanges(markets[k], regions, shares) ==
                Success(WorldInputs(markets[k], regions, modes[|modes| - 1].1, regionalShare))
      {
        WorldExchangesAreInputs(markets[k], regions, shares, modes[|modes| - 1].1, regionalShare);
      }
    } else if |NonWorld(regions)| > 0 {
      var x := NonWorld(regions)[0];
      assert x in regions && IsRegional(x);
      var i :| 0 <= i < |regions| && regions[i] == x;
      assert x !in shares;
    } else {
      FilterNonEmpty(regions, IsRegional);
    }
  }

  /** The mode variable of the market `name`. */
  function ModeVariable(modes: Dict<string>, name: string): string
    requires name in KeysOf(modes)
  {
    modes[IndexOf(modes, name).value].1
  }

  /** The World step as intended: every World market takes the shares of its
      own transport mode, the mode variable keyed by the market's name. */
  function AddWorldExchangesPerMode(markets: seq<Dataset>, regions: seq<string>, modes: Dict<string>,
                                    regionalShare: (string, string) -> real): (r: Result<seq<Dataset>>)
    ensures r.Success? <==> forall k :: 0 <= k < |markets| && markets[k].location == WORLD ==> markets[k].name in KeysOf(modes)
    ensures r.Success? ==> |r.value| == |markets|
    ensures r.Success? ==> forall k :: 0 <= k < |markets| ==>
              if markets[k].location == WORLD
              then markets[k].name in KeysOf(modes) &&
                   r.value[k] == markets[k].(exchanges := markets[k].exchanges +
                                   WorldInputs(markets[k], regions, ModeVariable(modes, markets[k].name), regionalShare))
              else r.value[k] == markets[k]
  {
    var sharesFor := (d: Dataset) => SharesOfMarket(d.name, regions, modes, regionalShare);
    assert forall k :: 0 <= k < |markets| && markets[k].name in KeysOf(modes) ==>
             WorldExchanges(markets[k], regions, sharesFor(markets[k]).value) ==
             Success(WorldInputs(markets[k], regions, ModeVariable(modes, markets[k].name), regionalShare)) by {
      forall k | 0 <= k < |markets| && markets[k].name in KeysOf(modes)
        ensures WorldExchanges(markets[k], regions, sharesFor(markets[k]).value) ==
                Success(WorldInputs(markets[k], regions, ModeVariable(modes, markets[k].name), regionalShare))
      {
        WorldExchangesAreInputs(markets[k], regions, sharesFor(markets[k]).value,
                                ModeVariable(modes, markets[k].name), regionalShare);
      }
    }
    AddWorldExchanges(markets, regions, sharesFor)
  }

  /** The regional shares of the mode a market belongs to. */
  function SharesOfMarket(name: string, regions: seq<string>, modes: Dict<string>, regionalShare: (string, string) -> real)
    : (r: Result<map<string, real>>)
    ensures r.Success? <==> name in KeysOf(modes)
    ensures r.Success? ==> forall x :: x in regions && x != WORLD ==>
              x in r.value && r.value[x] == regionalShare(x, modes[IndexOf(modes, name).value].1)
  {
    match IndexOf(modes, name)
    case None => Failure(KeyError)
    case Some(k) => Success(ModeShares(modes[k].1, regions, regionalShare, map[]))
  }

  /** A World market has shares, and the share of each of its regions. */
  predicate WorldReady(d: Dataset, regions: seq<string>, sharesFor: Dataset -> Result<map<string, real>>) {
    d.location == WORLD ==> sharesFor(d).Success? && WorldExchanges(d, regions, sharesFor(d).value).Success?
  }

  /** `d'` is `d` with its World exchanges appended when it is a World market,
      and `d` itself otherwise. */
  predicate WorldAdded(d: Dataset, regions: seq<string>, sharesFor: Dataset -> Result<map<string, real>>, d': Dataset) {
    if d.location == WORLD then
      sharesFor(d).Success? && WorldExchanges(d, regions, sharesFor(d).value).Success? &&
      d' == d.(exchanges := d.exchanges + WorldExchanges(d, regions, sharesFor(d).value).value)
    else d' == d
  }

  /** Appends the World exchanges to every World market; other markets are
      unchanged. It fails exactly when a World market has no shares or lacks
      the share of one of its regions. */
  function AddWorldExchanges(markets: seq<Dataset>, regions: seq<string>, sharesFor: Dataset -> Result<map<string, real>>)
    : (r: Result<seq<Dataset>>)
    ensures r.Success? <==> forall k :: 0 <= k < |markets| ==> WorldReady(markets[k], regions, sharesFor)
    ensures r.Success? ==> |r.value| == |markets|
    ensures r.Success? ==> forall k :: 0 <= k < |markets| ==> WorldAdded(markets[k], regions, sharesFor, r.value[k])
    decreases |markets|
  {
    if |markets| == 0 then Success([])
    else
      var d := markets[0];
      var d' :- AddWorldExchange(d, regions, sharesFor);
      ReadyCons(markets, regions, sharesFor);
      var rest :- AddWorldExchanges(markets[1..], regions, sharesFor);
      AddedCons(markets, regions, sharesFor, d', rest);
      Success([d'] + rest)
  }

  /** The World step of one market. */
  function AddWorldExchange(d: Dataset, regions: seq<string>, sharesFor: Dataset -> Result<map<string, real>>)
    : (r: Result<Dataset>)
    ensures r.Success? <==> WorldReady(d, regions, sharesFor)
    ensures r.Success? ==> WorldAdded(d, regions, sharesFor, r.value)
  {
    if d.location == WORLD then
      var shares :- sharesFor(d);
      var excs :- WorldExchanges(d, regions, shares);
      Success(d.(exchanges := d.exchanges + excs))
    else Success(d)
  }

  lemma ReadyCons(markets: seq<Dataset>, regions: seq<string>, sharesFor: Dataset -> Result<map<string, real>>)
    requires |markets| > 0
    ensures (forall k :: 0 <= k < |markets| ==> WorldReady(markets[k], regions, sharesFor)) <==>
            WorldReady(markets[0], regions, sharesFor) &&
            forall k :: 0 <= k < |markets[1..]| ==> WorldReady(markets[1..][k], regions, sharesFor)
  {
    assert forall k :: 0 < k < |markets| ==> markets[k] == markets[1..][k - 1];
  }

  lemma AddedCons(markets: seq<Dataset>, regions: seq<string>, sharesFor: Dataset -> Result<map<string, real>>,
                  d': Dataset, rest: seq<Dataset>)
    requires |markets| > 0 && WorldAdded(markets[0], regions, sharesFor, d')
    requires |rest| == |markets| - 1
    requires forall k :: 0 <= k < |markets[1..]| ==> WorldAdded(markets[1..][k], regions, sharesFor, rest[k])
    ensures forall k :: 0 <= k < |markets| ==> WorldAdded(markets[k], regions, sharesFor, ([d'] + rest)[k])
  {
    forall k | 0 < k < |markets| ensures WorldAdded(markets[k], regions, sharesFor, ([d'] + rest)[k]) {
      assert markets[k] == markets[1..][k - 1];
    }
  }

  /** `generate_transport_markets()` as written: the new markets are appended
      to the database. */
  function GenerateTransportMarketsAsWritten(db: seq<Dataset>, regions: seq<string>, roadVehicles: seq<string>,
                                             railVehicles: seq<string>, share: (string, string, string) -> real,
                                             modes: Dict<string>, regionalShare: (string, string) -> real, year: string)
    : (r: Result<seq<Dataset>>)
    ensures r.Success? ==> |r.value| == |db| + 2 * |regions| && r.value[..|db|] == db
  {
    var markets :- RegionalMarkets(regions, roadVehicles, railVehicles, share, year);
    var markets' :- AddWorldExchangesAsWritten(markets, regions, modes, regionalShare);
    assert (db + markets')[..|db|] == db;
    Success(db + markets')
  }

  /** `generate_transport_markets()` with every World market built from the
      shares of its own mode. */
  function GenerateTransportMarkets(db: seq<Dataset>, regions: seq<string>, roadVehicles: seq<string>,
                                    railVehicles: seq<string>, share: (string, string, string) -> real,
                                    modes: Dict<string>, regionalShare: (string, string) -> real, year: string)
    : (r: Result<seq<Dataset>>)
    ensures r.Success? ==> |r.value| == |db| + 2 * |regions| && r.value[..|db|] == db
  {
    var markets :- RegionalMarkets(regions, roadVehicles, railVehicles, share, year);
    var markets' :- AddWorldExchangesPerMode(markets, regions, modes, regionalShare);
    assert (db + markets')[..|db|] == db;
    Success(db + markets')
  }

  /** Every market `generate_transport_markets` adds supplies the product its
      name announces and starts with its production of one ton kilometer. */
  lemma NewMarketsProduceOneUnit(db: seq<Dataset>, regions: seq<string>, roadVehicles: seq<string>,
                                 railVehicles: seq<string>, share: (string, string, string) -> real,
                                 modes: Dict<string>, regionalShare: (string, string) -> real, year: string, k: nat)
    requires GenerateTransportMarkets(db, regions, roadVehicles, railVehicles, share, modes, regionalShare, year).Success?
    requires |db| <= k < |GenerateTransportMarkets(db, regions, roadVehicles, railVehicles, share, modes, regionalShare, year).value|
    ensures var d := GenerateTransportMarkets(db, regions, roadVehicles, railVehicles, share, modes, regionalShare, year).value[k];
            (d.name == LORRY_MARKET || d.name == TRAIN_MARKET) && d.referenceProduct == MarketProduct(d.name) &&
            |d.exchanges| >= 1 && d.exchanges[0] == Exchange(d.name, MarketProduct(d.name), TON_KM, d.location, PRODUCTION, 1.0, None)
  {
    var markets := RegionalMarkets(regions, roadVehicles, railVehicles, share, year).value;
    var markets' := AddWorldExchangesPerMode(markets, regions, modes, regionalShare).value;
    assert GenerateTransportMarkets(db, regions, roadVehicles, railVehicles, share, modes, regionalShare, year).value[k] == markets'[k - |db|];
    PerModeKeepsHead(markets, regions, modes, regionalShare, k - |db|);
  }

  /** The World step only appends exchanges, so a market keeps its name,
      product and production exchange. */
  lemma PerModeKeepsHead(markets: seq<Dataset>, regions: seq<string>, modes: Dict<string>,
                         regionalShare: (string, string) -> real, i: nat)
    requires AddWorldExchangesPerMode(markets, regions, modes, regionalShare).Success?
    requires i < |markets| && MarketShape(markets[i])
    ensures var d := AddWorldExchangesPerMode(markets, regions, modes, regionalShare).value[i];
            (d.name == LORRY_MARKET || d.name == TRAIN_MARKET) && d.referenceProduct == MarketProduct(d.name) &&
            |d.exchanges| >= 1 && d.exchanges[0] == Exchange(d.name, MarketProduct(d.name), TON_KM, d.location, PRODUCTION, 1.0, None)
  {
    var d := AddWorldExchangesPerMode(markets, regions, modes, regionalShare).value[i];
    var m := markets[i];
    assert d.name == m.name && d.referenceProduct == m.referenceProduct && d.location == m.location;
    assert |m.exchanges| >= 1;
    assert d.exchanges[0] == m.exchanges[0];
  }

  /** With a lorry mode and a rail mode whose EUR shares differ, the World
      lorry market built as written takes the rail share. */
  lemma WorldMarketSharesOverwritten()
    ensures
      var regions := ["EUR", WORLD];
      var modes := [(LORRY_MARKET, "ES|Transport|Freight|Road"), (TRAIN_MARKET, "ES|Transport|Freight|Rail")];
      var regionalShare := (region: string, v: string) => if v == "ES|Transport|Freight|Road" then 0.25 else 0.75;
      var world := NewMarket(LORRY_MARKET, WORLD, "2050");
      var asWritten := AddWorldExchangesAsWritten([world], regions, modes, regionalShare);
      var perMode := AddWorldExchangesPerMode([world], regions, modes, regionalShare);
      asWritten.Success? && perMode.Success? &&
      asWritten.value[0].exchanges[1].amount == 0.75 && perMode.value[0].exchanges[1].amount == 0.25
  {
    var regions := ["EUR", WORLD];
    var modes := [(LORRY_MARKET, "ES|Transport|Freight|Road"), (TRAIN_MARKET, "ES|Transport|Freight|Rail")];
    var regionalShare := (region: string, v: string) => if v == "ES|Transport|Freight|Road" then 0.25 else 0.75;
    var world := NewMarket(LORRY_MARKET, WORLD, "2050");
    NonWorldOfPair("EUR");
    assert LORRY_MARKET != TRAIN_MARKET;
    assert IndexOf(modes, LORRY_MARKET) == Some(0);
    LastModeInput(world, regions, modes, regionalShare);
    OwnModeInput(world, regions, modes, regionalShare, 0);
  }

  lemma NonWorldOfPair(x: string)
    requires x != WORLD
    ensures NonWorld([x, WORLD]) == [x]
  {
    var s := [x, WORLD];
    assert s[1..] == [WORLD] && s[1..][1..] == [];
    assert Filter(s[1..], IsRegional) == [];
  }

  /** Built as written, a World market over one non-World region gains one
      input, at that region's share of the last mode. */
  lemma LastModeInput(world: Dataset, regions: seq<string>, modes: Dict<string>,
                      regionalShare: (string, string) -> real)
    requires world.location == WORLD && |NonWorld(regions)| == 1 && |modes| > 0
    ensures var r := AddWorldExchangesAsWritten([world], regions, modes, regionalShare);
            r.Success? && |r.value| == 1 && |r.value[0].exchanges| > |world.exchanges| &&
            r.value[0].exchanges[|world.exchanges|].amount == regionalShare(NonWorld(regions)[0], modes[|modes| - 1].1)
  {
    var r := AddWorldExchangesAsWritten([world], regions, modes, regionalShare);
    var w := WorldInputs(world, regions, modes[|modes| - 1].1, regionalShare);
    assert r.value[0].exchanges == world.exchanges + w;
    assert r.value[0].exchanges[|world.exchanges|] == w[0];
  }

  /** Built per mode, a World market over one non-World region gains one
      input, at that region's share of the market's own mode. */
  lemma OwnModeInput(world: Dataset, regions: seq<string>, modes: Dict<string>,
                     regionalShare: (string, string) -> real, m: nat)
    requires world.location == WORLD && |NonWorld(regions)| == 1 && IndexOf(modes, world.name) == Some(m)
    ensures var r := AddWorldExchangesPerMode([world], regions, modes, regionalShare);
            r.Success? && |r.value| == 1 && |r.value[0].exchanges| > |world.exchanges| &&
            r.value[0].exchanges[|world.exchanges|].amount == regionalShare(NonWorld(regions)[0], modes[m].1)
  {
    assert world.name in KeysOf(modes) by {
      assert modes[m].0 == world.name;
    }
    var r := AddWorldExchangesPerMode([world], regions, modes, regionalShare);
    var w := WorldInputs(world, regions, ModeVariable(modes, world.name), regionalShare);
    assert r.value[0].exchanges == world.exchanges + w;
    assert r.value[0].exchanges[|world.exchanges|] == w[0];
  }

  // ---------------------------------------------------------------------------
  // generate_unspecified_transport_vehicles

  /** `market.split(',')[3].strip()`: the size label of a size-specific market. */
  function SizeLabel(market: string): (r: Result<string>)
    ensures r.Success? <==> |Split(market, ',')| > 3
    ensures r.Failure? ==> r.error == IndexError
    ensures r.Success? ==> r.value == Strip(Split(market, ',')[3])
  {
    var parts := Split(market, ',');
    if |parts| > 3 then Success(Strip(parts[3])) else Failure(IndexError)
  }

  /** A vehicle type supplies a size market at `region` when its IAM variable
      is present and its weight share there is positive. */
  function TypeSupplied(variable: string, region: string, known: set<string>, weightShare: (string, string) -> real)
    : ((string, string)) -> bool
  {
    (t: (string, string)) => variable + "|" + t.0 in known && weightShare(region, variable + "|" + t.0) > 0.0
  }

  /** The exchange a supplying vehicle type `t` = (type, vehicle names) adds
      to the size market of size label `size`. */
  function TypeInput(size: string, variable: string, region: string, t: (string, string),
                     weightShare: (string, string) -> real): Exchange
  {
    var euro := if Contains(t.1, "diesel") || Contains(t.1, "compressed gas") then EURO_VI else "";
    Exchange(t.1 + ", " + size + euro + ", long haul", LORRY_PRODUCT + euro, TON_KM, region, TECHNOSPHERE,
             weightShare(region, variable + "|" + t.0), None)
  }

  /** The vehicle-type exchanges of a non-World size market at `region`: one
      per supplying vehicle type, in map order. The size label is read only
      when a type supplies. */
  function TypeExchanges(market: string, variable: string, region: string, types: Dict<string>, known: set<string>,
                         weightShare: (string, string) -> real): (r: Result<seq<Exchange>>)
    ensures r.Success? <==> |Filter(types, TypeSupplied(variable, region, known, weightShare))| == 0 || SizeLabel(market).Success?
    ensures r.Failure? ==> r.error == IndexError
    ensures r.Success? ==> var supplied := Filter(types, TypeSupplied(variable, region, known, weightShare));
              |r.value| == |supplied| && forall k :: 0 <= k < |supplied| ==>
                r.value[k] == TypeInput(SizeLabel(market).value, variable, region, supplied[k], weightShare)
    ensures r.Success? ==> forall k :: 0 <= k < |r.value| ==>
              IsTechnosphere(r.value[k]) && r.value[k].location == region && r.value[k].amount > 0.0 &&
              EndsWith(r.value[k].name, ", long haul") && StartsWith(r.value[k].product, LORRY_PRODUCT)
    decreases |types|
  {
    if |types| == 0 then Success([])
    else
      var rest :- TypeExchanges(market, variable, region, types[1..], known, weightShare);
      if TypeSupplied(variable, region, known, weightShare)(types[0]) then
        var size :- SizeLabel(market);
        var e := TypeInput(size, variable, region, types[0], weightShare);
        assert EndsWith(e.name, ", long haul") by {
          assert e.name[|e.name| - |", long haul"|..] == ", long haul";
        }
        assert StartsWith(e.product, LORRY_PRODUCT) by {
          assert e.product[..|LORRY_PRODUCT|] == LORRY_PRODUCT;
        }
        Success([e] + rest)
      else
        Success(rest)
  }

  /** A region supplies a World size market when it is not World and its
      share of the market's variable is positive. */
  function SuppliesWorld(variable: string, worldShare: (string, string) -> real): string -> bool {
    (x: string) => x != WORLD && worldShare(x, variable) > 0.0
  }

  /** The exchange a supplying region adds to a World size market. */
  function RegionInput(market: string, variable: string, x: string, worldShare: (string, string) -> real): Exchange {
    Exchange(market, MarketProduct(market), TON_KM, x, TECHNOSPHERE, worldShare(x, variable), None)
  }

  /** The regional exchanges of a World size market: one per supplying
      region, in region order. */
  function RegionExchanges(market: string, variable: string, regions: seq<string>, worldShare: (string, string) -> real)
    : (r: seq<Exchange>)
    ensures var supplying := Filter(regions, SuppliesWorld(variable, worldShare));
            |r| == |supplying| && forall k :: 0 <= k < |supplying| ==> r[k] == RegionInput(market, variable, supplying[k], worldShare)
    decreases |regions|
  {
    if |regions| == 0 then []
    else
      var f := SuppliesWorld(variable, worldShare);
      var rest := RegionExchanges(market, variable, regions[1..], worldShare);
      assert Filter(regions, f) == if f(regions[0]) then [regions[0]] + Filter(regions[1..], f) else Filter(regions[1..], f);
      if f(regions[0]) then
        [RegionInput(market, variable, regions[0], worldShare)] + rest
      else rest
  }

  /** Every regional exchange supplies the market's own product from a
      non-World region of the loop at a positive share. */
  lemma RegionExchangesSupply(market: string, variable: string, regions: seq<string>, worldShare: (string, string) -> real)
    ensures var r := RegionExchanges(market, variable, regions, worldShare);
            forall k :: 0 <= k < |r| ==>
              r[k].name == market && r[k].product == MarketProduct(market) && IsTechnosphere(r[k]) &&
              r[k].location in regions && r[k].location != WORLD && r[k].amount > 0.0
  {
    var r := RegionExchanges(market, variable, regions, worldShare);
    var supplying := Filter(regions, SuppliesWorld(variable, worldShare));
    forall k | 0 <= k < |r|
      ensures r[k].name == market && r[k].product == MarketProduct(market) && IsTechnosphere(r[k]) &&
              r[k].location in regions && r[k].location != WORLD && r[k].amount > 0.0
    {
      assert r[k] == RegionInput(market, variable, supplying[k], worldShare);
      assert supplying[k] in regions && SuppliesWorld(variable, worldShare)(supplying[k]);
    }
  }

  /** The inputs of the size-specific markets: the market → variable map of
      the model, the vehicle type → name map, the IAM variables present and the
      two share functions. */
  datatype SizeInputs = SizeInputs(
    sizes: Dict<string>,
    types: Dict<string>,
    known: set<string>,
    weightShare: (string, string) -> real,
    worldShare: (string, string) -> real,
    year: string)

  /** One size-specific market at `region`: a new market whose inputs are
      the vehicle-type exchanges, or for World the regional exchanges
      (`SizeMarketExchanges` states them). */
  function SizeMarket(market: string, variable: string, region: string, regions: seq<string>, inp: SizeInputs)
    : (r: Result<Dataset>)
    ensures r.Success? <==> region == WORLD || TypeExchanges(market, variable, region, inp.types, inp.known, inp.weightShare).Success?
    ensures r.Failure? ==> r.error == IndexError
    ensures r.Success? ==> r.value.name == market && r.value.location == region && r.value.referenceProduct == MarketProduct(market)
  {
    var d := NewMarket(market, region, inp.year);
    if region != WORLD then
      var excs :- TypeExchanges(market, variable, region, inp.types, inp.known, inp.weightShare);
      Success(d.(exchanges := d.exchanges + excs))
    else
      Success(d.(exchanges := d.exchanges + RegionExchanges(market, variable, regions, inp.worldShare)))
  }

  /** A size market is the new market followed by its inputs, and it has an
      input exactly when some vehicle type, or for World some region,
      supplies it. */
  lemma SizeMarketExchanges(market: string, variable: string, region: string, regions: seq<string>, inp: SizeInputs)
    requires SizeMarket(market, variable, region, regions, inp).Success?
    ensures var d := SizeMarket(market, variable, region, regions, inp).value;
            d.(exchanges := []) == NewMarket(market, region, inp.year).(exchanges := []) &&
            |d.exchanges| >= 1 && d.exchanges[..1] == NewMarket(market, region, inp.year).exchanges &&
            d.exchanges[1..] ==
              if region == WORLD then RegionExchanges(market, variable, regions, inp.worldShare)
              else TypeExchanges(market, variable, region, inp.types, inp.known, inp.weightShare).value
    ensures var d := SizeMarket(market, variable, region, regions, inp).value;
            region != WORLD ==>
              (HasInput(d) <==>
                 exists j :: 0 <= j < |inp.types| && TypeSupplied(variable, region, inp.known, inp.weightShare)(inp.types[j]))
    ensures var d := SizeMarket(market, variable, region, regions, inp).value;
            region == WORLD ==>
              (HasInput(d) <==> exists j :: 0 <= j < |regions| && SuppliesWorld(variable, inp.worldShare)(regions[j]))
    ensures var d := SizeMarket(market, variable, region, regions, inp).value;
            forall k :: 1 <= k < |d.exchanges| ==> IsTechnosphere(d.exchanges[k]) && d.exchanges[k].amount > 0.0
  {
    var d := SizeMarket(market, variable, region, regions, inp).value;
    var n := NewMarket(market, region, inp.year);
    var excs: seq<Exchange>;
    if region == WORLD {
      FilterNonEmpty(regions, SuppliesWorld(variable, inp.worldShare));
      RegionExchangesSupply(market, variable, regions, inp.worldShare);
      excs := RegionExchanges(market, variable, regions, inp.worldShare);
    } else {
      FilterNonEmpty(inp.types, TypeSupplied(variable, region, inp.known, inp.weightShare));
      excs := TypeExchanges(market, variable, region, inp.types, inp.known, inp.weightShare).value;
    }
    assert d.exchanges == n.exchanges + excs;
    assert d.exchanges[1..] == excs;
    forall k | 1 <= k < |d.exchanges| ensures IsTechnosphere(d.exchanges[k]) && d.exchanges[k].amount > 0.0 {
      assert d.exchanges[k] == excs[k - 1];
    }
  }

  /** A size market has an input besides its production. */
  predicate HasInput(d: Dataset) {
    |d.exchanges| > 1
  }

  /** A market is kept only when it has an input besides its production. */
  function KeepIfSupplied(d: Dataset): (r: seq<Dataset>)
    ensures r == [] || r == [d]
    ensures r == [d] <==> |d.exchanges| > 1
  {
    if |d.exchanges| > 1 then [d] else []
  }

  /** The region the `i`-th size market of a pass is built for. As written,
      after a World market the loop variable holds the last region. */
  function PassRegion(region: string, regions: seq<string>, i: nat, rebound: bool): string {
    if rebound && i > 0 && region == WORLD && |regions| > 0 then regions[|regions| - 1] else region
  }

  /** The `i`-th size market of a pass. */
  function PassMarket(sizes: Dict<string>, region: string, regions: seq<string>, inp: SizeInputs, rebound: bool, i: nat)
    : Result<Dataset>
    requires i < |sizes|
  {
    SizeMarket(sizes[i].0, sizes[i].1, PassRegion(region, regions, i, rebound), regions, inp)
  }

  /** Every size market of a pass can be built. */
  predicate AllBuild(sizes: Dict<string>, region: string, regions: seq<string>, inp: SizeInputs, rebound: bool) {
    forall i :: 0 <= i < |sizes| ==> PassMarket(sizes, region, regions, inp, rebound, i).Success?
  }

  /** The size markets of a pass, before those without input are dropped. */
  function Built(sizes: Dict<string>, region: string, regions: seq<string>, inp: SizeInputs, rebound: bool): (r: seq<Dataset>)
    requires AllBuild(sizes, region, regions, inp, rebound)
    ensures |r| == |sizes| && forall i :: 0 <= i < |sizes| ==> Success(r[i]) == PassMarket(sizes, region, regions, inp, rebound, i)
  {
    seq(|sizes|, i requires 0 <= i < |sizes| => PassMarket(sizes, region, regions, inp, rebound, i).value)
  }

  /** The region of the next pass step: as written, World rebinds it to the
      last region. */
  function NextRegion(region: string, regions: seq<string>, rebound: bool): string {
    if rebound && region == WORLD && |regions| > 0 then regions[|regions| - 1] else region
  }

  /** The later markets of a pass are the markets of the rest of the pass,
      started at the next region. */
  lemma PassShift(sizes: Dict<string>, region: string, regions: seq<string>, inp: SizeInputs, rebound: bool)
    requires |sizes| > 0
    ensures PassMarket(sizes, region, regions, inp, rebound, 0) == SizeMarket(sizes[0].0, sizes[0].1, region, regions, inp)
    ensures forall i :: 0 <= i < |sizes| - 1 ==>
              PassMarket(sizes, region, regions, inp, rebound, i + 1) ==
              PassMarket(sizes[1..], NextRegion(region, regions, rebound), regions, inp, rebound, i)
  {
    forall i | 0 <= i < |sizes| - 1
      ensures PassMarket(sizes, region, regions, inp, rebound, i + 1) ==
              PassMarket(sizes[1..], NextRegion(region, regions, rebound), regions, inp, rebound, i)
    {
      assert sizes[i + 1] == sizes[1..][i];
      assert PassRegion(region, regions, i + 1, rebound) == PassRegion(NextRegion(region, regions, rebound), regions, i, rebound);
    }
  }

  /** The pass splits off its first size market. */
  lemma PassStep(sizes: Dict<string>, region: string, regions: seq<string>, inp: SizeInputs, rebound: bool)
    requires |sizes| > 0
    ensures AllBuild(sizes, region, regions, inp, rebound) <==>
              SizeMarket(sizes[0].0, sizes[0].1, region, regions, inp).Success? &&
              AllBuild(sizes[1..], NextRegion(region, regions, rebound), regions, inp, rebound)
    ensures AllBuild(sizes, region, regions, inp, rebound) ==>
              Built(sizes, region, regions, inp, rebound) ==
              [SizeMarket(sizes[0].0, sizes[0].1, region, regions, inp).value] +
              Built(sizes[1..], NextRegion(region, regions, rebound), regions, inp, rebound)
  {
    PassShift(sizes, region, regions, inp, rebound);
    PassBuildsStep(sizes, region, regions, inp, rebound);
    if AllBuild(sizes, region, regions, inp, rebound) {
      PassBuiltStep(sizes, region, regions, inp, rebound);
    }
  }

  lemma PassBuildsStep(sizes: Dict<string>, region: string, regions: seq<string>, inp: SizeInputs, rebound: bool)
    requires |sizes| > 0
    ensures AllBuild(sizes, region, regions, inp, rebound) <==>
              PassMarket(sizes, region, regions, inp, rebound, 0).Success? &&
              AllBuild(sizes[1..], NextRegion(region, regions, rebound), regions, inp, rebound)
  {
    var next := NextRegion(region, regions, rebound);
    PassShift(sizes, region, regions, inp, rebound);
    if PassMarket(sizes, region, regions, inp, rebound, 0).Success? && AllBuild(sizes[1..], next, regions, inp, rebound) {
      forall i | 1 <= i < |sizes| ensures PassMarket(sizes, region, regions, inp, rebound, i).Success? {
        assert PassMarket(sizes[1..], next, regions, inp, rebound, i - 1).Success?;
        assert PassMarket(sizes, region, regions, inp, rebound, (i - 1) + 1).Success?;
      }
    }
    if AllBuild(sizes, region, regions, inp, rebound) {
      forall i | 0 <= i < |sizes| - 1 ensures PassMarket(sizes[1..], next, regions, inp, rebound, i).Success? {
        assert PassMarket(sizes, region, regions, inp, rebound, i + 1).Success?;
      }
    }
  }

  lemma PassBuiltStep(sizes: Dict<string>, region: string, regions: seq<string>, inp: SizeInputs, rebound: bool)
    requires |sizes| > 0 && AllBuild(sizes, region, regions, inp, rebound)
    requires AllBuild(sizes[1..], NextRegion(region, regions, rebound), regions, inp, rebound)
    ensures Built(sizes, region, regions, inp, rebound) ==
            [PassMarket(sizes, region, regions, inp, rebound, 0).value] +
            Built(sizes[1..], NextRegion(region, regions, rebound), regions, inp, rebound)
  {
    var next := NextRegion(region, regions, rebound);
    PassShift(sizes, region, regions, inp, rebound);
    var b, t := Built(sizes, region, regions, inp, rebound), Built(sizes[1..], next, regions, inp, rebound);
    var c := [PassMarket(sizes, region, regions, inp, rebound, 0).value] + t;
    forall i | 0 <= i < |sizes| ensures b[i] == c[i] {
      if i > 0 {
        assert c[i] == t[i - 1];
        assert PassMarket(sizes, region, regions, inp, rebound, (i - 1) + 1) ==
               PassMarket(sizes[1..], next, regions, inp, rebound, i - 1);
      }
    }
    assert b == c;
  }

  /** The inner loop over the size markets as written: after the World branch
      the loop variable `region` is left bound to the last region, and the
      remaining markets of this pass are built for that region. The markets
      with an input are kept, in order. */
  function SizeMarketsAsWritten(sizes: Dict<string>, region: string, regions: seq<string>, inp: SizeInputs)
    : (r: Result<seq<Dataset>>)
    ensures r.Success? <==> AllBuild(sizes, region, regions, inp, true)
    ensures r.Failure? ==> r.error == IndexError
    ensures r.Success? ==> r.value == Filter(Built(sizes, region, regions, inp, true), HasInput)
    ensures r.Success? ==> forall k :: 0 <= k < |r.value| ==>
              |r.value[k].exchanges| > 1 && (r.value[k].location == region || r.value[k].location in regions) &&
              r.value[k].name in KeysOf(sizes)
    decreases |sizes|
  {
    if |sizes| == 0 then Success([])
    else
      PassStep(sizes, region, regions, inp, true);
      var d :- SizeMarket(sizes[0].0, sizes[0].1, region, regions, inp);
      var next := if region == WORLD && |regions| > 0 then regions[|regions| - 1] else region;
      var rest :- SizeMarketsAsWritten(sizes[1..], next, regions, inp);
      KeysOfTail(sizes);
      assert next == region || next in regions;
      KeptAppend(d, rest, sizes, region, next, regions);
      Success(KeepIfSupplied(d) + rest)
  }

  /** The market of a pass step, when kept, and the markets of the rest of
      the pass all have an input, a location of the loop and a size name. */
  lemma KeptAppend(d: Dataset, rest: seq<Dataset>, sizes: Dict<string>, region: string, next: string, regions: seq<string>)
    requires |sizes| > 0 && d.location == region && d.name == sizes[0].0
    requires next == region || next in regions
    requires forall k :: 0 <= k < |rest| ==>
               |rest[k].exchanges| > 1 && (rest[k].location == next || rest[k].location in regions) &&
               rest[k].name in KeysOf(sizes[1..])
    ensures var out := KeepIfSupplied(d) + rest;
            forall k :: 0 <= k < |out| ==>
              |out[k].exchanges| > 1 && (out[k].location == region || out[k].location in regions) &&
              out[k].name in KeysOf(sizes)
  {
    KeysOfTail(sizes);
    var kept := KeepIfSupplied(d);
    var out := kept + rest;
    forall k | 0 <= k < |out|
      ensures |out[k].exchanges| > 1 && (out[k].location == region || out[k].location in regions) &&
              out[k].name in KeysOf(sizes)
    {
      if k < |kept| {
        assert out[k] == d;
      } else {
        assert out[k] == rest[k - |kept|];
      }
    }
  }

  /** The inner loop over the size markets, every market at the pass's
      region; the markets with an input are kept, in order. */
  function SizeMarkets(sizes: Dict<string>, region: string, regions: seq<string>, inp: SizeInputs)
    : (r: Result<seq<Dataset>>)
    ensures r.Success? <==> AllBuild(sizes, region, regions, inp, false)
    ensures r.Failure? ==> r.error == IndexError
    ensures r.Success? ==> r.value == Filter(Built(sizes, region, regions, inp, false), HasInput)
    ensures r.Success? ==> forall k :: 0 <= k < |r.value| ==>
              |r.value[k].exchanges| > 1 && r.value[k].location == region && r.value[k].name in KeysOf(sizes)
    decreases |sizes|
  {
    if |sizes| == 0 then Success([])
    else
      PassStep(sizes, region, regions, inp, false);
      var d :- SizeMarket(sizes[0].0, sizes[0].1, region, regions, inp);
      var rest :- SizeMarkets(sizes[1..], region, regions, inp);
      KeptAtRegion(d, rest, sizes, region);
      Success(KeepIfSupplied(d) + rest)
  }

  /** The kept market of the first size followed by those of the later sizes,
      all at `region`. */
  lemma KeptAtRegion(d: Dataset, rest: seq<Dataset>, sizes: Dict<string>, region: string)
    requires |sizes| > 0 && d.location == region && d.name == sizes[0].0
    requires forall k :: 0 <= k < |rest| ==>
               |rest[k].exchanges| > 1 && rest[k].location == region && rest[k].name in KeysOf(sizes[1..])
    ensures var out := KeepIfSupplied(d) + rest;
            forall k :: 0 <= k < |out| ==>
              |out[k].exchanges| > 1 && out[k].location == region && out[k].name in KeysOf(sizes)
  {
    KeysOfTail(sizes);
    var kept := KeepIfSupplied(d);
    var out := kept + rest;
    forall k | 0 <= k < |out|
      ensures |out[k].exchanges| > 1 && out[k].location == region && out[k].name in KeysOf(sizes)
    {
      if k < |kept| {
        assert out[k] == d;
      } else {
        assert out[k] == rest[k - |kept|];
      }
    }
  }

  /** Every pass from `k` up to `n` succeeds. */
  predicate AllPass(pass: nat -> Result<seq<Dataset>>, k: nat, n: nat) {
    forall j :: k <= j < n ==> pass(j).Success?
  }

  /** What the passes from `k` up to `n` append, in order and with every
      repetition: the outputs of the passes before the last, then the last
      pass's output. */
  function Joined(pass: nat -> Result<seq<Dataset>>, k: nat, n: nat): seq<Dataset>
    requires AllPass(pass, k, n)
    decreases n
  {
    if n <= k then [] else Joined(pass, k, n - 1) + pass(n - 1).value
  }

  /** The joined outputs start with the first pass's output. */
  lemma {:induction false} JoinedCons(pass: nat -> Result<seq<Dataset>>, k: nat, n: nat)
    requires k < n && AllPass(pass, k, n)
    ensures Joined(pass, k, n) == pass(k).value + Joined(pass, k + 1, n)
    decreases n
  {
    if n > k + 1 {
      JoinedCons(pass, k, n - 1);
      assert Joined(pass, k, n) == (pass(k).value + Joined(pass, k + 1, n - 1)) + pass(n - 1).value;
    } else {
      assert Joined(pass, k, n - 1) == [] && Joined(pass, k + 1, n) == [];
    }
  }

  /** The pass of region `j` as written. */
  function PassAsWritten(regions: seq<string>, inp: SizeInputs): nat -> Result<seq<Dataset>> {
    (j: nat) => if j < |regions| then SizeMarketsAsWritten(inp.sizes, regions[j], regions, inp) else Failure(IndexError)
  }

  /** `generate_unspecified_transport_vehicles()` as written, from region `k`
      on: the passes of every region in turn. */
  function UnspecifiedVehiclesAsWritten(regions: seq<string>, k: nat, inp: SizeInputs): (r: Result<seq<Dataset>>)
    requires k <= |regions|
    ensures r.Success? <==> forall j :: k <= j < |regions| ==> SizeMarketsAsWritten(inp.sizes, regions[j], regions, inp).Success?
    ensures r.Failure? ==> r.error == IndexError
    ensures r.Success? ==> FromAll(PassAsWritten(regions, inp), k, |regions|, r.value)
    ensures r.Success? ==> forall j :: 0 <= j < |r.value| ==>
              |r.value[j].exchanges| > 1 && r.value[j].location in regions && r.value[j].name in KeysOf(inp.sizes)
    ensures r.Success? ==> AllPass(PassAsWritten(regions, inp), k, |regions|) &&
                           r.value == Joined(PassAsWritten(regions, inp), k, |regions|)
    decreases |regions| - k
  {
    if k == |regions| then Success([])
    else
      var here :- SizeMarketsAsWritten(inp.sizes, regions[k], regions, inp);
      var rest :- UnspecifiedVehiclesAsWritten(regions, k + 1, inp);
      AsWrittenCons(regions, k, inp, here, rest);
      Success(here + rest)
  }

  /** The markets of region `k`'s pass as written, followed by those of the
      later passes, are what the passes from `k` on append. */
  lemma AsWrittenCons(regions: seq<string>, k: nat, inp: SizeInputs, here: seq<Dataset>, rest: seq<Dataset>)
    requires k < |regions|
    requires SizeMarketsAsWritten(inp.sizes, regions[k], regions, inp) == Success(here)
    requires FromAll(PassAsWritten(regions, inp), k + 1, |regions|, rest)
    requires forall j :: 0 <= j < |rest| ==>
               |rest[j].exchanges| > 1 && rest[j].location in regions && rest[j].name in KeysOf(inp.sizes)
    requires AllPass(PassAsWritten(regions, inp), k + 1, |regions|) &&
             rest == Joined(PassAsWritten(regions, inp), k + 1, |regions|)
    ensures FromAll(PassAsWritten(regions, inp), k, |regions|, here + rest)
    ensures forall j :: 0 <= j < |here + rest| ==>
              |(here + rest)[j].exchanges| > 1 && (here + rest)[j].location in regions &&
              (here + rest)[j].name in KeysOf(inp.sizes)
    ensures AllPass(PassAsWritten(regions, inp), k, |regions|) &&
            here + rest == Joined(PassAsWritten(regions, inp), k, |regions|)
  {
    var pass := PassAsWritten(regions, inp);
    assert pass(k) == Success(here);
    assert FromAll(pass, k, |regions|, here + rest) by {
      FromAllCons(pass, k, |regions|, here, rest);
    }
    assert AllPass(pass, k, |regions|) && here + rest == Joined(pass, k, |regions|) by {
      JoinedCons(pass, k, |regions|);
    }
    assert regions[k] in regions;
    LooseShapeAppend(here, rest, regions, inp.sizes);
  }

  /** Markets of more than one exchange, located in `regions` and named by
      a size, stay so when two lists of them are joined. */
  lemma LooseShapeAppend(here: seq<Dataset>, rest: seq<Dataset>, regions: seq<string>, sizes: Dict<string>)
    requires forall j :: 0 <= j < |here| ==>
               |here[j].exchanges| > 1 && here[j].location in regions && here[j].name in KeysOf(sizes)
    requires forall j :: 0 <= j < |rest| ==>
               |rest[j].exchanges| > 1 && rest[j].location in regions && rest[j].name in KeysOf(sizes)
    ensures forall j :: 0 <= j < |here + rest| ==>
              |(here + rest)[j].exchanges| > 1 && (here + rest)[j].location in regions &&
              (here + rest)[j].name in KeysOf(sizes)
  {
    forall j | 0 <= j < |here + rest|
      ensures |(here + rest)[j].exchanges| > 1 && (here + rest)[j].location in regions &&
              (here + rest)[j].name in KeysOf(sizes)
    {
      if j < |here| {
        assert (here + rest)[j] == here[j];
      } else {
        assert (here + rest)[j] == rest[j - |here|];
      }
    }
  }

  /** Every pass from region `k` on builds. */
  predicate PassesBuild(regions: seq<string>, k: nat, inp: SizeInputs) {
    forall j :: k <= j < |regions| ==> SizeMarkets(inp.sizes, regions[j], regions, inp).Success?
  }

  /** The pass of region `j`. */
  function PassOf(regions: seq<string>, inp: SizeInputs): nat -> Result<seq<Dataset>> {
    (j: nat) => if j < |regions| then SizeMarkets(inp.sizes, regions[j], regions, inp) else Failure(IndexError)
  }

  /** `out` holds exactly the datasets the passes from `k` up to `n` keep. */
  ghost predicate FromAll(pass: nat -> Result<seq<Dataset>>, k: nat, n: nat, out: seq<Dataset>) {
    forall d :: d in out <==> exists j :: k <= j < n && pass(j).Success? && d in pass(j).value
  }

  /** `out` holds exactly the datasets the passes from region `k` on keep. */
  ghost predicate FromPasses(regions: seq<string>, k: nat, inp: SizeInputs, out: seq<Dataset>) {
    FromAll(PassOf(regions, inp), k, |regions|, out)
  }

  /** `generate_unspecified_transport_vehicles()` with every pass built for
      its own region, from region `k` on. */
  function UnspecifiedVehicles(regions: seq<string>, k: nat, inp: SizeInputs): (r: Result<seq<Dataset>>)
    requires k <= |regions|
    ensures r.Success? <==> PassesBuild(regions, k, inp)
    ensures r.Failure? ==> r.error == IndexError
    ensures r.Success? ==> FromPasses(regions, k, inp, r.value)
    ensures r.Success? ==> forall j :: 0 <= j < |r.value| ==> SizeMarketShape(r.value[j], regions[k..], inp.sizes)
    ensures r.Success? ==> AllPass(PassOf(regions, inp), k, |regions|) &&
                           r.value == Joined(PassOf(regions, inp), k, |regions|)
    decreases |regions| - k
  {
    if k == |regions| then Success([])
    else
      PassesCons(regions, k, inp);
      var here :- SizeMarkets(inp.sizes, regions[k], regions, inp);
      var rest :- UnspecifiedVehicles(regions, k + 1, inp);
      assert PassOf(regions, inp)(k) == Success(here);
      FromAllCons(PassOf(regions, inp), k, |regions|, here, rest);
      SizeMarketsProducts(inp.sizes, regions[k], regions, inp);
      ShapedAppend(here, rest, regions, k, inp.sizes);
      JoinedCons(PassOf(regions, inp), k, |regions|);
      Success(here + rest)
  }

  /** A market of the size table `sizes`: it has an input, lies in one of
      `places`, is named after a size and supplies its name's product. */
  predicate SizeMarketShape(d: Dataset, places: seq<string>, sizes: Dict<string>) {
    |d.exchanges| > 1 && d.location in places && d.name in KeysOf(sizes) &&
    d.referenceProduct == MarketProduct(d.name)
  }

  /** The markets of region `k`'s pass followed by those of the later passes
      have the shape of size markets in `regions[k..]`. */
  lemma ShapedAppend(here: seq<Dataset>, rest: seq<Dataset>, regions: seq<string>, k: nat, sizes: Dict<string>)
    requires k < |regions|
    requires forall j :: 0 <= j < |here| ==>
               |here[j].exchanges| > 1 && here[j].location == regions[k] && here[j].name in KeysOf(sizes) &&
               here[j].referenceProduct == MarketProduct(here[j].name)
    requires forall j :: 0 <= j < |rest| ==> SizeMarketShape(rest[j], regions[k + 1..], sizes)
    ensures forall j :: 0 <= j < |here + rest| ==> SizeMarketShape((here + rest)[j], regions[k..], sizes)
  {
    forall j | 0 <= j < |here + rest| ensures SizeMarketShape((here + rest)[j], regions[k..], sizes) {
      if j < |here| {
        assert regions[k..][0] == regions[k];
      } else {
        var x := rest[j - |here|].location;
        assert x in regions[k + 1..];
        var i :| 0 <= i < |regions[k + 1..]| && regions[k + 1..][i] == x;
        assert regions[k..][i + 1] == x;
      }
    }
  }

  /** The passes from `k` build when pass `k` and those after it do. */
  lemma PassesCons(regions: seq<string>, k: nat, inp: SizeInputs)
    requires k < |regions|
    ensures PassesBuild(regions, k, inp) <==>
            SizeMarkets(inp.sizes, regions[k], regions, inp).Success? && PassesBuild(regions, k + 1, inp)
  {
  }

  /** The datasets of pass `k` followed by those of the later passes. */
  lemma FromAllCons(pass: nat -> Result<seq<Dataset>>, k: nat, n: nat, here: seq<Dataset>, rest: seq<Dataset>)
    requires k < n && pass(k) == Success(here)
    requires FromAll(pass, k + 1, n, rest)
    ensures FromAll(pass, k, n, here + rest)
  {
    forall d ensures d in here + rest <==> exists j :: k <= j < n && pass(j).Success? && d in pass(j).value {
      if d in here {
        assert pass(k).Success? && d in pass(k).value;
      }
    }
  }

  lemma {:induction false} SizeMarketsProducts(sizes: Dict<string>, region: string, regions: seq<string>, inp: SizeInputs)
    requires SizeMarkets(sizes, region, regions, inp).Success?
    ensures forall j :: 0 <= j < |SizeMarkets(sizes, region, regions, inp).value| ==>
              SizeMarkets(sizes, region, regions, inp).value[j].referenceProduct ==
              MarketProduct(SizeMarkets(sizes, region, regions, inp).value[j].name)
    decreases |sizes|
  {
    if |sizes| > 0 {
      SizeMarketsProducts(sizes[1..], region, regions, inp);
    }
  }

  /** With regions World then EUR, two size markets, no vehicle-type share and
      a positive World share, the World dataset of the second market is lost
      as written: that market is built for EUR, where it has no supplier and
      is dropped. */
  lemma SizeMarketRegionRebound()
    ensures
      var inp := ReboundInputs();
      var asWritten := SizeMarketsAsWritten(inp.sizes, WORLD, [WORLD, "EUR"], inp);
      var intended := SizeMarkets(inp.sizes, WORLD, [WORLD, "EUR"], inp);
      asWritten.Success? && intended.Success? &&
      |asWritten.value| == 1 && |intended.value| == 2 &&
      intended.value[1].name == M28 && intended.value[1].location == WORLD
  {
    var inp := ReboundInputs();
    var w1 := WorldSizeMarket(M16, "ES|16t", inp);
    var w2 := WorldSizeMarket(M28, "ES|28t", inp);
    ReboundAsWritten(w1);
    ReboundIntended(w1, w2);
  }

  /** The example's inputs: two lorry sizes, no vehicle types, and a World
      share of 0.5 for every region. */
  function ReboundInputs(): (inp: SizeInputs)
    ensures |inp.sizes| == 2 && inp.sizes[0].0 == M16 && inp.sizes[1].0 == M28
  {
    SizeInputs([(M16, "ES|16t"), (M28, "ES|28t")], [], {},
               (region: string, v: string) => 0.0, (region: string, v: string) => 0.5, "2050")
  }

  /** As written, the example's second size market is built for EUR and dropped. */
  lemma ReboundAsWritten(w1: Dataset)
    requires SizeMarket(M16, "ES|16t", WORLD, [WORLD, "EUR"], ReboundInputs()) == Success(w1)
    ensures SizeMarketsAsWritten(ReboundInputs().sizes, WORLD, [WORLD, "EUR"], ReboundInputs()) == Success([w1])
  {
    var inp := ReboundInputs();
    var regions := [WORLD, "EUR"];
    var tail := inp.sizes[1..];
    assert tail == [(M28, "ES|28t")] && tail[1..] == [];
    var e2 := NewMarket(M28, "EUR", "2050");
    assert SizeMarket(M28, "ES|28t", "EUR", regions, inp) == Success(e2) by {
      assert "EUR" != WORLD;
      assert e2.exchanges + [] == e2.exchanges;
    }
    assert KeepIfSupplied(e2) == [];
    assert tail[0] == (M28, "ES|28t");
    assert SizeMarketsAsWritten(tail[1..], "EUR", regions, inp) == Success([]);
    var empty: seq<Dataset> := [];
    assert empty + empty == empty;
    assert SizeMarketsAsWritten(tail, "EUR", regions, inp) == Success(KeepIfSupplied(e2) + empty);
    assert regions[|regions| - 1] == "EUR";
    assert SizeMarketsAsWritten(inp.sizes, WORLD, regions, inp) == Success([w1] + []);
    assert [w1] + [] == [w1];
  }

  /** Built for World, both size markets of the example are kept. */
  lemma ReboundIntended(w1: Dataset, w2: Dataset)
    requires SizeMarket(M16, "ES|16t", WORLD, [WORLD, "EUR"], ReboundInputs()) == Success(w1)
    requires SizeMarket(M28, "ES|28t", WORLD, [WORLD, "EUR"], ReboundInputs()) == Success(w2)
    requires |w1.exchanges| == 2 && |w2.exchanges| == 2
    ensures SizeMarkets(ReboundInputs().sizes, WORLD, [WORLD, "EUR"], ReboundInputs()) == Success([w1, w2])
  {
    var inp := ReboundInputs();
    var regions := [WORLD, "EUR"];
    ReboundIntendedTail(w2);
    assert inp.sizes[0] == (M16, "ES|16t");
    assert SizeMarkets(inp.sizes, WORLD, regions, inp) == Success([w1] + [w2]);
    assert [w1] + [w2] == [w1, w2];
  }

  lemma ReboundIntendedTail(w2: Dataset)
    requires SizeMarket(M28, "ES|28t", WORLD, [WORLD, "EUR"], ReboundInputs()) == Success(w2)
    requires |w2.exchanges| == 2
    ensures SizeMarkets(ReboundInputs().sizes[1..], WORLD, [WORLD, "EUR"], ReboundInputs()) == Success([w2])
  {
    var inp := ReboundInputs();
    var tail := inp.sizes[1..];
    assert tail == [(M28, "ES|28t")] && tail[1..] == [];
    assert SizeMarkets(tail, WORLD, [WORLD, "EUR"], inp) == Success([w2] + []);
    assert [w2] + [] == [w2];
  }

  const M16: string := "market for transport, freight, lorry, 16t"
  const M28: string := "market for transport, freight, lorry, 28t"

  /** The World size market of the example above, with its EUR supplier. */
  lemma WorldSizeMarket(market: string, variable: string, inp: SizeInputs) returns (d: Dataset)
    requires inp.worldShare("EUR", variable) == 0.5
    ensures SizeMarket(market, variable, WORLD, [WORLD, "EUR"], inp) == Success(d)
    ensures d.name == market && d.location == WORLD && |d.exchanges| == 2
  {
    var regions := [WORLD, "EUR"];
    assert "EUR" != WORLD;
    assert RegionExchanges(market, variable, regions[1..], inp.worldShare) ==
           [Exchange(market, MarketProduct(market), TON_KM, "EUR", TECHNOSPHERE, 0.5, None)] by {
      assert regions[1..][1..] == [];
    }
    d := SizeMarket(market, variable, WORLD, regions, inp).value;
  }

  /** With regions World then EUR, sizes 16t and 28t, one vehicle type whose
      weight share is present only for 28t, and no World share, the EUR 28t
      market is appended twice as written: the World pass, rebound to EUR
      after its first market, builds it, and the EUR pass builds it again. */
  lemma UnspecifiedVehiclesDuplicate()
    ensures
      var inp := DuplicateInputs();
      var asWritten := UnspecifiedVehiclesAsWritten([WORLD, "EUR"], 0, inp);
      var intended := UnspecifiedVehicles([WORLD, "EUR"], 0, inp);
      asWritten.Success? && intended.Success? && |asWritten.value| == 2 && |intended.value| == 1 &&
      asWritten.value[0] == asWritten.value[1] == intended.value[0] &&
      intended.value[0].name == M28 && intended.value[0].location == "EUR" &&
      multiset(asWritten.value)[intended.value[0]] == 2 && multiset(intended.value)[intended.value[0]] == 1
  {
    var inp := DuplicateInputs();
    var d := DuplicateMarket(inp);
    var w16 := DuplicateWorldMarket(M16, "ES|16t", inp);
    var w28 := DuplicateWorldMarket(M28, "ES|28t", inp);
    var e16 := DuplicateSmallMarket(inp);
    DuplicateAsWritten(inp, d, w16, w28, e16);
    DuplicateIntended(inp, d, w16, w28, e16);
    assert multiset([d, d])[d] == 2;
  }

  /** The regions of the duplicate example. */
  const DUPLICATE_REGIONS: seq<string> := [WORLD, "EUR"]

  /** The size markets of the duplicate example: `d` (28t at EUR) has an
      input; `w16`, `w28` (World) and `e16` (16t at EUR) have none. */
  predicate DuplicateMarkets(inp: SizeInputs, d: Dataset, w16: Dataset, w28: Dataset, e16: Dataset) {
    inp.sizes == [(M16, "ES|16t"), (M28, "ES|28t")] &&
    SizeMarket(M28, "ES|28t", "EUR", DUPLICATE_REGIONS, inp) == Success(d) && HasInput(d) &&
    SizeMarket(M16, "ES|16t", WORLD, DUPLICATE_REGIONS, inp) == Success(w16) && !HasInput(w16) &&
    SizeMarket(M28, "ES|28t", WORLD, DUPLICATE_REGIONS, inp) == Success(w28) && !HasInput(w28) &&
    SizeMarket(M16, "ES|16t", "EUR", DUPLICATE_REGIONS, inp) == Success(e16) && !HasInput(e16)
  }

  lemma DuplicateAsWritten(inp: SizeInputs, d: Dataset, w16: Dataset, w28: Dataset, e16: Dataset)
    requires DuplicateMarkets(inp, d, w16, w28, e16)
    ensures UnspecifiedVehiclesAsWritten(DUPLICATE_REGIONS, 0, inp) == Success([d, d])
  {
    DuplicateTail(inp, d, w16, w28, e16);
    DuplicateWorldAsWritten(inp, d, w16, w28, e16);
    DuplicateRegionAsWritten(inp, d, w16, w28, e16);
    NoPassesLeft(DUPLICATE_REGIONS, inp);
    DuplicateJoinAsWritten(d, inp);
  }

  lemma DuplicateJoinAsWritten(d: Dataset, inp: SizeInputs)
    requires SizeMarketsAsWritten(inp.sizes, WORLD, DUPLICATE_REGIONS, inp) == Success([d])
    requires SizeMarketsAsWritten(inp.sizes, "EUR", DUPLICATE_REGIONS, inp) == Success([d])
    requires UnspecifiedVehiclesAsWritten(DUPLICATE_REGIONS, 2, inp) == Success([])
    ensures UnspecifiedVehiclesAsWritten(DUPLICATE_REGIONS, 0, inp) == Success([d, d])
  {
    DuplicateLastAsWritten(d, inp);
    assert [d] + [d] == [d, d];
    VehiclesStep(DUPLICATE_REGIONS, 0, inp, true, [d], [d]);
  }

  lemma DuplicateLastAsWritten(d: Dataset, inp: SizeInputs)
    requires SizeMarketsAsWritten(inp.sizes, "EUR", DUPLICATE_REGIONS, inp) == Success([d])
    requires UnspecifiedVehiclesAsWritten(DUPLICATE_REGIONS, 2, inp) == Success([])
    ensures UnspecifiedVehiclesAsWritten(DUPLICATE_REGIONS, 1, inp) == Success([d])
  {
    var none: seq<Dataset> := [];
    VehiclesStep(DUPLICATE_REGIONS, 1, inp, true, [d], none);
    assert [d] + none == [d];
  }

  lemma DuplicateIntended(inp: SizeInputs, d: Dataset, w16: Dataset, w28: Dataset, e16: Dataset)
    requires DuplicateMarkets(inp, d, w16, w28, e16)
    ensures UnspecifiedVehicles(DUPLICATE_REGIONS, 0, inp) == Success([d])
  {
    DuplicateTail(inp, d, w16, w28, e16);
    DuplicateWorldIntended(inp, d, w16, w28, e16);
    DuplicateRegionIntended(inp, d, w16, w28, e16);
    NoPassesLeft(DUPLICATE_REGIONS, inp);
    DuplicateJoinIntended(d, inp);
  }

  lemma DuplicateJoinIntended(d: Dataset, inp: SizeInputs)
    requires SizeMarkets(inp.sizes, WORLD, DUPLICATE_REGIONS, inp) == Success([])
    requires SizeMarkets(inp.sizes, "EUR", DUPLICATE_REGIONS, inp) == Success([d])
    requires UnspecifiedVehicles(DUPLICATE_REGIONS, 2, inp) == Success([])
    ensures UnspecifiedVehicles(DUPLICATE_REGIONS, 0, inp) == Success([d])
  {
    DuplicateLastIntended(d, inp);
    var none: seq<Dataset> := [];
    assert none + [d] == [d];
    VehiclesStep(DUPLICATE_REGIONS, 0, inp, false, none, [d]);
  }

  lemma DuplicateLastIntended(d: Dataset, inp: SizeInputs)
    requires SizeMarkets(inp.sizes, "EUR", DUPLICATE_REGIONS, inp) == Success([d])
    requires UnspecifiedVehicles(DUPLICATE_REGIONS, 2, inp) == Success([])
    ensures UnspecifiedVehicles(DUPLICATE_REGIONS, 1, inp) == Success([d])
  {
    var none: seq<Dataset> := [];
    VehiclesStep(DUPLICATE_REGIONS, 1, inp, false, [d], none);
    assert [d] + none == [d];
  }

  /** After the last region no pass is left and nothing is appended. */
  lemma NoPassesLeft(regions: seq<string>, inp: SizeInputs)
    ensures UnspecifiedVehiclesAsWritten(regions, |regions|, inp) == Success([])
    ensures UnspecifiedVehicles(regions, |regions|, inp) == Success([])
  {
  }

  /** One step of `generate_unspecified_transport_vehicles()`: the markets of
      region `k`'s pass, then those of the later passes. */
  lemma VehiclesStep(regions: seq<string>, k: nat, inp: SizeInputs, rebound: bool, here: seq<Dataset>, rest: seq<Dataset>)
    requires k < |regions|
    requires rebound ==> SizeMarketsAsWritten(inp.sizes, regions[k], regions, inp) == Success(here) &&
                         UnspecifiedVehiclesAsWritten(regions, k + 1, inp) == Success(rest)
    requires !rebound ==> SizeMarkets(inp.sizes, regions[k], regions, inp) == Success(here) &&
                          UnspecifiedVehicles(regions, k + 1, inp) == Success(rest)
    ensures rebound ==> UnspecifiedVehiclesAsWritten(regions, k, inp) == Success(here + rest)
    ensures !rebound ==> UnspecifiedVehicles(regions, k, inp) == Success(here + rest)
  {
  }

  /** The duplicate example's inputs: 16t and 28t, a diesel lorry type whose
      IAM variable is present for 28t only, a weight share of 0.5 and no World
      share. */
  function DuplicateInputs(): (inp: SizeInputs)
    ensures inp.sizes == [(M16, "ES|16t"), (M28, "ES|28t")]
    ensures inp.types == [("diesel", "lorry, diesel")] && inp.known == {"ES|28t|diesel"}
  {
    SizeInputs([(M16, "ES|16t"), (M28, "ES|28t")], [("diesel", "lorry, diesel")], {"ES|28t|diesel"},
               (region: string, v: string) => 0.5, (region: string, v: string) => 0.0, "2050")
  }

  /** The last size market of both passes of the duplicate example at EUR is
      `d`, kept. */
  lemma DuplicateTail(inp: SizeInputs, d: Dataset, w16: Dataset, w28: Dataset, e16: Dataset)
    requires DuplicateMarkets(inp, d, w16, w28, e16)
    ensures SizeMarketsAsWritten(inp.sizes[1..], "EUR", DUPLICATE_REGIONS, inp) == Success([d])
    ensures SizeMarkets(inp.sizes[1..], "EUR", DUPLICATE_REGIONS, inp) == Success([d])
  {
    var tail := inp.sizes[1..];
    var none: seq<Dataset> := [];
    assert tail[0] == (M28, "ES|28t") && tail[1..] == [];
    assert KeepIfSupplied(d) + none == [d];
    SizeMarketsStep(tail, "EUR", DUPLICATE_REGIONS, inp, true, d, none);
    SizeMarketsStep(tail, "EUR", DUPLICATE_REGIONS, inp, false, d, none);
  }

  /** As written, the World pass of the duplicate example drops its World
      16t market and, rebound to EUR, keeps `d`. */
  lemma DuplicateWorldAsWritten(inp: SizeInputs, d: Dataset, w16: Dataset, w28: Dataset, e16: Dataset)
    requires DuplicateMarkets(inp, d, w16, w28, e16)
    requires SizeMarketsAsWritten(inp.sizes[1..], "EUR", DUPLICATE_REGIONS, inp) == Success([d])
    ensures SizeMarketsAsWritten(inp.sizes, WORLD, DUPLICATE_REGIONS, inp) == Success([d])
  {
    assert NextRegion(WORLD, DUPLICATE_REGIONS, true) == "EUR";
    assert KeepIfSupplied(w16) + [d] == [d];
    SizeMarketsStep(inp.sizes, WORLD, DUPLICATE_REGIONS, inp, true, w16, [d]);
  }

  /** As written, the EUR pass of the duplicate example drops its 16t market
      and keeps `d`. */
  lemma DuplicateRegionAsWritten(inp: SizeInputs, d: Dataset, w16: Dataset, w28: Dataset, e16: Dataset)
    requires DuplicateMarkets(inp, d, w16, w28, e16)
    requires SizeMarketsAsWritten(inp.sizes[1..], "EUR", DUPLICATE_REGIONS, inp) == Success([d])
    ensures SizeMarketsAsWritten(inp.sizes, "EUR", DUPLICATE_REGIONS, inp) == Success([d])
  {
    assert NextRegion("EUR", DUPLICATE_REGIONS, true) == "EUR";
    assert KeepIfSupplied(e16) + [d] == [d];
    SizeMarketsStep(inp.sizes, "EUR", DUPLICATE_REGIONS, inp, true, e16, [d]);
  }

  /** Built for its own region, the EUR pass of the duplicate example drops
      its 16t market and keeps `d`. */
  lemma DuplicateRegionIntended(inp: SizeInputs, d: Dataset, w16: Dataset, w28: Dataset, e16: Dataset)
    requires DuplicateMarkets(inp, d, w16, w28, e16)
    requires SizeMarkets(inp.sizes[1..], "EUR", DUPLICATE_REGIONS, inp) == Success([d])
    ensures SizeMarkets(inp.sizes, "EUR", DUPLICATE_REGIONS, inp) == Success([d])
  {
    assert KeepIfSupplied(e16) + [d] == [d];
    SizeMarketsStep(inp.sizes, "EUR", DUPLICATE_REGIONS, inp, false, e16, [d]);
  }

  /** Built for its own region, the World pass of the duplicate example keeps
      nothing: no region supplies World. */
  lemma DuplicateWorldIntended(inp: SizeInputs, d: Dataset, w16: Dataset, w28: Dataset, e16: Dataset)
    requires DuplicateMarkets(inp, d, w16, w28, e16)
    ensures SizeMarkets(inp.sizes, WORLD, DUPLICATE_REGIONS, inp) == Success([])
  {
    var none: seq<Dataset> := [];
    assert KeepIfSupplied(w16) + none == none && KeepIfSupplied(w28) + none == none;
    var tail := inp.sizes[1..];
    assert tail[0] == (M28, "ES|28t") && tail[1..] == [];
    SizeMarketsStep(tail, WORLD, DUPLICATE_REGIONS, inp, false, w28, none);
    SizeMarketsStep(inp.sizes, WORLD, DUPLICATE_REGIONS, inp, false, w16, none);
  }

  /** One step of a pass: the first size market, kept when it has an input,
      followed by the markets of the rest of the pass. */
  lemma SizeMarketsStep(sizes: Dict<string>, region: string, regions: seq<string>, inp: SizeInputs, rebound: bool,
                        d: Dataset, rest: seq<Dataset>)
    requires |sizes| > 0 && SizeMarket(sizes[0].0, sizes[0].1, region, regions, inp) == Success(d)
    requires rebound ==> SizeMarketsAsWritten(sizes[1..], NextRegion(region, regions, true), regions, inp) == Success(rest)
    requires !rebound ==> SizeMarkets(sizes[1..], region, regions, inp) == Success(rest)
    ensures rebound ==> SizeMarketsAsWritten(sizes, region, regions, inp) == Success(KeepIfSupplied(d) + rest)
    ensures !rebound ==> SizeMarkets(sizes, region, regions, inp) == Success(KeepIfSupplied(d) + rest)
  {
  }

  /** The EUR 28t market of the duplicate example has the diesel lorry as
      input. */
  lemma DuplicateMarket(inp: SizeInputs) returns (d: Dataset)
    requires inp == DuplicateInputs()
    ensures SizeMarket(M28, "ES|28t", "EUR", DUPLICATE_REGIONS, inp) == Success(d) && HasInput(d)
    ensures d.name == M28 && d.location == "EUR"
  {
    LorrySizeLabel();
    DuplicateTypeShares(inp);
    d := SizeMarket(M28, "ES|28t", "EUR", DUPLICATE_REGIONS, inp).value;
    SizeMarketExchanges(M28, "ES|28t", "EUR", DUPLICATE_REGIONS, inp);
  }

  /** The World size markets of the duplicate example build without an
      input: no region has a World share. */
  lemma DuplicateWorldMarket(market: string, variable: string, inp: SizeInputs) returns (d: Dataset)
    requires inp == DuplicateInputs()
    ensures SizeMarket(market, variable, WORLD, DUPLICATE_REGIONS, inp) == Success(d) && !HasInput(d)
  {
    d := SizeMarket(market, variable, WORLD, DUPLICATE_REGIONS, inp).value;
    SizeMarketExchanges(market, variable, WORLD, DUPLICATE_REGIONS, inp);
    assert forall j :: 0 <= j < |DUPLICATE_REGIONS| ==> !SuppliesWorld(variable, inp.worldShare)(DUPLICATE_REGIONS[j]);
  }

  /** The EUR 16t market of the duplicate example builds without an input:
      the diesel lorry's variable is absent for 16t. */
  lemma DuplicateSmallMarket(inp: SizeInputs) returns (d: Dataset)
    requires inp == DuplicateInputs()
    ensures SizeMarket(M16, "ES|16t", "EUR", DUPLICATE_REGIONS, inp) == Success(d) && !HasInput(d)
  {
    DuplicateTypeShares(inp);
    d := SizeMarket(M16, "ES|16t", "EUR", DUPLICATE_REGIONS, inp).value;
    SizeMarketExchanges(M16, "ES|16t", "EUR", DUPLICATE_REGIONS, inp);
  }

  /** In the duplicate example the diesel lorry supplies EUR at 28t only. */
  lemma DuplicateTypeShares(inp: SizeInputs)
    requires inp == DuplicateInputs()
    ensures TypeSupplied("ES|28t", "EUR", inp.known, inp.weightShare)(inp.types[0])
    ensures !TypeSupplied("ES|16t", "EUR", inp.known, inp.weightShare)(inp.types[0])
    ensures |inp.types| == 1
  {
    assert "ES|28t" + "|" + "diesel" == "ES|28t|diesel";
    assert ("ES|16t" + "|" + "diesel")[3] == '1' && "ES|28t|diesel"[3] == '2';
  }

  /** The 28t lorry market carries its size as the fourth comma-separated
      part of its name. */
  lemma LorrySizeLabel()
    ensures SizeLabel(M28).Success?
  {
    var a, b, c := "market for transport", " freight", " lorry";
    assert M28 == a + [','] + (b + [','] + (c + [','] + " 28t"));
    ThreeCommas(a, b, c, " 28t");
  }

  /** Three separator-free parts, each followed by a comma, split into at
      least four parts. */
  lemma ThreeCommas(a: string, b: string, c: string, rest: string)
    requires ',' !in a && ',' !in b && ',' !in c
    ensures |Split(a + [','] + (b + [','] + (c + [','] + rest)), ',')| > 3
  {
    SplitCons(c, ',', rest);
    SplitCons(b, ',', c + [','] + rest);
    SplitCons(a, ',', b + [','] + (c + [','] + rest));
  }

  // ---------------------------------------------------------------------------
  // generate_datasets

  const ROW: string := "RoW"
  const RER: string := "RER"

  /** `ws.get_one(database, equals("name", name), equals("location", location))` */
  function GetOne(db: seq<Dataset>, name: string, location: string): (r: Result<Dataset>) {
    GetOneWhere(db, NameAndLocationAre(name, location))
  }

  /** How many datasets of `db` have this name and location. */
  function CountAt(db: seq<Dataset>, name: string, location: string): nat {
    |Filter(db, NameAndLocationAre(name, location))|
  }

  /** The dataset a regional copy starts from: the one RoW dataset of that
      name, or, when there is no RoW dataset at all, the one RER dataset.
      Several RoW datasets raise without looking at RER. */
  function CopySource(db: seq<Dataset>, name: string): (r: Result<Dataset>)
    ensures r.Success? <==> CountAt(db, name, ROW) == 1 || (CountAt(db, name, ROW) == 0 && CountAt(db, name, RER) == 1)
    ensures r.Success? ==> r.value in db && r.value.name == name &&
                           r.value.location == (if CountAt(db, name, ROW) == 1 then ROW else RER)
    ensures r == Failure(MultipleResults) <==>
              CountAt(db, name, ROW) > 1 || (CountAt(db, name, ROW) == 0 && CountAt(db, name, RER) > 1)
    ensures r == Failure(NoResults) <==> CountAt(db, name, ROW) == 0 && CountAt(db, name, RER) == 0
    ensures r.Failure? ==> r.error == NoResults || r.error == MultipleResults
  {
    assert ROW[1] != RER[1];
    FilterNonEmpty(db, NameAndLocationAre(name, ROW));
    match GetOne(db, name, ROW)
    case Failure(NoResults) => GetOne(db, name, RER)
    case other => other
  }

  /** The copy of `src` for `region`. */
  function RegionalCopy(src: Dataset, region: string): (d: Dataset)
    ensures d.name == src.name && d.referenceProduct == src.referenceProduct && d.location == region
    ensures d.comment == "Dataset for the region " + region + ". " + src.comment
    ensures |d.exchanges| == |src.exchanges| && forall k :: 0 <= k < |d.exchanges| ==>
              if IsProduction(src.exchanges[k]) then d.exchanges[k] == src.exchanges[k].(location := region)
              else d.exchanges[k] == src.exchanges[k]
  {
    src.(location := region,
         comment := "Dataset for the region " + region + ". " + src.comment,
         exchanges := seq(|src.exchanges|, k requires 0 <= k < |src.exchanges| =>
                        if IsProduction(src.exchanges[k]) then src.exchanges[k].(location := region) else src.exchanges[k]))
  }

  /** A rail dataset outside RoW is relocated. */
  predicate IsRelocated(d: Dataset, railNames: seq<string>) {
    d.name in railNames && d.location != ROW
  }

  /** The relocation of a rail dataset that is not RoW: the first IAM region
      whose proxy location is the dataset's location becomes its location and
      that of its exchanges named like it; the (name, location) pair is
      recorded whether or not a region matched. */
  function Relocate(d: Dataset, railNames: seq<string>, proxy: (string, string) -> Dict<string>)
    : (r: (Dataset, Option<(string, string)>))
    ensures r.0 == d.(location := r.0.location, exchanges := r.0.exchanges) && |r.0.exchanges| == |d.exchanges|
    ensures r.1.Some? <==> IsRelocated(d, railNames)
    ensures r.1.Some? ==> r.1.value == (d.name, r.0.location)
    ensures var regions := proxy(d.name, d.referenceProduct);
            IsRelocated(d, railNames) && (exists k :: 0 <= k < |regions| && regions[k].1 == d.location) ==>
              (exists k :: 0 <= k < |regions| && regions[k].1 == d.location && r.0.location == regions[k].0 &&
                           forall j :: 0 <= j < k ==> regions[j].1 != d.location) &&
              forall j :: 0 <= j < |d.exchanges| ==>
                r.0.exchanges[j] == if d.exchanges[j].name == d.name then d.exchanges[j].(location := r.0.location)
                                    else d.exchanges[j]
    ensures var regions := proxy(d.name, d.referenceProduct);
            !IsRelocated(d, railNames) || (forall k :: 0 <= k < |regions| ==> regions[k].1 != d.location) ==> r.0 == d
  {
    if IsRelocated(d, railNames) then
      var regions := proxy(d.name, d.referenceProduct);
      var k := FirstWithValue(regions, d.location);
      var d' := if k.Some? then
                  var iam := regions[k.value].0;
                  d.(location := iam,
                     exchanges := seq(|d.exchanges|, j requires 0 <= j < |d.exchanges| =>
                                    if d.exchanges[j].name == d.name then d.exchanges[j].(location := iam) else d.exchanges[j]))
                else d;
      (d', Some((d.name, d'.location)))
    else (d, None)
  }

  /** The position of the first entry of `m` whose value is `v`. */
  function FirstWithValue(m: Dict<string>, v: string): (r: Option<nat>)
    ensures r.Some? ==> r.value < |m| && m[r.value].1 == v && forall j :: 0 <= j < r.value ==> m[j].1 != v
    ensures r.None? ==> forall j :: 0 <= j < |m| ==> m[j].1 != v
    decreases |m|
  {
    if |m| == 0 then None
    else if m[0].1 == v then Some(0)
    else
      var r := FirstWithValue(m[1..], v);
      assert forall j :: 0 < j < |m| ==> m[j] == m[1..][j - 1];
      if r.Some? then Some(r.value + 1) else None
  }

  /** (name, location) of a dataset. */
  function Key(d: Dataset): (string, string) {
    (d.name, d.location)
  }

  function Keys(s: seq<Dataset>): (r: seq<(string, string)>)
    ensures |r| == |s| && forall i :: 0 <= i < |s| ==> r[i] == Key(s[i])
    ensures forall d :: d in s ==> Key(d) in r
  {
    seq(|s|, i requires 0 <= i < |s| => Key(s[i]))
  }

  /** `changed` holds exactly the (name, new location) of the relocated
      datasets of `db`, `out` being the relocated database. */
  ghost predicate Recorded(db: seq<Dataset>, railNames: seq<string>, out: seq<Dataset>, changed: seq<(string, string)>) {
    |out| == |db| &&
    forall c :: c in changed <==> exists i :: 0 <= i < |db| && IsRelocated(db[i], railNames) && Key(out[i]) == c
  }

  /** The relocation pass over the database and the pairs it records: one
      (name, new location) pair per relocated dataset. */
  function RelocateAll(db: seq<Dataset>, railNames: seq<string>, proxy: (string, string) -> Dict<string>)
    : (r: (seq<Dataset>, seq<(string, string)>))
    ensures |r.0| == |db|
    ensures forall i :: 0 <= i < |db| ==> r.0[i] == Relocate(db[i], railNames, proxy).0
    ensures Recorded(db, railNames, r.0, r.1)
    decreases |db|
  {
    if |db| == 0 then ([], [])
    else
      var (d, c) := Relocate(db[0], railNames, proxy);
      var (rest, changed) := RelocateAll(db[1..], railNames, proxy);
      var out := [d] + rest;
      assert out[1..] == rest;
      RecordedCons(db, railNames, out, changed, c);
      assert forall i :: 0 < i < |db| ==> db[i] == db[1..][i - 1] && out[i] == rest[i - 1];
      (out, (if c.Some? then [c.value] else []) + changed)
  }

  /** The pairs recorded for the first dataset, then those of the rest. */
  lemma RecordedCons(db: seq<Dataset>, railNames: seq<string>, out: seq<Dataset>, changed: seq<(string, string)>,
                     c: Option<(string, string)>)
    requires |db| > 0 && |out| == |db|
    requires c.Some? <==> IsRelocated(db[0], railNames)
    requires c.Some? ==> c.value == Key(out[0])
    requires Recorded(db[1..], railNames, out[1..], changed)
    ensures Recorded(db, railNames, out, (if c.Some? then [c.value] else []) + changed)
  {
    var all := (if c.Some? then [c.value] else []) + changed;
    forall x ensures x in all <==> exists i :: 0 <= i < |db| && IsRelocated(db[i], railNames) && Key(out[i]) == x {
      if x in changed {
        var i :| 0 <= i < |db[1..]| && IsRelocated(db[1..][i], railNames) && Key(out[1..][i]) == x;
        assert IsRelocated(db[i + 1], railNames) && Key(out[i + 1]) == x;
      }
      if exists i :: 0 <= i < |db| && IsRelocated(db[i], railNames) && Key(out[i]) == x {
        var i :| 0 <= i < |db| && IsRelocated(db[i], railNames) && Key(out[i]) == x;
        if i > 0 {
          assert IsRelocated(db[1..][i - 1], railNames) && Key(out[1..][i - 1]) == x;
        }
      }
    }
  }

  const REGION_NOTE: string := "Dataset for the region "

  /** A (region, name) pair of the copy loop is copied unless the dataset was
      relocated to that region or the region is World. */
  function IsCopied(changed: seq<(string, string)>): ((string, string)) -> bool {
    (p: (string, string)) => (p.1, p.0) !in changed && p.0 != WORLD
  }

  /** The copied pairs, in loop order. */
  function Wanted(pairs: seq<(string, string)>, changed: seq<(string, string)>): seq<(string, string)> {
    Filter(pairs, IsCopied(changed))
  }

  /** The source lookup of the copy loop over `db`. */
  function SourceFinder(db: seq<Dataset>): string -> Result<Dataset> {
    (name: string) => CopySource(db, name)
  }

  /** `k` is the key of what `find` returns for some pair of `wanted`. */
  predicate IsFoundKey(find: string -> Result<Dataset>, wanted: seq<(string, string)>, k: (string, string)) {
    exists j :: 0 <= j < |wanted| && find(wanted[j].1).Success? && Key(find(wanted[j].1).value) == k
  }

  /** `k` is the key of the source of some copied pair. */
  predicate IsSourceKey(db: seq<Dataset>, wanted: seq<(string, string)>, k: (string, string)) {
    IsFoundKey(SourceFinder(db), wanted, k)
  }

  /** No two datasets share name and location. */
  predicate UniqueKeys(s: seq<Dataset>) {
    forall i, j :: 0 <= i < j < |s| ==> Key(s[i]) != Key(s[j])
  }

  /** `find` succeeds on every pair of `wanted`. */
  predicate AllFound(find: string -> Result<Dataset>, wanted: seq<(string, string)>) {
    forall j :: 0 <= j < |wanted| ==> find(wanted[j].1).Success?
  }

  /** Every copied pair's source can be found. */
  predicate SourcesFound(db: seq<Dataset>, wanted: seq<(string, string)>) {
    AllFound(SourceFinder(db), wanted)
  }

  /** `out` is `created` followed by the copy of every pair of `wanted`, in order. */
  predicate CopiesAfter(db: seq<Dataset>, wanted: seq<(string, string)>, created: seq<Dataset>, out: seq<Dataset>) {
    |out| == |created| + |wanted| && out[..|created|] == created &&
    forall j :: 0 <= j < |wanted| ==>
      CopySource(db, wanted[j].1).Success? &&
      out[|created| + j] == RegionalCopy(CopySource(db, wanted[j].1).value, wanted[j].0)
  }

  /** The keys of `out` are those of `sources` and of what `find` returns
      for the pairs of `wanted`. */
  ghost predicate FoundKeysAfter(find: string -> Result<Dataset>, wanted: seq<(string, string)>, sources: seq<Dataset>,
                                 out: seq<Dataset>) {
    forall k :: k in Keys(out) <==> k in Keys(sources) || IsFoundKey(find, wanted, k)
  }

  /** The keys of `out` are those of `sources` and of the copied pairs' sources. */
  ghost predicate SourceKeysAfter(db: seq<Dataset>, wanted: seq<(string, string)>, sources: seq<Dataset>, out: seq<Dataset>) {
    FoundKeysAfter(SourceFinder(db), wanted, sources, out)
  }

  /** What the copy loop over the copied pairs `w` leaves, starting from
      `sources` and `created`: the copies of `w` appended to `created`, the
      keys of their sources added to those of `sources`, each new source a
      RoW or RER dataset of `db`, and unique keys kept unique. */
  ghost predicate CopiedAll(db: seq<Dataset>, w: seq<(string, string)>, sources: seq<Dataset>, created: seq<Dataset>,
                            out: (seq<Dataset>, seq<Dataset>)) {
    CopiesAfter(db, w, created, out.1) &&
    SourceKeysAfter(db, w, sources, out.0) &&
    (forall o :: o in out.0 ==> o in sources || (o in db && (o.location == ROW || o.location == RER))) &&
    (UniqueKeys(sources) ==> UniqueKeys(out.0))
  }

  /** The copy loop over (region, dataset name) pairs: every copied pair
      appends a copy of its source, and each source is recorded once by name
      and location. The loop raises at the first source that cannot be
      found. */
  function CopyAll(db: seq<Dataset>, pairs: seq<(string, string)>, changed: seq<(string, string)>,
                   sources: seq<Dataset>, created: seq<Dataset>): (r: Result<(seq<Dataset>, seq<Dataset>)>)
    ensures r.Success? <==> SourcesFound(db, Wanted(pairs, changed))
    ensures r.Failure? ==> r.error == NoResults || r.error == MultipleResults
    ensures r.Success? ==> CopiedAll(db, Wanted(pairs, changed), sources, created, r.value)
    decreases |pairs|
  {
    if |pairs| == 0 then Success((sources, created))
    else
      var (region, name) := pairs[0];
      WantedCons(pairs, changed);
      if IsCopied(changed)(pairs[0]) then
        SourcesFoundCons(db, Wanted(pairs, changed));
        var src :- CopySource(db, name);
        var sources' := if Key(src) in Keys(sources) then sources else sources + [src];
        var r := CopyAll(db, pairs[1..], changed, sources', created + [RegionalCopy(src, region)]);
        if r.Success? then
          CopiedAllCons(db, Wanted(pairs, changed), src, sources, created, r.value);
          r
        else r
      else
        CopyAll(db, pairs[1..], changed, sources, created)
  }

  /** The copy loop's step for a copied first pair whose source is `src`. */
  lemma CopiedAllCons(db: seq<Dataset>, w: seq<(string, string)>, src: Dataset, sources: seq<Dataset>,
                      created: seq<Dataset>, out: (seq<Dataset>, seq<Dataset>))
    requires |w| > 0 && CopySource(db, w[0].1) == Success(src)
    requires CopiedAll(db, w[1..], if Key(src) in Keys(sources) then sources else sources + [src],
                       created + [RegionalCopy(src, w[0].0)], out)
    ensures CopiedAll(db, w, sources, created, out)
  {
    SourceKeysCons(db, w, src, sources, out.0);
    CopiesCons(db, w, created, out.1);
    UniqueKeysAppend(sources, src);
    RecordedSources(sources, src);
  }

  /** A recorded source is an old one or the new one. */
  lemma RecordedSources(sources: seq<Dataset>, src: Dataset)
    ensures forall o :: o in (if Key(src) in Keys(sources) then sources else sources + [src]) ==> o in sources || o == src
  {
  }

  /** The copied pairs of `pairs` start with its first pair when that one is copied. */
  lemma WantedCons(pairs: seq<(string, string)>, changed: seq<(string, string)>)
    requires |pairs| > 0
    ensures Wanted(pairs, changed) ==
            if IsCopied(changed)(pairs[0]) then [pairs[0]] + Wanted(pairs[1..], changed) else Wanted(pairs[1..], changed)
  {
  }

  lemma KeysAppend(s: seq<Dataset>, d: Dataset)
    ensures Keys(s + [d]) == Keys(s) + [Key(d)]
    ensures forall k :: k in Keys(s + [d]) <==> k in Keys(s) || k == Key(d)
  {
    assert forall i :: 0 <= i < |s| ==> (s + [d])[i] == s[i];
  }

  /** The step of the copy loop for a copied first pair whose source is `src`. */
  lemma SourceKeysCons(db: seq<Dataset>, w: seq<(string, string)>, src: Dataset, sources: seq<Dataset>, out: seq<Dataset>)
    requires |w| > 0 && CopySource(db, w[0].1) == Success(src)
    requires SourceKeysAfter(db, w[1..], if Key(src) in Keys(sources) then sources else sources + [src], out)
    ensures SourceKeysAfter(db, w, sources, out)
  {
    FoundKeysCons(SourceFinder(db), w, src, sources, out);
  }

  lemma FoundKeysCons(find: string -> Result<Dataset>, w: seq<(string, string)>, src: Dataset, sources: seq<Dataset>,
                      out: seq<Dataset>)
    requires |w| > 0 && find(w[0].1) == Success(src)
    requires FoundKeysAfter(find, w[1..], if Key(src) in Keys(sources) then sources else sources + [src], out)
    ensures FoundKeysAfter(find, w, sources, out)
  {
    KeysAppend(sources, src);
    forall k ensures IsFoundKey(find, w, k) <==> k == Key(src) || IsFoundKey(find, w[1..], k) {
      if IsFoundKey(find, w[1..], k) {
        var j :| 0 <= j < |w[1..]| && find(w[1..][j].1).Success? && Key(find(w[1..][j].1).value) == k;
        assert w[j + 1] == w[1..][j];
      }
      if IsFoundKey(find, w, k) && k != Key(src) {
        var j :| 0 <= j < |w| && find(w[j].1).Success? && Key(find(w[j].1).value) == k;
        assert w[1..][j - 1] == w[j];
      }
    }
  }

  lemma SourcesFoundCons(db: seq<Dataset>, w: seq<(string, string)>)
    requires |w| > 0
    ensures SourcesFound(db, w) <==> CopySource(db, w[0].1).Success? && SourcesFound(db, w[1..])
  {
    AllFoundCons(SourceFinder(db), w);
  }

  lemma AllFoundCons(find: string -> Result<Dataset>, w: seq<(string, string)>)
    requires |w| > 0
    ensures AllFound(find, w) <==> find(w[0].1).Success? && AllFound(find, w[1..])
  {
    if find(w[0].1).Success? && AllFound(find, w[1..]) {
      forall j | 1 <= j < |w| ensures find(w[j].1).Success? {
        assert w[j] == w[1..][j - 1];
      }
    }
  }

  /** The copies of `w` after `created`, given those of its tail after the
      first copy. */
  lemma CopiesCons(db: seq<Dataset>, w: seq<(string, string)>, created: seq<Dataset>, out: seq<Dataset>)
    requires |w| > 0 && CopySource(db, w[0].1).Success?
    requires CopiesAfter(db, w[1..], created + [RegionalCopy(CopySource(db, w[0].1).value, w[0].0)], out)
    ensures CopiesAfter(db, w, created, out)
  {
    var first := RegionalCopy(CopySource(db, w[0].1).value, w[0].0);
    var created' := created + [first];
    var c := |created|;
    assert out[..c] == created by {
      assert out[..c] == out[..|created'|][..c];
    }
    forall j | 0 <= j < |w|
      ensures CopySource(db, w[j].1).Success? && out[c + j] == RegionalCopy(CopySource(db, w[j].1).value, w[j].0)
    {
      if j == 0 {
        assert out[c] == out[..|created'|][c];
      } else {
        CopiesTail(db, w, created', out);
        assert c + j == |created'| - 1 + j;
      }
    }
  }

  /** The copies of `w[1..]` after `created'` are those of `w`'s later
      pairs, one position further on than `created'` is long. */
  lemma CopiesTail(db: seq<Dataset>, w: seq<(string, string)>, created': seq<Dataset>, out: seq<Dataset>)
    requires |w| > 0 && |created'| > 0
    requires CopiesAfter(db, w[1..], created', out)
    ensures forall j :: 1 <= j < |w| ==>
              CopySource(db, w[j].1).Success? &&
              out[|created'| - 1 + j] == RegionalCopy(CopySource(db, w[j].1).value, w[j].0)
  {
    forall j | 1 <= j < |w|
      ensures CopySource(db, w[j].1).Success? &&
              out[|created'| - 1 + j] == RegionalCopy(CopySource(db, w[j].1).value, w[j].0)
    {
      assert w[j] == w[1..][j - 1];
    }
  }

  /** Recording a source only when its key is new keeps the keys unique. */
  lemma UniqueKeysAppend(s: seq<Dataset>, d: Dataset)
    ensures UniqueKeys(s) ==> UniqueKeys(if Key(d) in Keys(s) then s else s + [d])
  {
    if UniqueKeys(s) && Key(d) !in Keys(s) {
      forall i, j | 0 <= i < j < |s + [d]| ensures Key((s + [d])[i]) != Key((s + [d])[j]) {
        if j == |s| {
          assert Key(s[i]) in Keys(s);
        }
      }
    }
  }

  /** The (region, name) pairs of the copy loop, region-major. */
  function Pairs(regions: seq<string>, names: seq<string>): (r: seq<(string, string)>)
    ensures forall p :: 0 <= p < |r| ==> r[p].0 in regions && r[p].1 in names
    ensures forall x, y :: x in regions && y in names ==> (x, y) in r
    decreases |regions|
  {
    if |regions| == 0 then []
    else
      var here := seq(|names|, j requires 0 <= j < |names| => (regions[0], names[j]));
      var rest := Pairs(regions[1..], names);
      assert forall x :: x in regions[1..] ==> x in regions;
      assert forall x :: x in regions ==> x == regions[0] || x in regions[1..];
      assert forall y :: y in names ==> (regions[0], y) in here by {
        forall y | y in names ensures (regions[0], y) in here {
          var j :| 0 <= j < |names| && names[j] == y;
          assert here[j] == (regions[0], y);
        }
      }
      here + rest
  }

  /** A region and a dataset name are copied exactly when they are a copied pair. */
  lemma WantedPairs(regions: seq<string>, names: seq<string>, changed: seq<(string, string)>)
    ensures forall x, y :: (x, y) in Wanted(Pairs(regions, names), changed) <==>
              x in regions && y in names && (y, x) !in changed && x != WORLD
  {
    var ps := Pairs(regions, names);
    forall x, y ensures (x, y) in Wanted(ps, changed) <==> x in regions && y in names && (y, x) !in changed && x != WORLD {
      if (x, y) in Wanted(ps, changed) {
        var i :| 0 <= i < |Wanted(ps, changed)| && Wanted(ps, changed)[i] == (x, y);
        var j :| 0 <= j < |ps| && ps[j] == (x, y);
      }
      if x in regions && y in names && (y, x) !in changed && x != WORLD {
        var j :| 0 <= j < |ps| && ps[j] == (x, y);
      }
    }
  }

  /** `generate_datasets()` without efficiency rescaling: relocate the rail
      datasets, append the regional copies, then remove every dataset that
      shares name and location with a copied source; everything else is
      kept, in order and with its multiplicity. */
  function GenerateDatasets(db: seq<Dataset>, regions: seq<string>, roadNames: seq<string>, railNames: seq<string>,
                            proxy: (string, string) -> Dict<string>): (r: Result<seq<Dataset>>)
    ensures var (relocated, changed) := RelocateAll(db, railNames, proxy);
            r.Success? <==> forall x, y :: x in regions && y in roadNames + railNames && (y, x) !in changed && x != WORLD ==>
                              CopySource(relocated, y).Success?
    ensures r.Failure? ==> r.error == NoResults || r.error == MultipleResults
    ensures r.Success? ==>
              var (relocated, changed) := RelocateAll(db, railNames, proxy);
              var wanted := Wanted(Pairs(regions, roadNames + railNames), changed);
              var copies := CopyAll(relocated, Pairs(regions, roadNames + railNames), changed, [], []);
              copies.Success? &&
              IsSubsequence(r.value, relocated + copies.value.1) &&
              forall d :: multiset(r.value)[d] ==
                          if IsSourceKey(relocated, wanted, Key(d)) then 0 else multiset(relocated + copies.value.1)[d]
    ensures r.Success? ==> forall d :: d in r.value ==>
              d in RelocateAll(db, railNames, proxy).0 ||
              (d.location in regions && d.location != WORLD && d.name in roadNames + railNames &&
               StartsWith(d.comment, REGION_NOTE + d.location + ". "))
  {
    var (relocated, changed) := RelocateAll(db, railNames, proxy);
    var pairs := Pairs(regions, roadNames + railNames);
    WantedSourcesFound(relocated, regions, roadNames + railNames, changed);
    var (sources, created) :- CopyAll(relocated, pairs, changed, [], []);
    var r := Filter(relocated + created, KeyNotIn(Keys(sources)));
    DropSources(relocated + created, relocated, Wanted(pairs, changed), sources);
    CopiesAreRegional(relocated, regions, roadNames + railNames, changed, created);
    Success(r)
  }

  /** A dataset whose key is not among `keys`. */
  function KeyNotIn(keys: seq<(string, string)>): Dataset -> bool {
    (d: Dataset) => Key(d) !in keys
  }

  /** Dropping the datasets that share a key with a recorded source drops
      exactly the datasets keyed like a copied pair's source. */
  lemma DropSources(s: seq<Dataset>, db: seq<Dataset>, wanted: seq<(string, string)>, sources: seq<Dataset>)
    requires SourceKeysAfter(db, wanted, [], sources)
    ensures var r := Filter(s, KeyNotIn(Keys(sources)));
            IsSubsequence(r, s) &&
            (forall d :: multiset(r)[d] == if IsSourceKey(db, wanted, Key(d)) then 0 else multiset(s)[d]) &&
            forall d :: d in r ==> d in s
  {
    var r := Filter(s, KeyNotIn(Keys(sources)));
    FilterIsSubsequence(s, KeyNotIn(Keys(sources)));
    forall d ensures multiset(r)[d] == if IsSourceKey(db, wanted, Key(d)) then 0 else multiset(s)[d] {
      FilterCount(s, KeyNotIn(Keys(sources)), d);
    }
    forall d | d in r ensures d in s {
      var i :| 0 <= i < |r| && r[i] == d;
    }
  }

  /** Every copied pair's source is found exactly when every non-World region
      and dataset name the copy loop reaches, and not relocated there, has one. */
  lemma WantedSourcesFound(db: seq<Dataset>, regions: seq<string>, names: seq<string>, changed: seq<(string, string)>)
    ensures SourcesFound(db, Wanted(Pairs(regions, names), changed)) <==>
            forall x, y :: x in regions && y in names && (y, x) !in changed && x != WORLD ==> CopySource(db, y).Success?
  {
    var wanted := Wanted(Pairs(regions, names), changed);
    WantedPairs(regions, names, changed);
    if SourcesFound(db, wanted) {
      forall x, y | x in regions && y in names && (y, x) !in changed && x != WORLD ensures CopySource(db, y).Success? {
        var j :| 0 <= j < |wanted| && wanted[j] == (x, y);
      }
    } else {
      var j :| 0 <= j < |wanted| && !CopySource(db, wanted[j].1).Success?;
      assert wanted[j] in wanted;
    }
  }

  /** Each regional copy is at a non-World region of the loop, names one of
      the loop's datasets and carries the region note. */
  lemma CopiesAreRegional(db: seq<Dataset>, regions: seq<string>, names: seq<string>, changed: seq<(string, string)>,
                          out: seq<Dataset>)
    requires CopiesAfter(db, Wanted(Pairs(regions, names), changed), [], out)
    ensures forall d :: d in out ==>
              d.location in regions && d.location != WORLD && d.name in names &&
              StartsWith(d.comment, REGION_NOTE + d.location + ". ")
  {
    var wanted := Wanted(Pairs(regions, names), changed);
    WantedPairs(regions, names, changed);
    forall d | d in out
      ensures d.location in regions && d.location != WORLD && d.name in names &&
              StartsWith(d.comment, REGION_NOTE + d.location + ". ")
    {
      var i :| 0 <= i < |out| && out[i] == d;
      assert wanted[i] in wanted;
      assert d.comment[..|REGION_NOTE + d.location + ". "|] == REGION_NOTE + d.location + ". ";
    }
  }

  /** Every copied source is a RoW or RER dataset of the relocated database. */
  lemma CopiedSourcesAreProxies(db: seq<Dataset>, regions: seq<string>, roadNames: seq<string>, railNames: seq<string>,
                                proxy: (string, string) -> Dict<string>, o: Dataset)
    requires var (relocated, changed) := RelocateAll(db, railNames, proxy);
             CopyAll(relocated, Pairs(regions, roadNames + railNames), changed, [], []).Success? &&
             o in CopyAll(relocated, Pairs(regions, roadNames + railNames), changed, [], []).value.0
    ensures o in RelocateAll(db, railNames, proxy).0 && (o.location == ROW || o.location == RER)
  {
  }
}
