/** The direct-drive variants of the wind-turbine datasets
    (premise/wind_turbines.py): every onshore or offshore wind power dataset
    is copied as a "direct drive" variant, with copies of the four turbine
    construction datasets and of their four markets, and the copies are
    linked to one another. The power-plant name sets are an input. */
module WindTurbines {
  import opened Wrappers
  import opened Strings
  import opened Seqs
  import opened Inventory

  const DIRECT_DRIVE: string := "direct drive"

  const ONSHORE: string := "Wind Onshore"
  const OFFSHORE: string := "Wind Offshore"

  const CONSTRUCTION_NAMES: seq<string> := [
    "wind power plant construction, 800kW, moving parts",
    "wind power plant construction, 2MW, offshore, moving parts",
    "wind turbine construction, 4.5MW, onshore",
    "wind turbine construction, 2MW, onshore"
  ]

  const MARKET_NAMES: seq<string> := [
    "market for wind power plant, 800kW, moving parts",
    "market for wind power plant, 2MW, offshore, moving parts",
    "market for wind turbine, 4.5MW, onshore",
    "market for wind turbine, 2MW, onshore"
  ]

  const PRODUCT_NAMES: seq<string> := [
    "wind power plant, 800kW, moving parts",
    "wind power plant, 2MW, offshore, moving parts",
    "wind turbine, 4.5MW, onshore",
    "wind turbine, 2MW, onshore"
  ]

  // ---------------------------------------------------------------------------
  // create_dataset_copy

  /** A copy of `d` as the `suffix` variant: renamed, with a new comment, and
      with every production exchange carrying the new name and no input link. */
  function CreateDatasetCopy(d: Dataset, suffix: string): (c: Dataset)
    ensures c.name == d.name + ", " + suffix
    ensures c.comment == "This dataset represents the " + suffix + " technology variant of the ecoinvent dataset."
    ensures c.referenceProduct == d.referenceProduct && c.unit == d.unit && c.location == d.location
    ensures |c.exchanges| == |d.exchanges|
    ensures forall j :: 0 <= j < |d.exchanges| && IsProduction(d.exchanges[j]) ==>
              c.exchanges[j].name == c.name && c.exchanges[j].input.None?
  {
    var name := d.name + ", " + suffix;
    Dataset(name, d.referenceProduct, d.unit, d.location,
            "This dataset represents the " + suffix + " technology variant of the ecoinvent dataset.",
            seq(|d.exchanges|, j requires 0 <= j < |d.exchanges| =>
              if IsProduction(d.exchanges[j]) then d.exchanges[j].(name := name, input := None) else d.exchanges[j]))
  }

  /** A copy changes no exchange but the name and link of its production
      exchanges, and its name ends in the suffix. */
  lemma CopyChangesOnlyProduction(d: Dataset, suffix: string)
    ensures var c := CreateDatasetCopy(d, suffix);
            EndsWith(c.name, ", " + suffix) &&
            forall j :: 0 <= j < |d.exchanges| ==>
              c.exchanges[j].(name := d.exchanges[j].name, input := d.exchanges[j].input) == d.exchanges[j] &&
              (!IsProduction(d.exchanges[j]) ==> c.exchanges[j] == d.exchanges[j])
  {
    var c := CreateDatasetCopy(d, suffix);
    assert c.name[|c.name| - |", " + suffix|..] == ", " + suffix;
  }

  // ---------------------------------------------------------------------------
  // Lookups

  /** `ws.get_one(database, ws.equals("name", name))` */
  function GetOneByName(db: seq<Dataset>, name: string): (r: Result<Dataset>) {
    GetOneWhere(db, NameIs(name))
  }

  // ---------------------------------------------------------------------------
  // create_construction_datasets

  /** Every name in `names` is found exactly once. */
  predicate AllFound(db: seq<Dataset>, names: seq<string>) {
    forall k :: 0 <= k < |names| ==> GetOneByName(db, names[k]).Success?
  }

  /** `out` holds the direct-drive copy of the dataset of every name, in order. */
  predicate CopiesOfNamed(db: seq<Dataset>, names: seq<string>, out: seq<Dataset>) {
    |out| == |names| && forall k :: 0 <= k < |names| ==>
      GetOneByName(db, names[k]).Success? && out[k] == CreateDatasetCopy(GetOneByName(db, names[k]).value, DIRECT_DRIVE)
  }

  lemma NamedCons(db: seq<Dataset>, names: seq<string>, out: seq<Dataset>)
    requires |names| > 0
    ensures AllFound(db, names) <==> GetOneByName(db, names[0]).Success? && AllFound(db, names[1..])
    ensures GetOneByName(db, names[0]).Success? && |out| > 0 ==>
              (CopiesOfNamed(db, names, out) <==>
                 out[0] == CreateDatasetCopy(GetOneByName(db, names[0]).value, DIRECT_DRIVE) &&
                 CopiesOfNamed(db, names[1..], out[1..]))
  {
    assert forall k :: 0 < k < |names| ==> names[k] == names[1..][k - 1];
    if GetOneByName(db, names[0]).Success? && |out| > 0 {
      NamedCopiesCons(db, names, out);
    }
  }

  lemma NamedCopiesCons(db: seq<Dataset>, names: seq<string>, out: seq<Dataset>)
    requires |names| > 0 && |out| > 0 && GetOneByName(db, names[0]).Success?
    ensures CopiesOfNamed(db, names, out) <==>
              out[0] == CreateDatasetCopy(GetOneByName(db, names[0]).value, DIRECT_DRIVE) &&
              CopiesOfNamed(db, names[1..], out[1..])
  {
    assert forall k :: 0 < k < |names| ==> names[k] == names[1..][k - 1];
    assert forall k :: 0 < k < |out| ==> out[k] == out[1..][k - 1];
  }

  /** Direct-drive copies of the construction datasets named in `names`, each
      looked up by exact name. */
  function ConstructionCopies(db: seq<Dataset>, names: seq<string>): (r: Result<seq<Dataset>>)
    ensures r.Success? <==> AllFound(db, names)
    ensures r.Success? ==> CopiesOfNamed(db, names, r.value)
    ensures r.Failure? ==> r.error == NoResults || r.error == MultipleResults
    decreases |names|
  {
    if |names| == 0 then Success([])
    else
      var rest := ConstructionCopies(db, names[1..]);
      match GetOneByName(db, names[0])
      case Failure(e) =>
        NamedCons(db, names, []);
        Failure(e)
      case Success(d) =>
        if rest.Failure? then
          NamedCons(db, names, []);
          Failure(rest.error)
        else
          var r := [CreateDatasetCopy(d, DIRECT_DRIVE)] + rest.value;
          NamedCons(db, names, r);
          assert r[1..] == rest.value;
          Success(r)
  }

  /** `create_construction_datasets()`: the direct-drive copies of the four
      construction datasets, each of which must be found exactly once. */
  function CreateConstructionDatasets(db: seq<Dataset>): (r: Result<seq<Dataset>>)
    ensures r.Success? <==> AllFound(db, CONSTRUCTION_NAMES)
    ensures r.Success? ==> CopiesOfNamed(db, CONSTRUCTION_NAMES, r.value)
    ensures r.Success? ==> forall x :: x in r.value ==> IsVariantName(x.name)
    ensures r.Failure? ==> r.error == NoResults || r.error == MultipleResults
  {
    var r := ConstructionCopies(db, CONSTRUCTION_NAMES);
    if r.Success? then NamedCopies(db, CONSTRUCTION_NAMES, r.value); r else r
  }

  /** The four construction copies carry the construction names, in order,
      with ", direct drive" appended. */
  lemma ConstructionCopyNames(db: seq<Dataset>)
    requires CreateConstructionDatasets(db).Success?
    ensures var r := CreateConstructionDatasets(db).value;
            |r| == 4 && forall k :: 0 <= k < 4 ==> r[k].name == CONSTRUCTION_NAMES[k] + ", " + DIRECT_DRIVE
  {
    NamedCopies(db, CONSTRUCTION_NAMES, CreateConstructionDatasets(db).value);
  }

  /** Every copy in `out` carries the direct-drive name of its source. */
  lemma NamedCopies(db: seq<Dataset>, names: seq<string>, out: seq<Dataset>)
    requires CopiesOfNamed(db, names, out)
    ensures forall k :: 0 <= k < |out| ==> out[k].name == names[k] + ", " + DIRECT_DRIVE
    ensures forall x :: x in out ==> IsVariantName(x.name)
  {
    forall k | 0 <= k < |out| ensures out[k].name == names[k] + ", " + DIRECT_DRIVE {
      assert GetOneByName(db, names[k]).Success?;
      assert GetOneByName(db, names[k]).value.name == names[k];
    }
    forall x | x in out ensures IsVariantName(x.name) {
      var k :| 0 <= k < |out| && out[k] == x;
      VariantName(names[k]);
    }
  }

  // ---------------------------------------------------------------------------
  // create_market_datasets

  /** The technosphere exchanges supplying `product` take the name `supplier`. */
  function RenameSupplier(excs: seq<Exchange>, product: string, supplier: string): (r: seq<Exchange>)
    ensures |r| == |excs|
    ensures forall j :: 0 <= j < |excs| ==>
              r[j].(name := excs[j].name) == excs[j] &&
              (if IsTechnosphere(excs[j]) && excs[j].product == product then r[j].name == supplier else r[j] == excs[j])
  {
    seq(|excs|, j requires 0 <= j < |excs| =>
      if IsTechnosphere(excs[j]) && excs[j].product == product then excs[j].(name := supplier) else excs[j])
  }

  /** `zip(market_names, product_names, construction_datasets)`: entries
      paired by position, up to the shortest of the three. */
  function Zip3(markets: seq<string>, products: seq<string>, constructions: seq<Dataset>): (r: seq<(string, string, Dataset)>)
    ensures |r| == Min(|markets|, Min(|products|, |constructions|))
    ensures forall k :: 0 <= k < |r| ==> r[k] == (markets[k], products[k], constructions[k])
    decreases |markets|
  {
    if |markets| == 0 || |products| == 0 || |constructions| == 0 then []
    else
      var rest := Zip3(markets[1..], products[1..], constructions[1..]);
      [(markets[0], products[0], constructions[0])] + rest
  }

  /** Every entry's market is found exactly once in `db`. */
  predicate MarketsFoundFor(db: seq<Dataset>, entries: seq<(string, string, Dataset)>) {
    forall k :: 0 <= k < |entries| ==> GetOneByName(db, entries[k].0).Success?
  }

  /** `out` holds, for every entry, the direct-drive copy of its market with
      the supplier of its product renamed to its construction copy. */
  ghost predicate MarketCopiesOf(db: seq<Dataset>, entries: seq<(string, string, Dataset)>, out: seq<Dataset>) {
    |out| == |entries| &&
    forall k :: 0 <= k < |out| ==>
      GetOneByName(db, entries[k].0).Success? &&
      var copy := CreateDatasetCopy(GetOneByName(db, entries[k].0).value, DIRECT_DRIVE);
      out[k] == copy.(exchanges := RenameSupplier(copy.exchanges, entries[k].1, entries[k].2.name))
  }

  /** The market copies of the zipped entries, each renaming the supplier of
      its product to its construction copy. */
  function MarketCopies(db: seq<Dataset>, entries: seq<(string, string, Dataset)>): (r: Result<seq<Dataset>>)
    ensures r.Success? <==> MarketsFoundFor(db, entries)
    ensures r.Success? ==> MarketCopiesOf(db, entries, r.value)
    ensures r.Failure? ==> r.error == NoResults || r.error == MultipleResults
    decreases |entries|
  {
    if |entries| == 0 then Success([])
    else
      var (market, product, construction) := entries[0];
      MarketsFoundCons(db, entries);
      var m :- GetOneByName(db, market);
      var copy := CreateDatasetCopy(m, DIRECT_DRIVE);
      var rest :- MarketCopies(db, entries[1..]);
      var r := [copy.(exchanges := RenameSupplier(copy.exchanges, product, construction.name))] + rest;
      MarketCopiesCons(db, entries, r);
      Success(r)
  }

  lemma MarketsFoundCons(db: seq<Dataset>, entries: seq<(string, string, Dataset)>)
    requires |entries| > 0
    ensures MarketsFoundFor(db, entries) <==>
            GetOneByName(db, entries[0].0).Success? && MarketsFoundFor(db, entries[1..])
  {
    assert forall k :: 0 < k < |entries| ==> entries[k] == entries[1..][k - 1];
  }

  /** The copy of the first entry's market followed by those of the rest. */
  lemma MarketCopiesCons(db: seq<Dataset>, entries: seq<(string, string, Dataset)>, out: seq<Dataset>)
    requires |entries| > 0 && |out| > 0 && GetOneByName(db, entries[0].0).Success?
    requires var copy := CreateDatasetCopy(GetOneByName(db, entries[0].0).value, DIRECT_DRIVE);
             out[0] == copy.(exchanges := RenameSupplier(copy.exchanges, entries[0].1, entries[0].2.name))
    requires MarketCopiesOf(db, entries[1..], out[1..])
    ensures MarketCopiesOf(db, entries, out)
  {
    forall k | 0 < k < |out|
      ensures GetOneByName(db, entries[k].0).Success? &&
              var copy := CreateDatasetCopy(GetOneByName(db, entries[k].0).value, DIRECT_DRIVE);
              out[k] == copy.(exchanges := RenameSupplier(copy.exchanges, entries[k].1, entries[k].2.name))
    {
      assert out[k] == out[1..][k - 1] && entries[k] == entries[1..][k - 1];
    }
  }

  /** `create_market_datasets(parent_dataset, construction_datasets)`: the
      parent is not read. */
  function CreateMarketDatasets(db: seq<Dataset>, constructions: seq<Dataset>): (r: Result<seq<Dataset>>)
    ensures r.Success? <==> forall k :: 0 <= k < Min(4, |constructions|) ==> GetOneByName(db, MARKET_NAMES[k]).Success?
    ensures r.Success? ==> |r.value| == Min(4, |constructions|)
    ensures r.Success? ==> MarketCopiesOf(db, Zip3(MARKET_NAMES, PRODUCT_NAMES, constructions), r.value)
    ensures r.Success? ==> forall x :: x in r.value ==> IsVariantName(x.name)
    ensures r.Failure? ==> r.error == NoResults || r.error == MultipleResults
  {
    var entries := Zip3(MARKET_NAMES, PRODUCT_NAMES, constructions);
    var r := MarketCopies(db, entries);
    MarketsFound(db, constructions);
    if r.Success? then MarketCopyNames(db, entries, r.value); r else r
  }

  /** The market copies carry the market names, in order, with
      ", direct drive" appended. */
  lemma MarketDatasetNames(db: seq<Dataset>, constructions: seq<Dataset>)
    requires CreateMarketDatasets(db, constructions).Success?
    ensures var r := CreateMarketDatasets(db, constructions).value;
            forall k :: 0 <= k < |r| ==> r[k].name == MARKET_NAMES[k] + ", " + DIRECT_DRIVE
  {
    var entries := Zip3(MARKET_NAMES, PRODUCT_NAMES, constructions);
    MarketCopyNames(db, entries, CreateMarketDatasets(db, constructions).value);
  }

  /** The zipped market copies succeed exactly when each of the first
      `Min(4, |constructions|)` markets is found exactly once. */
  lemma MarketsFound(db: seq<Dataset>, constructions: seq<Dataset>)
    ensures MarketCopies(db, Zip3(MARKET_NAMES, PRODUCT_NAMES, constructions)).Success? <==>
            forall k :: 0 <= k < Min(4, |constructions|) ==> GetOneByName(db, MARKET_NAMES[k]).Success?
  {
    var entries := Zip3(MARKET_NAMES, PRODUCT_NAMES, constructions);
    assert forall k :: 0 <= k < |entries| ==> entries[k].0 == MARKET_NAMES[k];
  }

  /** Every market copy carries the direct-drive name of its market. */
  lemma MarketCopyNames(db: seq<Dataset>, entries: seq<(string, string, Dataset)>, out: seq<Dataset>)
    requires MarketCopies(db, entries) == Success(out)
    ensures forall k :: 0 <= k < |out| ==> out[k].name == entries[k].0 + ", " + DIRECT_DRIVE
    ensures forall x :: x in out ==> IsVariantName(x.name)
  {
    forall k | 0 <= k < |out| ensures out[k].name == entries[k].0 + ", " + DIRECT_DRIVE {
      assert GetOneByName(db, entries[k].0).value.name == entries[k].0;
    }
    forall x | x in out ensures IsVariantName(x.name) {
      var k :| 0 <= k < |out| && out[k] == x;
      VariantName(entries[k].0);
    }
  }

  /** In the `k`-th market copy, the technosphere exchanges supplying the
      `k`-th product now name the `k`-th construction copy; every other
      exchange, and every field but the name, is that of the copied market. */
  lemma MarketCopySuppliers(db: seq<Dataset>, constructions: seq<Dataset>, k: nat, j: nat)
    requires CreateMarketDatasets(db, constructions).Success?
    requires k < |CreateMarketDatasets(db, constructions).value|
    ensures GetOneByName(db, MARKET_NAMES[k]).Success?
    ensures var copy := CreateDatasetCopy(GetOneByName(db, MARKET_NAMES[k]).value, DIRECT_DRIVE);
            var m := CreateMarketDatasets(db, constructions).value[k];
            |m.exchanges| == |copy.exchanges| &&
            (j < |m.exchanges| ==>
               m.exchanges[j].(name := copy.exchanges[j].name) == copy.exchanges[j] &&
               if IsTechnosphere(copy.exchanges[j]) && copy.exchanges[j].product == PRODUCT_NAMES[k]
               then m.exchanges[j].name == constructions[k].name
               else m.exchanges[j] == copy.exchanges[j])
  {
    var entries := Zip3(MARKET_NAMES, PRODUCT_NAMES, constructions);
    assert entries[k] == (MARKET_NAMES[k], PRODUCT_NAMES[k], constructions[k]);
  }

  // ---------------------------------------------------------------------------
  // update_production_dataset_links

  predicate HasProduction(d: Dataset) {
    exists j :: 0 <= j < |d.exchanges| && IsProduction(d.exchanges[j])
  }

  /** The (product, name) of every market, the product being that of its first
      production exchange; a market without one raises. */
  function MarketLinks(markets: seq<Dataset>): (r: Result<seq<(string, string)>>)
    ensures r.Success? <==> forall k :: 0 <= k < |markets| ==> HasProduction(markets[k])
    ensures r.Failure? ==> r.error == IndexError
    ensures r.Success? ==> |r.value| == |markets| && forall k :: 0 <= k < |markets| ==>
              |Filter(markets[k].exchanges, IsProduction)| > 0 &&
              r.value[k] == (Filter(markets[k].exchanges, IsProduction)[0].product, markets[k].name)
    decreases |markets|
  {
    if |markets| == 0 then Success([])
    else
      var production := Filter(markets[0].exchanges, IsProduction);
      FilterNonEmpty(markets[0].exchanges, IsProduction);
      assert forall k :: 0 < k < |markets| ==> markets[k] == markets[1..][k - 1];
      if |production| == 0 then Failure(IndexError)
      else
        var rest :- MarketLinks(markets[1..]);
        var r := [(production[0].product, markets[0].name)] + rest;
        assert forall k :: 0 < k < |r| ==> r[k] == rest[k - 1];
        Success(r)
  }

  /** The position of the last link supplying `product`. */
  function LastWithProduct(links: seq<(string, string)>, product: string): (r: Option<nat>)
    ensures r.Some? ==> r.value < |links| && links[r.value].0 == product &&
                        forall k :: r.value < k < |links| ==> links[k].0 != product
    ensures r.None? ==> forall k :: 0 <= k < |links| ==> links[k].0 != product
    decreases |links|
  {
    if |links| == 0 then None
    else
      var later := LastWithProduct(links[1..], product);
      assert forall k :: 0 < k < |links| ==> links[k] == links[1..][k - 1];
      if later.Some? then Some(later.value + 1)
      else if links[0].0 == product then Some(0)
      else None
  }

  /** The renaming pass of every link in turn. */
  function RelinkAll(excs: seq<Exchange>, links: seq<(string, string)>): (r: seq<Exchange>)
    decreases |links|
  {
    if |links| == 0 then excs else RelinkAll(RenameSupplier(excs, links[0].0, links[0].1), links[1..])
  }

  /** Renaming by every link in turn leaves each technosphere exchange named
      after the LAST link supplying its product, and every other exchange and
      every field but the name as it was. */
  lemma {:induction false} RelinkAllLastWins(excs: seq<Exchange>, links: seq<(string, string)>)
    ensures var r := RelinkAll(excs, links);
            |r| == |excs| &&
            forall j :: 0 <= j < |excs| ==>
              r[j].(name := excs[j].name) == excs[j] &&
              (if IsTechnosphere(excs[j]) && LastWithProduct(links, excs[j].product).Some? then
                 r[j].name == links[LastWithProduct(links, excs[j].product).value].1
               else r[j] == excs[j])
    decreases |links|
  {
    if |links| > 0 {
      var once := RenameSupplier(excs, links[0].0, links[0].1);
      RelinkAllLastWins(once, links[1..]);
      assert forall j :: 0 <= j < |excs| ==> once[j].product == excs[j].product && once[j].kind == excs[j].kind;
    }
  }

  /** `update_production_dataset_links(production_dataset, market_datasets)` */
  function UpdateProductionDatasetLinks(production: Dataset, markets: seq<Dataset>): (r: Result<Dataset>)
    ensures r.Success? <==> forall k :: 0 <= k < |markets| ==> HasProduction(markets[k])
    ensures r.Failure? ==> r.error == IndexError
    ensures r.Success? ==> r.value.(exchanges := production.exchanges) == production
  {
    var links :- MarketLinks(markets);
    Success(production.(exchanges := RelinkAll(production.exchanges, links)))
  }

  /** After the update, each technosphere exchange of the production dataset
      supplying a market's product is named after the LAST such market; every
      other exchange, and every field but the name, is unchanged. */
  lemma ProductionLinksLastWins(production: Dataset, markets: seq<Dataset>, j: nat)
    requires UpdateProductionDatasetLinks(production, markets).Success?
    requires j < |production.exchanges|
    ensures var r := UpdateProductionDatasetLinks(production, markets).value;
            var e := production.exchanges[j];
            var last := LastWithProduct(MarketLinks(markets).value, e.product);
            |r.exchanges| == |production.exchanges| &&
            r.exchanges[j].(name := e.name) == e &&
            (last.Some? ==> last.value < |markets|) &&
            if IsTechnosphere(e) && last.Some? then r.exchanges[j].name == markets[last.value].name
            else r.exchanges[j] == e
  {
    RelinkAllLastWins(production.exchanges, MarketLinks(markets).value);
  }

  // ---------------------------------------------------------------------------
  // create_direct_drive_turbines

  /** A name that ends in ", direct drive". */
  predicate IsVariantName(name: string) {
    EndsWith(name, ", " + DIRECT_DRIVE)
  }

  lemma VariantName(base: string)
    ensures IsVariantName(base + ", " + DIRECT_DRIVE)
  {
    var n := base + ", " + DIRECT_DRIVE;
    assert n[|n| - |", " + DIRECT_DRIVE|..] == ", " + DIRECT_DRIVE;
  }

  /** The nine datasets one chosen dataset adds: its copy, linked to the
      market copies, the four construction copies and the four market copies.
      The constructions are looked up in the database with the copy appended,
      the markets in the database with the copy and the constructions appended. */
  function DirectDriveVariant(db: seq<Dataset>, d: Dataset): (r: Result<seq<Dataset>>)
    ensures var copy := CreateDatasetCopy(d, DIRECT_DRIVE);
            var c := CreateConstructionDatasets(db + [copy]);
            r.Success? <==> c.Success? &&
                            var m := CreateMarketDatasets(db + [copy] + c.value, c.value);
                            m.Success? && UpdateProductionDatasetLinks(copy, m.value).Success?
    ensures var copy := CreateDatasetCopy(d, DIRECT_DRIVE);
            var c := CreateConstructionDatasets(db + [copy]);
            r.Success? ==> c.Success? &&
                           var m := CreateMarketDatasets(db + [copy] + c.value, c.value);
                           m.Success? && r.value == [UpdateProductionDatasetLinks(copy, m.value).value] + c.value + m.value
    ensures r.Failure? ==> r.error in {NoResults, MultipleResults, IndexError}
  {
    var copy := CreateDatasetCopy(d, DIRECT_DRIVE);
    var c := CreateConstructionDatasets(db + [copy]);
    if c.Failure? then Failure(c.error) else
    var m := CreateMarketDatasets(db + [copy] + c.value, c.value);
    if m.Failure? then Failure(m.error) else
    var linked := UpdateProductionDatasetLinks(copy, m.value);
    if linked.Failure? then Failure(linked.error) else
    Success([linked.value] + c.value + m.value)
  }

  /** A variant is nine datasets, all with variant names, the first being the
      chosen dataset's copy with only its exchanges relinked. */
  lemma VariantShape(db: seq<Dataset>, d: Dataset)
    requires DirectDriveVariant(db, d).Success?
    ensures var r := DirectDriveVariant(db, d).value;
            |r| == 9 &&
            r[0].(exchanges := CreateDatasetCopy(d, DIRECT_DRIVE).exchanges) == CreateDatasetCopy(d, DIRECT_DRIVE) &&
            forall x :: x in r ==> IsVariantName(x.name)
  {
    var copy := CreateDatasetCopy(d, DIRECT_DRIVE);
    var c := CreateConstructionDatasets(db + [copy]).value;
    var m := CreateMarketDatasets(db + [copy] + c, c).value;
    var linked := UpdateProductionDatasetLinks(copy, m).value;
    VariantName(d.name);
    assert DirectDriveVariant(db, d).value == [linked] + c + m;
    forall x | x in [linked] + c + m ensures IsVariantName(x.name) {
      if x !in c && x !in m {
        assert x == linked;
      }
    }
  }

  /** `out` is, block of nine by block of nine, what `step` gives for each
      chosen dataset over the database grown by the blocks before it. */
  predicate Blocks(step: (seq<Dataset>, Dataset) -> Result<seq<Dataset>>, db: seq<Dataset>, chosen: seq<Dataset>, out: seq<Dataset>) {
    |out| == 9 * |chosen| &&
    forall i :: 0 <= i < |chosen| ==> step(db + out[..9 * i], chosen[i]) == Success(out[9 * i..9 * i + 9])
  }

  /** The blocks split into the first chosen dataset's block and the blocks of
      the rest over the database grown by it. */
  lemma BlocksCons(step: (seq<Dataset>, Dataset) -> Result<seq<Dataset>>, db: seq<Dataset>, chosen: seq<Dataset>, out: seq<Dataset>)
    requires |chosen| > 0 && |out| == 9 * |chosen|
    ensures Blocks(step, db, chosen, out) <==>
            step(db, chosen[0]) == Success(out[..9]) && Blocks(step, db + out[..9], chosen[1..], out[9..])
  {
    var grown := db + out[..9];
    var rest := out[9..];
    assert db + out[..9 * 0] == db && out[9 * 0..9 * 0 + 9] == out[..9];
    forall i | 1 <= i < |chosen|
      ensures db + out[..9 * i] == grown + rest[..9 * (i - 1)]
      ensures out[9 * i..9 * i + 9] == rest[9 * (i - 1)..9 * (i - 1) + 9]
      ensures chosen[i] == chosen[1..][i - 1]
    {
      BlockShift(db, out, i);
    }
    if Blocks(step, db, chosen, out) {
      assert step(db + out[..9 * 0], chosen[0]) == Success(out[9 * 0..9 * 0 + 9]);
      forall i | 0 <= i < |chosen| - 1
        ensures step(grown + rest[..9 * i], chosen[1..][i]) == Success(rest[9 * i..9 * i + 9])
      {
        assert step(db + out[..9 * (i + 1)], chosen[i + 1]) == Success(out[9 * (i + 1)..9 * (i + 1) + 9]);
      }
    }
  }

  lemma SplitAt(s: seq<Dataset>, k: nat)
    requires k <= |s|
    ensures s == s[..k] + s[k..]
  {
  }

  /** Dropping the first block of nine shifts the later blocks and prefixes
      by one block. */
  lemma BlockShift(db: seq<Dataset>, out: seq<Dataset>, i: nat)
    requires 1 <= i && 9 * i + 9 <= |out|
    ensures db + out[..9 * i] == (db + out[..9]) + out[9..][..9 * (i - 1)]
    ensures out[9 * i..9 * i + 9] == out[9..][9 * (i - 1)..9 * (i - 1) + 9]
  {
    var start := 9 * (i - 1);
    assert 9 + start == 9 * i;
    assert out[..9 * i] == out[..9] + out[9..][..start];
    assert out[9..][start..start + 9] == out[9 + start..9 + start + 9];
  }

  /** The datasets a pass over the chosen datasets appends, in order, each
      chosen dataset looking up the construction and market datasets in the
      database as it has grown. */
  function Variants(db: seq<Dataset>, chosen: seq<Dataset>): (r: Result<seq<Dataset>>)
    ensures r.Success? ==> |r.value| == 9 * |chosen|
    ensures r.Success? ==> forall x :: x in r.value ==> IsVariantName(x.name)
    ensures r.Failure? ==> r.error in {NoResults, MultipleResults, IndexError}
    decreases |chosen|
  {
    if |chosen| == 0 then Success([])
    else
      var added :- DirectDriveVariant(db, chosen[0]);
      VariantShape(db, chosen[0]);
      var rest :- Variants(db + added, chosen[1..]);
      Success(added + rest)
  }

  /** A successful pass is made of the chosen datasets' variant blocks. */
  lemma {:induction false} VariantsSound(db: seq<Dataset>, chosen: seq<Dataset>)
    requires Variants(db, chosen).Success?
    ensures Blocks(DirectDriveVariant, db, chosen, Variants(db, chosen).value)
    decreases |chosen|
  {
    if |chosen| > 0 {
      var added := DirectDriveVariant(db, chosen[0]).value;
      VariantsSound(db + added, chosen[1..]);
      var out := Variants(db, chosen).value;
      assert out[..9] == added && out[9..] == Variants(db + added, chosen[1..]).value;
      BlocksCons(DirectDriveVariant, db, chosen, out);
    }
  }

  /** Any sequence made of the chosen datasets' variant blocks is what the
      pass returns: with `VariantsSound`, the pass succeeds exactly when such
      blocks exist, and then returns them. */
  lemma {:induction false} VariantsComplete(db: seq<Dataset>, chosen: seq<Dataset>, out: seq<Dataset>)
    requires Blocks(DirectDriveVariant, db, chosen, out)
    ensures Variants(db, chosen) == Success(out)
    decreases |chosen|
  {
    if |chosen| > 0 {
      BlocksCons(DirectDriveVariant, db, chosen, out);
      var added := out[..9];
      assert DirectDriveVariant(db, chosen[0]) == Success(added);
      VariantsComplete(db + added, chosen[1..], out[9..]);
      SplitAt(out, 9);
    }
  }

  /** The datasets whose name is one of `names`, in database order. */
  function Chosen(db: seq<Dataset>, names: seq<string>): (r: seq<Dataset>)
    ensures forall d :: d in r <==> d in db && d.name in names
  {
    var r := Filter(db, (d: Dataset) => d.name in names);
    assert forall d :: d in r ==> d in db by {
      forall d | d in r ensures d in db {
        var i :| 0 <= i < |r| && r[i] == d;
      }
    }
    assert forall d :: d in db && d.name in names ==> d in r by {
      forall d | d in db && d.name in names ensures d in r {
        var i :| 0 <= i < |db| && db[i] == d;
      }
    }
    r
  }

  /** The names `powerplant_map[technology]` lists; a missing technology raises. */
  function TechnologyNames(powerplantMap: Dict<seq<string>>, technology: string): (r: Result<seq<string>>)
    ensures r.Success? <==> technology in KeysOf(powerplantMap)
    ensures r.Failure? ==> r.error == KeyError
    ensures r.Success? ==> (technology, r.value) in powerplantMap
  {
    match IndexOf(powerplantMap, technology)
    case None => Failure(KeyError)
    case Some(k) =>
      assert powerplantMap[k] == (technology, powerplantMap[k].1);
      Success(powerplantMap[k].1)
  }

  /** `create_direct_drive_turbines()`: the onshore pass, then the offshore
      pass over the database the first pass left. */
  function CreateDirectDriveTurbines(db: seq<Dataset>, powerplantMap: Dict<seq<string>>): (r: Result<seq<Dataset>>)
    ensures var onshore := TechnologyNames(powerplantMap, ONSHORE);
            var offshore := TechnologyNames(powerplantMap, OFFSHORE);
            r.Success? <==> onshore.Success? && offshore.Success? &&
                            var on := Variants(db, Chosen(db, onshore.value));
                            on.Success? && Variants(db + on.value, Chosen(db + on.value, offshore.value)).Success?
    ensures var onshore := TechnologyNames(powerplantMap, ONSHORE);
            var offshore := TechnologyNames(powerplantMap, OFFSHORE);
            r.Success? ==> onshore.Success? && offshore.Success? &&
                           var on := Variants(db, Chosen(db, onshore.value));
                           on.Success? &&
                           r.value == db + on.value + Variants(db + on.value, Chosen(db + on.value, offshore.value)).value
    ensures r.Failure? ==> r.error in {KeyError, NoResults, MultipleResults, IndexError}
    ensures ONSHORE !in KeysOf(powerplantMap) || OFFSHORE !in KeysOf(powerplantMap) ==> r.Failure?
  {
    var onshore :- TechnologyNames(powerplantMap, ONSHORE);
    var on :- Variants(db, Chosen(db, onshore));
    var offshore :- TechnologyNames(powerplantMap, OFFSHORE);
    var off :- Variants(db + on, Chosen(db + on, offshore));
    Success(db + on + off)
  }

  /** The turbines keep the input database as a prefix and append only
      datasets with variant names. */
  lemma TurbinesAppendVariants(db: seq<Dataset>, powerplantMap: Dict<seq<string>>)
    requires CreateDirectDriveTurbines(db, powerplantMap).Success?
    ensures var r := CreateDirectDriveTurbines(db, powerplantMap).value;
            |r| >= |db| && r[..|db|] == db &&
            forall k :: |db| <= k < |r| ==> IsVariantName(r[k].name)
  {
    var onshore := TechnologyNames(powerplantMap, ONSHORE).value;
    var on := Variants(db, Chosen(db, onshore)).value;
    var offshore := TechnologyNames(powerplantMap, OFFSHORE).value;
    var off := Variants(db + on, Chosen(db + on, offshore)).value;
    var r := CreateDirectDriveTurbines(db, powerplantMap).value;
    assert r == db + on + off;
    VariantTail(db, on, off);
  }

  lemma VariantTail(db: seq<Dataset>, on: seq<Dataset>, off: seq<Dataset>)
    requires forall x :: x in on ==> IsVariantName(x.name)
    requires forall x :: x in off ==> IsVariantName(x.name)
    ensures |db + on + off| >= |db| && (db + on + off)[..|db|] == db
    ensures forall k :: |db| <= k < |db + on + off| ==> IsVariantName((db + on + off)[k].name)
  {
    assert (db + on + off)[..|db|] == db;
    forall k | |db| <= k < |db + on + off| ensures IsVariantName((db + on + off)[k].name) {
      if k < |db| + |on| {
        assert (db + on + off)[k] == on[k - |db|];
      } else {
        assert (db + on + off)[k] == off[k - |db| - |on|];
      }
    }
  }

  /** When no listed name is itself a variant name, the turbines add exactly
      nine datasets for every onshore and every offshore dataset of the input. */
  lemma DirectDriveCount(db: seq<Dataset>, powerplantMap: Dict<seq<string>>)
    requires CreateDirectDriveTurbines(db, powerplantMap).Success?
    requires forall k, n :: 0 <= k < |powerplantMap| && n in powerplantMap[k].1 ==> !IsVariantName(n)
    ensures var on := TechnologyNames(powerplantMap, ONSHORE);
            var off := TechnologyNames(powerplantMap, OFFSHORE);
            on.Success? && off.Success? &&
            |CreateDirectDriveTurbines(db, powerplantMap).value| == |db| + 9 * (|Chosen(db, on.value)| + |Chosen(db, off.value)|)
  {
    var onshore := TechnologyNames(powerplantMap, ONSHORE).value;
    var offshore := TechnologyNames(powerplantMap, OFFSHORE).value;
    var on := Variants(db, Chosen(db, onshore)).value;
    var k :| 0 <= k < |powerplantMap| && powerplantMap[k] == (OFFSHORE, offshore);
    VariantsNotReselected(db, on, offshore);
  }

  /** No dataset a pass appends is chosen again, by the pass itself or by a
      later one, unless a chosen name itself ends in ", direct drive": the
      selection over the grown database is the selection over the input. */
  lemma VariantsNotReselected(db: seq<Dataset>, added: seq<Dataset>, names: seq<string>)
    requires forall x :: x in added ==> IsVariantName(x.name)
    requires forall n :: n in names ==> !IsVariantName(n)
    ensures Chosen(db + added, names) == Chosen(db, names)
  {
    var p := (d: Dataset) => d.name in names;
    FilterAppend(db, added, p);
    FilterNone(added, p);
  }
}
