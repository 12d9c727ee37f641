/** The life-cycle-inventory records the transformations work on.

    The activity filter sees a record as a plain field → text dictionary
    (`Record`). The transport and wind-turbine rewrites read and write named
    fields of datasets and exchanges, so those are typed datatypes carrying
    the fields the modelled code touches. Dataset codes (fresh `uuid4` values)
    are not modelled. */
module Inventory {
  import opened Wrappers
  import opened Strings
  import opened Seqs

  /** An inventory record as the activity filter reads it. */
  type Record = map<string, string>

  /** Values of an exchange's `type` field. */
  const PRODUCTION: string := "production"
  const TECHNOSPHERE: string := "technosphere"

  /** One exchange of a dataset. `kind` is the exchange's `type` field and
      `input` its optional link to another dataset (database, code). */
  datatype Exchange = Exchange(
    name: string,
    product: string,
    unit: string,
    location: string,
    kind: string,
    amount: real,
    input: Option<(string, string)>)

  /** One dataset (activity) of the inventory. */
  datatype Dataset = Dataset(
    name: string,
    referenceProduct: string,
    unit: string,
    location: string,
    comment: string,
    exchanges: seq<Exchange>)

  predicate IsTechnosphere(e: Exchange) {
    e.kind == TECHNOSPHERE
  }

  predicate IsProduction(e: Exchange) {
    e.kind == PRODUCTION
  }

  /** `ws.get_one(database, *filters)`: the one dataset the filters select.
      None raises NoResults, several raise MultipleResults. */
  function GetOneWhere(db: seq<Dataset>, p: Dataset -> bool): (r: Result<Dataset>)
    ensures r.Success? <==> |Filter(db, p)| == 1
    ensures r.Success? ==> r.value in db && p(r.value) && forall i :: 0 <= i < |db| && p(db[i]) ==> db[i] == r.value
    ensures r == Failure(NoResults) <==> forall i :: 0 <= i < |db| ==> !p(db[i])
    ensures r == Failure(MultipleResults) <==> |Filter(db, p)| > 1
    ensures r.Failure? ==> r.error == NoResults || r.error == MultipleResults
  {
    var found := Filter(db, p);
    FilterNonEmpty(db, p);
    if |found| == 0 then Failure(NoResults)
    else if |found| > 1 then Failure(MultipleResults)
    else Success(found[0])
  }

  /** The filters `equals("name", name)`. */
  function NameIs(name: string): Dataset -> bool {
    (d: Dataset) => d.name == name
  }

  /** The filters `equals("name", name), equals("location", location)`. */
  function NameAndLocationAre(name: string, location: string): Dataset -> bool {
    (d: Dataset) => d.name == name && d.location == location
  }

  /** `name.replace("market for ", "")`: the product a market dataset supplies. */
  function MarketProduct(name: string): string {
    Replace(name, "market for ", "")
  }

  /** The product of a market named "market for " followed by a text that does
      not itself mention "market for " is that text. */
  lemma MarketProductOfPrefixed(rest: string)
    requires !Contains(rest, "market for ")
    ensures MarketProduct("market for " + rest) == rest
  {
    ReplaceLeading(rest, "market for ", "");
    ReplaceAbsent(rest, "market for ", "");
  }
}
