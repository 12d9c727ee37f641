# premise: activity matching and record rewriting, in Dafny

This project models the pure core of *premise*, the tool that turns an
ecoinvent life-cycle inventory into prospective inventories from IAM
scenarios. It models four parts of it:

- **The activity filter and inventory sets** (`premise/activity_maps.py`).
  `InventorySet.act_fltr` normalises its include (`fltr`) and exclude (`mask`)
  specifications to field → pattern dictionaries, with `name` as the default
  field. It compiles them into wurst tests and keeps, in input order, the
  records that pass every test. `generate_sets_from_filters` projects each
  technology's selection to a set of names, and the `generate_*_map` wrappers
  apply it to one family of filters each. `generate_gains_mapping_IAM` re-keys
  those sets by union, and `get_mapping` projects a parsed configuration.
- **The scenario-variable reconciler and data-package bookkeeping**
  (`premise/pathways.py`). This covers:
  - the scenario × year expansion;
  - the active-variable list;
  - `find_activities`;
  - the first-writer-wins assignment of IAM model variables to canonical
    variables, with the deduplication of their dataset lists;
  - the `"MODEL - pathway"` scenario label and its split;
  - the descriptor and contributor rules of the exported package.
- **Freight-transport record rewriting** (`premise/transport_new.py`). This
  covers:
  - normalising market exchange amounts;
  - deleting superseded datasets;
  - relinking freight exchanges to the new markets by the first matching key;
  - building regional, World and size-specific markets;
  - making regional copies of transport datasets and removing their sources.
- **Direct-drive wind turbines** (`premise/wind_turbines.py`). This covers:
  - copying a dataset as a variant;
  - the construction and market copies;
  - relinking the production dataset to the market copies;
  - the selection of the onshore and offshore datasets.

Python lists are Dafny sequences. Python dictionaries whose order matters are
sequences of (key, value) pairs (`Seqs.Dict`). An inventory record as the
filter reads it is a `map<string, string>`; datasets and exchanges are
datatypes with the fields the rewrites touch. Amounts and shares are `real`s.

A Python exception becomes a `Failure` of the `Result` type, named after the
exception. For example:

- `AssertionError` for an empty include specification;
- `KeyError` for a missing dictionary key;
- `IndexError` for `[0]` of an empty list;
- `NoResults` or `MultipleResults` for `ws.get_one`;
- `UnboundLocalError` for a local variable read before any assignment.

Where the source mutates a record in place, the model returns the new record.
Where a loop threads state from one iteration to the next (the vehicle product
choice, the claimed model variables, the growing database), the state is a
parameter of the recursive function.

The modules are:

- `wrappers.dfy`: Option and Result.
- `strings.dfy`: substring search, ASCII case, `str.replace`, `split`, `strip`.
- `seqs.dfy`: order-preserving selection, subsequences, deduplication and
  ordered dictionaries.
- `inventory.dfy`: records, datasets and exchanges.
- `activity_maps.dfy`, `pathways.dfy`, `transport.dfy` and
  `wind_turbines.dfy`: one module per source file.

The activity filter follows the body of `act_fltr`, which tests substring
containment. Its docstring describes a prefix match (`startswith`) instead, and
the model does not follow it.

The scenario label splits back into (upper-cased model, pathway) only under a
condition slightly stronger than "the upper-cased model contains no `" - "`".
The model name followed by `" -"` must not contain `" - "` either. A model
named `a -` gives the label `A - - x`, which splits as (`A`, `- x`).
`Pathways.LabelRoundTripNeedsTrailingCheck` states this counterexample, and
`Pathways.LabelRoundTrip` proves the round trip under the stronger condition.

The scenario-data table keeps every row. The source has no step that drops
rows with missing values, so the model has none either.

## Model

| member | source | states |
|---|---|---|
| ActivityMaps.ActFltr | premise/activity_maps.py:277-305 | The result is an AssertionError exactly when the include specification is absent or an empty dictionary, whatever the records. A success is the order-preserving selection of the records that hold every include field, with a list meaning "one of these", and hold no exclude pattern. A bare string or list specifies the `name` field. The only other failure is a record lacking a field a test reads, and a database whose records have every named field always succeeds. |
| ActivityMaps.GetManyMeaning | premise/activity_maps.py:305 | `get_many` over the compiled tests fails exactly when some record cannot be decided. Otherwise it returns the records every test accepts, in input order. |
| ActivityMaps.TestsMeaning | premise/activity_maps.py:292-303 | Whenever the compiled include and exclude tests decide a record, they decide whether it matches the specifications. On a record with every named field they always decide. |
| ActivityMaps.IncludeTestsMeaning | premise/activity_maps.py:292-297 | The include tests, one per field, accept a record exactly when every field holds its pattern, or one of its listed patterns, as a substring. |
| ActivityMaps.MaskTestsMeaning | premise/activity_maps.py:299-303 | The exclude tests accept a record exactly when no excluded field holds any of its patterns. |
| ActivityMaps.ExcludeEachMeaning | premise/activity_maps.py:300-301 | One exclusion test per listed value accepts a record exactly when the field holds none of the values. |
| ActivityMaps.ActFltrIncludes | premise/activity_maps.py:292-297 | Every returned record has every include field, and that field contains the pattern or, for a list, at least one listed value. |
| ActivityMaps.ActFltrExcludes | premise/activity_maps.py:299-303 | No returned record has any exclude value as a substring of the excluded field. |
| ActivityMaps.ActFltrMaskShrinks | premise/activity_maps.py:299-305 | An exclude specification only removes records: the result with a mask is an order-preserving subsequence of the result without one. |
| ActivityMaps.ActFltrPermutation | premise/activity_maps.py:305 | Which records are selected does not depend on the order of the database: a permuted database selects the same records. |
| ActivityMaps.ActFltrIgnoresExactFlags | premise/activity_maps.py:248-254 | `filter_exact` and `mask_exact` do not change the result. |
| ActivityMaps.NameSet | premise/activity_maps.py:322 | The set of names of a selection is exactly the names of its records. It raises exactly when a record has no name. |
| ActivityMaps.EffectiveDatabase | premise/activity_maps.py:319 | A given non-empty database is used. An absent or empty one falls back to the set's own database. |
| ActivityMaps.SelectAll | premise/activity_maps.py:321 | One selection per technology, in dictionary order, each the activity filter's result for that technology's arguments. It succeeds whenever every filter does. |
| ActivityMaps.NameSets | premise/activity_maps.py:322 | The result has exactly the technologies as keys. When they are distinct, each is mapped to the name set of its selection. |
| ActivityMaps.GenerateSetsFromFilters | premise/activity_maps.py:307-322 | The keys are exactly the technologies of the filter dictionary. When technologies are distinct, each maps to the set of names the activity filter selects from the database in use, and every filter has a non-empty include part. |
| ActivityMaps.GenerateSetsTotal | premise/activity_maps.py:319-322 | The sets are always built when every filter has an include part and every record of the database in use has a name and the fields the filters read. |
| ActivityMaps.GetMapping | premise/activity_maps.py:43-48 | The keys are exactly the entries that have the requested alias, and distinct keys stay distinct. |
| ActivityMaps.GetMappingValues | premise/activity_maps.py:43-48 | Every entry maps its key to the requested alias's value in a file entry with that key. |
| ActivityMaps.GainsUnion | premise/activity_maps.py:137-139 | Starting from an accumulator, each IAM key gains the union of the sets of the EU keys aliased to it. It raises exactly when an EU key has no set. |
| ActivityMaps.GainsMappingIAM | premise/activity_maps.py:135-141 | Every IAM key maps to exactly the union of `mapping[eu]` over the EU keys aliased to it. The keys are exactly the aliased IAM keys. It fails exactly when an EU key is missing from `mapping`. |
| ActivityMaps.FlowRecords | premise/activity_maps.py:241-244 | One record per biosphere flow, with exactly the fields name and categories taken from the flow key. |
| ActivityMaps.GenerateMap | premise/activity_maps.py:143-245 | Every `generate_*_map` has exactly the keys of its filter family. It selects from the set's database, except the metals map, which selects from the biosphere flows when there are any and from the database otherwise. |
| ActivityMaps.PowerplantMapExample | premise/activity_maps.py:150-159 | A coal filter over a coal and a wind record maps the technology to the coal record's name alone. |
| Pathways.WithYear | premise/pathways.py:37-40 | Every scenario is copied with its year set to the given year and nothing else changed. |
| Pathways.ExpandScenarios | premise/pathways.py:34-40 | The expansion has \|years\|·\|scenarios\| entries, each carrying one of the given years. |
| Pathways.ExpandedAt | premise/pathways.py:35-40 | The expansion is year-major: entry i·\|scenarios\|+j is scenario j with year i. |
| Pathways.ExpandedEntry | premise/pathways.py:35-40 | Every expanded entry is a copy of one input scenario with one of the years, at the position that pair names. |
| Pathways.ScenarioModels | premise/pathways.py:163-165 | The models listed are exactly those of the scenarios. |
| Pathways.Flatten | premise/pathways.py:143 | Flattening keeps exactly the elements of the inner lists. |
| Pathways.ActiveVariables | premise/pathways.py:127-143 | The active variables have no repetitions and none mentions "efficiency" or "emission" in any letter case. They are exactly the variables of some scenario without those words. |
| Pathways.Project | premise/pathways.py:104-109 | One (name, reference product, unit) triple per record, in order. It raises KeyError exactly when a record lacks one of the three fields. |
| Pathways.FindActivities | premise/pathways.py:92-115 | A failing activity filter makes it fail with the filter's own error. Otherwise it succeeds exactly when every selected record has a name, a reference product and a unit, and raises KeyError when one lacks any of them. A success holds one (name, reference product, unit) triple per selected record, in the filter's order, and each of those records matches the specifications. |
| Pathways.ClaimKeepsConsistent | premise/pathways.py:166-168 | Claiming a fresh, active and justified model variable keeps the claims unique and the mapped model variables pairwise distinct. Every mapping stays justified by an entry. |
| Pathways.ClaimModelVariable | premise/pathways.py:162-175 | An alias that does not qualify leaves the state unchanged, and so does an alias whose model variable is already claimed. An alias qualifies when its model variable is active and its model is a scenario model. For a free qualifying alias the step succeeds exactly when `find_activities` on the entry's inventory aliases succeeds, and otherwise fails with its error. A success maps the entry's key to the model variable and the found datasets, and appends the variable to the claims. |
| Pathways.ClaimModelVariableConsistent | premise/pathways.py:162-173 | One (model, model variable) step keeps the reconciler consistent. |
| Pathways.ClaimEntryFrom | premise/pathways.py:162-175 | Walking an entry's IAM aliases from a position appends to the claims exactly the model variables of its qualifying aliases from there on. The entry's key is added exactly when one of those was still free, and no other key is added. The walk succeeds whenever the entry's datasets are found. A failure is `find_activities`' error and happens only when a qualifying alias was still free. |
| Pathways.ClaimEntryStep | premise/pathways.py:162-175 | One alias step followed by the walk over the remaining aliases keeps the walk's guarantees from the earlier position. |
| Pathways.ClaimEntryFromConsistent | premise/pathways.py:162-175 | Walking an entry's IAM aliases keeps the reconciler consistent. |
| Pathways.ClaimEntry | premise/pathways.py:160-175 | An entry lacking `iam_aliases` or `ecoinvent_aliases` changes nothing. Otherwise the claims grow by exactly the entry's qualifying model variables, and the entry's key is added exactly when one of them was still free. It succeeds whenever a qualifying entry has its datasets found, and any failure is that lookup's error. |
| Pathways.ReconcileFrom | premise/pathways.py:152-175 | Walking the entries from a position appends to the claims exactly the qualifying model variables of those entries, and never removes a key. Every new key belongs to an entry with a qualifying alias. Every entry that holds the first free qualifying alias of its model variable gets its key. The walk succeeds whenever every entry with a qualifying alias has its datasets found, and a failure is one such lookup's error. |
| Pathways.ReconcileStep | premise/pathways.py:152-175 | One entry followed by the walk over the remaining entries keeps the walk's guarantees from the earlier entry. |
| Pathways.ReconcileFromConsistent | premise/pathways.py:152-175 | Walking all mapping entries keeps the reconciler consistent. |
| Pathways.DedupeDatasets | premise/pathways.py:179-184 | Every dataset list loses its repetitions and keeps the same set of triples. Keys and model variables are unchanged. |
| Pathways.DedupeDatasetsIdempotent | premise/pathways.py:179-184 | Deduplicating twice equals deduplicating once. |
| Pathways.AddVariablesMapping | premise/pathways.py:117-187 | In the mapping written out, keys are distinct and mapped model variables are pairwise distinct. Each mapped variable is active and occurs in some scenario. Some entry with both alias kinds claims it for its key through a scenario model. Its dataset list is that entry's `find_activities` result with repetitions removed. |
| Pathways.AddVariablesMappingCoverage | premise/pathways.py:152-187 | The mapping is built whenever every entry with a qualifying alias has its datasets found, and a failure is one such lookup's error. Every entry that holds the first free qualifying alias of a model variable has its key in the mapping. Every key belongs to an entry with a qualifying alias. |
| Pathways.DedupedConsistent | premise/pathways.py:177-187 | Deduplicating the dataset lists of a consistent reconciler gives the guarantees of the written mapping: distinct keys and variables, active and reported variables, and justified lists without repetitions. |
| Pathways.DedupedSources | premise/pathways.py:179-184 | After deduplication each dataset list is its justifying entry's `find_activities` result without repetitions. |
| Pathways.LaterClaimIgnored | premise/pathways.py:166-175 | First writer wins: a model variable already claimed leaves the mapping and the claims unchanged. |
| Pathways.FirstWriterWinsExample | premise/pathways.py:160-175 | When two entries alias the same active model variable, only the first entry is mapped. |
| Pathways.Label | premise/pathways.py:203-205 | The label starts with the upper-cased model and " - ", ends with the pathway, and has exactly their combined length, so it is the three joined. ASCII letters only are upper-cased. |
| Pathways.SplitLabel | premise/pathways.py:216 | Without " - " the whole label is the model and there is no pathway column. Otherwise the split is at the first " - ": the model part holds no separator, and model, separator and pathway rejoin to the label. |
| Pathways.LabelRoundTrip | premise/pathways.py:203-216 | Splitting a label gives back the upper-cased model and the pathway for every pathway, when the model is splittable. |
| Pathways.LabelRoundTripNeedsTrailingCheck | premise/pathways.py:216 | A model without " - " that ends in " -" does not round-trip. |
| Pathways.ScenarioCoordinates | premise/pathways.py:203-205 | One label per scenario, in scenario order. |
| Pathways.ScenarioTable | premise/pathways.py:209-217 | Every array row becomes one table row with the same variable, region, year and value. The unit is present exactly when the variable has one. Model and pathway rejoin to the scenario label. |
| Pathways.ScenarioTableRecoversScenario | premise/pathways.py:203-217 | A row of scenario j carries that scenario's upper-cased model and its pathway. |
| Pathways.Slug | premise/pathways.py:236 | A slug has the input's length. At every position a space becomes an underscore and an ASCII letter is lower-cased, and the slug contains no space. |
| Pathways.SlugIdempotent | premise/pathways.py:294 | Slugging a slug changes nothing. |
| Pathways.ResourcePath | premise/pathways.py:297-298 | A path without "pathways/" is unchanged. |
| Pathways.ResourcePathFirst | premise/pathways.py:297-298 | A path containing "pathways/" becomes the text before the first occurrence followed by the resource path of the text after it, so every occurrence is removed, left to right. |
| Pathways.ResourcePathStripsFolder | premise/pathways.py:297-298 | A resource under the pathways folder is referred to relative to it. |
| Pathways.GetOr | premise/pathways.py:277-279 | A present key gives its value and a missing key gives the default. |
| Pathways.Contributors | premise/pathways.py:266-283 | When the contributors are `None` there is one anonymous contributor. Otherwise there is one contributor per given entry, each missing field filled with "undefined", "anonymous" or "anonymous@anonymous.com". |
| Pathways.BuildDatapackage | premise/pathways.py:227-298 | The descriptor name is the slug of the package name and the title is the capitalised name. The version, keywords and contributors follow the rules above. There is one scenario entry per scenario, named by its label. Each resource name is slugged and each path is relative to the pathways folder. |
| Pathways.ExportDatapackage | premise/pathways.py:81-90 | The exported descriptor carries the contributors it is given. |
| Pathways.CreateDatapackageAsWritten | premise/pathways.py:61-79 | As written, the exported descriptor always has the single anonymous contributor, whatever contributors were passed. |
| Pathways.CreateDatapackage | premise/pathways.py:61-79 | Passing the contributors on, the descriptor carries the given contributors. |
| Pathways.CreateDatapackageDropsContributors | premise/pathways.py:62-79 | A named contributor is lost as written and kept when passed on. |
| Transport.DivideTechnosphere | premise/transport_new.py:109-111 | Every technosphere amount is divided by the total and every other exchange is unchanged. |
| Transport.TechnosphereTotalDivided | premise/transport_new.py:103-111 | Dividing every technosphere amount by the total divides their sum by it. |
| Transport.NormalizeActivity | premise/transport_new.py:103-111 | It raises ZeroDivisionError exactly when the activity has technosphere exchanges whose total is zero. Otherwise only technosphere amounts change, and when there are any they sum to 1. |
| Transport.NormalizeExchangeAmounts | premise/transport_new.py:93-113 | It succeeds exactly when every activity can be normalised, giving each activity's normalisation in order. |
| Transport.NormalizedProportions | premise/transport_new.py:103-111 | After normalisation the technosphere amounts sum to 1 and any two of them keep their ratio. |
| Transport.NormalizedRatio | premise/transport_new.py:103-111 | Dividing every technosphere amount by their total keeps the ratio of any two of them. |
| Transport.DeleteInventoryDatasets | premise/transport_new.py:571-586 | A dataset is kept exactly when its name is not in the delete list. The kept datasets keep their original order, and every repetition of a kept dataset is kept. |
| Transport.FirstMatchingKey | premise/transport_new.py:556-561 | The first key, in map order, that occurs case-insensitively in the exchange name. None exactly when no key occurs. |
| Transport.RelinkExchange | premise/transport_new.py:550-568 | A technosphere freight exchange in ton kilometers with a matching key takes the first match's target as its name. Its product becomes the target without "market for ", its location becomes the IAM region of the dataset, and its input link is dropped. Any other exchange is unchanged. |
| Transport.RelinkExchanges | premise/transport_new.py:540-568 | Datasets whose name contains "transport, freight" are untouched. In the others only exchanges change, each as relinking one exchange says. |
| Transport.VehicleProduct | premise/transport_new.py:346-355 | A lorry supplies "transport, freight, lorry", with ", EURO-VI" exactly when the name mentions diesel or compressed gas. A train supplies "transport, freight train" with no suffix. Any other vehicle keeps the previous choice. |
| Transport.LorryEuroSuffix | premise/transport_new.py:347-352 | The EURO-VI suffix of a lorry product is added exactly for diesel or compressed-gas lorries. |
| Transport.NewMarket | premise/transport_new.py:317-336 | A new market supplies its name without "market for ". Its only exchange is the production of one ton kilometer at its region. |
| Transport.VehicleExchanges | premise/transport_new.py:338-367 | It raises UnboundLocalError exactly when a vehicle with a positive share is reached before any lorry or train has chosen the product. Otherwise it returns one exchange per vehicle with a positive share, in vehicle order, at that share and the market's region. Each exchange's product is the choice made by the vehicles up to and including it. The choice left after the last vehicle is returned too. |
| Transport.RegionalMarket | premise/transport_new.py:317-374 | A World market is the new market alone and passes the product choice on unchanged. Elsewhere it raises UnboundLocalError exactly when the vehicle exchanges do. Otherwise it is the new market followed by the vehicle exchanges for this market's shares at the region. |
| Transport.MarketsForRegions | premise/transport_new.py:316-374 | It succeeds exactly when every non-World region's market reaches its positive shares with a product chosen, the choice carried from region to region. Then there is one market per region, in region order, each the regional market for the choice so far, and the final choice is returned. A failure is UnboundLocalError. |
| Transport.MarketsCons | premise/transport_new.py:316-374 | The first region's market followed by the markets of the remaining regions, built from the choice it leaves, are the markets of all regions, with the same final choice. |
| Transport.RegionalMarkets | premise/transport_new.py:305-374 | It succeeds exactly when the lorry markets build from no choice and the train markets build from the choice the lorry markets leave. The first half holds the lorry market of every region in order, and the second half the train market of every region. Every market supplies its name's product and starts with one unit of production. Only non-World markets have vehicle inputs. A failure is UnboundLocalError. |
| Transport.WorldExchanges | premise/transport_new.py:403-416 | It succeeds exactly when every non-World region has a share, and raises KeyError otherwise. A success holds one input per non-World region, in region order. Each supplies the World market's own product from that region at its share. |
| Transport.ModeShares | premise/transport_new.py:385-400 | Every non-World region gets its share for the mode's variable, and no other key is added. |
| Transport.OverwrittenShares | premise/transport_new.py:381-400 | After the loop over all modes, every non-World region holds the LAST mode's share. |
| Transport.SharesOfMarket | premise/transport_new.py:384-400 | The shares of a market's own mode. It exists exactly when the market is a mode key. |
| Transport.AddWorldExchanges | premise/transport_new.py:403-416 | It succeeds exactly when every World market has shares, including a share for each non-World region. Every World market then gains exactly its World exchanges, and every other market is unchanged. |
| Transport.AddWorldExchangesAsWritten | premise/transport_new.py:381-416 | As written, with at least one mode every World market gains one input per non-World region. Each input carries that region's share under the LAST mode's variable, whichever mode the market belongs to. Other markets are unchanged. With no modes it fails exactly when there is both a World market and a non-World region. When it succeeds with no modes, the markets come back unchanged. |
| Transport.AddWorldExchangesPerMode | premise/transport_new.py:384-416 | It succeeds exactly when every World market is a key of the mode map. Each World market then gains one input per non-World region, at that region's share under the market's own mode variable. Other markets are unchanged. |
| Transport.OwnModeInput | premise/transport_new.py:384-416 | With one non-World region, a World market of a mode receives that region's share under its own mode's variable. |
| Transport.LastModeInput | premise/transport_new.py:381-416 | As written, with one non-World region, a World market receives that region's share under the last mode's variable. |
| Transport.WorldMarketSharesOverwritten | premise/transport_new.py:381-416 | With road share 0.25 and rail share 0.75 in EUR, the World lorry market takes 0.75 as written and 0.25 per mode. |
| Transport.GenerateTransportMarketsAsWritten | premise/transport_new.py:295-418 | With the World step as written, the database is kept as a prefix and two markets per region are appended. |
| Transport.GenerateTransportMarkets | premise/transport_new.py:295-418 | With per-mode World shares, the database is kept as a prefix and two markets per region are appended. |
| Transport.NewMarketsProduceOneUnit | premise/transport_new.py:317-336 | Every appended market is a lorry or train market supplying its name's product, starting with one unit of production. |
| Transport.SizeLabel | premise/transport_new.py:487 | The size is the stripped fourth comma-separated part. IndexError exactly when there are at most three parts. |
| Transport.TypeExchanges | premise/transport_new.py:460-494 | A vehicle type supplies the market when its IAM variable is known and its weight share at the region is positive. The step raises IndexError exactly when some type supplies and the market name has at most three comma-separated parts. Otherwise there is one lorry input per supplying type, in type order, at its weight share and the region. Each is named after the type's vehicle, the size and ", long haul", with the EURO-VI suffix for diesel or compressed gas, and its product starts with "transport, freight, lorry". |
| Transport.RegionExchanges | premise/transport_new.py:497-524 | One input per non-World region whose share of the market's variable is positive, in region order. Each supplies the market's own product from that region at that share. |
| Transport.RegionExchangesSupply | premise/transport_new.py:497-524 | Every input of a World size market supplies the market's own product as a positive technosphere input from a non-World region of the list. |
| Transport.SizeMarket | premise/transport_new.py:437-524 | A World size market always builds. Elsewhere it raises IndexError exactly when the type inputs do. A success is named after the market, lies at its region and supplies the market's product. |
| Transport.SizeMarketExchanges | premise/transport_new.py:437-524 | A size market is the new market followed by the type inputs, or by the region inputs for World. It has an input exactly when some vehicle type supplies it, or, for World, some non-World region has a positive share. Every input is a positive technosphere exchange. |
| Transport.KeepIfSupplied | premise/transport_new.py:526-528 | A market is kept exactly when it has more than its production exchange. |
| Transport.SizeMarketsAsWritten | premise/transport_new.py:437-533 | As written, the pass succeeds exactly when every size market builds at the region its position is rebound to. The result is exactly the built markets that have an input, in order. Each lies at the pass's region or at one of the regions. |
| Transport.SizeMarkets | premise/transport_new.py:437-533 | The pass succeeds exactly when every size market builds at the pass's region, and raises IndexError otherwise. The result is exactly the built size markets that have an input, in size order, all at the pass's region. |
| Transport.SizeMarketsProducts | premise/transport_new.py:438-452 | Every size market supplies its name without "market for ". |
| Transport.UnspecifiedVehiclesAsWritten | premise/transport_new.py:421-535 | As written, it succeeds exactly when every pass does. The result is the outputs of the passes concatenated in region order, each pass's kept markets in size order and repetitions kept (`Joined`). It holds exactly the datasets some pass keeps. Each has an input, lies in one of the regions and is named after a size market. |
| Transport.UnspecifiedVehicles | premise/transport_new.py:421-535 | It succeeds exactly when every pass, each at its own region, succeeds, and raises IndexError otherwise. The result is the outputs of the passes concatenated in region order, with repetitions kept (`Joined`). It holds exactly the datasets some pass keeps. Each has an input, lies at one of the passes' regions, is named after a size market and supplies its name's product. |
| Transport.JoinedCons | premise/transport_new.py:433-436 | The passes' concatenated output starts with the first pass's output, followed by the later passes' outputs. |
| Transport.UnspecifiedVehiclesDuplicate | premise/transport_new.py:497-535 | For regions World and EUR, sizes 16t and 28t and a vehicle type present only for 28t, the as-written run appends the EUR 28t market twice (multiset count 2). The per-region run appends it once. |
| Transport.SizeMarketRegionRebound | premise/transport_new.py:497-528 | For regions World and EUR, the World dataset of the second size market is lost as written and kept when each pass stays at its region. |
| Inventory.GetOneWhere | premise/transport_new.py:198-208 | `get_one` succeeds exactly when one dataset matches, and returns it. NoResults exactly when none matches, MultipleResults exactly when several do. |
| Transport.CopySource | premise/transport_new.py:197-208 | The one RoW dataset of the name, when there is exactly one. With no RoW dataset, the one RER dataset. NoResults exactly when there is neither. MultipleResults exactly when there are several RoW datasets, or no RoW dataset and several RER ones. |
| Transport.RegionalCopy | premise/transport_new.py:214-219 | The copy is at the region and its comment is prefixed with "Dataset for the region". Its production exchanges move to the region and nothing else changes. |
| Transport.Relocate | premise/transport_new.py:164-184 | Only rail datasets outside RoW are relocated, and exactly those record their (name, new location). Such a dataset moves to the first IAM region whose proxy is its location, and so do its exchanges named like it. With no such region it is unchanged. Nothing else changes. |
| Transport.FirstWithValue | premise/transport_new.py:175-182 | The first IAM region whose proxy is the given location, or None when no region's proxy is. |
| Transport.RelocateAll | premise/transport_new.py:162-191 | Every dataset is relocated in place, in order. The recorded pairs are exactly the (name, new location) of the relocated datasets. |
| Transport.Pairs | premise/transport_new.py:194-196 | Exactly the (region, dataset name) pairs of the two loops. |
| Transport.CopyAll | premise/transport_new.py:194-228 | A pair is copied when its region is not World and was not recorded for its name. The loop succeeds exactly when every copied pair's source is found, and otherwise fails as `get_one` does. The copies are the regional copies of the copied pairs' sources, in loop order. The recorded sources have exactly those sources' keys, and each is a RoW or RER dataset of the database. |
| Transport.CopiedAllCons | premise/transport_new.py:194-228 | One copied pair followed by the rest of the loop keeps the loop's guarantees. |
| Transport.WantedSourcesFound | premise/transport_new.py:194-208 | Every copied pair has a source exactly when every non-World region and name not recorded for that region has one. |
| Transport.CopiesAreRegional | premise/transport_new.py:214-219 | Every regional copy lies at a non-World region, carries one of the names and starts its comment with the region note. |
| Transport.GenerateDatasets | premise/transport_new.py:147-234 | It succeeds exactly when every non-World region and road or rail name not recorded for that region has a source. Failures are those of `get_one`. The result is the relocated database followed by the regional copies, in order, minus exactly the datasets that share (name, location) with a copied source. Every other dataset is kept with all its repetitions. Each result dataset is a relocated one or a regional copy at a non-World region. |
| Transport.DropSources | premise/transport_new.py:232-234 | Removing the sources keeps, in order and with all repetitions, exactly the datasets whose (name, location) is not that of a copied source. |
| Transport.CopiedSourcesAreProxies | premise/transport_new.py:197-212 | Every copied source is a RoW or RER dataset of the relocated database. |
| WindTurbines.CreateDatasetCopy | premise/wind_turbines.py:103-118 | The copy is named original + ", " + suffix and has the variant comment. Every production exchange carries the copy's name and has no input link. |
| WindTurbines.CopyChangesOnlyProduction | premise/wind_turbines.py:103-116 | A copy's name ends in the suffix. Only the name and input of its production exchanges change. |
| WindTurbines.ConstructionCopies | premise/wind_turbines.py:128-136 | It succeeds exactly when every name is found exactly once, and otherwise fails with NoResults or MultipleResults. A success is the direct-drive copy of each named dataset, in order. |
| WindTurbines.NamedCopies | premise/wind_turbines.py:103-136 | Each direct-drive copy of a named dataset is named after it with ", direct drive". |
| WindTurbines.CreateConstructionDatasets | premise/wind_turbines.py:120-136 | It succeeds exactly when each of the four construction datasets is found exactly once. A success is their direct-drive copies, in order, each named as a variant. |
| WindTurbines.ConstructionCopyNames | premise/wind_turbines.py:120-136 | There are four copies, named after the four construction datasets with ", direct drive". |
| WindTurbines.RenameSupplier | premise/wind_turbines.py:162-165 | Only technosphere exchanges of the product are renamed to the supplier. Products and all other exchanges are unchanged. |
| WindTurbines.Zip3 | premise/wind_turbines.py:154-156 | Entries are paired by position, up to the shortest list. |
| WindTurbines.MarketCopies | premise/wind_turbines.py:153-170 | It succeeds exactly when every entry's market is found exactly once. Each result is the direct-drive copy of its market with the supplier of its product renamed to its construction copy. |
| WindTurbines.MarketCopyNames | premise/wind_turbines.py:153-170 | Each market copy is named after its market with ", direct drive". |
| WindTurbines.CreateMarketDatasets | premise/wind_turbines.py:138-170 | It succeeds exactly when each of the first min(4, number of construction copies) market names is found exactly once. A success holds that many market copies, in order. Each renames the supplier of its product to the matching construction copy and is named as a variant. |
| WindTurbines.MarketsFound | premise/wind_turbines.py:138-170 | The market copies of the zipped lists are built exactly when each of the first min(4, number of construction copies) markets is found exactly once. |
| WindTurbines.MarketDatasetNames | premise/wind_turbines.py:138-170 | The market copies carry the four market names with ", direct drive", in order. |
| WindTurbines.MarketCopySuppliers | premise/wind_turbines.py:154-168 | In the k-th market copy, exactly the technosphere exchanges of the k-th product name the k-th construction copy. Everything else is that of the copied market. |
| WindTurbines.MarketLinks | premise/wind_turbines.py:174-178 | It raises IndexError exactly when a market has no production exchange. Otherwise it pairs each market's name with the product of its first production exchange, in market order. |
| WindTurbines.RelinkAllLastWins | premise/wind_turbines.py:174-182 | Renaming by every link in turn names each technosphere exchange after the LAST link for its product. Everything else is unchanged. |
| WindTurbines.UpdateProductionDatasetLinks | premise/wind_turbines.py:172-182 | It raises IndexError exactly when some market has no production exchange. Otherwise only the exchanges change. |
| WindTurbines.ProductionLinksLastWins | premise/wind_turbines.py:172-182 | A technosphere exchange of a market's product takes the last such market's name. Products and other exchanges are unchanged. |
| WindTurbines.VariantName | premise/wind_turbines.py:105 | A copy's name ends in ", direct drive". |
| WindTurbines.DirectDriveVariant | premise/wind_turbines.py:90-101 | It succeeds exactly when three steps succeed: the construction copies, then the market copies, then the relinking of the dataset's copy. Each step reads the database grown by the steps before it. The result is the relinked copy, then the construction copies, then the market copies. |
| WindTurbines.VariantShape | premise/wind_turbines.py:90-105 | A variant has nine datasets. The first is the chosen dataset's direct-drive copy with only its exchanges relinked, and all nine are named as variants. |
| WindTurbines.Variants | premise/wind_turbines.py:81-101 | A pass over the chosen datasets appends nine variant datasets per chosen one. |
| WindTurbines.VariantsSound | premise/wind_turbines.py:81-101 | A successful pass is, block by block, the direct-drive variant of each chosen dataset over the database grown by the blocks before it. |
| WindTurbines.VariantsComplete | premise/wind_turbines.py:81-101 | Conversely, any such sequence of blocks is what the pass returns. |
| WindTurbines.Chosen | premise/wind_turbines.py:81-89 | A dataset is chosen exactly when its name is one of the technology's names. |
| WindTurbines.TechnologyNames | premise/wind_turbines.py:86 | The names listed for the technology. KeyError exactly when it is missing. |
| WindTurbines.CreateDirectDriveTurbines | premise/wind_turbines.py:73-101 | A missing onshore or offshore technology makes it fail. It succeeds exactly when both are listed and both passes succeed, the offshore pass reading the database grown by the onshore one. The result is the database, then the onshore variants, then the offshore variants. |
| WindTurbines.TurbinesAppendVariants | premise/wind_turbines.py:73-101 | The database is kept as a prefix and everything appended is named as a variant. |
| WindTurbines.DirectDriveCount | premise/wind_turbines.py:78-101 | When no listed name ends in ", direct drive", exactly nine datasets are added per onshore and per offshore dataset of the input. |
| WindTurbines.VariantsNotReselected | premise/wind_turbines.py:81-105 | Appended variants are never chosen again, so selection over the grown database equals selection over the input. |

## Left out

- Reading configuration and data files is not modelled. This covers the YAML
  read of `get_mapping`, `biosphere_flows_dictionary`, `get_vehicles_mapping`
  and the glob over the mapping files. Their parsed contents are parameters:
  the filter dictionaries, the biosphere-flow keys, the freight-transport map,
  the mode and size maps, and the mapping entries in reading order.
- File output in `pathways.py` is not modelled: `shutil`, `mkdir`,
  `yaml.dump`, `to_csv`, `Package.save`, the JSON rewrite, `make_archive` and
  `print`. The model returns the values that would be written.
- The external collaborators of `pathways.py` are not part of this model:
  `NewDatabase`, `update_all`, `Energy`, `write_db_to_matrices` and the
  inferring of the `datapackage` library. The model does not follow the
  scenario update loop of `create_datapackage`. The inferred resources and the
  scenario variables are parameters.
- xarray is not modelled. The concatenated scenario array is given as rows,
  and every market share and weight share is a given real. The share divisions
  and their division by zero are therefore not modelled.
- `adjust_transport_efficiency` is not modelled, because it is floating-point
  rescaling over IAM arrays.
- Dataset codes (`uuid4`), `write_log`, the logger and `add_to_index` are not
  modelled: they are randomness and logging.
- The IAM location translation and `region_to_proxy_dataset_mapping` are
  function parameters.
- The constructor of `InventorySet` and its configuration loading are not
  modelled, so the model takes the power-plant map as an input. As written,
  `premise/wind_turbines.py:70` passes a `model=` keyword to a constructor
  declared as `__init__(self, database, version=None)`
  (`premise/activity_maps.py:96`); read as Python, that call raises TypeError
  before any map is built (not executed).
- The orchestration functions `_update_transport` and `_update_wind_turbines`
  are not modelled. They only call the modelled operations in sequence.
- wurst is not part of this model. `ws.contains` is modelled as substring
  containment, `ws.either` as disjunction and `ws.exclude` as negation.
  `ws.get_many` is an order-preserving filter, and `ws.get_one` is a filter
  followed by a count.
  - A test on a missing field is modelled as failing the whole selection.
  - `ws.either` with no alternatives is modelled as matching nothing.
- Python sets have no defined order, so `list(set(...))` is modelled by
  keeping each element's first occurrence. This affects the active variables
  and the deduplicated dataset lists; the model's order is one admissible
  order.
- The onshore and offshore selections are taken from the database as it is
  when each pass starts. The source's selection is lazy over a list that grows
  while it is read. `WindTurbines.VariantsNotReselected` shows the two agree
  whenever no listed name itself ends in ", direct drive". The other case is
  not modelled.
- Amounts are real numbers, so floating-point rounding is not modelled.
- The descriptor's license entry and the default package name, which depends
  on the current date, are not modelled.
- Transport.GenerateTransportMarkets: its own contract states only the
  database prefix and the number of markets. The per-market guarantees are in
  `Transport.NewMarketsProduceOneUnit`, `Transport.RegionalMarkets` and
  `Transport.AddWorldExchangesPerMode`, which keeps the contract cheap to
  verify.
- Transport.GenerateTransportMarketsAsWritten: it states only the database
  prefix and the number of markets. The World shares as written are stated by
  `Transport.AddWorldExchangesAsWritten`.
- Label: letter case is mapped for ASCII letters only. Python's `str.upper`
  maps every Unicode letter and can change the length (`"ß".upper()` is
  `"SS"`), so the length stated here holds for ASCII models only.
- Slug: the lower-casing is ASCII-only, like `Label`'s upper-casing. The
  stated length, and `Pathways.SlugIdempotent`, hold for the source only on
  text whose lower-casing keeps its length. The same ASCII mapping is used by
  `Pathways.ActiveVariables`, `Transport.FirstMatchingKey`, the capitalised
  title of `Pathways.BuildDatapackage`, and `str.strip` in
  `Transport.SizeLabel`, which strips ASCII whitespace only.
- Pathways.ResourcePath: its own contract covers paths without "pathways/".
  Paths that contain it are described by `Pathways.ResourcePathFirst`, which
  unfolds one occurrence at a time.

## Findings

| source | as written | input that shows it | evidently intended | confidence | as-written member | corrected member |
|---|---|---|---|---|---|---|
| premise/pathways.py:79 | `create_datapackage` accepts `contributors` but calls `export_datapackage(name)` without them, so the package always lists the anonymous contributor. | contributors `[{"name": "Ada"}]` | The contributors are passed on to the export. | not executed | Pathways.CreateDatapackageAsWritten, Pathways.CreateDatapackageDropsContributors | Pathways.CreateDatapackage |
| premise/transport_new.py:381-416 | One `dict_regional_shares` is filled for each mode in turn, each pass overwriting the previous one. Every World market therefore reads the last mode's shares. | regions EUR and World; EUR road share 0.25 and rail share 0.75. The World lorry market's EUR input is 0.75. | Each World market takes the shares of its own mode: 0.25 for the lorry market. | not executed | Transport.AddWorldExchangesAsWritten, Transport.LastModeInput, Transport.WorldMarketSharesOverwritten | Transport.AddWorldExchangesPerMode, Transport.OwnModeInput |
| premise/transport_new.py:497-498 | The World branch loops with `for region in self.iam_data.regions`, rebinding the outer loop variable. The remaining size markets of that pass are built for the last region. | (a) regions World then EUR; size markets 16t and 28t; no vehicle-type share; World share 0.5. The 28t market is built for EUR, has no input and is dropped, so its World dataset is lost. (b) regions World then EUR; 16t and 28t; a diesel lorry type present for 28t only; no World share. The World pass builds the EUR 28t market, and the EUR pass builds it again, so it is appended twice. | Every size market of a pass is built for that pass's region, and each region's market is appended once. | not executed | Transport.SizeMarketsAsWritten, Transport.UnspecifiedVehiclesAsWritten, Transport.SizeMarketRegionRebound, Transport.UnspecifiedVehiclesDuplicate | Transport.SizeMarkets, Transport.UnspecifiedVehicles |
