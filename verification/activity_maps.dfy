/** The activity filter (`InventorySet.act_fltr`) and the inventory-set builders
    on top of it (`generate_sets_from_filters`, the `generate_*_map` wrappers,
    `generate_gains_mapping_IAM`, `get_mapping`).

    The filter compiles its include and exclude specifications into a list of
    wurst tests and keeps, in order, the records that pass all of them. A test
    on a field the record does not have raises; since `all` and `any` stop at
    the first decisive test, a record raises only if a test actually reads the
    missing field. */
module ActivityMaps {
  import opened Wrappers
  import opened Strings
  import opened Seqs
  import opened Inventory

  const NAME: string := "name"

  /** The value under one field of a specification: one pattern, or a list of
      patterns of which one must match. */
  datatype Pattern = One(value: string) | AnyOf(values: seq<string>)

  /** The `fltr` or `mask` argument: `None`, a bare string, a list of strings,
      or a field → pattern dictionary. */
  datatype Spec = Absent | Bare(value: string) | Listed(values: seq<string>) | Fields(fields: Dict<Pattern>)

  /** The keyword arguments a configuration entry passes to `act_fltr`. */
  datatype FilterDef = FilterDef(fltr: Spec, mask: Spec, filterExact: bool, maskExact: bool)

  /** A specification as a field → pattern dictionary; bare strings and lists
      are about the `name` field and `None` is the empty dictionary. */
  function Normalize(s: Spec): Dict<Pattern> {
    match s
    case Absent => []
    case Bare(v) => [(NAME, One(v))]
    case Listed(vs) => [(NAME, AnyOf(vs))]
    case Fields(d) => d
  }

  // ---------------------------------------------------------------------------
  // The wurst tests act_fltr builds

  /** `ws.contains(f, v)`, `ws.either(*[ws.contains(f, v) for v in vs])` and
      `ws.exclude(ws.contains(f, v))`. */
  datatype Test = Has(field: string, value: string)
                | Either(field: string, values: seq<string>)
                | Exclude(field: string, value: string)

  /** A test applied to a record; `None` when it reads a missing field. */
  function Eval(t: Test, r: Record): Option<bool> {
    match t
    case Has(f, v) => if f in r then Some(Contains(r[f], v)) else None
    case Either(f, vs) =>
      if |vs| == 0 then Some(false)
      else if f in r then Some(exists j :: 0 <= j < |vs| && Contains(r[f], vs[j]))
      else None
    case Exclude(f, v) => if f in r then Some(!Contains(r[f], v)) else None
  }

  /** `all(t(r) for t in ts)`, stopping at the first failing test. */
  function EvalAll(ts: seq<Test>, r: Record): Option<bool>
    decreases |ts|
  {
    if |ts| == 0 then Some(true)
    else match Eval(ts[0], r)
      case None => None
      case Some(b) => if b then EvalAll(ts[1..], r) else Some(false)
  }

  /** The tests for the include dictionary, one per field. */
  function IncludeTests(fltr: Dict<Pattern>): seq<Test>
    decreases |fltr|
  {
    if |fltr| == 0 then []
    else
      var t := match fltr[0].1
        case One(v) => Has(fltr[0].0, v)
        case AnyOf(vs) => Either(fltr[0].0, vs);
      [t] + IncludeTests(fltr[1..])
  }

  /** `[ws.exclude(ws.contains(f, v)) for v in vs]` */
  function ExcludeEach(f: string, vs: seq<string>): seq<Test>
    decreases |vs|
  {
    if |vs| == 0 then [] else [Exclude(f, vs[0])] + ExcludeEach(f, vs[1..])
  }

  /** The tests for the exclude dictionary, one per excluded pattern. */
  function MaskTests(mask: Dict<Pattern>): seq<Test>
    decreases |mask|
  {
    if |mask| == 0 then []
    else
      var ts := match mask[0].1
        case One(v) => [Exclude(mask[0].0, v)]
        case AnyOf(vs) => ExcludeEach(mask[0].0, vs);
      ts + MaskTests(mask[1..])
  }

  /** `ws.get_many(database, *tests)` materialised by `list(...)`. */
  function GetMany(db: seq<Record>, ts: seq<Test>): Result<seq<Record>>
    decreases |db|
  {
    if |db| == 0 then Success([])
    else match EvalAll(ts, db[0])
      case None => Failure(TypeError)
      case Some(b) =>
        var rest :- GetMany(db[1..], ts);
        Success(if b then [db[0]] + rest else rest)
  }

  // ---------------------------------------------------------------------------
  // What a match means

  /** A record meets one include entry: the field holds the pattern, or one of
      the listed patterns, as a substring. */
  predicate IncludeHolds(r: Record, f: string, p: Pattern) {
    f in r &&
    match p
    case One(v) => Contains(r[f], v)
    case AnyOf(vs) => exists j :: 0 <= j < |vs| && Contains(r[f], vs[j])
  }

  /** The patterns a pattern entry lists. */
  function Patterns(p: Pattern): (r: seq<string>)
    ensures p.One? ==> r == [p.value]
    ensures p.AnyOf? ==> r == p.values
  {
    match p
    case One(v) => [v]
    case AnyOf(vs) => vs
  }

  /** A record meets one exclude entry: the field holds none of the patterns. */
  predicate MaskHolds(r: Record, f: string, p: Pattern) {
    forall j :: 0 <= j < |Patterns(p)| ==> f in r && !Contains(r[f], Patterns(p)[j])
  }

  /** Include entries are AND-ed, each exclude pattern is subtracted. */
  predicate Matches(r: Record, fltr: Dict<Pattern>, mask: Dict<Pattern>) {
    (forall i :: 0 <= i < |fltr| ==> IncludeHolds(r, fltr[i].0, fltr[i].1)) &&
    (forall i :: 0 <= i < |mask| ==> MaskHolds(r, mask[i].0, mask[i].1))
  }

  /** The record has every field the specifications name. */
  predicate Readable(r: Record, fltr: Dict<Pattern>, mask: Dict<Pattern>) {
    KeysOf(fltr) + KeysOf(mask) <= r.Keys
  }

  lemma {:induction false} EvalAllAppend(a: seq<Test>, b: seq<Test>, r: Record)
    ensures EvalAll(a + b, r) ==
            match EvalAll(a, r)
            case None => None
            case Some(x) => if x then EvalAll(b, r) else Some(false)
    decreases |a|
  {
    if |a| > 0 {
      assert (a + b)[0] == a[0];
      assert (a + b)[1..] == a[1..] + b;
      EvalAllAppend(a[1..], b, r);
    } else {
      assert a + b == b;
    }
  }

  /** Whenever the include tests decide, they decide the include entries. */
  lemma {:induction false} IncludeTestsMeaning(fltr: Dict<Pattern>, r: Record)
    ensures EvalAll(IncludeTests(fltr), r).Some? ==>
              EvalAll(IncludeTests(fltr), r).value == forall i :: 0 <= i < |fltr| ==> IncludeHolds(r, fltr[i].0, fltr[i].1)
    ensures KeysOf(fltr) <= r.Keys ==> EvalAll(IncludeTests(fltr), r).Some?
    decreases |fltr|
  {
    if |fltr| > 0 {
      IncludeTestsMeaning(fltr[1..], r);
      KeysOfTail(fltr);
      var ts := IncludeTests(fltr);
      assert ts[1..] == IncludeTests(fltr[1..]);
      assert Eval(ts[0], r).Some? ==> Eval(ts[0], r).value == IncludeHolds(r, fltr[0].0, fltr[0].1);
      assert (forall i :: 0 <= i < |fltr| ==> IncludeHolds(r, fltr[i].0, fltr[i].1)) <==>
             IncludeHolds(r, fltr[0].0, fltr[0].1) &&
             (forall i :: 0 <= i < |fltr[1..]| ==> IncludeHolds(r, fltr[1..][i].0, fltr[1..][i].1)) by {
        assert forall i :: 0 < i < |fltr| ==> fltr[i] == fltr[1..][i - 1];
      }
    }
  }

  lemma {:induction false} ExcludeEachMeaning(f: string, vs: seq<string>, r: Record)
    ensures EvalAll(ExcludeEach(f, vs), r).Some? ==>
              EvalAll(ExcludeEach(f, vs), r).value == MaskHolds(r, f, AnyOf(vs))
    ensures f in r ==> EvalAll(ExcludeEach(f, vs), r).Some?
    decreases |vs|
  {
    if |vs| > 0 {
      ExcludeEachMeaning(f, vs[1..], r);
      assert ExcludeEach(f, vs)[1..] == ExcludeEach(f, vs[1..]);
      assert Patterns(AnyOf(vs)) == vs && Patterns(AnyOf(vs[1..])) == vs[1..];
      assert MaskHolds(r, f, AnyOf(vs)) <==> f in r && !Contains(r[f], vs[0]) && MaskHolds(r, f, AnyOf(vs[1..])) by {
        assert forall j :: 0 < j < |vs| ==> vs[j] == vs[1..][j - 1];
      }
    } else {
      assert Patterns(AnyOf(vs)) == [];
    }
  }

  /** Whenever the exclude tests decide, they decide the exclude entries. */
  lemma {:induction false} MaskTestsMeaning(mask: Dict<Pattern>, r: Record)
    ensures EvalAll(MaskTests(mask), r).Some? ==>
              EvalAll(MaskTests(mask), r).value == forall i :: 0 <= i < |mask| ==> MaskHolds(r, mask[i].0, mask[i].1)
    ensures KeysOf(mask) <= r.Keys ==> EvalAll(MaskTests(mask), r).Some?
    decreases |mask|
  {
    if |mask| > 0 {
      MaskTestsMeaning(mask[1..], r);
      KeysOfTail(mask);
      var head := match mask[0].1
        case One(v) => [Exclude(mask[0].0, v)]
        case AnyOf(vs) => ExcludeEach(mask[0].0, vs);
      assert MaskTests(mask) == head + MaskTests(mask[1..]);
      EvalAllAppend(head, MaskTests(mask[1..]), r);
      match mask[0].1
      case One(v) =>
        assert Patterns(mask[0].1) == [v];
        assert MaskHolds(r, mask[0].0, mask[0].1) <==> mask[0].0 in r && !Contains(r[mask[0].0], v) by {
          assert Patterns(mask[0].1)[0] == v;
        }
      case AnyOf(vs) => ExcludeEachMeaning(mask[0].0, vs, r);
      assert (forall i :: 0 <= i < |mask| ==> MaskHolds(r, mask[i].0, mask[i].1)) <==>
             MaskHolds(r, mask[0].0, mask[0].1) &&
             (forall i :: 0 <= i < |mask[1..]| ==> MaskHolds(r, mask[1..][i].0, mask[1..][i].1)) by {
        assert forall i :: 0 < i < |mask| ==> mask[i] == mask[1..][i - 1];
      }
    }
  }

  /** The compiled tests, when they decide, decide `Matches`; on a record that
      has every named field they always decide. */
  lemma TestsMeaning(fltr: Dict<Pattern>, mask: Dict<Pattern>, r: Record)
    ensures EvalAll(IncludeTests(fltr) + MaskTests(mask), r).Some? ==>
              EvalAll(IncludeTests(fltr) + MaskTests(mask), r).value == Matches(r, fltr, mask)
    ensures Readable(r, fltr, mask) ==> EvalAll(IncludeTests(fltr) + MaskTests(mask), r).Some?
  {
    EvalAllAppend(IncludeTests(fltr), MaskTests(mask), r);
    IncludeTestsMeaning(fltr, r);
    MaskTestsMeaning(mask, r);
  }

  /** `get_many` keeps, in order, the records all tests accept, and fails
      exactly when some record cannot be decided. */
  lemma {:induction false} GetManyMeaning(db: seq<Record>, ts: seq<Test>)
    ensures GetMany(db, ts).Success? <==> forall i :: 0 <= i < |db| ==> EvalAll(ts, db[i]).Some?
    ensures GetMany(db, ts).Success? ==> GetMany(db, ts).value == Filter(db, r => EvalAll(ts, r) == Some(true))
    ensures GetMany(db, ts).Failure? ==> GetMany(db, ts).error == TypeError
    decreases |db|
  {
    if |db| > 0 {
      GetManyMeaning(db[1..], ts);
      assert forall i :: 0 < i < |db| ==> db[i] == db[1..][i - 1];
    }
  }

  // ---------------------------------------------------------------------------
  // act_fltr

  /** `InventorySet.act_fltr(database, fltr, mask, filter_exact, mask_exact)`.
      An absent or empty include specification fails its assertion before any
      record is read; otherwise the result is the order-preserving selection
      of the records that match. The two exact-match flags are not read. */
  function ActFltr(db: seq<Record>, fltr: Spec, mask: Spec, filterExact: bool, maskExact: bool): (r: Result<seq<Record>>)
    ensures r == Failure(AssertionError) <==> fltr.Absent? || (fltr.Fields? && |fltr.fields| == 0)
    ensures r.Failure? ==> r.error == AssertionError || r.error == TypeError
    ensures r.Success? ==> r.value == Filter(db, x => Matches(x, Normalize(fltr), Normalize(mask)))
    ensures |Normalize(fltr)| > 0 && (forall i :: 0 <= i < |db| ==> Readable(db[i], Normalize(fltr), Normalize(mask)))
            ==> r.Success?
  {
    var f, m := Normalize(fltr), Normalize(mask);
    if |f| == 0 then Failure(AssertionError)
    else
      var ts := IncludeTests(f) + MaskTests(m);
      GetManyMeaning(db, ts);
      forall x ensures EvalAll(ts, x).Some? ==> EvalAll(ts, x).value == Matches(x, f, m) {
        TestsMeaning(f, m, x);
      }
      forall i | 0 <= i < |db| && Readable(db[i], f, m) ensures EvalAll(ts, db[i]).Some? {
        TestsMeaning(f, m, db[i]);
      }
      var r := GetMany(db, ts);
      assert r.Success? ==> r.value == Filter(db, x => Matches(x, f, m)) by {
        if r.Success? {
          FilterExtensional(db, x => EvalAll(ts, x) == Some(true), x => Matches(x, f, m));
        }
      }
      r
  }

  /** Every returned record satisfies every include field, and a list under a
      field means that one of its values occurs in that field. */
  lemma ActFltrIncludes(db: seq<Record>, fltr: Spec, mask: Spec, fe: bool, me: bool, x: Record, i: nat)
    requires ActFltr(db, fltr, mask, fe, me).Success?
    requires x in ActFltr(db, fltr, mask, fe, me).value
    requires i < |Normalize(fltr)|
    ensures Normalize(fltr)[i].0 in x
    ensures Normalize(fltr)[i].1.One? ==> Contains(x[Normalize(fltr)[i].0], Normalize(fltr)[i].1.value)
    ensures Normalize(fltr)[i].1.AnyOf? ==>
              exists j :: 0 <= j < |Normalize(fltr)[i].1.values| && Contains(x[Normalize(fltr)[i].0], Normalize(fltr)[i].1.values[j])
  {
    var k :| 0 <= k < |ActFltr(db, fltr, mask, fe, me).value| && ActFltr(db, fltr, mask, fe, me).value[k] == x;
    assert Matches(x, Normalize(fltr), Normalize(mask));
  }

  /** No returned record has any exclude pattern in the excluded field. */
  lemma ActFltrExcludes(db: seq<Record>, fltr: Spec, mask: Spec, fe: bool, me: bool, x: Record, i: nat, v: string)
    requires ActFltr(db, fltr, mask, fe, me).Success?
    requires x in ActFltr(db, fltr, mask, fe, me).value
    requires i < |Normalize(mask)|
    requires v in Patterns(Normalize(mask)[i].1)
    ensures Normalize(mask)[i].0 in x
    ensures !Contains(x[Normalize(mask)[i].0], v)
  {
    var k :| 0 <= k < |ActFltr(db, fltr, mask, fe, me).value| && ActFltr(db, fltr, mask, fe, me).value[k] == x;
    assert Matches(x, Normalize(fltr), Normalize(mask));
    assert MaskHolds(x, Normalize(mask)[i].0, Normalize(mask)[i].1);
    var j :| 0 <= j < |Patterns(Normalize(mask)[i].1)| && Patterns(Normalize(mask)[i].1)[j] == v;
  }

  /** Adding an exclude specification only removes records: the result with a
      mask is an order-preserving subsequence of the result without one. */
  lemma ActFltrMaskShrinks(db: seq<Record>, fltr: Spec, mask: Spec, fe: bool, me: bool)
    requires ActFltr(db, fltr, mask, fe, me).Success?
    ensures ActFltr(db, fltr, Absent, fe, me).Success?
    ensures IsSubsequence(ActFltr(db, fltr, mask, fe, me).value, ActFltr(db, fltr, Absent, fe, me).value)
  {
    var f, m := Normalize(fltr), Normalize(mask);
    var withMask := IncludeTests(f) + MaskTests(m);
    var without := IncludeTests(f) + MaskTests([]);
    assert without == IncludeTests(f);
    GetManyMeaning(db, withMask);
    GetManyMeaning(db, without);
    forall i | 0 <= i < |db| ensures EvalAll(without, db[i]).Some? {
      EvalAllAppend(IncludeTests(f), MaskTests(m), db[i]);
    }
    FilterStronger(db, x => Matches(x, f, m), x => Matches(x, f, []));
  }

  /** The selection does not depend on the order of the input: permuting the
      database selects the same records. */
  lemma ActFltrPermutation(db1: seq<Record>, db2: seq<Record>, fltr: Spec, mask: Spec, fe: bool, me: bool)
    requires multiset(db1) == multiset(db2)
    requires ActFltr(db1, fltr, mask, fe, me).Success?
    ensures ActFltr(db2, fltr, mask, fe, me).Success?
    ensures forall x :: x in ActFltr(db1, fltr, mask, fe, me).value <==> x in ActFltr(db2, fltr, mask, fe, me).value
  {
    var f, m := Normalize(fltr), Normalize(mask);
    var ts := IncludeTests(f) + MaskTests(m);
    GetManyMeaning(db1, ts);
    GetManyMeaning(db2, ts);
    forall i | 0 <= i < |db2| ensures EvalAll(ts, db2[i]).Some? {
      assert db2[i] in multiset(db1);
      var k :| 0 <= k < |db1| && db1[k] == db2[i];
    }
    forall x ensures x in db1 <==> x in db2 {
      assert x in db1 <==> x in multiset(db1);
      assert x in db2 <==> x in multiset(db2);
    }
    var r1, r2 := ActFltr(db1, fltr, mask, fe, me).value, ActFltr(db2, fltr, mask, fe, me).value;
    forall x ensures x in r1 <==> x in r2 {
      if x in r1 {
        var k :| 0 <= k < |r1| && r1[k] == x;
        var j :| 0 <= j < |db2| && db2[j] == x;
      }
      if x in r2 {
        var k :| 0 <= k < |r2| && r2[k] == x;
        var j :| 0 <= j < |db1| && db1[j] == x;
      }
    }
  }

  /** `filter_exact` and `mask_exact` do not change the result. */
  lemma ActFltrIgnoresExactFlags(db: seq<Record>, fltr: Spec, mask: Spec, fe: bool, me: bool)
    ensures ActFltr(db, fltr, mask, fe, me) == ActFltr(db, fltr, mask, false, false)
  {
  }

  // ---------------------------------------------------------------------------
  // Inventory sets

  /** `{act["name"] for act in acts}`; a record without a name raises. */
  function NameSet(acts: seq<Record>): (r: Result<set<string>>)
    ensures r.Success? <==> forall i :: 0 <= i < |acts| ==> NAME in acts[i]
    ensures r.Success? ==> r.value == set x | x in acts && NAME in x :: x[NAME]
    decreases |acts|
  {
    if |acts| == 0 then Success({})
    else if NAME !in acts[0] then Failure(KeyError)
    else
      var rest :- NameSet(acts[1..]);
      assert forall i :: 0 < i < |acts| ==> acts[i] == acts[1..][i - 1];
      assert (set x | x in acts && NAME in x :: x[NAME]) == {acts[0][NAME]} + (set x | x in acts[1..] && NAME in x :: x[NAME]) by {
        assert acts == [acts[0]] + acts[1..];
      }
      Success({acts[0][NAME]} + rest)
  }

  /** `database or self.database`: an absent or empty database falls back to
      the set's own. */
  function EffectiveDatabase(own: seq<Record>, database: Option<seq<Record>>): (db: seq<Record>)
    ensures database.Some? && |database.value| > 0 ==> db == database.value
    ensures database.None? || |database.value| == 0 ==> db == own
  {
    if database.None? || |database.value| == 0 then own else database.value
  }

  /** `{tech: act_fltr(database, **fltr) for tech, fltr in filtr.items()}` */
  function SelectAll(db: seq<Record>, filtr: Dict<FilterDef>): (r: Result<Dict<seq<Record>>>)
    ensures r.Success? ==> |r.value| == |filtr|
    ensures r.Success? ==> forall i :: 0 <= i < |filtr| ==>
              r.value[i].0 == filtr[i].0 &&
              Success(r.value[i].1) == ActFltr(db, filtr[i].1.fltr, filtr[i].1.mask, filtr[i].1.filterExact, filtr[i].1.maskExact)
    ensures (forall i :: 0 <= i < |filtr| ==>
               ActFltr(db, filtr[i].1.fltr, filtr[i].1.mask, filtr[i].1.filterExact, filtr[i].1.maskExact).Success?)
            ==> r.Success?
    decreases |filtr|
  {
    if |filtr| == 0 then Success([])
    else
      var d := filtr[0].1;
      var acts :- ActFltr(db, d.fltr, d.mask, d.filterExact, d.maskExact);
      assert forall i :: 0 < i < |filtr| ==> filtr[i] == filtr[1..][i - 1];
      var rest :- SelectAll(db, filtr[1..]);
      Success([(filtr[0].0, acts)] + rest)
  }

  /** The name projection of every selection, keyed by technology. */
  function NameSets(techs: Dict<seq<Record>>): (r: Result<map<string, set<string>>>)
    ensures r.Success? ==> r.value.Keys == KeysOf(techs)
    ensures r.Success? && DistinctKeys(techs) ==> forall i :: 0 <= i < |techs| ==>
              NameSet(techs[i].1) == Success(r.value[techs[i].0])
    ensures (forall i :: 0 <= i < |techs| ==> NameSet(techs[i].1).Success?) ==> r.Success?
    decreases |techs|
  {
    if |techs| == 0 then Success(map[])
    else
      var names :- NameSet(techs[0].1);
      KeysOfTail(techs);
      assert forall i :: 0 < i < |techs| ==> techs[i] == techs[1..][i - 1];
      var rest :- NameSets(techs[1..]);
      assert DistinctKeys(techs) ==> techs[0].0 !in KeysOf(techs[1..]);
      Success(rest[techs[0].0 := names])
  }

  /** `generate_sets_from_filters(filtr, database)`: for every technology of
      `filtr`, the set of names of the records its filter selects. */
  function GenerateSetsFromFilters(own: seq<Record>, filtr: Dict<FilterDef>, database: Option<seq<Record>>)
    : (r: Result<map<string, set<string>>>)
    ensures r.Success? ==> r.value.Keys == KeysOf(filtr)
    ensures r.Success? && DistinctKeys(filtr) ==> forall i :: 0 <= i < |filtr| ==>
              var d := filtr[i].1;
              var sel := ActFltr(EffectiveDatabase(own, database), d.fltr, d.mask, d.filterExact, d.maskExact);
              sel.Success? && r.value[filtr[i].0] == set x | x in sel.value && NAME in x :: x[NAME]
    ensures r.Success? ==> forall i :: 0 <= i < |filtr| ==> |Normalize(filtr[i].1.fltr)| > 0
  {
    var db := EffectiveDatabase(own, database);
    var techs :- SelectAll(db, filtr);
    KeysOfSameKeys(techs, filtr);
    assert DistinctKeys(filtr) ==> DistinctKeys(techs);
    NameSets(techs)
  }

  /** Every filter has an include part and every record of the database in use
      has a name and the fields the filters read: then the sets are built. */
  lemma GenerateSetsTotal(own: seq<Record>, filtr: Dict<FilterDef>, database: Option<seq<Record>>)
    requires forall i :: 0 <= i < |filtr| ==> |Normalize(filtr[i].1.fltr)| > 0
    requires forall j :: 0 <= j < |EffectiveDatabase(own, database)| ==>
               NAME in EffectiveDatabase(own, database)[j] &&
               forall i :: 0 <= i < |filtr| ==>
                 Readable(EffectiveDatabase(own, database)[j], Normalize(filtr[i].1.fltr), Normalize(filtr[i].1.mask))
    ensures GenerateSetsFromFilters(own, filtr, database).Success?
  {
    var db := EffectiveDatabase(own, database);
    var techs := SelectAll(db, filtr);
    assert techs.Success?;
    forall i | 0 <= i < |techs.value| ensures NameSet(techs.value[i].1).Success? {
      var sel := techs.value[i].1;
      forall k | 0 <= k < |sel| ensures NAME in sel[k] {
        assert sel[k] in db;
      }
    }
  }

  /** `get_mapping(filepath, var)` after the YAML file is read: every entry
      that has `alias` contributes that value under its own key, in file order. */
  function GetMapping<V>(techs: Dict<map<string, V>>, alias: string): (r: Dict<V>)
    ensures KeysOf(r) == set i | 0 <= i < |techs| && alias in techs[i].1 :: techs[i].0
    ensures DistinctKeys(techs) ==> DistinctKeys(r)
    decreases |techs|
  {
    if |techs| == 0 then []
    else
      var rest := GetMapping(techs[1..], alias);
      assert forall i :: 0 < i < |techs| ==> techs[i] == techs[1..][i - 1];
      assert KeysOf(techs) == {techs[0].0} + KeysOf(techs[1..]) by { KeysOfTail(techs); }
      if alias in techs[0].1 then
        var r := [(techs[0].0, techs[0].1[alias])] + rest;
        assert KeysOf(r) == {techs[0].0} + KeysOf(rest) by { KeysOfTail(r); assert r[1..] == rest; }
        assert forall j :: 0 < j < |r| ==> r[j] == rest[j - 1];
        assert DistinctKeys(techs) ==> techs[0].0 !in KeysOf(rest);
        r
      else
        rest
  }

  /** Every entry of the mapping is the alias value of an entry of the file
      under the same key. */
  lemma {:induction false} GetMappingValues<V>(techs: Dict<map<string, V>>, alias: string, j: nat)
    requires j < |GetMapping(techs, alias)|
    ensures var r := GetMapping(techs, alias);
            exists i :: 0 <= i < |techs| && techs[i].0 == r[j].0 && alias in techs[i].1 && r[j].1 == techs[i].1[alias]
    decreases |techs|
  {
    var r := GetMapping(techs, alias);
    var rest := GetMapping(techs[1..], alias);
    if alias in techs[0].1 && j == 0 {
      assert r[0] == (techs[0].0, techs[0].1[alias]);
    } else {
      var j' := if alias in techs[0].1 then j - 1 else j;
      assert r[j] == rest[j'];
      GetMappingValues(techs[1..], alias, j');
      var i :| 0 <= i < |techs[1..]| && techs[1..][i].0 == rest[j'].0 && alias in techs[1..][i].1 &&
               rest[j'].1 == techs[1..][i].1[alias];
      assert techs[i + 1] == techs[1..][i];
    }
  }

  /** Every set of `out` holds what `acc` held under that key together with
      `mapping[eu]` for every item `(eu, iam)` of `items` under its IAM key. */
  ghost predicate UnionOf(mapping: map<string, set<string>>, items: Dict<string>, acc: map<string, set<string>>,
                          out: map<string, set<string>>)
    requires forall i :: 0 <= i < |items| ==> items[i].0 in mapping
  {
    forall iam, x :: iam in out ==>
      (x in out[iam] <==>
         (iam in acc && x in acc[iam]) ||
         exists i :: 0 <= i < |items| && items[i].1 == iam && x in mapping[items[i].0])
  }

  /** The union of `mapping[eu]` over the items of `items`, added to `acc`
      under their IAM key; a missing EU key raises. */
  function GainsUnion(mapping: map<string, set<string>>, items: Dict<string>, acc: map<string, set<string>>)
    : (r: Result<map<string, set<string>>>)
    ensures r.Success? <==> forall i :: 0 <= i < |items| ==> items[i].0 in mapping
    ensures r.Success? ==> r.value.Keys == acc.Keys + set i | 0 <= i < |items| :: items[i].1
    ensures r.Success? ==> UnionOf(mapping, items, acc, r.value)
    decreases |items|
  {
    if |items| == 0 then Success(acc)
    else if items[0].0 !in mapping then Failure(KeyError)
    else
      var (eu, iam) := items[0];
      var acc' := acc[iam := (if iam in acc then acc[iam] else {}) + mapping[eu]];
      assert forall i :: 0 < i < |items| ==> items[i] == items[1..][i - 1];
      var r := GainsUnion(mapping, items[1..], acc');
      if r.Success? then
        UnionOfCons(mapping, items, acc, acc', r.value);
        r
      else r
  }

  /** Adding the first item to the accumulator and then the rest is adding all. */
  lemma UnionOfCons(mapping: map<string, set<string>>, items: Dict<string>, acc: map<string, set<string>>,
                    acc': map<string, set<string>>, out: map<string, set<string>>)
    requires |items| > 0 && forall i :: 0 <= i < |items| ==> items[i].0 in mapping
    requires acc' == acc[items[0].1 := (if items[0].1 in acc then acc[items[0].1] else {}) + mapping[items[0].0]]
    requires UnionOf(mapping, items[1..], acc', out)
    ensures UnionOf(mapping, items, acc, out)
  {
    forall iam, x | iam in out
      ensures x in out[iam] <==>
                (iam in acc && x in acc[iam]) ||
                exists i :: 0 <= i < |items| && items[i].1 == iam && x in mapping[items[i].0]
    {
      if exists i :: 0 <= i < |items[1..]| && items[1..][i].1 == iam && x in mapping[items[1..][i].0] {
        var i :| 0 <= i < |items[1..]| && items[1..][i].1 == iam && x in mapping[items[1..][i].0];
        assert items[i + 1] == items[1..][i];
      }
      if exists i :: 0 < i < |items| && items[i].1 == iam && x in mapping[items[i].0] {
        var i :| 0 < i < |items| && items[i].1 == iam && x in mapping[items[i].0];
        assert items[1..][i - 1] == items[i];
      }
    }
  }

  /** `generate_gains_mapping_IAM(mapping)`: every IAM sector maps to the union
      of the sets of the EU sectors aliased to it. */
  function GainsMappingIAM(mapping: map<string, set<string>>, euToIam: Dict<string>): (r: Result<map<string, set<string>>>)
    ensures r.Success? <==> forall i :: 0 <= i < |euToIam| ==> euToIam[i].0 in mapping
    ensures r.Success? ==> r.value.Keys == set i | 0 <= i < |euToIam| :: euToIam[i].1
    ensures r.Success? ==> forall iam, x :: iam in r.value ==>
              (x in r.value[iam] <==> exists i :: 0 <= i < |euToIam| && euToIam[i].1 == iam && x in mapping[euToIam[i].0])
  {
    GainsUnion(mapping, euToIam, map[])
  }

  // ---------------------------------------------------------------------------
  // The generate_*_map wrappers

  /** The filter families an `InventorySet` holds, one per `generate_*_map`. */
  datatype Category =
    | Powerplant | PowerplantFuels | Fuels | Materials | DirectAirCapture
    | CarbonStorage | CementFuels | Gains | ActivitiesUsingMetals | Metals

  /** An `InventorySet` after construction: its database, the filters read from
      configuration for each category, and the keys of the biosphere-flow
      dictionary (name, category, sub-category, unit). */
  datatype InventorySet = InventorySet(
    database: seq<Record>,
    filters: Category -> Dict<FilterDef>,
    biosphereFlows: seq<(string, string, string, string)>)

  /** `[{"name": k[0], "categories": k[1]} for k in biosphere_flows_dictionary(...)]` */
  function FlowRecords(flows: seq<(string, string, string, string)>): (r: seq<Record>)
    ensures |r| == |flows|
    ensures forall i :: 0 <= i < |r| ==>
              r[i].Keys == {NAME, "categories"} && r[i][NAME] == flows[i].0 && r[i]["categories"] == flows[i].1
  {
    seq(|flows|, i requires 0 <= i < |flows| => map[NAME := flows[i].0, "categories" := flows[i].1])
  }

  /** `generate_powerplant_map()`, `generate_fuel_map()`, ... : the sets of the
      category's filters over the set's database; the metals map reads the
      biosphere flows instead (and, like any empty database, falls back to the
      set's own database when there are none). */
  function GenerateMap(inv: InventorySet, c: Category): (r: Result<map<string, set<string>>>)
    ensures r.Success? ==> r.value.Keys == KeysOf(inv.filters(c))
    ensures c != Metals ==> r == GenerateSetsFromFilters(inv.database, inv.filters(c), None)
    ensures c == Metals && |inv.biosphereFlows| > 0 ==>
              r == GenerateSetsFromFilters(FlowRecords(inv.biosphereFlows), inv.filters(c), None)
    ensures c == Metals && |inv.biosphereFlows| == 0 ==>
              r == GenerateSetsFromFilters(inv.database, inv.filters(c), None)
  {
    if c == Metals then GenerateSetsFromFilters(inv.database, inv.filters(c), Some(FlowRecords(inv.biosphereFlows)))
    else GenerateSetsFromFilters(inv.database, inv.filters(c), None)
  }

  /** A filter on "electricity production, hard coal" over a database holding
      that record and "electricity production, wind" maps the technology to the
      coal record's name alone. */
  lemma PowerplantMapExample()
    ensures
      var coal: Record := map[NAME := "electricity production, hard coal"];
      var wind: Record := map[NAME := "electricity production, wind"];
      var filters := [("coal power plant", FilterDef(Bare("electricity production, hard coal"), Absent, false, false))];
      GenerateSetsFromFilters([coal, wind], filters, None)
        == Success(map["coal power plant" := {"electricity production, hard coal"}])
  {
    var coal: Record := map[NAME := "electricity production, hard coal"];
    var wind: Record := map[NAME := "electricity production, wind"];
    var d := FilterDef(Bare("electricity production, hard coal"), Absent, false, false);
    var filters := [("coal power plant", d)];
    assert OccursAt(coal[NAME], "electricity production, hard coal", 0);
    assert !Contains(wind[NAME], "electricity production, hard coal");
    var f := Normalize(d.fltr);
    assert f == [(NAME, One("electricity production, hard coal"))];
    assert Matches(coal, f, []);
    assert !IncludeHolds(wind, f[0].0, f[0].1);
    assert !Matches(wind, f, []);
    var sel := ActFltr([coal, wind], d.fltr, d.mask, false, false);
    assert sel.Success?;
    var p := x => Matches(x, f, Normalize(d.mask));
    assert p(coal) && !p(wind);
    assert Filter([coal, wind], p) == [coal] by {
      assert [coal, wind][1..] == [wind];
      assert Filter([wind], p) == [];
    }
    assert sel.value == [coal];
    assert (set x | x in [coal] && NAME in x :: x[NAME]) == {"electricity production, hard coal"};
    var r := GenerateSetsFromFilters([coal, wind], filters, None);
    assert r.Success?;
    assert r.value.Keys == {"coal power plant"};
  }
}
