/**
  * The assembly body of scripts/build-duke-reference.js: the four lookup indexes built from
  * the PARTS, COMMON_NAMES, FARMACY_NEW and ETHNOBOT tables, and the pass over FNFTAX that
  * collapses every taxon row onto one reference entry per base-name slug.
  *
  * The JavaScript `Set`s of chemicals and activities are kept here as strictly sorted
  * sequences: the script only ever reads them through `Array.from(set).sort()`, which
  * `Collections.SortedUnique` shows is the same array.
  */
module Assembler {
  import opened Text
  import opened Collections
  import opened Csv
  import opened Names

  /** `row.KEY ? row.KEY.trim() : ""`: an absent or empty cell reads as "". */
  function Field(row: Row, key: string): (r: string)
    ensures IsTrimmed(r)
    ensures key !in row ==> r == ""
  {
    if key in row then Trim(row[key]) else ""
  }

  /** A cell used as is; absent reads as "" (both are falsy in the script). */
  function Cell(row: Row, key: string): string {
    if key in row then row[key] else ""
  }

  /** `row.FNFNUM` used as an object key: an absent cell becomes the key "undefined". */
  function Num(row: Row): string {
    if "FNFNUM" in row then row["FNFNUM"] else "undefined"
  }

  /** `g[k]` holds `y`: membership in a grouped index. */
  predicate Has(g: map<string, seq<string>>, k: string, y: string) {
    k in g && y in g[k]
  }

  predicate SortedGroups(g: map<string, seq<string>>) {
    forall k :: k in g ==> StrictlySorted(g[k])
  }

  /** `if (!g[key]) g[key] = new Set(); g[key].add(x)`. */
  function AddToGroup(g: map<string, seq<string>>, key: string, x: string): (r: map<string, seq<string>>)
    requires SortedGroups(g)
    ensures SortedGroups(r)
    ensures r.Keys == g.Keys + {key}
    ensures forall k, y :: Has(r, k, y) <==> Has(g, k, y) || (k == key && y == x)
  {
    var r := g[key := Insert(if key in g then g[key] else [], x)];
    assert forall k, y :: k != key ==> (Has(r, k, y) <==> Has(g, k, y));
    r
  }

  // ---- PARTS: plant-part code to part name ----

  /** A PARTS row that defines the name of part `code`: both cells non-empty. */
  predicate DefinesPart(row: Row, code: string) {
    Cell(row, "PPCO") == code && code != "" && Cell(row, "PPNA") != ""
  }

  /** `partsMap`: every row with a code and a name sets that code; a later row overwrites. */
  function PartsOf(rows: seq<Row>): map<string, string>
    decreases |rows|
  {
    if rows == [] then map[]
    else
      var m := PartsOf(rows[..|rows| - 1]);
      var row := rows[|rows| - 1];
      if Cell(row, "PPCO") != "" && Cell(row, "PPNA") != "" then m[Cell(row, "PPCO") := Cell(row, "PPNA")] else m
  }

  method BuildPartsMap(rows: seq<Row>) returns (parts: map<string, string>)
    ensures parts == PartsOf(rows)
  {
    parts := map[];
    for i := 0 to |rows|
      invariant parts == PartsOf(rows[..i])
    {
      assert rows[..i + 1][..i] == rows[..i];
      var row := rows[i];
      if Cell(row, "PPCO") != "" && Cell(row, "PPNA") != "" {
        parts := parts[row["PPCO"] := row["PPNA"]];
      }
    }
    assert rows[..|rows|] == rows;
  }

  /** What the last row does to `partsMap`. */
  lemma PartsOfStep(rows: seq<Row>, code: string)
    requires rows != []
    ensures var pre := rows[..|rows| - 1];
      var row := rows[|rows| - 1];
      && (DefinesPart(row, code) ==> code in PartsOf(rows) && PartsOf(rows)[code] == Cell(row, "PPNA"))
      && (!DefinesPart(row, code) ==> (code in PartsOf(rows) <==> code in PartsOf(pre)))
      && (!DefinesPart(row, code) && code in PartsOf(pre) ==> PartsOf(rows)[code] == PartsOf(pre)[code])
  {
  }

  /** A code is in `partsMap` exactly if some row defines it. */
  lemma {:induction false} PartsOfMember(rows: seq<Row>, code: string)
    ensures code in PartsOf(rows) <==> exists i :: 0 <= i < |rows| && DefinesPart(rows[i], code)
    decreases |rows|
  {
    if rows != [] {
      var n := |rows| - 1;
      var pre := rows[..n];
      PartsOfMember(pre, code);
      PartsOfStep(rows, code);
      if exists i :: 0 <= i < |rows| && DefinesPart(rows[i], code) {
        var i :| 0 <= i < |rows| && DefinesPart(rows[i], code);
        if i < n {
          assert pre[i] == rows[i];
        }
      }
      if exists i :: 0 <= i < |pre| && DefinesPart(pre[i], code) {
        var i :| 0 <= i < |pre| && DefinesPart(pre[i], code);
        assert rows[i] == pre[i];
      }
    }
  }

  /** The row whose name a code gets in `partsMap`: it defines the code, and no later row does. */
  lemma {:induction false} PartsOfLast(rows: seq<Row>, code: string) returns (i: nat)
    requires code in PartsOf(rows)
    ensures i < |rows| && DefinesPart(rows[i], code) && Cell(rows[i], "PPNA") == PartsOf(rows)[code]
    ensures forall j :: i < j < |rows| ==> !DefinesPart(rows[j], code)
    decreases |rows|
  {
    var n := |rows| - 1;
    var pre := rows[..n];
    PartsOfStep(rows, code);
    if DefinesPart(rows[n], code) {
      i := n;
    } else {
      i := PartsOfLast(pre, code);
      assert rows[i] == pre[i];
      forall j | i < j < |rows| ensures !DefinesPart(rows[j], code) {
        if j < n {
          assert rows[j] == pre[j];
        }
      }
    }
  }

  /**
    * A code is in `partsMap` exactly if some row defines it, and its name is the one given by
    * the last such row; so no code and no name in the map is empty.
    */
  lemma PartsOfLastWins(rows: seq<Row>, code: string)
    ensures code in PartsOf(rows) <==> exists i :: 0 <= i < |rows| && DefinesPart(rows[i], code)
    ensures code in PartsOf(rows) ==> exists i :: (0 <= i < |rows| && DefinesPart(rows[i], code)
      && Cell(rows[i], "PPNA") == PartsOf(rows)[code]
      && forall j :: i < j < |rows| ==> !DefinesPart(rows[j], code))
  {
    PartsOfMember(rows, code);
    if code in PartsOf(rows) {
      var i := PartsOfLast(rows, code);
    }
  }

  // ---- COMMON_NAMES: common names grouped by plant number ----

  /** The non-empty trimmed common names of plant `num`, in table order. */
  function NamesFor(rows: seq<Row>, num: string): (r: seq<string>)
    ensures forall k :: 0 <= k < |r| ==> r[k] != "" && IsTrimmed(r[k])
    decreases |rows|
  {
    if rows == [] then []
    else
      var row := rows[|rows| - 1];
      NamesFor(rows[..|rows| - 1], num)
        + (if Num(row) == num && Field(row, "CNNAM") != "" then [Field(row, "CNNAM")] else [])
  }

  /** One COMMON_NAMES row: a non-empty name is appended to its plant's list. */
  function AddCommonName(m: map<string, seq<string>>, row: Row): map<string, seq<string>> {
    var name := Field(row, "CNNAM");
    if name == "" then m
    else m[Num(row) := (if Num(row) in m then m[Num(row)] else []) + [name]]
  }

  /** `commonNamesByNum`. */
  function CommonNamesOf(rows: seq<Row>): map<string, seq<string>>
    decreases |rows|
  {
    if rows == [] then map[] else AddCommonName(CommonNamesOf(rows[..|rows| - 1]), rows[|rows| - 1])
  }

  /** `if (!m[key]) m[key] = []; m[key].push(x)`. */
  method Append(m: map<string, seq<string>>, key: string, x: string) returns (r: map<string, seq<string>>)
    ensures r == m[key := (if key in m then m[key] else []) + [x]]
  {
    r := m;
    if key !in r {
      r := r[key := []];
    }
    r := r[key := r[key] + [x]];
  }

  method IndexCommonNames(rows: seq<Row>) returns (byNum: map<string, seq<string>>)
    ensures byNum == CommonNamesOf(rows)
  {
    byNum := map[];
    for i := 0 to |rows|
      invariant byNum == CommonNamesOf(rows[..i])
    {
      assert rows[..i + 1][..i] == rows[..i];
      var row := rows[i];
      var num := Num(row);
      var name := Field(row, "CNNAM");
      if name == "" {
        continue;
      }
      byNum := Append(byNum, num, name);
    }
    assert rows[..|rows|] == rows;
  }

  /** A plant has a name list exactly if it has a non-empty name, and the list is all its names in order. */
  lemma {:induction false} CommonNamesGrouped(rows: seq<Row>, num: string)
    ensures num in CommonNamesOf(rows) <==> NamesFor(rows, num) != []
    ensures num in CommonNamesOf(rows) ==> CommonNamesOf(rows)[num] == NamesFor(rows, num)
    decreases |rows|
  {
    if rows != [] {
      CommonNamesGrouped(rows[..|rows| - 1], num);
    }
  }

  // ---- FARMACY_NEW: chemicals grouped by plant number and part ----

  /** `partsMap[ppco] || ppco || "Unspecified"`. */
  function PartName(parts: map<string, string>, ppco: string): (r: string)
    ensures r != ""
    ensures ppco in parts && parts[ppco] != "" ==> r == parts[ppco]
  {
    if ppco in parts && parts[ppco] != "" then parts[ppco]
    else if ppco != "" then ppco
    else "Unspecified"
  }

  /** Chemical `c` of part `part` of plant `num` comes from this FARMACY_NEW row. */
  predicate ChemRow(parts: map<string, string>, row: Row, num: string, part: string, c: string) {
    && Field(row, "CHEM") != ""
    && Num(row) == num
    && PartName(parts, Field(row, "PPCO")) == part
    && CleanChemName(Field(row, "CHEM")) == c
  }

  predicate HasChem(m: map<string, map<string, seq<string>>>, num: string, part: string, c: string) {
    num in m && Has(m[num], part, c)
  }

  predicate SortedChems(m: map<string, map<string, seq<string>>>) {
    forall num :: num in m ==> SortedGroups(m[num])
  }

  /** One FARMACY_NEW row: a non-empty chemical is added, cleaned, under its plant and part name. */
  function AddChemRow(parts: map<string, string>, m: map<string, map<string, seq<string>>>, row: Row): (r: map<string, map<string, seq<string>>>)
    requires SortedChems(m)
    ensures SortedChems(r)
  {
    var chem := Field(row, "CHEM");
    if chem == "" then m
    else
      var num := Num(row);
      m[num := AddToGroup(if num in m then m[num] else map[], PartName(parts, Field(row, "PPCO")), CleanChemName(chem))]
  }

  /** Adding chemical `c0` under plant `n0` and part `p0` adds exactly that triple. */
  lemma AddToNested(m: map<string, map<string, seq<string>>>, n0: string, p0: string, c0: string, num: string, part: string, c: string)
    requires SortedChems(m)
    ensures var g := if n0 in m then m[n0] else map[];
      HasChem(m[n0 := AddToGroup(g, p0, c0)], num, part, c) <==> HasChem(m, num, part, c) || (num == n0 && part == p0 && c == c0)
  {
    var g := if n0 in m then m[n0] else map[];
    var r := m[n0 := AddToGroup(g, p0, c0)];
    if num == n0 {
      assert HasChem(r, num, part, c) <==> Has(g, part, c) || (part == p0 && c == c0);
    } else {
      assert num in m ==> r[num] == m[num];
    }
  }

  lemma AddChemRowMembers(parts: map<string, string>, m: map<string, map<string, seq<string>>>, row: Row, num: string, part: string, c: string)
    requires SortedChems(m)
    ensures HasChem(AddChemRow(parts, m, row), num, part, c) <==> HasChem(m, num, part, c) || ChemRow(parts, row, num, part, c)
  {
    var chem := Field(row, "CHEM");
    if chem != "" {
      AddToNested(m, Num(row), PartName(parts, Field(row, "PPCO")), CleanChemName(chem), num, part, c);
    }
  }

  /** `chemsByNum`. */
  function ChemsOf(parts: map<string, string>, rows: seq<Row>): (m: map<string, map<string, seq<string>>>)
    ensures SortedChems(m)
    decreases |rows|
  {
    if rows == [] then map[] else AddChemRow(parts, ChemsOf(parts, rows[..|rows| - 1]), rows[|rows| - 1])
  }

  /** `if (!m[num]) m[num] = {}; if (!m[num][part]) m[num][part] = new Set(); m[num][part].add(c)`. */
  method AddChem(m: map<string, map<string, seq<string>>>, num: string, part: string, c: string)
    returns (r: map<string, map<string, seq<string>>>)
    requires SortedChems(m)
    ensures r == m[num := AddToGroup(if num in m then m[num] else map[], part, c)]
  {
    r := m;
    if num !in r {
      r := r[num := map[]];
    }
    r := r[num := AddToGroup(r[num], part, c)];
  }

  method IndexChemicals(parts: map<string, string>, rows: seq<Row>) returns (byNum: map<string, map<string, seq<string>>>)
    ensures byNum == ChemsOf(parts, rows)
  {
    byNum := map[];
    for i := 0 to |rows|
      invariant byNum == ChemsOf(parts, rows[..i])
    {
      assert rows[..i + 1][..i] == rows[..i];
      var row := rows[i];
      var num := Num(row);
      var chem := Field(row, "CHEM");
      var ppco := Field(row, "PPCO");
      if chem == "" {
        continue;
      }
      var partName := PartName(parts, ppco);
      byNum := AddChem(byNum, num, partName, CleanChemName(chem));
    }
    assert rows[..|rows|] == rows;
  }

  /** A chemical is listed under a plant and part exactly if some row with a chemical names them. */
  lemma {:induction false} ChemsOfMembers(parts: map<string, string>, rows: seq<Row>, num: string, part: string, c: string)
    ensures HasChem(ChemsOf(parts, rows), num, part, c) <==> exists i :: 0 <= i < |rows| && ChemRow(parts, rows[i], num, part, c)
  {
    var f := (row: Row) => ChemRow(parts, row, num, part, c);
    ChemsOfAny(parts, rows, num, part, c, f);
    AnyExists(rows, f);
  }

  lemma {:induction false} ChemsOfAny(parts: map<string, string>, rows: seq<Row>, num: string, part: string, c: string, f: Row -> bool)
    requires forall row :: f(row) == ChemRow(parts, row, num, part, c)
    ensures HasChem(ChemsOf(parts, rows), num, part, c) <==> Any(rows, f)
    decreases |rows|
  {
    if rows != [] {
      var pre := rows[..|rows| - 1];
      ChemsOfAny(parts, pre, num, part, c, f);
      AddChemRowMembers(parts, ChemsOf(parts, pre), rows[|rows| - 1], num, part, c);
    }
  }

  /** Every stored chemical name is a cleaned name: no hyphen, trimmed, word-initial capitals. */
  lemma StoredChemsAreClean(parts: map<string, string>, rows: seq<Row>, num: string, part: string, c: string)
    requires HasChem(ChemsOf(parts, rows), num, part, c)
    ensures '-' !in c && IsTrimmed(c) && WordInitialCaps(c)
  {
    ChemsOfMembers(parts, rows, num, part, c);
    var i :| 0 <= i < |rows| && ChemRow(parts, rows[i], num, part, c);
    CleanChemNameShape(Field(rows[i], "CHEM"));
  }

  // ---- ETHNOBOT: activities by full taxon and by base name ----

  datatype EthnoIndex = EthnoIndex(byTaxon: map<string, seq<string>>, byBase: map<string, seq<string>>)

  /** `row.TAXON ? row.TAXON.trim().toLowerCase() : ""`. */
  function EthnoTaxon(row: Row): string {
    Lower(Field(row, "TAXON"))
  }

  /** An ETHNOBOT row counts only with both a taxon and an activity. */
  predicate IsEthnoRow(row: Row) {
    EthnoTaxon(row) != "" && Field(row, "ACTIVITY") != ""
  }

  /** The row also feeds the base-name index: its base form is non-empty and differs from the taxon. */
  predicate FeedsBase(row: Row) {
    IsEthnoRow(row) && BaseKey(EthnoTaxon(row)) != "" && BaseKey(EthnoTaxon(row)) != EthnoTaxon(row)
  }

  /** One ETHNOBOT row: a usable row adds its activity under its taxon, and under its base form when that differs. */
  function AddEthnoRow(e: EthnoIndex, row: Row): (r: EthnoIndex)
    requires SortedGroups(e.byTaxon) && SortedGroups(e.byBase)
    ensures SortedGroups(r.byTaxon) && SortedGroups(r.byBase)
  {
    var taxon := EthnoTaxon(row);
    var activity := Field(row, "ACTIVITY");
    if taxon == "" || activity == "" then e
    else
      var byTaxon := AddToGroup(e.byTaxon, taxon, activity);
      var base := BaseKey(taxon);
      if base != "" && base != taxon then EthnoIndex(byTaxon, AddToGroup(e.byBase, base, activity))
      else EthnoIndex(byTaxon, e.byBase)
  }

  /** `ethnoByTaxon` and `ethnoByBase`. */
  function EthnoOf(rows: seq<Row>): (e: EthnoIndex)
    ensures SortedGroups(e.byTaxon) && SortedGroups(e.byBase)
    decreases |rows|
  {
    if rows == [] then EthnoIndex(map[], map[]) else AddEthnoRow(EthnoOf(rows[..|rows| - 1]), rows[|rows| - 1])
  }

  method IndexEthnobotany(rows: seq<Row>) returns (byTaxon: map<string, seq<string>>, byBase: map<string, seq<string>>)
    ensures EthnoIndex(byTaxon, byBase) == EthnoOf(rows)
  {
    byTaxon := map[];
    byBase := map[];
    for i := 0 to |rows|
      invariant EthnoIndex(byTaxon, byBase) == EthnoOf(rows[..i])
    {
      assert rows[..i + 1][..i] == rows[..i];
      var row := rows[i];
      var taxon := EthnoTaxon(row);
      var activity := Field(row, "ACTIVITY");
      if taxon == "" || activity == "" {
        continue;
      }
      byTaxon := AddToGroup(byTaxon, taxon, activity);
      var base := BaseGenusSpecies(taxon);
      if base != "" && base != taxon {
        byBase := AddToGroup(byBase, base, activity);
      }
    }
    assert rows[..|rows|] == rows;
  }

  /** Row `row` lists activity `a` under the lower-cased taxon `key`. */
  predicate TaxonRow(row: Row, key: string, a: string) {
    IsEthnoRow(row) && EthnoTaxon(row) == key && Field(row, "ACTIVITY") == a
  }

  /** Row `row` lists activity `a` under the base form `key`. */
  predicate BaseRow(row: Row, key: string, a: string) {
    FeedsBase(row) && BaseKey(EthnoTaxon(row)) == key && Field(row, "ACTIVITY") == a
  }

  lemma AddEthnoRowMembers(e: EthnoIndex, row: Row, key: string, a: string)
    requires SortedGroups(e.byTaxon) && SortedGroups(e.byBase)
    ensures Has(AddEthnoRow(e, row).byTaxon, key, a) <==> Has(e.byTaxon, key, a) || TaxonRow(row, key, a)
    ensures Has(AddEthnoRow(e, row).byBase, key, a) <==> Has(e.byBase, key, a) || BaseRow(row, key, a)
  {
  }

  lemma {:induction false} EthnoOfAny(rows: seq<Row>, key: string, a: string, f: Row -> bool, g: Row -> bool)
    requires forall row :: f(row) == TaxonRow(row, key, a)
    requires forall row :: g(row) == BaseRow(row, key, a)
    ensures Has(EthnoOf(rows).byTaxon, key, a) <==> Any(rows, f)
    ensures Has(EthnoOf(rows).byBase, key, a) <==> Any(rows, g)
    decreases |rows|
  {
    if rows != [] {
      var pre := rows[..|rows| - 1];
      EthnoOfAny(pre, key, a, f, g);
      AddEthnoRowMembers(EthnoOf(pre), rows[|rows| - 1], key, a);
    }
  }

  /**
    * An activity is listed under a lower-cased taxon exactly if a usable row pairs them, and
    * under a base name exactly if a usable row whose base form differs from its taxon pairs them.
    */
  lemma EthnoOfMembers(rows: seq<Row>, key: string, a: string)
    ensures Has(EthnoOf(rows).byTaxon, key, a) <==> exists i :: 0 <= i < |rows| && TaxonRow(rows[i], key, a)
    ensures Has(EthnoOf(rows).byBase, key, a) <==> exists i :: 0 <= i < |rows| && BaseRow(rows[i], key, a)
  {
    var f := (row: Row) => TaxonRow(row, key, a);
    var g := (row: Row) => BaseRow(row, key, a);
    EthnoOfAny(rows, key, a, f, g);
    AnyExists(rows, f);
    AnyExists(rows, g);
  }

  // ---- Assembly: one entry per base-name slug ----

  /** A reference entry; an absent optional field is a key the script never set. */
  datatype Entry = Entry(
    latinName: string,
    family: Option<string>,
    commonNames: Option<seq<string>>,
    constituents: Option<map<string, seq<string>>>,
    ethnobotany: Option<seq<string>>)

  datatype Indexes = Indexes(
    commonNames: map<string, seq<string>>,
    chems: map<string, map<string, seq<string>>>,
    ethno: EthnoIndex)

  /** The output object, its keys in insertion order, and the skip counter. */
  datatype Reference = Reference(entries: map<string, Entry>, order: seq<string>, skipped: nat)

  /** `xs || []`. */
  function OrEmpty(o: Option<seq<string>>): seq<string> {
    if o.Some? then o.value else []
  }

  /** `obj || {}`. */
  function OrEmptyMap(o: Option<map<string, seq<string>>>): map<string, seq<string>> {
    if o.Some? then o.value else map[]
  }

  /**
    * The ethnobotany lookup: the exact lower-cased taxon if it has activities, else the base
    * form in the base index, else the base form in the taxon index, else nothing.
    */
  function EthnoUses(ethno: EthnoIndex, taxon: string, base: string): seq<string> {
    var t := Lower(taxon);
    if t in ethno.byTaxon && |ethno.byTaxon[t]| > 0 then ethno.byTaxon[t]
    else if base in ethno.byBase then ethno.byBase[base]
    else if base in ethno.byTaxon then ethno.byTaxon[base]
    else []
  }

  /** `constituents[part] = Array.from(chems).sort()` for every part. */
  function SortedParts(raw: map<string, seq<string>>): (r: map<string, seq<string>>)
    ensures r.Keys == raw.Keys && SortedGroups(r)
    ensures forall p, y :: Has(r, p, y) <==> Has(raw, p, y)
  {
    map p | p in raw :: SortedSet(raw[p])
  }

  /** The per-part merge: a part new to the entry is taken as is, a known part becomes the sorted union. */
  function MergeParts(existing: map<string, seq<string>>, add: map<string, seq<string>>): (r: map<string, seq<string>>)
    ensures r.Keys == existing.Keys + add.Keys
    ensures forall p, y :: Has(r, p, y) <==> Has(existing, p, y) || Has(add, p, y)
  {
    map p | p in existing.Keys + add.Keys ::
      if p !in add then existing[p]
      else if p !in existing then add[p]
      else SortedSet(existing[p] + add[p])
  }

  /** The entry a first row creates. */
  function NewEntry(taxon: string, family: string, names: seq<string>, parts: map<string, seq<string>>, uses: seq<string>): Entry {
    Entry(
      taxon,
      if family != "" then Some(family) else None,
      if |names| > 0 then Some(names) else None,
      if |parts| > 0 then Some(parts) else None,
      if |uses| > 0 then Some(SortedSet(uses)) else None)
  }

  /** What a later row with the same slug does to the entry. */
  function MergeEntry(e: Entry, names: seq<string>, parts: map<string, seq<string>>, uses: seq<string>): Entry {
    e.(
      commonNames := if |names| > 0 then Some(Dedup(OrEmpty(e.commonNames) + names)) else e.commonNames,
      constituents := if |parts| > 0 then Some(MergeParts(OrEmptyMap(e.constituents), parts)) else e.constituents,
      ethnobotany := if |uses| > 0 then Some(SortedSet(OrEmpty(e.ethnobotany) + uses)) else e.ethnobotany)
  }

  /** The output key of a taxon. */
  function SlugOf(taxon: string): string {
    Slugify(BaseKey(taxon))
  }

  function NamesOf(ix: Indexes, row: Row): seq<string> {
    if Num(row) in ix.commonNames then ix.commonNames[Num(row)] else []
  }

  function RawOf(ix: Indexes, row: Row): map<string, seq<string>> {
    if Num(row) in ix.chems then ix.chems[Num(row)] else map[]
  }

  function UsesOf(ix: Indexes, row: Row): seq<string> {
    EthnoUses(ix.ethno, Field(row, "TAXON"), BaseKey(Field(row, "TAXON")))
  }

  /** A taxon row that is not skipped: it has a taxon and names, chemicals or uses. */
  predicate Contributes(ix: Indexes, row: Row) {
    Field(row, "TAXON") != "" && (|NamesOf(ix, row)| > 0 || |RawOf(ix, row)| > 0 || |UsesOf(ix, row)| > 0)
  }

  /** What one FNFTAX row brings: nothing (the row is skipped), or the data for the entry of its slug. */
  datatype Contribution =
    | Skip
    | Add(slug: string, taxon: string, family: string, names: seq<string>, parts: map<string, seq<string>>, uses: seq<string>)

  function ContributionOf(ix: Indexes, row: Row): Contribution {
    if !Contributes(ix, row) then Skip
    else
      var taxon := Field(row, "TAXON");
      Add(SlugOf(taxon), taxon, Field(row, "FAMILY"), NamesOf(ix, row), SortedParts(RawOf(ix, row)), UsesOf(ix, row))
  }

  /** A skipped row is counted; otherwise the entry of its slug is merged into or created at the end of the order. */
  function Apply(st: Reference, c: Contribution): Reference {
    match c
    case Skip => st.(skipped := st.skipped + 1)
    case Add(slug, taxon, family, names, parts, uses) =>
      if slug in st.entries then
        st.(entries := st.entries[slug := MergeEntry(st.entries[slug], names, parts, uses)])
      else
        Reference(st.entries[slug := NewEntry(taxon, family, names, parts, uses)], st.order + [slug], st.skipped)
  }

  /** One FNFTAX row of the assembly pass. */
  function AssembleRow(ix: Indexes, st: Reference, row: Row): Reference {
    Apply(st, ContributionOf(ix, row))
  }

  function AssembleAll(ix: Indexes, rows: seq<Row>): Reference
    decreases |rows|
  {
    if rows == [] then Reference(map[], [], 0) else AssembleRow(ix, AssembleAll(ix, rows[..|rows| - 1]), rows[|rows| - 1])
  }

  /** The assembly loop of the script, over the FNFTAX rows. */
  method Assemble(ix: Indexes, rows: seq<Row>) returns (entries: map<string, Entry>, order: seq<string>, skipped: nat)
    ensures Reference(entries, order, skipped) == AssembleAll(ix, rows)
  {
    entries := map[];
    order := [];
    skipped := 0;
    for i := 0 to |rows|
      invariant Reference(entries, order, skipped) == AssembleAll(ix, rows[..i])
    {
      assert rows[..i + 1][..i] == rows[..i];
      entries, order, skipped := AddRow(ix, entries, order, skipped, rows[i]);
    }
    assert rows[..|rows|] == rows;
  }

  /** The body of the assembly loop for one row: what the row brings, then where it goes. */
  method AddRow(ix: Indexes, entries: map<string, Entry>, order: seq<string>, skipped: nat, row: Row)
    returns (entries': map<string, Entry>, order': seq<string>, skipped': nat)
    ensures Reference(entries', order', skipped') == AssembleRow(ix, Reference(entries, order, skipped), row)
  {
    var c := RowContribution(ix, row);
    entries', order', skipped' := ApplyContribution(entries, order, skipped, c);
  }

  /** The first half of the loop body: the row's taxon, slug, names, chemicals and uses, or a skip. */
  method RowContribution(ix: Indexes, row: Row) returns (c: Contribution)
    ensures c == ContributionOf(ix, row)
  {
    var fnfnum := Num(row);
    var taxon := Field(row, "TAXON");
    var family := Field(row, "FAMILY");
    if taxon == "" {
      return Skip;
    }
    var base := BaseGenusSpecies(taxon);
    var slug := Slugify(base);
    var commonNames := if fnfnum in ix.commonNames then ix.commonNames[fnfnum] else [];
    var constituentsRaw := if fnfnum in ix.chems then ix.chems[fnfnum] else map[];
    var ethnoUses := Lookup(ix.ethno, taxon, base);
    var hasConstituents := |constituentsRaw| > 0;
    var hasEthno := |ethnoUses| > 0;
    var hasCommonNames := |commonNames| > 0;
    assert commonNames == NamesOf(ix, row) && constituentsRaw == RawOf(ix, row) && ethnoUses == UsesOf(ix, row);
    if !hasConstituents && !hasEthno && !hasCommonNames {
      return Skip;
    }
    c := Add(slug, taxon, family, commonNames, SortedParts(constituentsRaw), ethnoUses);
  }

  /** The second half of the loop body: a skip is counted, an entry is merged or created. */
  method ApplyContribution(entries: map<string, Entry>, order: seq<string>, skipped: nat, c: Contribution)
    returns (entries': map<string, Entry>, order': seq<string>, skipped': nat)
    ensures Reference(entries', order', skipped') == Apply(Reference(entries, order, skipped), c)
  {
    entries', order', skipped' := entries, order, skipped;
    if c.Skip? {
      skipped' := skipped + 1;
      return;
    }
    var slug := c.slug;
    if slug in entries {
      var existing := Merged(entries[slug], c.names, c.parts, c.uses);
      entries' := entries[slug := existing];
    } else {
      var entry := Created(c.taxon, c.family, c.names, c.parts, c.uses);
      entries' := entries[slug := entry];
      order' := order + [slug];
    }
  }

  /** The update of an existing entry, one optional field after the other. */
  method Merged(e: Entry, commonNames: seq<string>, constituents: map<string, seq<string>>, ethnoUses: seq<string>)
    returns (existing: Entry)
    ensures existing == MergeEntry(e, commonNames, constituents, ethnoUses)
  {
    existing := e;
    if |commonNames| > 0 {
      existing := existing.(commonNames := Some(Dedup(OrEmpty(existing.commonNames) + commonNames)));
    }
    if |constituents| > 0 {
      existing := existing.(constituents := Some(MergeParts(OrEmptyMap(existing.constituents), constituents)));
    }
    if |ethnoUses| > 0 {
      existing := existing.(ethnobotany := Some(SortedSet(OrEmpty(existing.ethnobotany) + ethnoUses)));
    }
  }

  /** The entry of a slug seen for the first time; absent fields are left unset. */
  method Created(taxon: string, family: string, commonNames: seq<string>, constituents: map<string, seq<string>>, ethnoUses: seq<string>)
    returns (entry: Entry)
    ensures entry == NewEntry(taxon, family, commonNames, constituents, ethnoUses)
  {
    entry := Entry(taxon, None, None, None, None);
    if family != "" {
      entry := entry.(family := Some(family));
    }
    if |commonNames| > 0 {
      entry := entry.(commonNames := Some(commonNames));
    }
    if |constituents| > 0 {
      entry := entry.(constituents := Some(constituents));
    }
    if |ethnoUses| > 0 {
      entry := entry.(ethnobotany := Some(SortedSet(ethnoUses)));
    }
  }

  /** The lookup as the script writes it: the exact taxon, and on a miss or an empty set the base form. */
  method Lookup(ethno: EthnoIndex, taxon: string, base: string) returns (uses: seq<string>)
    ensures uses == EthnoUses(ethno, taxon, base)
  {
    var taxonLower := Lower(taxon);
    uses := [];
    if taxonLower in ethno.byTaxon {
      uses := ethno.byTaxon[taxonLower];
    }
    if |uses| == 0 {
      if base in ethno.byBase {
        uses := ethno.byBase[base];
      } else if base in ethno.byTaxon {
        uses := ethno.byTaxon[base];
      } else {
        uses := [];
      }
    }
  }

  // ---- The whole build ----

  /** The reference data the five tables give. */
  function ReferenceOf(partsRows: seq<Row>, taxRows: seq<Row>, cnRows: seq<Row>, farmRows: seq<Row>, ethnoRows: seq<Row>): Reference {
    var ix := Indexes(CommonNamesOf(cnRows), ChemsOf(PartsOf(partsRows), farmRows), EthnoOf(ethnoRows));
    AssembleAll(ix, taxRows)
  }

  /** The main body of the builder, with the parsed tables as parameters instead of files. */
  method BuildReference(partsRows: seq<Row>, taxRows: seq<Row>, cnRows: seq<Row>, farmRows: seq<Row>, ethnoRows: seq<Row>)
    returns (entries: map<string, Entry>, order: seq<string>, skipped: nat)
    ensures Reference(entries, order, skipped) == ReferenceOf(partsRows, taxRows, cnRows, farmRows, ethnoRows)
  {
    var partsMap := BuildPartsMap(partsRows);
    var commonNamesByNum := IndexCommonNames(cnRows);
    var chemsByNum := IndexChemicals(partsMap, farmRows);
    var ethnoByTaxon, ethnoByBase := IndexEthnobotany(ethnoRows);
    var ix := Indexes(commonNamesByNum, chemsByNum, EthnoIndex(ethnoByTaxon, ethnoByBase));
    entries, order, skipped := Assemble(ix, taxRows);
  }

  // ---- What the assembly guarantees ----

  /**
    * The shape of a written entry: a trimmed latin name, a family only when non-empty, at
    * least one of names, constituents and uses, and each of those non-empty and sorted
    * where the script sorts it.
    */
  predicate Useful(e: Entry) {
    && e.latinName != "" && IsTrimmed(e.latinName)
    && (e.family.Some? ==> e.family.value != "")
    && (e.commonNames.Some? || e.constituents.Some? || e.ethnobotany.Some?)
    && (e.commonNames.Some? ==> |e.commonNames.value| > 0)
    && (e.constituents.Some? ==> |e.constituents.value| > 0 && SortedGroups(e.constituents.value))
    && (e.ethnobotany.Some? ==> |e.ethnobotany.value| > 0 && StrictlySorted(e.ethnobotany.value))
  }

  /** Keys and insertion order agree, no key is listed twice, every key is a slug and every entry useful. */
  ghost predicate WellFormed(st: Reference) {
    && (forall s :: s in st.entries <==> s in st.order)
    && NoDuplicates(st.order)
    && (forall s :: s in st.entries ==> IsSlug(s) && Useful(st.entries[s]))
  }

  /** What every contribution satisfies. */
  predicate ValidContribution(c: Contribution) {
    c.Add? ==>
      && IsSlug(c.slug) && c.taxon != "" && IsTrimmed(c.taxon) && IsTrimmed(c.family)
      && (|c.names| > 0 || |c.parts| > 0 || |c.uses| > 0)
      && SortedGroups(c.parts)
  }

  lemma ContributionOfValid(ix: Indexes, row: Row)
    ensures ValidContribution(ContributionOf(ix, row))
  {
    if Contributes(ix, row) {
      var taxon := Field(row, "TAXON");
      SlugifyIsSlug(BaseKey(taxon));
      assert |SortedParts(RawOf(ix, row))| == |RawOf(ix, row)|;
    }
  }

  lemma DedupNonEmpty(all: seq<string>)
    requires |all| > 0
    ensures |Dedup(all)| > 0
  {
    assert all[0] in Dedup(all);
  }

  lemma SortedSetNonEmpty(all: seq<string>)
    requires |all| > 0
    ensures |SortedSet(all)| > 0
  {
    assert all[0] in SortedSet(all);
  }

  /** Merging a non-empty sorted part map into a sorted one gives a non-empty sorted part map. */
  lemma MergePartsUseful(existing: map<string, seq<string>>, add: map<string, seq<string>>)
    requires SortedGroups(existing) && SortedGroups(add) && |add| > 0
    ensures |MergeParts(existing, add)| > 0 && SortedGroups(MergeParts(existing, add))
  {
    var r := MergeParts(existing, add);
    var p :| p in add;
    assert p in r;
  }

  lemma MergeEntryUseful(e: Entry, names: seq<string>, parts: map<string, seq<string>>, uses: seq<string>)
    requires Useful(e) && SortedGroups(parts)
    ensures Useful(MergeEntry(e, names, parts, uses))
  {
    if |names| > 0 {
      DedupNonEmpty(OrEmpty(e.commonNames) + names);
    }
    if |parts| > 0 {
      MergePartsUseful(OrEmptyMap(e.constituents), parts);
    }
    if |uses| > 0 {
      SortedSetNonEmpty(OrEmpty(e.ethnobotany) + uses);
    }
  }

  lemma NewEntryUseful(c: Contribution)
    requires c.Add? && ValidContribution(c)
    ensures Useful(NewEntry(c.taxon, c.family, c.names, c.parts, c.uses))
  {
    if |c.uses| > 0 {
      assert c.uses[0] in SortedSet(c.uses);
    }
  }

  lemma ApplyWellFormed(st: Reference, c: Contribution)
    requires WellFormed(st) && ValidContribution(c)
    ensures WellFormed(Apply(st, c))
    ensures |Apply(st, c).order| + Apply(st, c).skipped <= |st.order| + st.skipped + 1
  {
    if c.Add? {
      if c.slug in st.entries {
        MergeEntryUseful(st.entries[c.slug], c.names, c.parts, c.uses);
      } else {
        NewEntryUseful(c);
      }
    }
  }

  /** Whatever the tables hold, the output is well formed, and every row was skipped or went into one entry. */
  lemma {:induction false} AssembleAllWellFormed(ix: Indexes, rows: seq<Row>)
    ensures WellFormed(AssembleAll(ix, rows))
    ensures |AssembleAll(ix, rows).order| + AssembleAll(ix, rows).skipped <= |rows|
    decreases |rows|
  {
    if rows != [] {
      var pre := rows[..|rows| - 1];
      AssembleAllWellFormed(ix, pre);
      ContributionOfValid(ix, rows[|rows| - 1]);
      ApplyWellFormed(AssembleAll(ix, pre), ContributionOf(ix, rows[|rows| - 1]));
    }
  }

  /** The slugs of the contributing rows, in row order, repeats included. */
  function Slugs(ix: Indexes, rows: seq<Row>): seq<string>
    decreases |rows|
  {
    if rows == [] then []
    else
      var c := ContributionOf(ix, rows[|rows| - 1]);
      Slugs(ix, rows[..|rows| - 1]) + (if c.Add? then [c.slug] else [])
  }

  lemma DedupSnoc<T>(xs: seq<T>, x: T)
    ensures Dedup(xs + [x]) == if x in Dedup(xs) then Dedup(xs) else Dedup(xs) + [x]
  {
    assert (xs + [x])[..|xs|] == xs;
  }

  lemma ApplyOrder(st: Reference, c: Contribution, slugs: seq<string>)
    requires forall s :: s in st.entries <==> s in st.order
    requires st.order == Dedup(slugs)
    ensures Apply(st, c).order == Dedup(slugs + (if c.Add? then [c.slug] else []))
  {
    if c.Add? {
      DedupSnoc(slugs, c.slug);
    } else {
      assert slugs + [] == slugs;
    }
  }

  /** The output keys come in the order in which their first contributing row appears. */
  lemma {:induction false} OrderIsFirstAppearance(ix: Indexes, rows: seq<Row>)
    ensures AssembleAll(ix, rows).order == Dedup(Slugs(ix, rows))
    decreases |rows|
  {
    if rows != [] {
      var pre := rows[..|rows| - 1];
      OrderIsFirstAppearance(ix, pre);
      AssembleAllWellFormed(ix, pre);
      ApplyOrder(AssembleAll(ix, pre), ContributionOf(ix, rows[|rows| - 1]), Slugs(ix, pre));
    }
  }

  /** Every FNFTAX row is either counted as skipped or contributes exactly one slug. */
  lemma {:induction false} SkippedCount(ix: Indexes, rows: seq<Row>)
    ensures AssembleAll(ix, rows).skipped + |Slugs(ix, rows)| == |rows|
    decreases |rows|
  {
    if rows != [] {
      SkippedCount(ix, rows[..|rows| - 1]);
    }
  }

  /** The contributions of the rows, one per row. */
  function Contributions(ix: Indexes, rows: seq<Row>): (cs: seq<Contribution>)
    ensures |cs| == |rows| && forall i :: 0 <= i < |rows| ==> cs[i] == ContributionOf(ix, rows[i])
  {
    seq(|rows|, i requires 0 <= i < |rows| => ContributionOf(ix, rows[i]))
  }

  function ApplyAll(cs: seq<Contribution>): Reference
    decreases |cs|
  {
    if cs == [] then Reference(map[], [], 0) else Apply(ApplyAll(cs[..|cs| - 1]), cs[|cs| - 1])
  }

  lemma {:induction false} AssembleAllApplies(ix: Indexes, rows: seq<Row>)
    ensures AssembleAll(ix, rows) == ApplyAll(Contributions(ix, rows))
    decreases |rows|
  {
    if rows != [] {
      var pre := rows[..|rows| - 1];
      AssembleAllApplies(ix, pre);
      assert Contributions(ix, rows)[..|rows| - 1] == Contributions(ix, pre);
    }
  }

  /** Contribution `c` creates or extends the entry of slug `s`. */
  predicate Targets(c: Contribution, s: string) {
    c.Add? && c.slug == s
  }

  /** The entry carries the latin name and family of contribution `c`. */
  predicate FromContribution(e: Entry, c: Contribution)
    requires c.Add?
  {
    e.latinName == c.taxon && e.family == (if c.family != "" then Some(c.family) else None)
  }

  lemma ApplyEntry(st: Reference, c: Contribution, s: string)
    ensures s in Apply(st, c).entries <==> s in st.entries || Targets(c, s)
    ensures s in st.entries ==> Apply(st, c).entries[s].latinName == st.entries[s].latinName
    ensures s in st.entries ==> Apply(st, c).entries[s].family == st.entries[s].family
    ensures s !in st.entries && Targets(c, s) ==> FromContribution(Apply(st, c).entries[s], c)
  {
  }

  lemma {:induction false} ApplyAllAny(cs: seq<Contribution>, s: string, f: Contribution -> bool)
    requires forall c :: f(c) == Targets(c, s)
    ensures s in ApplyAll(cs).entries <==> Any(cs, f)
    ensures s in ApplyAll(cs).entries ==>
      exists i :: 0 <= i < |cs| && Targets(cs[i], s) && !Any(cs[..i], f) && FromContribution(ApplyAll(cs).entries[s], cs[i])
    decreases |cs|
  {
    if cs != [] {
      var pre := cs[..|cs| - 1];
      var c := cs[|cs| - 1];
      var st := ApplyAll(pre);
      ApplyAllAny(pre, s, f);
      ApplyEntry(st, c, s);
      var e := Apply(st, c).entries;
      if s in st.entries {
        var i :| 0 <= i < |pre| && Targets(pre[i], s) && !Any(pre[..i], f) && FromContribution(st.entries[s], pre[i]);
        assert cs[i] == pre[i] && cs[..i] == pre[..i];
        assert FromContribution(e[s], cs[i]);
      } else if f(c) {
        assert cs[..|pre|] == pre;
      }
    }
  }

  /** Row `row` creates or extends the entry of slug `s`. */
  predicate MakesSlug(ix: Indexes, row: Row, s: string) {
    Targets(ContributionOf(ix, row), s)
  }

  /** The entry carries the latin name and family of `row`. */
  predicate FromRow(e: Entry, row: Row) {
    e.latinName == Field(row, "TAXON") && e.family == (if Field(row, "FAMILY") != "" then Some(Field(row, "FAMILY")) else None)
  }

  lemma ContributionFields(ix: Indexes, row: Row, e: Entry)
    requires ContributionOf(ix, row).Add? && FromContribution(e, ContributionOf(ix, row))
    ensures FromRow(e, row)
  {
  }

  /**
    * A slug has an entry exactly if some row contributes to it, and the entry keeps the latin
    * name and family of the first such row: later rows with the same base form only add.
    */
  lemma FirstRowWins(ix: Indexes, rows: seq<Row>, s: string)
    ensures s in AssembleAll(ix, rows).entries <==> exists i :: 0 <= i < |rows| && MakesSlug(ix, rows[i], s)
    ensures s in AssembleAll(ix, rows).entries ==>
      exists i :: 0 <= i < |rows| && MakesSlug(ix, rows[i], s) && FromRow(AssembleAll(ix, rows).entries[s], rows[i]) &&
        forall j :: 0 <= j < i ==> !MakesSlug(ix, rows[j], s)
  {
    var cs := Contributions(ix, rows);
    var f := (c: Contribution) => Targets(c, s);
    AssembleAllApplies(ix, rows);
    ApplyAllAny(cs, s, f);
    AnyExists(cs, f);
    var r := ApplyAll(cs);
    if s in r.entries {
      var i :| 0 <= i < |cs| && Targets(cs[i], s) && !Any(cs[..i], f) && FromContribution(r.entries[s], cs[i]);
      NoneInPrefix(cs, f, i);
      forall j | 0 <= j < i ensures !MakesSlug(ix, rows[j], s) {
        assert !f(cs[j]);
      }
      ContributionFields(ix, rows[i], r.entries[s]);
      assert MakesSlug(ix, rows[i], s) && FromRow(AssembleAll(ix, rows).entries[s], rows[i]);
    } else {
      forall i | 0 <= i < |rows| ensures !MakesSlug(ix, rows[i], s) {
        assert f(cs[i]) == MakesSlug(ix, rows[i], s);
      }
    }
  }

  /**
    * A later row with the same slug keeps the name and family, appends unseen common names
    * after the known ones, and makes constituents and uses the sorted unions; a field the row
    * has nothing for is left as it was.
    */
  lemma MergeEntryFields(e: Entry, names: seq<string>, parts: map<string, seq<string>>, uses: seq<string>)
    ensures MergeEntry(e, names, parts, uses).latinName == e.latinName
    ensures MergeEntry(e, names, parts, uses).family == e.family
    ensures |names| == 0 ==> MergeEntry(e, names, parts, uses).commonNames == e.commonNames
    ensures |names| > 0 ==> MergeEntry(e, names, parts, uses).commonNames.Some?
    ensures |names| > 0 ==>
      var r := MergeEntry(e, names, parts, uses).commonNames.value;
      var known := Dedup(OrEmpty(e.commonNames));
      && NoDuplicates(r)
      && (forall n :: n in r <==> n in OrEmpty(e.commonNames) || n in names)
      && |known| <= |r| && r[..|known|] == known
    ensures |parts| == 0 ==> MergeEntry(e, names, parts, uses).constituents == e.constituents
    ensures |parts| > 0 ==> MergeEntry(e, names, parts, uses).constituents.Some?
    ensures |parts| > 0 ==> forall p, c ::
      Has(MergeEntry(e, names, parts, uses).constituents.value, p, c) <==> Has(OrEmptyMap(e.constituents), p, c) || Has(parts, p, c)
    ensures |uses| == 0 ==> MergeEntry(e, names, parts, uses).ethnobotany == e.ethnobotany
    ensures |uses| > 0 ==> MergeEntry(e, names, parts, uses).ethnobotany.Some?
    ensures |uses| > 0 ==>
      var r := MergeEntry(e, names, parts, uses).ethnobotany.value;
      StrictlySorted(r) && forall a :: a in r <==> a in OrEmpty(e.ethnobotany) || a in uses
  {
    var all := OrEmpty(e.commonNames) + names;
    forall n ensures n in Dedup(all) <==> n in OrEmpty(e.commonNames) || n in names {
      if n in all {
        var k :| 0 <= k < |all| && all[k] == n;
      }
    }
    DedupPrefix(OrEmpty(e.commonNames), names);
  }

  // ---- What all the rows of a slug add up to ----

  /** Contribution `c` goes to slug `s` and brings common name `n`. */
  predicate CarriesName(c: Contribution, s: string, n: string) {
    Targets(c, s) && n in c.names
  }

  predicate CarriesNames(c: Contribution, s: string) {
    Targets(c, s) && |c.names| > 0
  }

  /** Contribution `c` goes to slug `s` and brings activity `a`. */
  predicate CarriesUse(c: Contribution, s: string, a: string) {
    Targets(c, s) && a in c.uses
  }

  predicate CarriesUses(c: Contribution, s: string) {
    Targets(c, s) && |c.uses| > 0
  }

  /** Contribution `c` goes to slug `s` and brings chemicals for part `p`. */
  predicate CarriesPart(c: Contribution, s: string, p: string) {
    Targets(c, s) && p in c.parts
  }

  predicate CarriesParts(c: Contribution, s: string) {
    Targets(c, s) && |c.parts| > 0
  }

  /** Contribution `c` goes to slug `s` and brings chemical `x` for part `p`. */
  predicate CarriesChem(c: Contribution, s: string, p: string, x: string) {
    Targets(c, s) && Has(c.parts, p, x)
  }

  /** The same, said of the FNFTAX row whose contribution it is. */
  predicate GivesName(ix: Indexes, row: Row, s: string, n: string) {
    CarriesName(ContributionOf(ix, row), s, n)
  }

  predicate GivesUse(ix: Indexes, row: Row, s: string, a: string) {
    CarriesUse(ContributionOf(ix, row), s, a)
  }

  predicate GivesPart(ix: Indexes, row: Row, s: string, p: string) {
    CarriesPart(ContributionOf(ix, row), s, p)
  }

  predicate GivesChem(ix: Indexes, row: Row, s: string, p: string, x: string) {
    CarriesChem(ContributionOf(ix, row), s, p, x)
  }

  /** A row brings a name, use or chemical exactly if it goes to `s` and its own indexes hold it. */
  lemma GivesFromIndexes(ix: Indexes, row: Row, s: string, n: string, a: string, p: string, x: string)
    ensures GivesName(ix, row, s, n) <==> MakesSlug(ix, row, s) && n in NamesOf(ix, row)
    ensures GivesUse(ix, row, s, a) <==> MakesSlug(ix, row, s) && a in UsesOf(ix, row)
    ensures GivesPart(ix, row, s, p) <==> MakesSlug(ix, row, s) && p in RawOf(ix, row)
    ensures GivesChem(ix, row, s, p, x) <==> MakesSlug(ix, row, s) && Has(RawOf(ix, row), p, x)
  {
  }

  lemma DedupHas<T>(xs: seq<T>, y: T)
    ensures y in Dedup(xs) <==> y in xs
  {
    if y in xs {
      var k :| 0 <= k < |xs| && xs[k] == y;
    }
  }

  /** One step adds a contribution's names to the entry of its slug, and leaves other entries alone. */
  lemma NamesStep(st: Reference, c: Contribution, s: string, n: string)
    requires s in Apply(st, c).entries
    ensures var e := Apply(st, c).entries[s];
      && (e.commonNames.Some? <==> (s in st.entries && st.entries[s].commonNames.Some?) || CarriesNames(c, s))
      && (n in OrEmpty(e.commonNames) <==> (s in st.entries && n in OrEmpty(st.entries[s].commonNames)) || CarriesName(c, s, n))
  {
    if Targets(c, s) && s in st.entries && |c.names| > 0 {
      DedupHas(OrEmpty(st.entries[s].commonNames) + c.names, n);
    }
  }

  lemma UsesStep(st: Reference, c: Contribution, s: string, a: string)
    requires s in Apply(st, c).entries
    ensures var e := Apply(st, c).entries[s];
      && (e.ethnobotany.Some? <==> (s in st.entries && st.entries[s].ethnobotany.Some?) || CarriesUses(c, s))
      && (a in OrEmpty(e.ethnobotany) <==> (s in st.entries && a in OrEmpty(st.entries[s].ethnobotany)) || CarriesUse(c, s, a))
  {
  }

  lemma PartsStep(st: Reference, c: Contribution, s: string, p: string, x: string)
    requires s in Apply(st, c).entries
    ensures var e := Apply(st, c).entries[s];
      && (e.constituents.Some? <==> (s in st.entries && st.entries[s].constituents.Some?) || CarriesParts(c, s))
      && (p in OrEmptyMap(e.constituents) <==> (s in st.entries && p in OrEmptyMap(st.entries[s].constituents)) || CarriesPart(c, s, p))
      && (Has(OrEmptyMap(e.constituents), p, x) <==> (s in st.entries && Has(OrEmptyMap(st.entries[s].constituents), p, x)) || CarriesChem(c, s, p, x))
  {
  }

  lemma {:induction false} ApplyAllKeys(cs: seq<Contribution>, s: string)
    ensures s in ApplyAll(cs).entries <==> exists c :: c in cs && Targets(c, s)
    decreases |cs|
  {
    if cs != [] {
      var pre, last := cs[..|cs| - 1], cs[|cs| - 1];
      assert cs == pre + [last];
      ApplyAllKeys(pre, s);
      ApplyEntry(ApplyAll(pre), last, s);
    }
  }

  lemma {:induction false} ApplyAllNames(cs: seq<Contribution>, s: string, n: string)
    requires s in ApplyAll(cs).entries
    ensures var e := ApplyAll(cs).entries[s];
      && (e.commonNames.Some? <==> exists c :: c in cs && CarriesNames(c, s))
      && (n in OrEmpty(e.commonNames) <==> exists c :: c in cs && CarriesName(c, s, n))
    decreases |cs|
  {
    var pre, last := cs[..|cs| - 1], cs[|cs| - 1];
    assert cs == pre + [last];
    var st := ApplyAll(pre);
    NamesStep(st, last, s, n);
    if s in st.entries {
      ApplyAllNames(pre, s, n);
    } else {
      ApplyAllKeys(pre, s);
    }
  }

  lemma {:induction false} ApplyAllUses(cs: seq<Contribution>, s: string, a: string)
    requires s in ApplyAll(cs).entries
    ensures var e := ApplyAll(cs).entries[s];
      && (e.ethnobotany.Some? <==> exists c :: c in cs && CarriesUses(c, s))
      && (a in OrEmpty(e.ethnobotany) <==> exists c :: c in cs && CarriesUse(c, s, a))
    decreases |cs|
  {
    var pre, last := cs[..|cs| - 1], cs[|cs| - 1];
    assert cs == pre + [last];
    var st := ApplyAll(pre);
    UsesStep(st, last, s, a);
    if s in st.entries {
      ApplyAllUses(pre, s, a);
    } else {
      ApplyAllKeys(pre, s);
    }
  }

  lemma {:induction false} ApplyAllParts(cs: seq<Contribution>, s: string, p: string, x: string)
    requires s in ApplyAll(cs).entries
    ensures var e := ApplyAll(cs).entries[s];
      && (e.constituents.Some? <==> exists c :: c in cs && CarriesParts(c, s))
      && (p in OrEmptyMap(e.constituents) <==> exists c :: c in cs && CarriesPart(c, s, p))
      && (Has(OrEmptyMap(e.constituents), p, x) <==> exists c :: c in cs && CarriesChem(c, s, p, x))
    decreases |cs|
  {
    var pre, last := cs[..|cs| - 1], cs[|cs| - 1];
    assert cs == pre + [last];
    var st := ApplyAll(pre);
    PartsStep(st, last, s, p, x);
    if s in st.entries {
      ApplyAllParts(pre, s, p, x);
    } else {
      ApplyAllKeys(pre, s);
    }
  }

  /** Something holds of a contribution of the rows exactly if it holds of the contribution of one of the rows. */
  lemma ContributionsOfRows(ix: Indexes, rows: seq<Row>, f: Contribution -> bool)
    ensures (exists c :: c in Contributions(ix, rows) && f(c)) <==> (exists row :: row in rows && f(ContributionOf(ix, row)))
  {
    var cs := Contributions(ix, rows);
    if exists c :: c in cs && f(c) {
      var c :| c in cs && f(c);
      var i :| 0 <= i < |cs| && cs[i] == c;
      assert rows[i] in rows;
    }
    if exists row :: row in rows && f(ContributionOf(ix, row)) {
      var row :| row in rows && f(ContributionOf(ix, row));
      var i :| 0 <= i < |rows| && rows[i] == row;
      assert cs[i] in cs;
    }
  }

  /** A slug has an entry exactly if some row goes to it. */
  lemma AssembleKeys(ix: Indexes, rows: seq<Row>, s: string)
    ensures s in AssembleAll(ix, rows).entries <==> exists row :: row in rows && MakesSlug(ix, row, s)
  {
    AssembleAllApplies(ix, rows);
    ApplyAllKeys(Contributions(ix, rows), s);
    ContributionsOfRows(ix, rows, c => Targets(c, s));
  }

  lemma AssembleNames(ix: Indexes, rows: seq<Row>, s: string, n: string)
    requires s in AssembleAll(ix, rows).entries
    ensures var e := AssembleAll(ix, rows).entries[s];
      && (e.commonNames.Some? <==> exists row :: row in rows && CarriesNames(ContributionOf(ix, row), s))
      && (n in OrEmpty(e.commonNames) <==> exists row :: row in rows && GivesName(ix, row, s, n))
  {
    AssembleAllApplies(ix, rows);
    ApplyAllNames(Contributions(ix, rows), s, n);
    ContributionsOfRows(ix, rows, c => CarriesNames(c, s));
    ContributionsOfRows(ix, rows, c => CarriesName(c, s, n));
  }

  lemma AssembleUses(ix: Indexes, rows: seq<Row>, s: string, a: string)
    requires s in AssembleAll(ix, rows).entries
    ensures var e := AssembleAll(ix, rows).entries[s];
      && (e.ethnobotany.Some? <==> exists row :: row in rows && CarriesUses(ContributionOf(ix, row), s))
      && (a in OrEmpty(e.ethnobotany) <==> exists row :: row in rows && GivesUse(ix, row, s, a))
  {
    AssembleAllApplies(ix, rows);
    ApplyAllUses(Contributions(ix, rows), s, a);
    ContributionsOfRows(ix, rows, c => CarriesUses(c, s));
    ContributionsOfRows(ix, rows, c => CarriesUse(c, s, a));
  }

  lemma AssembleParts(ix: Indexes, rows: seq<Row>, s: string, p: string, x: string)
    requires s in AssembleAll(ix, rows).entries
    ensures var e := AssembleAll(ix, rows).entries[s];
      && (e.constituents.Some? <==> exists row :: row in rows && CarriesParts(ContributionOf(ix, row), s))
      && (p in OrEmptyMap(e.constituents) <==> exists row :: row in rows && GivesPart(ix, row, s, p))
      && (Has(OrEmptyMap(e.constituents), p, x) <==> exists row :: row in rows && GivesChem(ix, row, s, p, x))
  {
    AssembleAllApplies(ix, rows);
    ApplyAllParts(Contributions(ix, rows), s, p, x);
    ContributionsOfRows(ix, rows, c => CarriesParts(c, s));
    ContributionsOfRows(ix, rows, c => CarriesPart(c, s, p));
    ContributionsOfRows(ix, rows, c => CarriesChem(c, s, p, x));
  }

  /**
    * The entry of a slug collects everything its rows bring: a common name, an activity or a
    * chemical of a part is in the entry exactly if some row going to that slug brings it.
    */
  lemma UnionOfContributors(ix: Indexes, rows: seq<Row>, s: string, n: string, a: string, p: string, x: string)
    requires s in AssembleAll(ix, rows).entries
    ensures var e := AssembleAll(ix, rows).entries[s];
      && (n in OrEmpty(e.commonNames) <==> exists row :: row in rows && GivesName(ix, row, s, n))
      && (a in OrEmpty(e.ethnobotany) <==> exists row :: row in rows && GivesUse(ix, row, s, a))
      && (p in OrEmptyMap(e.constituents) <==> exists row :: row in rows && GivesPart(ix, row, s, p))
      && (Has(OrEmptyMap(e.constituents), p, x) <==> exists row :: row in rows && GivesChem(ix, row, s, p, x))
  {
    AssembleNames(ix, rows, s, n);
    AssembleUses(ix, rows, s, a);
    AssembleParts(ix, rows, s, p, x);
  }

  /** Two sorted sets with the same members are the same array. */
  lemma SameSortedOption(u: Option<seq<string>>, v: Option<seq<string>>)
    requires u.Some? == v.Some?
    requires u.Some? ==> StrictlySorted(u.value) && StrictlySorted(v.value)
    requires forall y :: y in OrEmpty(u) <==> y in OrEmpty(v)
    ensures u == v
  {
    if u.Some? {
      assert OrEmpty(u) == u.value && OrEmpty(v) == v.value;
      SortedUnique(u.value, v.value);
    }
  }

  lemma SameSortedGroups(g: map<string, seq<string>>, h: map<string, seq<string>>)
    requires SortedGroups(g) && SortedGroups(h)
    requires forall p :: p in g <==> p in h
    requires forall p, y :: Has(g, p, y) <==> Has(h, p, y)
    ensures g == h
  {
    forall p | p in g ensures g[p] == h[p] {
      forall y ensures y in g[p] <==> y in h[p] {
        assert Has(g, p, y) <==> Has(h, p, y);
      }
      SortedUnique(g[p], h[p]);
    }
  }

  /** Lists with the same rows have the same contributions. */
  lemma SameRowsSameContributions(ix: Indexes, rows: seq<Row>, rows': seq<Row>)
    requires forall row :: row in rows <==> row in rows'
    ensures forall c :: c in Contributions(ix, rows) <==> c in Contributions(ix, rows')
  {
    forall c ensures c in Contributions(ix, rows) <==> c in Contributions(ix, rows') {
      ContributionsOfRows(ix, rows, d => d == c);
      ContributionsOfRows(ix, rows', d => d == c);
    }
  }

  lemma SameContributionsNames(cs: seq<Contribution>, cs': seq<Contribution>, s: string)
    requires forall c :: c in cs <==> c in cs'
    requires s in ApplyAll(cs).entries && s in ApplyAll(cs').entries
    ensures var e, e' := ApplyAll(cs).entries[s], ApplyAll(cs').entries[s];
      && e.commonNames.Some? == e'.commonNames.Some?
      && forall n :: n in OrEmpty(e.commonNames) <==> n in OrEmpty(e'.commonNames)
  {
    var e, e' := ApplyAll(cs).entries[s], ApplyAll(cs').entries[s];
    forall n ensures n in OrEmpty(e.commonNames) <==> n in OrEmpty(e'.commonNames) {
      ApplyAllNames(cs, s, n);
      ApplyAllNames(cs', s, n);
    }
    ApplyAllNames(cs, s, "");
    ApplyAllNames(cs', s, "");
  }

  lemma SameContributionsUses(cs: seq<Contribution>, cs': seq<Contribution>, s: string)
    requires forall c :: c in cs <==> c in cs'
    requires s in ApplyAll(cs).entries && s in ApplyAll(cs').entries
    requires Useful(ApplyAll(cs).entries[s]) && Useful(ApplyAll(cs').entries[s])
    ensures ApplyAll(cs).entries[s].ethnobotany == ApplyAll(cs').entries[s].ethnobotany
  {
    var e, e' := ApplyAll(cs).entries[s], ApplyAll(cs').entries[s];
    forall a ensures a in OrEmpty(e.ethnobotany) <==> a in OrEmpty(e'.ethnobotany) {
      ApplyAllUses(cs, s, a);
      ApplyAllUses(cs', s, a);
    }
    ApplyAllUses(cs, s, "");
    ApplyAllUses(cs', s, "");
    SameSortedOption(e.ethnobotany, e'.ethnobotany);
  }

  lemma SameContributionsParts(cs: seq<Contribution>, cs': seq<Contribution>, s: string)
    requires forall c :: c in cs <==> c in cs'
    requires s in ApplyAll(cs).entries && s in ApplyAll(cs').entries
    requires Useful(ApplyAll(cs).entries[s]) && Useful(ApplyAll(cs').entries[s])
    ensures ApplyAll(cs).entries[s].constituents == ApplyAll(cs').entries[s].constituents
  {
    var e, e' := ApplyAll(cs).entries[s], ApplyAll(cs').entries[s];
    var g, h := OrEmptyMap(e.constituents), OrEmptyMap(e'.constituents);
    forall p ensures p in g <==> p in h {
      ApplyAllParts(cs, s, p, "");
      ApplyAllParts(cs', s, p, "");
    }
    forall p, y ensures Has(g, p, y) <==> Has(h, p, y) {
      ApplyAllParts(cs, s, p, y);
      ApplyAllParts(cs', s, p, y);
    }
    ApplyAllParts(cs, s, "", "");
    ApplyAllParts(cs', s, "", "");
    if e.constituents.Some? {
      SameSortedGroups(g, h);
    }
  }

  /**
    * The row order does not matter for what an entry collects: two lists with the same rows
    * give the same slugs, the same uses and constituents, and the same set of common names
    * (only the order of the names, and the latin name and family of the first row, follow the
    * row order).
    */
  lemma SameRowsSameUnions(ix: Indexes, rows: seq<Row>, rows': seq<Row>, s: string)
    requires forall row :: row in rows <==> row in rows'
    ensures s in AssembleAll(ix, rows).entries <==> s in AssembleAll(ix, rows').entries
    ensures s in AssembleAll(ix, rows).entries ==>
      var e, e' := AssembleAll(ix, rows).entries[s], AssembleAll(ix, rows').entries[s];
      && e.ethnobotany == e'.ethnobotany
      && e.constituents == e'.constituents
      && e.commonNames.Some? == e'.commonNames.Some?
      && (forall n :: n in OrEmpty(e.commonNames) <==> n in OrEmpty(e'.commonNames))
  {
    var cs, cs' := Contributions(ix, rows), Contributions(ix, rows');
    AssembleAllApplies(ix, rows);
    AssembleAllApplies(ix, rows');
    SameRowsSameContributions(ix, rows, rows');
    ApplyAllKeys(cs, s);
    ApplyAllKeys(cs', s);
    if s in ApplyAll(cs).entries {
      AssembleAllWellFormed(ix, rows);
      AssembleAllWellFormed(ix, rows');
      SameContributionsNames(cs, cs', s);
      SameContributionsUses(cs, cs', s);
      SameContributionsParts(cs, cs', s);
    }
  }

  /** Reading the taxonomy rows backwards gives the same slugs, uses, constituents and names. */
  lemma ReversedRowsSameUnions(ix: Indexes, rows: seq<Row>, s: string)
    ensures var rev := seq(|rows|, i requires 0 <= i < |rows| => rows[|rows| - 1 - i]);
      && (s in AssembleAll(ix, rows).entries <==> s in AssembleAll(ix, rev).entries)
      && (s in AssembleAll(ix, rows).entries ==>
        && AssembleAll(ix, rows).entries[s].ethnobotany == AssembleAll(ix, rev).entries[s].ethnobotany
        && AssembleAll(ix, rows).entries[s].constituents == AssembleAll(ix, rev).entries[s].constituents
        && forall n :: n in OrEmpty(AssembleAll(ix, rows).entries[s].commonNames) <==> n in OrEmpty(AssembleAll(ix, rev).entries[s].commonNames))
  {
    var rev := seq(|rows|, i requires 0 <= i < |rows| => rows[|rows| - 1 - i]);
    forall row ensures row in rows <==> row in rev {
      if row in rows {
        var i :| 0 <= i < |rows| && rows[i] == row;
        assert rev[|rows| - 1 - i] == row;
      }
      if row in rev {
        var i :| 0 <= i < |rev| && rev[i] == row;
      }
    }
    SameRowsSameUnions(ix, rows, rev, s);
  }

  /** A lower-cased taxon with activities wins the lookup. */
  lemma EthnoUsesExact(ethno: EthnoIndex, taxon: string, base: string, a: string)
    requires Has(ethno.byTaxon, Lower(taxon), a)
    ensures EthnoUses(ethno, taxon, base) == ethno.byTaxon[Lower(taxon)]
  {
  }

  /** When a usable ETHNOBOT row names the lower-cased taxon, its uses are exactly that taxon's activities. */
  lemma EthnoLookupExact(rows: seq<Row>, taxon: string, base: string, i: nat)
    requires i < |rows| && IsEthnoRow(rows[i]) && EthnoTaxon(rows[i]) == Lower(taxon)
    ensures forall a :: a in EthnoUses(EthnoOf(rows), taxon, base) <==> exists j :: 0 <= j < |rows| && TaxonRow(rows[j], Lower(taxon), a)
  {
    var t := Lower(taxon);
    var e := EthnoOf(rows);
    var act := Field(rows[i], "ACTIVITY");
    assert TaxonRow(rows[i], t, act);
    EthnoOfMembers(rows, t, act);
    EthnoUsesExact(e, taxon, base, act);
    forall a ensures a in e.byTaxon[t] <==> exists j :: 0 <= j < |rows| && TaxonRow(rows[j], t, a) {
      EthnoOfMembers(rows, t, a);
    }
  }

  /**
    * When no usable row names the taxon, the uses are those filed under the base form:
    * from the base-name index if it has the base form, otherwise from rows whose own taxon is it.
    */
  lemma EthnoLookupFallback(rows: seq<Row>, taxon: string, base: string)
    requires forall j :: 0 <= j < |rows| ==> !(IsEthnoRow(rows[j]) && EthnoTaxon(rows[j]) == Lower(taxon))
    ensures base in EthnoOf(rows).byBase ==>
      forall a :: a in EthnoUses(EthnoOf(rows), taxon, base) <==> exists j :: 0 <= j < |rows| && BaseRow(rows[j], base, a)
    ensures base !in EthnoOf(rows).byBase ==>
      forall a :: a in EthnoUses(EthnoOf(rows), taxon, base) <==> exists j :: 0 <= j < |rows| && TaxonRow(rows[j], base, a)
  {
    var e := EthnoOf(rows);
    var t := Lower(taxon);
    var uses := EthnoUses(e, taxon, base);
    if t in e.byTaxon && |e.byTaxon[t]| > 0 {
      EthnoOfMembers(rows, t, e.byTaxon[t][0]);
      assert false;
    }
    if base in e.byBase {
      assert uses == e.byBase[base];
      forall a ensures a in uses <==> exists j :: 0 <= j < |rows| && BaseRow(rows[j], base, a) {
        EthnoOfMembers(rows, base, a);
      }
    } else {
      assert uses == if base in e.byTaxon then e.byTaxon[base] else [];
      forall a ensures a in uses <==> exists j :: 0 <= j < |rows| && TaxonRow(rows[j], base, a) {
        EthnoOfMembers(rows, base, a);
      }
    }
  }
}
