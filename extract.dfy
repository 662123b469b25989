/**
  * The look-up tool for the reference data (scripts/extract-duke-entry.js): it finds one
  * plant by slug, by base-name slug, or by a common or latin name, and prints a compact
  * summary whose compound lists have nutritional noise removed and are capped per part.
  */
module Extract {
  import opened Text
  import opened Collections
  import opened Names
  import opened Assembler

  // ---- Noise filtering ----

  /** At most this many compounds are printed for one plant part. */
  const MaxCompoundsPerPart := 30

  /** Nutritional and structural names dropped when they match exactly. */
  const NoiseExact: set<string> := {
    "water", "ash", "fat", "fiber", "protein", "carbohydrate", "carbohydrates",
    "kilocalories", "calories", "eo", "starch", "gum", "mufa", "pufa", "sfa",
    "sugar", "sugars"
  }

  /** Names dropped when they start with one of these. */
  const NoisePrefixes: seq<string> := ["kilocalor", "total dietary fiber"]

  /** The common amino acids, dropped as well. */
  const AminoAcids: set<string> := {
    "alanine", "arginine", "aspartic acid", "cystine", "cysteine", "glutamic acid",
    "glycine", "histidine", "isoleucine", "leucine", "lysine", "methionine",
    "phenylalanine", "proline", "serine", "threonine", "tryptophan", "tyrosine", "valine"
  }

  /** A compound name that is nutritional noise, compared in lower case. */
  predicate IsNoise(name: string) {
    var lower := Lower(name);
    || lower in NoiseExact
    || lower in AminoAcids
    || exists k :: 0 <= k < |NoisePrefixes| && StartsWith(lower, NoisePrefixes[k])
  }

  predicate NotNoise(name: string) {
    !IsNoise(name)
  }

  /** `isNoise`: the two set tests, then the loop over the prefixes. */
  method IsNoiseName(name: string) returns (noise: bool)
    ensures noise == IsNoise(name)
  {
    var lower := Lower(name);
    if lower in NoiseExact {
      return true;
    }
    if lower in AminoAcids {
      return true;
    }
    for k := 0 to |NoisePrefixes|
      invariant forall m :: 0 <= m < k ==> !StartsWith(lower, NoisePrefixes[m])
    {
      if StartsWith(lower, NoisePrefixes[k]) {
        return true;
      }
    }
    return false;
  }

  /** Lower-casing the name first changes nothing: the test ignores case. */
  lemma IsNoiseIgnoresCase(name: string)
    ensures IsNoise(Lower(name)) == IsNoise(name)
  {
    LowerHasNoUpper(name);
    LowerOfLowerCase(Lower(name));
  }

  lemma NoiseExamples()
    ensures IsNoise("Water") && IsNoise("Kilocalories (kcal)") && IsNoise("LYSINE")
    ensures !IsNoise("Allicin")
  {
    assert Lower("Water") == "water";
    assert Lower("LYSINE") == "lysine";
    var k := Lower("Kilocalories (kcal)");
    assert k[..9] == "kilocalor";
    assert StartsWith(k, NoisePrefixes[0]);
    var a := Lower("Allicin");
    assert a == "allicin";
    assert !StartsWith(a, NoisePrefixes[0]) by {
      assert a[0] != 'k';
    }
    assert !StartsWith(a, NoisePrefixes[1]) by {
      assert |a| < |NoisePrefixes[1]|;
    }
  }

  /** `filterCompounds`: the names that are not noise, in order, at most `MaxCompoundsPerPart` of them. */
  function FilterCompounds(compounds: seq<string>): seq<string> {
    var kept := Keep(compounds, NotNoise);
    kept[..SliceEnd(|kept|, MaxCompoundsPerPart)]
  }

  /**
    * The filtered list is the first non-noise names in their original order: no more than the
    * cap, all of them when there are fewer, and none of them noise.
    */
  lemma FilterCompoundsShape(compounds: seq<string>)
    ensures |FilterCompounds(compounds)| <= MaxCompoundsPerPart
    ensures forall k :: 0 <= k < |FilterCompounds(compounds)| ==> !IsNoise(FilterCompounds(compounds)[k])
    ensures IsSubsequence(FilterCompounds(compounds), compounds)
    ensures forall c :: c in FilterCompounds(compounds) ==> c in compounds
    ensures |Keep(compounds, NotNoise)| <= MaxCompoundsPerPart ==> FilterCompounds(compounds) == Keep(compounds, NotNoise)
    ensures |Keep(compounds, NotNoise)| >= MaxCompoundsPerPart ==> |FilterCompounds(compounds)| == MaxCompoundsPerPart
  {
    var kept := Keep(compounds, NotNoise);
    var r := FilterCompounds(compounds);
    KeepIsSubsequence(compounds, NotNoise);
    SubsequencePrefix(kept, compounds, |r|);
    SubsequenceMembers(r, compounds);
  }

  /** Filtering a filtered list changes nothing. */
  lemma FilterCompoundsIdempotent(compounds: seq<string>)
    ensures FilterCompounds(FilterCompounds(compounds)) == FilterCompounds(compounds)
  {
    var r := FilterCompounds(compounds);
    FilterCompoundsShape(compounds);
    KeepAll(r, NotNoise);
  }

  // ---- Finding an entry ----

  /** The parsed reference file: its keys and entries in file order. */
  type Duke = seq<(string, Entry)>

  /** `duke[key]`: the entry stored under a key, if any. */
  function Get(duke: Duke, key: string): (r: Option<Entry>)
    ensures r.Some? <==> exists i :: 0 <= i < |duke| && duke[i].0 == key
    ensures r.Some? ==> (key, r.value) in duke
  {
    if duke == [] then None
    else if duke[0].0 == key then Some(duke[0].1)
    else Get(duke[1..], key)
  }

  datatype Found = Found(slug: string, entry: Entry)

  /** The entry has a common name, its latin name, or the base form of its latin name equal to the query. */
  predicate NameMatches(e: Entry, queryLower: string) {
    || (e.commonNames.Some? && exists k :: 0 <= k < |e.commonNames.value| && Lower(e.commonNames.value[k]) == queryLower)
    || (e.latinName != "" && (Lower(e.latinName) == queryLower || BaseKey(e.latinName) == queryLower))
  }

  /** The first entry, in file order, whose names match. */
  function ScanNames(duke: Duke, queryLower: string): Option<Found>
    decreases |duke|
  {
    if duke == [] then None
    else if NameMatches(duke[0].1, queryLower) then Some(Found(duke[0].0, duke[0].1))
    else ScanNames(duke[1..], queryLower)
  }

  /** The three look-ups in turn: the query's slug, its base-name slug, then the names. */
  function Find(duke: Duke, query: string): Option<Found> {
    var querySlug := Slugify(query);
    var baseSlug := Slugify(BaseKey(query));
    if Get(duke, querySlug).Some? then Some(Found(querySlug, Get(duke, querySlug).value))
    else if baseSlug != querySlug && Get(duke, baseSlug).Some? then Some(Found(baseSlug, Get(duke, baseSlug).value))
    else ScanNames(duke, Trim(Lower(query)))
  }

  /** `findEntry`. */
  method FindEntry(duke: Duke, query: string) returns (r: Option<Found>)
    ensures r == Find(duke, query)
  {
    var queryLower := Trim(Lower(query));
    var querySlug := Slugify(query);
    var direct := Get(duke, querySlug);
    if direct.Some? {
      return Some(Found(querySlug, direct.value));
    }
    var base := BaseGenusSpecies(query);
    var baseSlug := Slugify(base);
    var byBase := Get(duke, baseSlug);
    if baseSlug != querySlug && byBase.Some? {
      return Some(Found(baseSlug, byBase.value));
    }
    r := ScanEntries(duke, queryLower);
  }

  /** The third look-up: the loop over the entries in file order. */
  method ScanEntries(duke: Duke, queryLower: string) returns (r: Option<Found>)
    ensures r == ScanNames(duke, queryLower)
  {
    var i := 0;
    while i < |duke|
      invariant 0 <= i <= |duke|
      invariant ScanNames(duke[i..], queryLower) == ScanNames(duke, queryLower)
    {
      assert duke[i..][1..] == duke[i + 1..];
      var (slug, entry) := duke[i];
      var matches := MatchesName(entry, queryLower);
      if matches {
        return Some(Found(slug, entry));
      }
      i := i + 1;
    }
    return None;
  }

  /** The body of that loop for one entry: its common names first, then its latin name. */
  method MatchesName(entry: Entry, queryLower: string) returns (matches: bool)
    ensures matches == NameMatches(entry, queryLower)
  {
    if entry.commonNames.Some? {
      var names := entry.commonNames.value;
      for k := 0 to |names|
        invariant forall m :: 0 <= m < k ==> Lower(names[m]) != queryLower
      {
        if Lower(names[k]) == queryLower {
          return true;
        }
      }
    }
    if entry.latinName != "" {
      var entryLatin := Lower(entry.latinName);
      if entryLatin == queryLower {
        return true;
      }
      var latinBase := BaseGenusSpecies(entry.latinName);
      if latinBase == queryLower {
        return true;
      }
    }
    return false;
  }

  /** The name search returns the first matching entry, and finds nothing only when no entry matches. */
  lemma {:induction false} ScanNamesFirst(duke: Duke, queryLower: string)
    ensures ScanNames(duke, queryLower).None? <==> forall i :: 0 <= i < |duke| ==> !NameMatches(duke[i].1, queryLower)
    ensures ScanNames(duke, queryLower).Some? ==>
      exists i :: 0 <= i < |duke| && duke[i] == (ScanNames(duke, queryLower).value.slug, ScanNames(duke, queryLower).value.entry) &&
        NameMatches(duke[i].1, queryLower) && forall j :: 0 <= j < i ==> !NameMatches(duke[j].1, queryLower)
    decreases |duke|
  {
    if duke != [] && !NameMatches(duke[0].1, queryLower) {
      var tail := duke[1..];
      ScanNamesFirst(tail, queryLower);
      forall i | 1 <= i < |duke| ensures duke[i] == tail[i - 1] {
      }
      var r := ScanNames(tail, queryLower);
      if r.Some? {
        var i :| 0 <= i < |tail| && tail[i] == (r.value.slug, r.value.entry) &&
          NameMatches(tail[i].1, queryLower) && forall j :: 0 <= j < i ==> !NameMatches(tail[j].1, queryLower);
        assert duke[i + 1] == tail[i];
      }
    } else if duke != [] {
      assert duke[0] == (duke[0].0, duke[0].1);
    }
  }

  /** Whatever is found is an entry of the file, stored under the slug reported. */
  lemma FindIsEntry(duke: Duke, query: string)
    requires Find(duke, query).Some?
    ensures (Find(duke, query).value.slug, Find(duke, query).value.entry) in duke
  {
    var r := ScanNames(duke, Trim(Lower(query)));
    if r == Find(duke, query) {
      ScanNamesFirst(duke, Trim(Lower(query)));
    }
  }

  /**
    * Nothing is found exactly when the query's slug is not a key, its base-name slug is not a
    * key either (or is the same slug), and no entry's names match the trimmed lower-case query.
    */
  lemma FindNothing(duke: Duke, query: string)
    ensures Find(duke, query).None? <==>
      && Get(duke, Slugify(query)).None?
      && (Slugify(BaseKey(query)) == Slugify(query) || Get(duke, Slugify(BaseKey(query))).None?)
      && forall i :: 0 <= i < |duke| ==> !NameMatches(duke[i].1, Trim(Lower(query)))
  {
    ScanNamesFirst(duke, Trim(Lower(query)));
  }

  /** A slug that is a key finds its own entry: the key look-up comes before everything else. */
  lemma FindBySlug(duke: Duke, slug: string)
    requires IsSlug(slug) && Get(duke, slug).Some?
    ensures Find(duke, slug) == Some(Found(slug, Get(duke, slug).value))
  {
    SlugifyOfSlug(slug);
  }

  /** The reference file the builder writes: its keys in insertion order with their entries. */
  function Published(r: Reference): (duke: Duke)
    requires forall s :: s in r.order ==> s in r.entries
    ensures |duke| == |r.order|
    ensures forall i :: 0 <= i < |duke| ==> duke[i] == (r.order[i], r.entries[r.order[i]])
  {
    seq(|r.order|, i requires 0 <= i < |r.order| => (r.order[i], r.entries[r.order[i]]))
  }

  /** Every entry the builder writes is found again by its own key. */
  lemma PublishedEntriesAreFound(r: Reference, slug: string)
    requires WellFormed(r) && slug in r.entries
    ensures Find(Published(r), slug) == Some(Found(slug, r.entries[slug]))
  {
    var duke := Published(r);
    var i :| 0 <= i < |r.order| && r.order[i] == slug;
    assert duke[i].0 == slug;
    var g := Get(duke, slug);
    assert (slug, g.value) in duke;
    FindBySlug(duke, slug);
  }

  // ---- Output ----

  /** The printed summary: an absent or empty `family` is printed as `null`; absent compounds or ethnobotany are keys the tool does not print. */
  datatype Summary = Summary(
    slug: string,
    latinName: string,
    family: Option<string>,
    commonNames: seq<string>,
    compounds: Option<map<string, seq<string>>>,
    ethnobotany: Option<seq<string>>)

  /** The compounds of every part, filtered; a part left with none is dropped. */
  function FilterParts(constituents: map<string, seq<string>>): (r: map<string, seq<string>>)
    ensures r.Keys <= constituents.Keys
    ensures forall p :: p in r ==> r[p] == FilterCompounds(constituents[p]) && |r[p]| > 0
    ensures forall p :: p in constituents && p !in r ==> FilterCompounds(constituents[p]) == []
  {
    map p | p in constituents && |FilterCompounds(constituents[p])| > 0 :: FilterCompounds(constituents[p])
  }

  /** The compact output of one found entry. */
  function Summarize(f: Found): Summary {
    var e := f.entry;
    Summary(
      f.slug,
      e.latinName,
      if e.family.Some? && e.family.value != "" then e.family else None,
      OrEmpty(e.commonNames),
      if e.constituents.Some? then Some(FilterParts(e.constituents.value)) else None,
      e.ethnobotany)
  }

  /**
    * The summary keeps the slug, names and uses of the entry, and prints for each part only
    * compounds of that part, at most the cap of them, none of them noise.
    */
  lemma SummaryShape(f: Found)
    ensures Summarize(f).slug == f.slug && Summarize(f).latinName == f.entry.latinName
    ensures Summarize(f).commonNames == OrEmpty(f.entry.commonNames)
    ensures Summarize(f).compounds.Some? <==> f.entry.constituents.Some?
    ensures Summarize(f).compounds.Some? ==>
      forall p :: p in Summarize(f).compounds.value ==>
        && p in f.entry.constituents.value
        && 0 < |Summarize(f).compounds.value[p]| <= MaxCompoundsPerPart
        && IsSubsequence(Summarize(f).compounds.value[p], f.entry.constituents.value[p])
        && forall k :: 0 <= k < |Summarize(f).compounds.value[p]| ==> !IsNoise(Summarize(f).compounds.value[p][k])
  {
    if f.entry.constituents.Some? {
      var c := f.entry.constituents.value;
      forall p | p in c {
        FilterCompoundsShape(c[p]);
      }
    }
  }

  /** How a run of the tool ends. */
  datatype Outcome =
    | Usage
    | MissingReference
    | NotFound(query: string)
    | Printed(summary: Summary)

  /**
    * `main`, with the command-line arguments and the reference file (absent when the file
    * does not exist) as parameters.
    */
  function Run(args: seq<string>, reference: Option<Duke>): Outcome {
    var query := Trim(Join(args, " "));
    if query == "" then Usage
    else if reference.None? then MissingReference
    else
      match Find(reference.value, query)
      case None => NotFound(query)
      case Some(f) => Printed(Summarize(f))
  }

  /** The process exit code: 0 when a summary is printed, 1 otherwise. */
  function ExitCode(o: Outcome): int {
    if o.Printed? then 0 else 1
  }

  /** The tool succeeds exactly when the query is not blank, the file exists and the entry is found. */
  lemma RunSucceeds(args: seq<string>, reference: Option<Duke>)
    ensures ExitCode(Run(args, reference)) == 0 <==>
      Trim(Join(args, " ")) != "" && reference.Some? && Find(reference.value, Trim(Join(args, " "))).Some?
    ensures Run(args, reference).Printed? ==>
      (Run(args, reference).summary.slug, Find(reference.value, Trim(Join(args, " "))).value.entry) in reference.value
  {
    var query := Trim(Join(args, " "));
    if Run(args, reference).Printed? {
      FindIsEntry(reference.value, query);
    }
  }
}
