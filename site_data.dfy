/**
  * The site's data-access layer (src/lib/data.ts): look-up of a plant by slug, substring
  * search, the any-of/all-of plant filter, the "related items" ranking of plants and teas,
  * and two small string transforms. The plant and tea lists the module imports from JSON
  * are parameters here.
  */
module SiteData {
  import opened Text
  import opened Collections

  /** The fields of a plant that the data layer reads. */
  datatype Plant = Plant(
    id: string,
    commonName: string,
    otherNames: Option<seq<string>>,
    latinName: string,
    actions: seq<string>,
    bodySystems: seq<string>,
    conditions: seq<string>,
    preparations: seq<string>)

  datatype TeaOrigin = TeaOrigin(country: string)

  /** The fields of a tea that the data layer reads. */
  datatype Tea = Tea(id: string, name: string, otherNames: Option<seq<string>>, teaType: string, origin: TeaOrigin)

  /** The browse page's filter: a search string and four lists of wanted values. */
  datatype FilterState = FilterState(
    search: string,
    bodySystems: seq<string>,
    preparations: seq<string>,
    conditions: seq<string>,
    actions: seq<string>)

  // ---- slugify and formatLabel ----

  /** `replace(/\s+/g, "-")`: every maximal run of white space becomes one hyphen. */
  function DashRuns(s: string, inRun: bool): (r: string)
    ensures HasNoSpace(r)
    ensures HasNoUpper(s) ==> HasNoUpper(r)
    decreases |s|
  {
    if s == [] then []
    else if IsSpace(s[0]) then (if inRun then DashRuns(s[1..], true) else "-" + DashRuns(s[1..], true))
    else [s[0]] + DashRuns(s[1..], false)
  }

  /** The site's `slugify`: lower case, white-space runs to one hyphen, other punctuation kept. */
  function SiteSlugify(s: string): string {
    DashRuns(Lower(s), false)
  }

  lemma {:induction false} DashRunsNoSpace(s: string, inRun: bool)
    requires HasNoSpace(s)
    ensures DashRuns(s, inRun) == s
    decreases |s|
  {
    if s != [] {
      DashRunsNoSpace(s[1..], false);
    }
  }

  /** A site slug has no white space and no capitals, and is its own slug. */
  lemma SiteSlugifyIdempotent(s: string)
    ensures HasNoSpace(SiteSlugify(s)) && HasNoUpper(SiteSlugify(s))
    ensures SiteSlugify(SiteSlugify(s)) == SiteSlugify(s)
  {
    var r := SiteSlugify(s);
    LowerHasNoUpper(s);
    LowerOfLowerCase(r);
    DashRunsNoSpace(r, false);
  }

  /** `word.charAt(0).toUpperCase() + word.slice(1)`. */
  function Capitalise(w: string): string {
    if w == [] then [] else [ToUpper(w[0])] + w[1..]
  }

  function Caps(ws: seq<string>): (r: seq<string>)
    ensures |r| == |ws| && forall i :: 0 <= i < |ws| ==> r[i] == Capitalise(ws[i])
  {
    seq(|ws|, i requires 0 <= i < |ws| => Capitalise(ws[i]))
  }

  /** `formatLabel`: split on hyphens, capitalise each piece, join with spaces. */
  function FormatLabel(s: string): string {
    Join(Caps(Split(s, '-')), " ")
  }

  /**
    * The same label, character by character: a hyphen becomes a space, and a character
    * at the start or right after a hyphen is upper-cased; `atStart` says a piece starts here.
    */
  function LabelChars(s: string, atStart: bool): (r: string)
    ensures |r| == |s|
    decreases |s|
  {
    if s == [] then []
    else if s[0] == '-' then " " + LabelChars(s[1..], true)
    else [if atStart then ToUpper(s[0]) else s[0]] + LabelChars(s[1..], false)
  }

  /** The pieces with the first one capitalised only when `atStart`, the others always. */
  function CapsFrom(ws: seq<string>, atStart: bool): seq<string>
    requires |ws| >= 1
  {
    [if atStart then Capitalise(ws[0]) else ws[0]] + Caps(ws[1..])
  }

  lemma CapsIsCapsFrom(ws: seq<string>)
    requires |ws| >= 1
    ensures Caps(ws) == CapsFrom(ws, true)
  {
  }

  lemma JoinFront(a: string, b: string, t: seq<string>, sep: string)
    ensures Join([a + b] + t, sep) == a + Join([b] + t, sep)
  {
    if t != [] {
      assert ([a + b] + t)[1..] == t && ([b] + t)[1..] == t;
    }
  }

  lemma JoinEmptyFront(t: seq<string>, sep: string)
    requires |t| >= 1
    ensures Join([""] + t, sep) == sep + Join(t, sep)
  {
    assert ([""] + t)[1..] == t;
  }

  lemma {:induction false} LabelCharsSplit(s: string, atStart: bool)
    ensures Join(CapsFrom(Split(s, '-'), atStart), " ") == LabelChars(s, atStart)
    decreases |s|
  {
    if s != [] {
      var rest := Split(s[1..], '-');
      if s[0] == '-' {
        LabelCharsSplit(s[1..], true);
        CapsIsCapsFrom(rest);
        assert Split(s, '-') == [""] + rest;
        assert ([""] + rest)[1..] == rest;
        assert CapsFrom(Split(s, '-'), atStart) == [""] + Caps(rest);
        JoinEmptyFront(Caps(rest), " ");
      } else {
        LabelCharsSplit(s[1..], false);
        var c := if atStart then ToUpper(s[0]) else s[0];
        assert Split(s, '-') == [[s[0]] + rest[0]] + rest[1..];
        assert ([[s[0]] + rest[0]] + rest[1..])[1..] == rest[1..];
        assert CapsFrom(Split(s, '-'), atStart) == [[c] + rest[0]] + Caps(rest[1..]);
        JoinFront([c], rest[0], Caps(rest[1..]), " ");
      }
    }
  }

  /** A label has the length of its input, a space for every hyphen, and capitals at the piece starts. */
  lemma FormatLabelChars(s: string)
    ensures FormatLabel(s) == LabelChars(s, true)
    ensures |FormatLabel(s)| == |s|
    ensures '-' !in FormatLabel(s)
  {
    CapsIsCapsFrom(Split(s, '-'));
    LabelCharsSplit(s, true);
    NoDashInLabel(s, true);
  }

  lemma {:induction false} NoDashInLabel(s: string, atStart: bool)
    ensures '-' !in LabelChars(s, atStart)
    decreases |s|
  {
    if s != [] {
      NoDashInLabel(s[1..], s[0] == '-');
    }
  }

  lemma {:induction false} LabelCharsOfWord(w: string, atStart: bool)
    requires '-' !in w
    ensures LabelChars(w, atStart) == if atStart then Capitalise(w) else w
    decreases |w|
  {
    if w != [] {
      assert w[1..] == w[1..];
      assert '-' !in w[1..];
      LabelCharsOfWord(w[1..], false);
    }
  }

  lemma {:induction false} LabelCharsConcat(a: string, b: string, atStart: bool)
    requires '-' !in a
    ensures LabelChars(a + "-" + b, atStart) == LabelChars(a, atStart) + " " + LabelChars(b, true)
    decreases |a|
  {
    if a == [] {
      assert a + "-" + b == "-" + b;
      assert ("-" + b)[1..] == b;
    } else {
      assert (a + "-" + b)[1..] == a[1..] + "-" + b;
      assert '-' !in a[1..];
      LabelCharsConcat(a[1..], b, false);
    }
  }

  /** A label without hyphens is the word capitalised. */
  lemma FormatLabelOfWord(w: string)
    requires '-' !in w
    ensures FormatLabel(w) == Capitalise(w)
  {
    FormatLabelChars(w);
    LabelCharsOfWord(w, true);
  }

  /** The label of `a-b` is the capitalised `a`, a space, and the label of `b`. */
  lemma FormatLabelConcat(a: string, b: string)
    requires '-' !in a
    ensures FormatLabel(a + "-" + b) == Capitalise(a) + " " + FormatLabel(b)
  {
    FormatLabelChars(a + "-" + b);
    FormatLabelChars(b);
    LabelCharsConcat(a, b, true);
    LabelCharsOfWord(a, true);
  }

  // ---- Look-up and search ----

  /** The plant is addressed by the slug: by its id, or by the site slug of its common name. */
  predicate SlugMatches(slug: string, p: Plant) {
    p.id == slug || SiteSlugify(p.commonName) == Lower(slug)
  }

  function BySlug(slug: string): Plant -> bool {
    (p: Plant) => SlugMatches(slug, p)
  }

  /** `getPlantBySlug`. */
  function GetPlantBySlug(plants: seq<Plant>, slug: string): Option<Plant> {
    First(plants, BySlug(slug))
  }

  /** The plant returned is the first one the slug addresses; nothing is returned only when it addresses none. */
  lemma GetPlantBySlugFirst(plants: seq<Plant>, slug: string)
    ensures GetPlantBySlug(plants, slug).None? <==> forall k :: 0 <= k < |plants| ==> !SlugMatches(slug, plants[k])
    ensures GetPlantBySlug(plants, slug).Some? ==>
      exists i :: 0 <= i < |plants| && plants[i] == GetPlantBySlug(plants, slug).value &&
        SlugMatches(slug, plants[i]) && forall j :: 0 <= j < i ==> !SlugMatches(slug, plants[j])
  {
    FirstIsFirst(plants, BySlug(slug));
  }

  /** A look-up by a listed plant's id, or by the slug of its common name, returns some plant (the first one that slug addresses, which need not be that plant). */
  lemma EveryPlantHasASlug(plants: seq<Plant>, p: Plant)
    requires p in plants
    ensures GetPlantBySlug(plants, p.id).Some?
    ensures GetPlantBySlug(plants, SiteSlugify(p.commonName)).Some?
  {
    var s := SiteSlugify(p.commonName);
    SiteSlugifyIdempotent(p.commonName);
    LowerOfLowerCase(s);
    assert SlugMatches(p.id, p) && SlugMatches(s, p);
    FirstIsFirst(plants, BySlug(p.id));
    FirstIsFirst(plants, BySlug(s));
  }

  /** When a slug addresses exactly one listed plant, the look-up returns that plant. */
  lemma OnlyPlantForSlug(plants: seq<Plant>, p: Plant, slug: string)
    requires p in plants && SlugMatches(slug, p)
    requires forall k :: 0 <= k < |plants| && SlugMatches(slug, plants[k]) ==> plants[k] == p
    ensures GetPlantBySlug(plants, slug) == Some(p)
  {
    GetPlantBySlugFirst(plants, slug);
  }

  /** Some name of the list contains the lower-cased query, case-insensitively. */
  predicate AnyContains(names: seq<string>, q: string) {
    exists k :: 0 <= k < |names| && Contains(Lower(names[k]), q)
  }

  /** The query `q` (already lower case) occurs in one of the plant's names, actions or conditions. */
  predicate PlantMatches(p: Plant, q: string) {
    || Contains(Lower(p.commonName), q)
    || Contains(Lower(p.latinName), q)
    || (p.otherNames.Some? && AnyContains(p.otherNames.value, q))
    || AnyContains(p.actions, q)
    || AnyContains(p.conditions, q)
  }

  function MatchesQuery(q: string): Plant -> bool {
    (p: Plant) => PlantMatches(p, q)
  }

  /** `searchPlants`. */
  function SearchPlants(plants: seq<Plant>, query: string): seq<Plant> {
    Keep(plants, MatchesQuery(Lower(query)))
  }

  /** The search keeps, in their original order, exactly the plants the query occurs in. */
  lemma SearchPlantsMembers(plants: seq<Plant>, query: string)
    ensures forall p :: p in SearchPlants(plants, query) <==> p in plants && PlantMatches(p, Lower(query))
    ensures IsSubsequence(SearchPlants(plants, query), plants)
  {
    KeepMembers(plants, MatchesQuery(Lower(query)));
    KeepIsSubsequence(plants, MatchesQuery(Lower(query)));
  }

  /** An empty query matches every plant. */
  lemma SearchEmptyQuery(plants: seq<Plant>)
    ensures SearchPlants(plants, "") == plants
  {
    forall k | 0 <= k < |plants| ensures PlantMatches(plants[k], Lower("")) {
      assert StartsWith(Lower(plants[k].commonName), "");
    }
    KeepAll(plants, MatchesQuery(Lower("")));
  }

  // ---- filterPlants ----

  /** `wanted.some(w => have.includes(w))`, where an empty `wanted` does not filter. */
  predicate SharesAny(wanted: seq<string>, have: seq<string>) {
    |wanted| == 0 || exists k :: 0 <= k < |wanted| && wanted[k] in have
  }

  predicate SearchOk(f: FilterState, p: Plant) {
    f.search == "" || PlantMatches(p, Lower(f.search))
  }

  /** The plant passes every part of the filter: the search, and each non-empty list (any of its values). */
  predicate Selected(f: FilterState, p: Plant) {
    && SearchOk(f, p)
    && SharesAny(f.bodySystems, p.bodySystems)
    && SharesAny(f.preparations, p.preparations)
    && SharesAny(f.conditions, p.conditions)
    && SharesAny(f.actions, p.actions)
  }

  function SelectedBy(f: FilterState): Plant -> bool {
    (p: Plant) => Selected(f, p)
  }

  /** `filterPlants`: the search first, then one narrowing per non-empty list. */
  method FilterPlants(plants: seq<Plant>, filters: FilterState) returns (filtered: seq<Plant>)
    ensures filtered == Keep(plants, SelectedBy(filters))
  {
    ghost var s0 := (p: Plant) => SearchOk(filters, p);
    ghost var s1 := (p: Plant) => s0(p) && SharesAny(filters.bodySystems, p.bodySystems);
    ghost var s2 := (p: Plant) => s1(p) && SharesAny(filters.preparations, p.preparations);
    ghost var s3 := (p: Plant) => s2(p) && SharesAny(filters.conditions, p.conditions);
    filtered := plants;
    if filters.search != "" {
      filtered := SearchPlants(plants, filters.search);
      KeepSame(plants, MatchesQuery(Lower(filters.search)), s0);
    } else {
      KeepAll(plants, s0);
    }
    var bodySystems := (p: Plant) => SharesAny(filters.bodySystems, p.bodySystems);
    filtered := Narrow(plants, filtered, s0, bodySystems, s1, |filters.bodySystems| > 0);
    var preparations := (p: Plant) => SharesAny(filters.preparations, p.preparations);
    filtered := Narrow(plants, filtered, s1, preparations, s2, |filters.preparations| > 0);
    var conditions := (p: Plant) => SharesAny(filters.conditions, p.conditions);
    filtered := Narrow(plants, filtered, s2, conditions, s3, |filters.conditions| > 0);
    var actions := (p: Plant) => SharesAny(filters.actions, p.actions);
    filtered := Narrow(plants, filtered, s3, actions, SelectedBy(filters), |filters.actions| > 0);
  }

  /**
    * One narrowing step: when the list is non-empty, keep the plants that pass `g`; when
    * it is empty `g` holds everywhere and nothing changes.
    */
  method Narrow(ghost plants: seq<Plant>, filtered: seq<Plant>, ghost f: Plant -> bool, g: Plant -> bool, ghost h: Plant -> bool, active: bool)
    returns (r: seq<Plant>)
    requires filtered == Keep(plants, f)
    requires forall p :: h(p) == (f(p) && g(p))
    requires !active ==> forall p :: g(p)
    ensures r == Keep(plants, h)
  {
    KeepKeep(plants, f, g, h);
    if active {
      r := Keep(filtered, g);
    } else {
      r := filtered;
      KeepAll(filtered, g);
    }
  }

  /** The filter keeps, in order, exactly the plants that pass the search and share a value with each non-empty list. */
  lemma FilterPlantsMembers(plants: seq<Plant>, filters: FilterState)
    ensures forall p :: p in Keep(plants, SelectedBy(filters)) <==> p in plants && Selected(filters, p)
    ensures IsSubsequence(Keep(plants, SelectedBy(filters)), plants)
  {
    KeepMembers(plants, SelectedBy(filters));
    KeepIsSubsequence(plants, SelectedBy(filters));
  }

  /** An empty filter keeps every plant. */
  lemma EmptyFilterKeepsAll(plants: seq<Plant>)
    ensures Keep(plants, SelectedBy(FilterState("", [], [], [], []))) == plants
  {
    KeepAll(plants, SelectedBy(FilterState("", [], [], [], [])));
  }

  // ---- Ranking related items ----

  /** An item with its score. */
  datatype Scored<T> = Scored(item: T, score: nat)

  /** The items with score `s`, in their original order. */
  function Level<T>(xs: seq<Scored<T>>, s: nat): (r: seq<Scored<T>>)
    ensures |r| <= |xs|
    ensures forall k :: 0 <= k < |r| ==> r[k].score == s
    decreases |xs|
  {
    if xs == [] then [] else (if xs[0].score == s then [xs[0]] else []) + Level(xs[1..], s)
  }

  /** The levels `s`, `s - 1`, ..., `0`, one after the other. */
  function LevelsDown<T>(xs: seq<Scored<T>>, s: nat): (r: seq<Scored<T>>)
    ensures forall k :: 0 <= k < |r| ==> r[k].score <= s
    decreases s
  {
    Level(xs, s) + (if s == 0 then [] else LevelsDown(xs, s - 1))
  }

  function MaxScore<T>(xs: seq<Scored<T>>): (m: nat)
    ensures forall k :: 0 <= k < |xs| ==> xs[k].score <= m
  {
    if xs == [] then 0
    else
      var rest := MaxScore(xs[1..]);
      assert forall k :: 1 <= k < |xs| ==> xs[k] == xs[1..][k - 1];
      if xs[0].score > rest then xs[0].score else rest
  }

  /**
    * `sort((a, b) => b.score - a.score)` with a stable sort: the highest score first, and
    * items with equal scores in their original order.
    */
  function SortByScore<T>(xs: seq<Scored<T>>): seq<Scored<T>> {
    LevelsDown(xs, MaxScore(xs))
  }

  /** The items with score at most `s`, in their original order. */
  function UpTo<T>(xs: seq<Scored<T>>, s: nat): seq<Scored<T>>
    decreases |xs|
  {
    if xs == [] then [] else (if xs[0].score <= s then [xs[0]] else []) + UpTo(xs[1..], s)
  }

  lemma {:induction false} UpToZero<T>(xs: seq<Scored<T>>)
    ensures UpTo(xs, 0) == Level(xs, 0)
    decreases |xs|
  {
    if xs != [] {
      UpToZero(xs[1..]);
    }
  }

  lemma {:induction false} UpToStep<T>(xs: seq<Scored<T>>, s: nat)
    requires s > 0
    ensures multiset(UpTo(xs, s)) == multiset(Level(xs, s)) + multiset(UpTo(xs, s - 1))
    decreases |xs|
  {
    if xs != [] {
      UpToStep(xs[1..], s);
    }
  }

  lemma {:induction false} UpToAll<T>(xs: seq<Scored<T>>, s: nat)
    requires forall k :: 0 <= k < |xs| ==> xs[k].score <= s
    ensures UpTo(xs, s) == xs
    decreases |xs|
  {
    if xs != [] {
      assert forall k :: 0 <= k < |xs| - 1 ==> xs[1..][k] == xs[k + 1];
      UpToAll(xs[1..], s);
    }
  }

  lemma {:induction false} LevelsDownMultiset<T>(xs: seq<Scored<T>>, s: nat)
    ensures multiset(LevelsDown(xs, s)) == multiset(UpTo(xs, s))
    decreases s
  {
    if s > 0 {
      UpToStep(xs, s);
      LevelsDownMultiset(xs, s - 1);
      assert LevelsDown(xs, s) == Level(xs, s) + LevelsDown(xs, s - 1);
    } else {
      UpToZero(xs);
      assert LevelsDown(xs, s) == Level(xs, s) + [];
      assert Level(xs, s) + [] == Level(xs, s);
    }
  }

  lemma {:induction false} LevelsDownSorted<T>(xs: seq<Scored<T>>, s: nat)
    ensures forall i, j :: 0 <= i < j < |LevelsDown(xs, s)| ==> LevelsDown(xs, s)[i].score >= LevelsDown(xs, s)[j].score
    decreases s
  {
    if s > 0 {
      LevelsDownSorted(xs, s - 1);
      var a := Level(xs, s);
      var b := LevelsDown(xs, s - 1);
      var r := LevelsDown(xs, s);
      assert r == a + b;
      forall i, j | 0 <= i < j < |r| ensures r[i].score >= r[j].score {
        if j < |a| {
        } else if i < |a| {
          assert r[j] == b[j - |a|];
        } else {
          assert r[i] == b[i - |a|] && r[j] == b[j - |a|];
        }
      }
    }
  }

  lemma {:induction false} LevelConcat<T>(a: seq<Scored<T>>, b: seq<Scored<T>>, t: nat)
    ensures Level(a + b, t) == Level(a, t) + Level(b, t)
    decreases |a|
  {
    if a != [] {
      assert (a + b)[1..] == a[1..] + b;
      LevelConcat(a[1..], b, t);
    } else {
      assert a + b == b;
    }
  }

  lemma {:induction false} LevelOfLevel<T>(xs: seq<Scored<T>>, s: nat, t: nat)
    ensures Level(Level(xs, s), t) == if s == t then Level(xs, s) else []
    decreases |xs|
  {
    if xs != [] {
      var head := if xs[0].score == s then [xs[0]] else [];
      LevelOfLevel(xs[1..], s, t);
      LevelConcat(head, Level(xs[1..], s), t);
      if head != [] {
        assert head[1..] == [];
      }
    }
  }

  lemma {:induction false} LevelsDownLevel<T>(xs: seq<Scored<T>>, s: nat, t: nat)
    ensures Level(LevelsDown(xs, s), t) == if t <= s then Level(xs, t) else []
    decreases s
  {
    var tail := if s == 0 then [] else LevelsDown(xs, s - 1);
    LevelConcat(Level(xs, s), tail, t);
    LevelOfLevel(xs, s, t);
    if s > 0 {
      LevelsDownLevel(xs, s - 1, t);
    }
  }

  lemma {:induction false} LevelAbove<T>(xs: seq<Scored<T>>, t: nat)
    requires forall k :: 0 <= k < |xs| ==> xs[k].score < t
    ensures Level(xs, t) == []
    decreases |xs|
  {
    if xs != [] {
      assert forall k :: 0 <= k < |xs| - 1 ==> xs[1..][k] == xs[k + 1];
      LevelAbove(xs[1..], t);
    }
  }

  /**
    * The sort is a permutation with non-increasing scores, and it is stable: the items of
    * each score keep their original relative order.
    */
  lemma SortByScoreCorrect<T>(xs: seq<Scored<T>>)
    ensures multiset(SortByScore(xs)) == multiset(xs)
    ensures forall i, j :: 0 <= i < j < |SortByScore(xs)| ==> SortByScore(xs)[i].score >= SortByScore(xs)[j].score
    ensures forall t :: Level(SortByScore(xs), t) == Level(xs, t)
  {
    var m := MaxScore(xs);
    LevelsDownMultiset(xs, m);
    UpToAll(xs, m);
    LevelsDownSorted(xs, m);
    forall t ensures Level(SortByScore(xs), t) == Level(xs, t) {
      LevelsDownLevel(xs, m, t);
      if t > m {
        LevelAbove(xs, t);
      }
    }
  }

  function Items<T>(xs: seq<Scored<T>>): (r: seq<T>)
    ensures |r| == |xs| && forall k :: 0 <= k < |xs| ==> r[k] == xs[k].item
  {
    seq(|xs|, i requires 0 <= i < |xs| => xs[i].item)
  }

  /** `.sort(...).slice(0, limit).map(s => s.item)`. */
  function TopScored<T>(scored: seq<Scored<T>>, limit: int): seq<T> {
    var sorted := SortByScore(scored);
    Items(sorted[..SliceEnd(|sorted|, limit)])
  }

  /** The sorted list has the same length and the same elements as the unsorted one. */
  lemma SortByScoreMembers<T>(xs: seq<Scored<T>>)
    ensures |SortByScore(xs)| == |xs|
    ensures forall p :: 0 <= p < |SortByScore(xs)| ==> SortByScore(xs)[p] in xs
    ensures forall j :: 0 <= j < |xs| ==> xs[j] in SortByScore(xs)
  {
    var sorted := SortByScore(xs);
    SortByScoreCorrect(xs);
    assert |multiset(sorted)| == |multiset(xs)|;
    forall p | 0 <= p < |sorted| ensures sorted[p] in xs {
      assert sorted[p] in multiset(sorted);
    }
    forall j | 0 <= j < |xs| ensures xs[j] in sorted {
      assert xs[j] in multiset(xs);
    }
  }

  lemma TopScoredFrom<T>(scored: seq<Scored<T>>, limit: int)
    ensures |TopScored(scored, limit)| <= |scored|
    ensures limit >= 0 ==> |TopScored(scored, limit)| <= limit
    ensures |TopScored(scored, limit)| == SliceEnd(|scored|, limit)
    ensures forall k :: 0 <= k < |TopScored(scored, limit)| ==>
      exists j :: 0 <= j < |scored| && scored[j].item == TopScored(scored, limit)[k]
  {
    var sorted := SortByScore(scored);
    var r := TopScored(scored, limit);
    SortByScoreMembers(scored);
    forall k | 0 <= k < |r| ensures exists j :: 0 <= j < |scored| && scored[j].item == r[k] {
      assert r[k] == sorted[k].item;
      assert sorted[k] in scored;
      var j :| 0 <= j < |scored| && scored[j] == sorted[k];
    }
  }

  lemma TopScoredOrdered<T>(scored: seq<Scored<T>>, limit: int, score: T -> nat)
    requires forall k :: 0 <= k < |scored| ==> scored[k].score == score(scored[k].item)
    ensures forall i, j :: 0 <= i < j < |TopScored(scored, limit)| ==>
      score(TopScored(scored, limit)[i]) >= score(TopScored(scored, limit)[j])
  {
    var sorted := SortByScore(scored);
    var r := TopScored(scored, limit);
    SortByScoreMembers(scored);
    SortByScoreCorrect(scored);
    forall i, j | 0 <= i < j < |r| ensures score(r[i]) >= score(r[j]) {
      assert r[i] == sorted[i].item && r[j] == sorted[j].item;
      assert sorted[i] in scored && sorted[j] in scored;
    }
  }

  lemma TopScoredBest<T>(scored: seq<Scored<T>>, limit: int, score: T -> nat)
    requires forall k :: 0 <= k < |scored| ==> scored[k].score == score(scored[k].item)
    ensures forall j, k :: 0 <= j < |scored| && 0 <= k < |TopScored(scored, limit)| && scored[j].item !in TopScored(scored, limit) ==>
      scored[j].score <= score(TopScored(scored, limit)[k])
  {
    var sorted := SortByScore(scored);
    var n := SliceEnd(|sorted|, limit);
    var r := TopScored(scored, limit);
    SortByScoreMembers(scored);
    SortByScoreCorrect(scored);
    forall j, k | 0 <= j < |scored| && 0 <= k < |r| && scored[j].item !in r ensures scored[j].score <= score(r[k]) {
      assert scored[j] in sorted;
      var p :| 0 <= p < |sorted| && sorted[p] == scored[j];
      assert forall i :: 0 <= i < n ==> r[i] == sorted[i].item;
      assert p >= n;
      assert r[k] == sorted[k].item;
      assert sorted[k] in scored;
    }
  }

  /**
    * The ranking returns the first `limit` of the candidates (all of them when there are
    * fewer), by non-increasing score, and leaves out none that scores higher than one it returns.
    */
  lemma TopScoredShape<T>(scored: seq<Scored<T>>, limit: int, score: T -> nat)
    requires forall k :: 0 <= k < |scored| ==> scored[k].score == score(scored[k].item)
    ensures |TopScored(scored, limit)| <= |scored|
    ensures limit >= 0 ==> |TopScored(scored, limit)| <= limit
    ensures |TopScored(scored, limit)| == SliceEnd(|scored|, limit)
    ensures forall k :: 0 <= k < |TopScored(scored, limit)| ==>
      exists j :: 0 <= j < |scored| && scored[j].item == TopScored(scored, limit)[k]
    ensures forall i, j :: 0 <= i < j < |TopScored(scored, limit)| ==>
      score(TopScored(scored, limit)[i]) >= score(TopScored(scored, limit)[j])
    ensures forall j, k :: 0 <= j < |scored| && 0 <= k < |TopScored(scored, limit)| && scored[j].item !in TopScored(scored, limit) ==>
      scored[j].score <= score(TopScored(scored, limit)[k])
  {
    TopScoredFrom(scored, limit);
    TopScoredOrdered(scored, limit, score);
    TopScoredBest(scored, limit, score);
  }

  /** `limit` when the caller gives none. */
  const DefaultLimit := 3

  /** `getPlantById` / `getTeaById`: the first record with the id. */
  function PlantWithId(id: string): Plant -> bool {
    (p: Plant) => p.id == id
  }

  function OtherPlant(id: string): Plant -> bool {
    (p: Plant) => p.id != id
  }

  /** How many of `xs` occur in `ys`, counting repeats in `xs`. */
  function CountIn(xs: seq<string>, ys: seq<string>): (n: nat)
    ensures n <= |xs|
    decreases |xs|
  {
    if xs == [] then 0 else CountIn(xs[..|xs| - 1], ys) + (if xs[|xs| - 1] in ys then 1 else 0)
  }

  /** Two points per body system and one per action that the plant shares with the current plant. */
  function PlantScore(current: Plant, p: Plant): nat {
    2 * CountIn(p.bodySystems, current.bodySystems) + CountIn(p.actions, current.actions)
  }

  /** The scoring callback of `getRelatedPlants`: the two counting loops. */
  method ScorePlant(current: Plant, p: Plant) returns (score: nat)
    ensures score == PlantScore(current, p)
  {
    score := 0;
    for k := 0 to |p.bodySystems|
      invariant score == 2 * CountIn(p.bodySystems[..k], current.bodySystems)
    {
      assert p.bodySystems[..k + 1][..k] == p.bodySystems[..k];
      if p.bodySystems[k] in current.bodySystems {
        score := score + 2;
      }
    }
    assert p.bodySystems[..|p.bodySystems|] == p.bodySystems;
    ghost var systems := score;
    for k := 0 to |p.actions|
      invariant score == systems + CountIn(p.actions[..k], current.actions)
    {
      assert p.actions[..k + 1][..k] == p.actions[..k];
      if p.actions[k] in current.actions {
        score := score + 1;
      }
    }
    assert p.actions[..|p.actions|] == p.actions;
  }

  function ScorePlants(current: Plant, others: seq<Plant>): (r: seq<Scored<Plant>>)
    ensures |r| == |others| && forall k :: 0 <= k < |others| ==> r[k] == Scored(others[k], PlantScore(current, others[k]))
  {
    seq(|others|, i requires 0 <= i < |others| => Scored(others[i], PlantScore(current, others[i])))
  }

  /** `getRelatedPlants`. */
  function RelatedPlants(plants: seq<Plant>, currentId: string, limit: int): seq<Plant> {
    match First(plants, PlantWithId(currentId))
    case None => []
    case Some(current) => TopScored(ScorePlants(current, Keep(plants, OtherPlant(currentId))), limit)
  }

  method GetRelatedPlants(plants: seq<Plant>, currentId: string, limit: int) returns (related: seq<Plant>)
    ensures related == RelatedPlants(plants, currentId, limit)
  {
    var found := First(plants, PlantWithId(currentId));
    if found.None? {
      return [];
    }
    var current := found.value;
    var others := Keep(plants, OtherPlant(currentId));
    var scored: seq<Scored<Plant>> := [];
    for i := 0 to |others|
      invariant scored == ScorePlants(current, others[..i])
    {
      var score := ScorePlant(current, others[i]);
      scored := scored + [Scored(others[i], score)];
    }
    assert others[..|others|] == others;
    related := TopScored(scored, limit);
  }

  /**
    * Related plants: none for an unknown id; otherwise at most `limit` plants of the list,
    * never the current one, by non-increasing score, with no plant left out that scores
    * higher than one returned.
    */
  lemma RelatedPlantsShape(plants: seq<Plant>, currentId: string, limit: int)
    ensures First(plants, PlantWithId(currentId)).None? ==> RelatedPlants(plants, currentId, limit) == []
    ensures forall k :: 0 <= k < |RelatedPlants(plants, currentId, limit)| ==>
      RelatedPlants(plants, currentId, limit)[k] in plants && RelatedPlants(plants, currentId, limit)[k].id != currentId
    ensures limit >= 0 ==> |RelatedPlants(plants, currentId, limit)| <= limit
    ensures First(plants, PlantWithId(currentId)).Some? ==>
      |RelatedPlants(plants, currentId, limit)| == SliceEnd(|Keep(plants, OtherPlant(currentId))|, limit)
    ensures First(plants, PlantWithId(currentId)).Some? ==>
      var current := First(plants, PlantWithId(currentId)).value;
      var r := RelatedPlants(plants, currentId, limit);
      && (forall i, j :: 0 <= i < j < |r| ==> PlantScore(current, r[i]) >= PlantScore(current, r[j]))
      && (forall p, k :: p in plants && p.id != currentId && p !in r && 0 <= k < |r| ==> PlantScore(current, p) <= PlantScore(current, r[k]))
  {
    var found := First(plants, PlantWithId(currentId));
    if found.Some? {
      var current := found.value;
      var others := Keep(plants, OtherPlant(currentId));
      var scored := ScorePlants(current, others);
      var r := RelatedPlants(plants, currentId, limit);
      KeepMembers(plants, OtherPlant(currentId));
      TopScoredShape(scored, limit, (p: Plant) => PlantScore(current, p));
      forall k | 0 <= k < |r| ensures r[k] in plants && r[k].id != currentId {
        var j :| 0 <= j < |scored| && scored[j].item == r[k];
        assert others[j] in others;
      }
      forall p, k | p in plants && p.id != currentId && p !in r && 0 <= k < |r| ensures PlantScore(current, p) <= PlantScore(current, r[k]) {
        assert p in others;
        var j :| 0 <= j < |others| && others[j] == p;
        assert scored[j].item == p;
      }
    }
  }

  /** Two points for the same tea type, one for the same country of origin. */
  function TeaScore(current: Tea, t: Tea): nat {
    (if t.teaType == current.teaType then 2 else 0) + (if t.origin.country == current.origin.country then 1 else 0)
  }

  function TeaWithId(id: string): Tea -> bool {
    (t: Tea) => t.id == id
  }

  function OtherTea(id: string): Tea -> bool {
    (t: Tea) => t.id != id
  }

  function ScoreTeas(current: Tea, others: seq<Tea>): (r: seq<Scored<Tea>>)
    ensures |r| == |others| && forall k :: 0 <= k < |others| ==> r[k] == Scored(others[k], TeaScore(current, others[k]))
  {
    seq(|others|, i requires 0 <= i < |others| => Scored(others[i], TeaScore(current, others[i])))
  }

  /** `getRelatedTeas`. */
  function RelatedTeas(teas: seq<Tea>, currentId: string, limit: int): seq<Tea> {
    match First(teas, TeaWithId(currentId))
    case None => []
    case Some(current) => TopScored(ScoreTeas(current, Keep(teas, OtherTea(currentId))), limit)
  }

  /** Related teas: the same guarantees as for plants, with the tea score. */
  lemma RelatedTeasShape(teas: seq<Tea>, currentId: string, limit: int)
    ensures First(teas, TeaWithId(currentId)).None? ==> RelatedTeas(teas, currentId, limit) == []
    ensures forall k :: 0 <= k < |RelatedTeas(teas, currentId, limit)| ==>
      RelatedTeas(teas, currentId, limit)[k] in teas && RelatedTeas(teas, currentId, limit)[k].id != currentId
    ensures limit >= 0 ==> |RelatedTeas(teas, currentId, limit)| <= limit
    ensures First(teas, TeaWithId(currentId)).Some? ==>
      |RelatedTeas(teas, currentId, limit)| == SliceEnd(|Keep(teas, OtherTea(currentId))|, limit)
    ensures First(teas, TeaWithId(currentId)).Some? ==>
      var current := First(teas, TeaWithId(currentId)).value;
      var r := RelatedTeas(teas, currentId, limit);
      && (forall i, j :: 0 <= i < j < |r| ==> TeaScore(current, r[i]) >= TeaScore(current, r[j]))
      && (forall t, k :: t in teas && t.id != currentId && t !in r && 0 <= k < |r| ==> TeaScore(current, t) <= TeaScore(current, r[k]))
  {
    var found := First(teas, TeaWithId(currentId));
    if found.Some? {
      var current := found.value;
      var others := Keep(teas, OtherTea(currentId));
      var scored := ScoreTeas(current, others);
      var r := RelatedTeas(teas, currentId, limit);
      KeepMembers(teas, OtherTea(currentId));
      TopScoredShape(scored, limit, (t: Tea) => TeaScore(current, t));
      forall k | 0 <= k < |r| ensures r[k] in teas && r[k].id != currentId {
        var j :| 0 <= j < |scored| && scored[j].item == r[k];
        assert others[j] in others;
      }
      forall t, k | t in teas && t.id != currentId && t !in r && 0 <= k < |r| ensures TeaScore(current, t) <= TeaScore(current, r[k]) {
        assert t in others;
        var j :| 0 <= j < |others| && others[j] == t;
        assert scored[j].item == t;
      }
    }
  }
}
