/**
  * The name normalisers of the reference-data scripts: chemical-name cleaning, the
  * key slug, and the reduction of a taxonomic name to its base "genus species".
  * scripts/build-duke-reference.js and scripts/extract-duke-entry.js carry identical
  * copies of `slugify` and `baseGenusSpecies`; both are modelled once here.
  */
module Names {
  import opened Text
  import opened Collections

  // ---- cleanChemName ----

  /** A character of the regular-expression class `\w`. */
  predicate IsWordChar(c: char) {
    IsLowerAscii(c) || IsUpperAscii(c) || IsDigit(c) || c == '_'
  }

  function DashToSpace(s: string): (r: string)
    ensures |r| == |s|
  {
    seq(|s|, i requires 0 <= i < |s| => if s[i] == '-' then ' ' else s[i])
  }

  /** `replace(/\b[a-z]/g, c => c.toUpperCase())`: a letter that starts a word is capitalised. */
  function CapitaliseWords(s: string): (r: string)
    ensures |r| == |s|
  {
    seq(|s|, i requires 0 <= i < |s| =>
      if IsLowerAscii(s[i]) && (i == 0 || !IsWordChar(s[i - 1])) then ToUpper(s[i]) else s[i])
  }

  /** `cleanChemName`: hyphens to spaces, lower case, word-initial capitals, trimmed. */
  function CleanChemName(raw: string): string {
    Trim(CapitaliseWords(Lower(DashToSpace(raw))))
  }

  /** Upper-case letters exactly at word starts, lower-case letters only inside words. */
  predicate WordInitialCaps(s: string) {
    forall i :: 0 <= i < |s| ==> CapitalAt(s, i)
  }

  /** The character at `i` is a capital exactly if it is a letter starting a word. */
  predicate CapitalAt(s: string, i: nat)
    requires i < |s|
  {
    && (IsLowerAscii(s[i]) ==> i > 0 && IsWordChar(s[i - 1]))
    && (IsUpperAscii(s[i]) ==> i == 0 || !IsWordChar(s[i - 1]))
  }

  /** Capitalising a lower-case string puts capitals exactly at word starts. */
  lemma CapitaliseWordsShape(s: string)
    requires HasNoUpper(s)
    ensures WordInitialCaps(CapitaliseWords(s))
  {
    var c := CapitaliseWords(s);
    forall i | 0 <= i < |c| ensures CapitalAt(c, i) {
      if i > 0 {
        assert IsWordChar(c[i - 1]) == IsWordChar(s[i - 1]);
      }
    }
  }

  lemma WordInitialCapsSlice(c: string, d: nat, e: nat, r: string)
    requires WordInitialCaps(c)
    requires d <= e <= |c| && r == c[d..e]
    requires d > 0 ==> !IsWordChar(c[d - 1])
    ensures WordInitialCaps(r)
  {
    forall i | 0 <= i < |r| ensures CapitalAt(r, i) {
      var j := d + i;
      assert r[i] == c[j];
      assert CapitalAt(c, j);
      if i > 0 {
        assert r[i - 1] == c[j - 1];
      }
    }
  }

  /** Trimming keeps word-initial capitals: what precedes the kept part is white space. */
  lemma TrimWordInitialCaps(c: string)
    requires WordInitialCaps(c)
    ensures WordInitialCaps(Trim(c))
  {
    var d := TrimSlice(c);
    SpacedSliceCaps(c, d, Trim(c));
  }

  lemma SpacedSliceCaps(c: string, d: nat, r: string)
    requires WordInitialCaps(c)
    requires d + |r| <= |c| && r == c[d..d + |r|]
    requires d > 0 ==> IsSpace(c[d - 1])
    ensures WordInitialCaps(r)
  {
    if d > 0 {
      SpaceIsNotWordChar(c[d - 1]);
    }
    WordInitialCapsSlice(c, d, d + |r|, r);
  }

  lemma SpaceIsNotWordChar(x: char)
    requires IsSpace(x)
    ensures !IsWordChar(x)
  {
  }

  lemma NoDashAfterTrim(c: string)
    requires '-' !in c
    ensures '-' !in Trim(c)
  {
    var d := TrimSlice(c);
    assert forall i :: 0 <= i < |Trim(c)| ==> Trim(c)[i] == c[d + i];
  }

  /** A cleaned chemical name has no hyphen, no outer white space, and word-initial capitals. */
  lemma CleanChemNameShape(raw: string)
    ensures '-' !in CleanChemName(raw)
    ensures IsTrimmed(CleanChemName(raw))
    ensures WordInitialCaps(CleanChemName(raw))
  {
    var l := Lower(DashToSpace(raw));
    var c := CapitaliseWords(l);
    forall i | 0 <= i < |c| ensures c[i] != '-' {
      assert l[i] != '-';
    }
    LowerHasNoUpper(DashToSpace(raw));
    CapitaliseWordsShape(l);
    TrimWordInitialCaps(c);
    NoDashAfterTrim(c);
  }

  /** Lower-casing and re-capitalising a string with word-initial capitals gives it back. */
  lemma CapitaliseLowerOfCaps(r: string)
    requires WordInitialCaps(r)
    ensures CapitaliseWords(Lower(r)) == r
  {
    var l := Lower(r);
    var c := CapitaliseWords(l);
    forall i | 0 <= i < |r| ensures c[i] == r[i] {
      assert CapitalAt(r, i);
      if i > 0 {
        assert IsWordChar(l[i - 1]) == IsWordChar(r[i - 1]);
      }
    }
  }

  /** Cleaning a cleaned name changes nothing. */
  lemma CleanChemNameIdempotent(raw: string)
    ensures CleanChemName(CleanChemName(raw)) == CleanChemName(raw)
  {
    var r := CleanChemName(raw);
    CleanChemNameShape(raw);
    assert DashToSpace(r) == r;
    CapitaliseLowerOfCaps(r);
    TrimTrimmed(r);
  }

  lemma CleanChemNameExample()
    ensures CleanChemName("BORNYL-ACETATE") == "Bornyl Acetate"
  {
    ExampleDashes();
    ExampleLower();
    ExampleCapitals();
    assert IsTrimmed("Bornyl Acetate");
    TrimTrimmed("Bornyl Acetate");
  }

  lemma ExampleDashes()
    ensures DashToSpace("BORNYL-ACETATE") == "BORNYL ACETATE"
  {
  }

  lemma ExampleLower()
    ensures Lower("BORNYL ACETATE") == "bornyl acetate"
  {
  }

  lemma ExampleCapitals()
    ensures CapitaliseWords("bornyl acetate") == "Bornyl Acetate"
  {
  }

  // ---- slugify ----

  predicate IsSlugChar(c: char) {
    IsLowerAscii(c) || IsDigit(c)
  }

  /**
    * `replace(/[^a-z0-9]+/g, "-")`: every maximal run of other characters becomes one
    * hyphen; `inRun` says the previous character already belonged to such a run.
    */
  function CollapseRuns(s: string, inRun: bool): (r: string)
    ensures forall i :: 0 <= i < |r| ==> IsSlugChar(r[i]) || r[i] == '-'
    ensures forall i :: 0 <= i < |r| - 1 ==> !(r[i] == '-' && r[i + 1] == '-')
    ensures inRun && r != [] ==> r[0] != '-'
    decreases |s|
  {
    if s == [] then []
    else if IsSlugChar(s[0]) then [s[0]] + CollapseRuns(s[1..], false)
    else if inRun then CollapseRuns(s[1..], true)
    else ['-'] + CollapseRuns(s[1..], true)
  }

  /** `replace(/^-|-$/g, "")`. */
  function StripDashes(s: string): string {
    var a := if s != [] && s[0] == '-' then s[1..] else s;
    if a != [] && a[|a| - 1] == '-' then a[..|a| - 1] else a
  }

  /** The scripts' `slugify`. */
  function Slugify(name: string): string {
    StripDashes(CollapseRuns(Lower(name), false))
  }

  /** Only `[a-z0-9-]`, no hyphen at either end, never two hyphens in a row. */
  predicate IsSlug(s: string) {
    && (forall i :: 0 <= i < |s| ==> IsSlugChar(s[i]) || s[i] == '-')
    && (s == [] || (s[0] != '-' && s[|s| - 1] != '-'))
    && (forall i :: 0 <= i < |s| - 1 ==> !(s[i] == '-' && s[i + 1] == '-'))
  }

  lemma SlugifyIsSlug(name: string)
    ensures IsSlug(Slugify(name))
  {
    var c := CollapseRuns(Lower(name), false);
    var a := if c != [] && c[0] == '-' then c[1..] else c;
    assert a != [] ==> a[0] != '-';
  }

  lemma {:induction false} CollapseRunsOfSlug(s: string, inRun: bool)
    requires forall i :: 0 <= i < |s| ==> IsSlugChar(s[i]) || s[i] == '-'
    requires forall i :: 0 <= i < |s| - 1 ==> !(s[i] == '-' && s[i + 1] == '-')
    requires inRun ==> s == [] || s[0] != '-'
    ensures CollapseRuns(s, inRun) == s
    decreases |s|
  {
    if s != [] {
      CollapseRunsOfSlug(s[1..], !IsSlugChar(s[0]));
    }
  }

  /** A slug is its own slug. */
  lemma SlugifyOfSlug(s: string)
    requires IsSlug(s)
    ensures Slugify(s) == s
  {
    assert HasNoUpper(s);
    LowerOfLowerCase(s);
    CollapseRunsOfSlug(s, false);
    StripNoDashes(s);
  }

  lemma StripNoDashes(s: string)
    requires s == [] || (s[0] != '-' && s[|s| - 1] != '-')
    ensures StripDashes(s) == s
  {
  }

  lemma SlugifyIdempotent(name: string)
    ensures Slugify(Slugify(name)) == Slugify(name)
  {
    SlugifyIsSlug(name);
    SlugifyOfSlug(Slugify(name));
  }

  // ---- baseGenusSpecies ----

  /** The rank and hybrid markers the base form leaves out. */
  predicate IsStopToken(w: string) {
    w == "x" || w == "var." || w == "subsp." || w == "nothosubsp." || w == "f." || w == "cv."
  }

  predicate NotStopToken(w: string) {
    !IsStopToken(w)
  }

  /** `taxon.trim().toLowerCase().split(/\s+/)`. */
  function Words(taxon: string): seq<string> {
    SplitWs(Lower(Trim(taxon)))
  }

  /** The words kept: the first two that are not rank or hybrid markers. */
  function BaseParts(taxon: string): seq<string> {
    Take2(Keep(Words(taxon), NotStopToken))
  }

  /** `baseGenusSpecies`, stated as "the first two words that are not markers, joined by a space". */
  function BaseKey(taxon: string): string {
    Join(BaseParts(taxon), " ")
  }

  /** `baseGenusSpecies`: split the taxon, then keep the first two words that are not markers. */
  method BaseGenusSpecies(taxon: string) returns (base: string)
    ensures base == BaseKey(taxon)
  {
    var words := Words(taxon);
    var parts := FirstTwoKept(words);
    base := Join(parts, " ");
  }

  /** The loop of `baseGenusSpecies`: it skips markers and stops after two words. */
  method FirstTwoKept(words: seq<string>) returns (parts: seq<string>)
    ensures parts == Take2(Keep(words, NotStopToken))
  {
    parts := [];
    var i := 0;
    while i < |words|
      invariant 0 <= i <= |words|
      invariant |parts| <= 1
      invariant Take2(parts + Keep(words[i..], NotStopToken)) == Take2(Keep(words, NotStopToken))
    {
      var w := words[i];
      ghost var tail := Keep(words[i + 1..], NotStopToken);
      KeepFrom(words, NotStopToken, i);
      i := i + 1;
      if IsStopToken(w) {
        continue;
      }
      AppendAssoc(parts, [w], tail);
      parts := parts + [w];
      if |parts| == 2 {
        AppendSlices(parts, tail, 2);
        return;
      }
    }
    AppendSlices(parts, [], |parts|);
  }

  /** A piece of the base form: lower case, no white space, not a marker. */
  predicate Word(w: string) {
    HasNoUpper(w) && HasNoSpace(w) && NotStopToken(w)
  }

  /** Every character of every piece of a white-space split satisfies what every character of the string does. */
  lemma {:induction false} SplitWsKeeps(s: string, p: char -> bool)
    requires forall i :: 0 <= i < |s| ==> p(s[i])
    ensures forall k, j :: 0 <= k < |SplitWs(s)| && 0 <= j < |SplitWs(s)[k]| ==> p(SplitWs(s)[k][j])
    decreases |s|
  {
    if s != [] {
      SplitWsKeeps(s[1..], p);
      var rest := SplitWs(s[1..]);
      if !IsSpace(s[0]) {
        var w := [s[0]] + rest[0];
        assert forall j :: 0 <= j < |w| ==> p(w[j]) by {
          forall j | 0 <= j < |w| ensures p(w[j]) {
            if j > 0 {
              assert w[j] == rest[0][j - 1];
            }
          }
        }
      }
    }
  }

  predicate NotUpper(c: char) {
    !IsUpperAscii(c)
  }

  /** The pieces of a lower-cased, trimmed name are lower case. */
  lemma WordsLower(taxon: string)
    ensures forall k :: 0 <= k < |Words(taxon)| ==> HasNoUpper(Words(taxon)[k])
  {
    var u := Lower(Trim(taxon));
    LowerHasNoUpper(Trim(taxon));
    SplitWsKeeps(u, NotUpper);
  }

  /** The pieces of a lower-cased, trimmed name are lower case and free of white space, and non-empty unless the name is blank. */
  lemma WordsShape(taxon: string)
    ensures forall k :: 0 <= k < |Words(taxon)| ==> HasNoUpper(Words(taxon)[k]) && HasNoSpace(Words(taxon)[k])
    ensures Words(taxon) == [""] || forall k :: 0 <= k < |Words(taxon)| ==> Words(taxon)[k] != ""
  {
    var u := Lower(Trim(taxon));
    TrimLower(taxon);
    WordsLower(taxon);
    if u == [] {
      assert SplitWs(u) == [""];
    } else {
      SplitWsWords(u);
    }
  }

  /** The kept words: at most two, none a marker, lower case, and each a non-empty word unless the name is blank. */
  lemma BasePartsShape(taxon: string)
    ensures |BaseParts(taxon)| <= 2
    ensures forall k :: 0 <= k < |BaseParts(taxon)| ==> NotStopToken(BaseParts(taxon)[k])
    ensures forall k :: 0 <= k < |BaseParts(taxon)| ==> HasNoUpper(BaseParts(taxon)[k]) && HasNoSpace(BaseParts(taxon)[k])
    ensures BaseParts(taxon) == [""] || forall k :: 0 <= k < |BaseParts(taxon)| ==> BaseParts(taxon)[k] != ""
  {
    var ws := Words(taxon);
    var kept := Keep(ws, NotStopToken);
    WordsShape(taxon);
    if ws == [""] {
      assert kept == [""];
    } else {
      KeepPreserves(ws, NotStopToken, Filled);
      Take2Preserves(kept, Filled);
    }
    KeepPreserves(ws, NotStopToken, Clean);
    Take2Preserves(kept, Word);
  }

  predicate Filled(w: string) {
    w != ""
  }

  predicate Clean(w: string) {
    HasNoUpper(w) && HasNoSpace(w)
  }

  /** Joining at most two pieces. */
  lemma JoinUpToTwo(p: seq<string>, sep: string)
    requires |p| <= 2
    ensures p == [] ==> Join(p, sep) == ""
    ensures |p| == 1 ==> Join(p, sep) == p[0]
    ensures |p| == 2 ==> Join(p, sep) == p[0] + sep + p[1]
  {
    if |p| == 2 {
      assert p[1..] == [p[1]];
    }
  }

  /** The base form glues the kept words with single spaces. */
  lemma BaseKeyJoin(taxon: string)
    ensures BaseParts(taxon) == [] ==> BaseKey(taxon) == ""
    ensures |BaseParts(taxon)| == 1 ==> BaseKey(taxon) == BaseParts(taxon)[0]
    ensures |BaseParts(taxon)| == 2 ==> BaseKey(taxon) == BaseParts(taxon)[0] + " " + BaseParts(taxon)[1]
  {
    JoinUpToTwo(BaseParts(taxon), " ");
  }

  /** The base form splits back into exactly the kept words. */
  lemma BaseKeyWords(taxon: string)
    ensures BaseParts(taxon) == [] ==> SplitWs(BaseKey(taxon)) == [""]
    ensures BaseParts(taxon) != [] ==> SplitWs(BaseKey(taxon)) == BaseParts(taxon)
  {
    var p := BaseParts(taxon);
    BasePartsShape(taxon);
    BaseKeyJoin(taxon);
    if |p| == 1 {
      SplitWsNoSpace(p[0]);
    } else if |p| == 2 {
      SplitWsTwoWords(p[0], p[1]);
    }
  }

  /** Two words joined by a space: trimmed and lower case when the words are. */
  lemma TwoWordsNormal(a: string, c: string)
    requires a != [] && c != [] && HasNoUpper(a) && HasNoUpper(c) && HasNoSpace(a) && HasNoSpace(c)
    ensures IsTrimmed(a + " " + c) && HasNoUpper(a + " " + c)
  {
    var b := a + " " + c;
    assert b[0] == a[0] && b[|b| - 1] == c[|c| - 1];
    forall i | 0 <= i < |b| ensures !IsUpperAscii(b[i]) {
      if i < |a| {
        assert b[i] == a[i];
      } else if i > |a| {
        assert b[i] == c[i - |a| - 1];
      }
    }
  }

  lemma OneWordNormal(a: string)
    requires HasNoSpace(a)
    ensures IsTrimmed(a)
  {
  }

  /** The base form is already trimmed and lower case. */
  lemma BaseKeyNormal(taxon: string)
    ensures IsTrimmed(BaseKey(taxon)) && HasNoUpper(BaseKey(taxon))
  {
    var p := BaseParts(taxon);
    BasePartsShape(taxon);
    BaseKeyJoin(taxon);
    if |p| == 2 {
      TwoWordsNormal(p[0], p[1]);
    } else if |p| == 1 {
      OneWordNormal(p[0]);
    }
  }

  /** A trimmed lower-case name is split as it stands. */
  lemma WordsOfNormal(b: string)
    requires IsTrimmed(b) && HasNoUpper(b)
    ensures Words(b) == SplitWs(b)
  {
    TrimTrimmed(b);
    LowerOfLowerCase(b);
  }

  /** The words of the base form are the kept words. */
  lemma WordsOfBaseKey(taxon: string)
    ensures BaseParts(taxon) == [] ==> Words(BaseKey(taxon)) == [""]
    ensures BaseParts(taxon) != [] ==> Words(BaseKey(taxon)) == BaseParts(taxon)
  {
    BaseKeyNormal(taxon);
    WordsOfNormal(BaseKey(taxon));
    BaseKeyWords(taxon);
  }

  /** A name of at most two words, none a marker, keeps all its words. */
  lemma BasePartsAllKept(b: string)
    requires |Words(b)| <= 2
    requires forall k :: 0 <= k < |Words(b)| ==> NotStopToken(Words(b)[k])
    ensures BaseParts(b) == Words(b)
  {
    KeepAll(Words(b), NotStopToken);
  }

  /** When every word is a marker, the base form is blank and its only kept word is empty. */
  lemma BasePartsOfBlankBase(taxon: string)
    requires BaseParts(taxon) == []
    ensures BaseParts(BaseKey(taxon)) == [""]
  {
    var b := BaseKey(taxon);
    assert b == "";
    BlankBaseParts();
  }

  lemma BlankBaseParts()
    ensures BaseParts("") == [""]
  {
    var w := Words("");
    assert w == [""];
    assert NotStopToken(w[0]);
    BasePartsAllKept("");
  }

  /** Otherwise the kept words of the base form are the kept words. */
  lemma BasePartsOfBaseKey(taxon: string)
    requires BaseParts(taxon) != []
    ensures BaseParts(BaseKey(taxon)) == BaseParts(taxon)
  {
    var b := BaseKey(taxon);
    WordsOfBaseKey(taxon);
    BasePartsShape(taxon);
    BasePartsAllKept(b);
  }

  /** The base form of a base form is itself. */
  lemma BaseKeyIdempotent(taxon: string)
    ensures BaseKey(BaseKey(taxon)) == BaseKey(taxon)
  {
    if BaseParts(taxon) == [] {
      BasePartsOfBlankBase(taxon);
      assert Join([""], " ") == "";
    } else {
      BasePartsOfBaseKey(taxon);
    }
  }

  /** The base form is lower case and has at most two words, none of them a marker. */
  lemma BaseKeyShape(taxon: string)
    ensures HasNoUpper(BaseKey(taxon))
    ensures |SplitWs(BaseKey(taxon))| <= 2
    ensures forall k :: 0 <= k < |SplitWs(BaseKey(taxon))| ==> !IsStopToken(SplitWs(BaseKey(taxon))[k])
  {
    BasePartsShape(taxon);
    BaseKeyWords(taxon);
    BaseKeyNormal(taxon);
  }

  /** Non-empty space-free words joined by single spaces split back into those words. */
  lemma {:induction false} SplitWsJoin(ws: seq<string>)
    requires |ws| >= 1
    requires forall k :: 0 <= k < |ws| ==> ws[k] != [] && HasNoSpace(ws[k])
    ensures SplitWs(Join(ws, " ")) == ws
    decreases |ws|
  {
    if |ws| == 1 {
      SplitWsNoSpace(ws[0]);
    } else {
      var rest := Join(ws[1..], " ");
      SplitWsJoin(ws[1..]);
      JoinStarts(ws[1..]);
      assert (" " + rest)[1..] == rest;
      assert SplitWs(" " + rest) == [""] + ws[1..];
      SplitWsPrefix(ws[0], " " + rest);
      assert ws[0] + " " + rest == ws[0] + (" " + rest);
      assert ws[0] + "" == ws[0];
      assert [ws[0]] + ws[1..] == ws;
    }
  }

  lemma JoinStarts(ws: seq<string>)
    requires |ws| >= 1 && ws[0] != []
    ensures Join(ws, " ") != [] && Join(ws, " ")[0] == ws[0][0]
  {
  }

  /** The base form is read off the first two words that are not markers. */
  lemma BaseKeyOfKept(taxon: string, kept: seq<string>, genus: string, species: string)
    requires Keep(Words(taxon), NotStopToken) == kept
    requires |kept| >= 2 && kept[0] == genus && kept[1] == species
    ensures BaseKey(taxon) == genus + " " + species
  {
    var parts := Take2(kept);
    assert parts == [genus, species];
    JoinUpToTwo(parts, " ");
  }

  /** The words of a taxon whose lower-cased, trimmed text is spaced words are those words. */
  lemma WordsFromJoin(taxon: string, ws: seq<string>)
    requires |ws| >= 1 && forall k :: 0 <= k < |ws| ==> ws[k] != [] && HasNoSpace(ws[k])
    requires Lower(Trim(taxon)) == Join(ws, " ")
    ensures Words(taxon) == ws
  {
    SplitWsJoin(ws);
  }

  lemma AlliumTrim(taxon: string)
    requires taxon == "Allium sativum var. sativum"
    ensures Trim(taxon) == taxon
  {
    TrimTrimmed(taxon);
  }

  lemma AlliumLower(taxon: string)
    requires taxon == "Allium sativum var. sativum"
    ensures Lower(taxon) == "allium sativum var. sativum"
  {
  }

  lemma AlliumJoin(ws: seq<string>)
    requires ws == ["allium", "sativum", "var.", "sativum"]
    ensures Join(ws, " ") == "allium sativum var. sativum"
  {
    assert ws[3..] == ["sativum"];
    assert Join(ws[2..], " ") == "var." + " " + "sativum";
    assert Join(ws[1..], " ") == "sativum" + " " + "var. sativum";
    assert Join(ws, " ") == "allium" + " " + "sativum var. sativum";
  }

  lemma AlliumWordsClean(ws: seq<string>)
    requires ws == ["allium", "sativum", "var.", "sativum"]
    ensures forall k :: 0 <= k < |ws| ==> ws[k] != [] && HasNoSpace(ws[k])
  {
    assert HasNoSpace("allium") && HasNoSpace("sativum") && HasNoSpace("var.");
  }

  lemma AlliumKept(ws: seq<string>)
    requires ws == ["allium", "sativum", "var.", "sativum"]
    ensures Keep(ws, NotStopToken) == ["allium", "sativum", "sativum"]
  {
    assert NotStopToken("allium") && NotStopToken("sativum") && !NotStopToken("var.");
    assert Keep(ws[3..], NotStopToken) == ["sativum"];
    assert Keep(ws[2..], NotStopToken) == ["sativum"];
  }

  lemma AlliumSpaced()
    ensures "allium" + " " + "sativum" == "allium sativum"
  {
  }

  lemma AlliumExample()
    ensures BaseKey("Allium sativum var. sativum") == "allium sativum"
  {
    var taxon := "Allium sativum var. sativum";
    var ws := ["allium", "sativum", "var.", "sativum"];
    AlliumTrim(taxon);
    AlliumLower(taxon);
    AlliumJoin(ws);
    AlliumWordsClean(ws);
    AlliumKept(ws);
    WordsFromJoin(taxon, ws);
    BaseKeyOfKept(taxon, ["allium", "sativum", "sativum"], "allium", "sativum");
    AlliumSpaced();
  }

  /** Lower-casing a spaced pair lower-cases each side and keeps the space. */
  lemma LowerSpaced(a: string, b: string)
    ensures Lower(a + " " + b) == Lower(a) + " " + Lower(b)
  {
    LowerConcat(a + " ", b);
    LowerConcat(a, " ");
  }

  lemma MenthaHalves(taxon: string)
    requires taxon == "Mentha x piperita subsp. nothosubsp. piperita"
    ensures taxon == "Mentha x piperita" + " " + "subsp. nothosubsp. piperita"
  {
  }

  lemma MenthaTrim(taxon: string, a: string, b: string)
    requires a == "Mentha x piperita" && b == "subsp. nothosubsp. piperita"
    requires taxon == a + " " + b
    ensures Trim(taxon) == taxon
  {
    assert taxon[0] == a[0] == 'M';
    assert taxon[|taxon| - 1] == b[|b| - 1] == 'a';
    TrimTrimmed(taxon);
  }

  lemma MenthaFirstHalf(a: string, ws: seq<string>)
    requires a == "Mentha x piperita" && ws == ["mentha", "x", "piperita"]
    ensures Lower(a) == Join(ws, " ")
  {
    MenthaFirstLower(a);
    JoinThree(ws, "mentha", "x", "piperita");
  }

  lemma MenthaFirstLower(a: string)
    requires a == "Mentha x piperita"
    ensures Lower(a) == "mentha x piperita"
  {
  }

  /** Three words joined by spaces. */
  lemma JoinThree(ws: seq<string>, x: string, y: string, z: string)
    requires ws == [x, y, z]
    ensures Join(ws, " ") == x + " " + y + " " + z
  {
    assert ws[1..][1..] == [z];
    assert Join(ws[1..], " ") == y + " " + z;
  }

  lemma MenthaSecondHalf(b: string, ws: seq<string>)
    requires b == "subsp. nothosubsp. piperita" && ws == ["subsp.", "nothosubsp.", "piperita"]
    ensures Lower(b) == Join(ws, " ")
  {
    MenthaSecondLower(b);
    JoinThree(ws, "subsp.", "nothosubsp.", "piperita");
  }

  lemma MenthaSecondLower(b: string)
    requires b == "subsp. nothosubsp. piperita"
    ensures Lower(b) == "subsp. nothosubsp. piperita"
  {
  }

  /** Glues the two halves: the lower-cased, trimmed taxon is the spaced words of both. */
  lemma LowerTrimHalves(taxon: string, a: string, b: string, ws1: seq<string>, ws2: seq<string>)
    requires Trim(taxon) == taxon && taxon == a + " " + b
    requires ws1 != [] && ws2 != [] && Lower(a) == Join(ws1, " ") && Lower(b) == Join(ws2, " ")
    ensures Lower(Trim(taxon)) == Join(ws1 + ws2, " ")
  {
    LowerSpaced(a, b);
    JoinAppend(ws1, ws2, " ");
  }

  lemma MenthaWordsClean(ws: seq<string>)
    requires ws == ["mentha", "x", "piperita", "subsp.", "nothosubsp.", "piperita"]
    ensures forall k :: 0 <= k < |ws| ==> ws[k] != [] && HasNoSpace(ws[k])
  {
    assert HasNoSpace("mentha") && HasNoSpace("x") && HasNoSpace("piperita");
    assert HasNoSpace("subsp.") && HasNoSpace("nothosubsp.");
  }

  lemma MenthaKept(ws: seq<string>)
    requires ws == ["mentha", "x", "piperita", "subsp.", "nothosubsp.", "piperita"]
    ensures Keep(ws, NotStopToken) == ["mentha", "piperita", "piperita"]
  {
    assert NotStopToken("mentha") && NotStopToken("piperita");
    assert !NotStopToken("x") && !NotStopToken("subsp.") && !NotStopToken("nothosubsp.");
    assert Keep(ws[5..], NotStopToken) == ["piperita"];
    assert Keep(ws[4..], NotStopToken) == ["piperita"];
    assert Keep(ws[3..], NotStopToken) == ["piperita"];
    assert Keep(ws[2..], NotStopToken) == ["piperita", "piperita"];
    assert Keep(ws[1..], NotStopToken) == ["piperita", "piperita"];
  }

  lemma MenthaSpaced()
    ensures "mentha" + " " + "piperita" == "mentha piperita"
  {
  }

  /** The example of the build script: the hybrid marker and both ranks are dropped. */
  lemma MenthaExample()
    ensures BaseKey("Mentha x piperita subsp. nothosubsp. piperita") == "mentha piperita"
  {
    var taxon := "Mentha x piperita subsp. nothosubsp. piperita";
    var a, b := "Mentha x piperita", "subsp. nothosubsp. piperita";
    var ws1, ws2 := ["mentha", "x", "piperita"], ["subsp.", "nothosubsp.", "piperita"];
    var ws := ["mentha", "x", "piperita", "subsp.", "nothosubsp.", "piperita"];
    MenthaHalves(taxon);
    MenthaTrim(taxon, a, b);
    MenthaFirstHalf(a, ws1);
    MenthaSecondHalf(b, ws2);
    LowerTrimHalves(taxon, a, b, ws1, ws2);
    assert ws1 + ws2 == ws;
    MenthaWordsClean(ws);
    MenthaKept(ws);
    WordsFromJoin(taxon, ws);
    BaseKeyOfKept(taxon, ["mentha", "piperita", "piperita"], "mentha", "piperita");
    MenthaSpaced();
  }

}
