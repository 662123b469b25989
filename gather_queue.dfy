/**
  * The admin gather queue (src/lib/gather-queue.ts): a list of items waiting to be written up,
  * each tagged with a content type; the status of an item, read off the main data files and
  * the staging directories; and the light-weight index of the plant reference store. The
  * queue file is the state of a `Queue` object; the data files, the staging directories and
  * the reference store are parameters.
  */
module GatherQueue {
  import opened Text
  import opened Collections
  import SiteData
  import Assembler
  import Extract

  // ---- Content types ----

  datatype ContentType = Plant | Condition | Remedy | Ingredient | Preparation | Action | Term | Tea

  /** The content types in the order of the configuration table. */
  const AllTypes: seq<ContentType> := [Plant, Condition, Remedy, Ingredient, Preparation, Action, Term, Tea]

  /** The name a content type has in the queue file and in messages. */
  function TypeName(t: ContentType): string {
    match t
    case Plant => "plant"
    case Condition => "condition"
    case Remedy => "remedy"
    case Ingredient => "ingredient"
    case Preparation => "preparation"
    case Action => "action"
    case Term => "term"
    case Tea => "tea"
  }

  /** `getPluralDir`: the staging directory of a content type. */
  function PluralDir(t: ContentType): string {
    match t
    case Plant => "plants"
    case Condition => "conditions"
    case Remedy => "remedies"
    case Ingredient => "ingredients"
    case Preparation => "preparations"
    case Action => "actions"
    case Term => "glossary"
    case Tea => "teas"
  }

  /** Only plants, conditions, remedies and teas have a main data file. */
  predicate HasMainData(t: ContentType) {
    t == Plant || t == Condition || t == Remedy || t == Tea
  }

  /** No two content types share a staging directory. */
  lemma PluralDirsDistinct(t: ContentType, u: ContentType)
    requires t != u
    ensures PluralDir(t) != PluralDir(u)
  {
    assert |PluralDir(t)| != |PluralDir(u)| || PluralDir(t)[0] != PluralDir(u)[0];
  }

  // ---- Main data ids ----

  /** A main data file that exists: one that does not parse, or the ids of its items. */
  datatype MainFile = Unreadable | Ids(ids: seq<string>)

  /**
    * The main-data ids of a content type: none for a type without a main data file, none when
    * its file is absent (not in `files`) or unreadable, otherwise the ids of its items.
    */
  function MainIdsOf(t: ContentType, files: map<ContentType, MainFile>): (r: set<string>)
    ensures !HasMainData(t) ==> r == {}
    ensures HasMainData(t) && t in files && files[t].Ids? ==> forall x :: x in r <==> x in files[t].ids
  {
    if !HasMainData(t) || t !in files then {}
    else match files[t]
      case Unreadable => {}
      case Ids(ids) => set x | x in ids
  }

  /** The id index `getMainDataIds` builds: every content type to its main-data ids. */
  function MainIndex(files: map<ContentType, MainFile>): map<ContentType, set<string>> {
    map t | t in AllTypes :: MainIdsOf(t, files)
  }

  /** `getMainDataIds`: the loop over the configuration table. */
  method GetMainDataIds(files: map<ContentType, MainFile>) returns (cache: map<ContentType, set<string>>)
    ensures cache == MainIndex(files)
  {
    cache := map[];
    for k := 0 to |AllTypes|
      invariant forall t :: t in cache <==> t in AllTypes[..k]
      invariant forall t :: t in cache ==> cache[t] == MainIdsOf(t, files)
    {
      var t := AllTypes[k];
      assert forall u :: u in AllTypes[..k + 1] <==> u in AllTypes[..k] || u == t;
      if !HasMainData(t) {
        cache := cache[t := {}];
        continue;
      }
      if t in files {
        match files[t]
        case Unreadable =>
          cache := cache[t := {}];
        case Ids(ids) =>
          cache := cache[t := set x | x in ids];
      } else {
        cache := cache[t := {}];
      }
    }
    assert AllTypes[..|AllTypes|] == AllTypes;
  }

  // ---- Staged ids ----

  /** What reading a staged file gives: nothing usable, or its `id` and `latinName` fields. */
  datatype StagedContent = Unparsable | Parsed(id: Option<string>, latinName: Option<string>)

  datatype StagedFile = StagedFile(name: string, content: StagedContent)

  predicate IsJson(f: StagedFile) {
    EndsWith(f.name, ".json")
  }

  /** `file.replace(/\.json$/, "")`. */
  function Basename(f: StagedFile): (r: string)
    requires IsJson(f)
    ensures r + ".json" == f.name
  {
    f.name[..|f.name| - 5]
  }

  /** A field that is present and not the empty string (the script's truthiness test). */
  predicate Given(o: Option<string>) {
    o.Some? && o.value != ""
  }

  /**
    * The ids one `.json` file contributes: its basename, and when it parses its `id` and the
    * site slug of its `latinName`, each when given.
    */
  function FileIds(f: StagedFile): (r: set<string>)
    requires IsJson(f)
    ensures Basename(f) in r
    ensures f.content.Unparsable? ==> r == {Basename(f)}
  {
    {Basename(f)} +
      match f.content
      case Unparsable => {}
      case Parsed(id, latinName) =>
        (if Given(id) then {id.value} else {}) + (if Given(latinName) then {SiteData.SiteSlugify(latinName.value)} else {})
  }

  /** File `f` is a `.json` file that contributes id `x`. */
  predicate Contributes(f: StagedFile, x: string) {
    IsJson(f) && x in FileIds(f)
  }

  /** The staged ids of one directory: the ids of its `.json` files; other files are ignored. */
  function StagedIdsOf(files: seq<StagedFile>): set<string>
    decreases |files|
  {
    if files == [] then {}
    else
      var f := files[|files| - 1];
      StagedIdsOf(files[..|files| - 1]) + (if IsJson(f) then FileIds(f) else {})
  }

  lemma {:induction false} StagedIdsAny(files: seq<StagedFile>, x: string, f: StagedFile -> bool)
    requires forall g :: f(g) == Contributes(g, x)
    ensures x in StagedIdsOf(files) <==> Any(files, f)
    decreases |files|
  {
    if files != [] {
      StagedIdsAny(files[..|files| - 1], x, f);
    }
  }

  /** An id is staged exactly if some `.json` file of the directory contributes it. */
  lemma StagedIdsMembers(files: seq<StagedFile>, x: string)
    ensures x in StagedIdsOf(files) <==> exists j :: 0 <= j < |files| && Contributes(files[j], x)
  {
    var f := (g: StagedFile) => Contributes(g, x);
    StagedIdsAny(files, x, f);
    AnyExists(files, f);
  }

  /** The id index `getStagedIds` builds: every content type to the ids staged in its directory (none when it has none). */
  function StagedIndex(dirs: map<ContentType, seq<StagedFile>>): map<ContentType, set<string>> {
    map t | t in AllTypes :: if t in dirs then StagedIdsOf(dirs[t]) else {}
  }

  /** `getStagedIds`: for each content type, the loop over the files of its staging directory. */
  method GetStagedIds(dirs: map<ContentType, seq<StagedFile>>) returns (cache: map<ContentType, set<string>>)
    ensures cache == StagedIndex(dirs)
  {
    cache := map[];
    for k := 0 to |AllTypes|
      invariant forall t :: t in cache <==> t in AllTypes[..k]
      invariant forall t :: t in cache ==> cache[t] == if t in dirs then StagedIdsOf(dirs[t]) else {}
    {
      var t := AllTypes[k];
      assert forall u :: u in AllTypes[..k + 1] <==> u in AllTypes[..k] || u == t;
      var ids: set<string> := {};
      if t in dirs {
        ids := DirectoryIds(dirs[t]);
      }
      cache := cache[t := ids];
    }
    assert AllTypes[..|AllTypes|] == AllTypes;
  }

  /** The inner loop of `getStagedIds` over one directory. */
  method DirectoryIds(files: seq<StagedFile>) returns (ids: set<string>)
    ensures ids == StagedIdsOf(files)
  {
    ids := {};
    for j := 0 to |files|
      invariant ids == StagedIdsOf(files[..j])
    {
      assert files[..j + 1][..j] == files[..j];
      var file := files[j];
      if !EndsWith(file.name, ".json") {
        continue;
      }
      var basename := file.name[..|file.name| - 5];
      ids := ids + {basename};
      match file.content
      case Unparsable =>
      case Parsed(id, latinName) =>
        if Given(id) {
          ids := ids + {id.value};
        }
        if Given(latinName) {
          ids := ids + {SiteData.SiteSlugify(latinName.value)};
        }
    }
    assert files[..|files|] == files;
  }

  // ---- Item status ----

  datatype Item = Item(id: string, name: string, itemType: ContentType, addedAt: string, notes: Option<string>, dukeRef: Option<string>)

  datatype Status = Queued | Staged | Merged

  datatype ItemWithStatus = ItemWithStatus(item: Item, status: Status)

  /** `computeItemStatus`: merged if the id is a main-data id of its type, else staged if it is a staged id, else queued. */
  function ItemStatus(main: map<ContentType, set<string>>, staged: map<ContentType, set<string>>, item: Item): Status {
    if item.itemType in main && item.id in main[item.itemType] then Merged
    else if item.itemType in staged && item.id in staged[item.itemType] then Staged
    else Queued
  }

  /**
    * Read off the files: an item is merged exactly if its id is among the main-data ids of its
    * type, staged exactly if it is not and some `.json` file of its type's staging directory
    * contributes its id, and queued otherwise.
    */
  lemma StatusFromFiles(files: map<ContentType, MainFile>, dirs: map<ContentType, seq<StagedFile>>, item: Item)
    ensures ItemStatus(MainIndex(files), StagedIndex(dirs), item) ==
      if item.id in MainIdsOf(item.itemType, files) then Merged
      else if item.itemType in dirs && exists j :: 0 <= j < |dirs[item.itemType]| && Contributes(dirs[item.itemType][j], item.id) then Staged
      else Queued
  {
    var t := item.itemType;
    assert t in AllTypes by {
      match t
      case Plant => assert AllTypes[0] == t;
      case Condition => assert AllTypes[1] == t;
      case Remedy => assert AllTypes[2] == t;
      case Ingredient => assert AllTypes[3] == t;
      case Preparation => assert AllTypes[4] == t;
      case Action => assert AllTypes[5] == t;
      case Term => assert AllTypes[6] == t;
      case Tea => assert AllTypes[7] == t;
    }
    if t in dirs {
      StagedIdsMembers(dirs[t], item.id);
    }
  }

  /** An item of a type without a main data file is never reported merged. */
  lemma NeverMergedWithoutMainData(files: map<ContentType, MainFile>, dirs: map<ContentType, seq<StagedFile>>, item: Item)
    requires !HasMainData(item.itemType)
    ensures ItemStatus(MainIndex(files), StagedIndex(dirs), item) != Merged
  {
    StatusFromFiles(files, dirs, item);
  }

  /** A staged file named after the item's id makes the item staged, unless it is already merged. */
  lemma StagedByFileName(files: map<ContentType, MainFile>, dirs: map<ContentType, seq<StagedFile>>, item: Item, j: nat)
    requires item.itemType in dirs && j < |dirs[item.itemType]|
    requires dirs[item.itemType][j].name == item.id + ".json"
    requires item.id !in MainIdsOf(item.itemType, files)
    ensures ItemStatus(MainIndex(files), StagedIndex(dirs), item) == Staged
  {
    var f := dirs[item.itemType][j];
    assert f.name[|f.name| - 5..] == ".json";
    assert Basename(f) == item.id;
    StatusFromFiles(files, dirs, item);
  }

  // ---- Listing the queue ----

  /** `items.map(item => ({ ...item, status: computeItemStatus(item) }))`. */
  function WithStatus(items: seq<Item>, main: map<ContentType, set<string>>, staged: map<ContentType, set<string>>): (r: seq<ItemWithStatus>)
    ensures |r| == |items|
    ensures forall k :: 0 <= k < |items| ==> r[k].item == items[k] && r[k].status == ItemStatus(main, staged, items[k])
    decreases |items|
  {
    if items == [] then []
    else [ItemWithStatus(items[0], ItemStatus(main, staged, items[0]))] + WithStatus(items[1..], main, staged)
  }

  function OfType(t: ContentType): Item -> bool {
    (x: Item) => x.itemType == t
  }

  function TaggedOfType(t: ContentType): ItemWithStatus -> bool {
    (x: ItemWithStatus) => x.item.itemType == t
  }

  /** Filtering the listing by type is listing the queue's items of that type. */
  lemma {:induction false} ByTypeIsListingOfType(items: seq<Item>, main: map<ContentType, set<string>>, staged: map<ContentType, set<string>>, t: ContentType)
    ensures Keep(WithStatus(items, main, staged), TaggedOfType(t)) == WithStatus(Keep(items, OfType(t)), main, staged)
    decreases |items|
  {
    if items != [] {
      ByTypeIsListingOfType(items[1..], main, staged, t);
      assert WithStatus(items, main, staged)[1..] == WithStatus(items[1..], main, staged);
    }
  }

  // ---- The queue file ----

  /** Some item of the queue has this id and type. */
  predicate InQueue(items: seq<Item>, id: string, t: ContentType) {
    exists k :: 0 <= k < |items| && items[k].id == id && items[k].itemType == t
  }

  /** No two items share an id and a type. */
  predicate Unique(items: seq<Item>)
    decreases |items|
  {
    items == [] || (!InQueue(items[1..], items[0].id, items[0].itemType) && Unique(items[1..]))
  }

  /** The queue after `addToGatherQueue`: unchanged when the id and type are queued, otherwise extended at the end. */
  function Added(items: seq<Item>, item: Item): seq<Item> {
    if InQueue(items, item.id, item.itemType) then items else items + [item]
  }

  function Other(id: string, t: ContentType): Item -> bool {
    (x: Item) => !(x.id == id && x.itemType == t)
  }

  /** The filtered queue of `removeFromGatherQueue`. */
  function Removed(items: seq<Item>, id: string, t: ContentType): seq<Item> {
    Keep(items, Other(id, t))
  }

  lemma InQueueTail(items: seq<Item>, id: string, t: ContentType)
    requires items != []
    ensures InQueue(items, id, t) <==> (items[0].id == id && items[0].itemType == t) || InQueue(items[1..], id, t)
  {
    if InQueue(items, id, t) && !(items[0].id == id && items[0].itemType == t) {
      var k :| 0 <= k < |items| && items[k].id == id && items[k].itemType == t;
      assert items[1..][k - 1] == items[k];
    }
    if InQueue(items[1..], id, t) {
      var k :| 0 <= k < |items[1..]| && items[1..][k].id == id && items[1..][k].itemType == t;
      assert items[k + 1] == items[1..][k];
    }
  }

  lemma InQueueAppend(items: seq<Item>, item: Item, id: string, t: ContentType)
    ensures InQueue(items + [item], id, t) <==> InQueue(items, id, t) || (item.id == id && item.itemType == t)
  {
    var s := items + [item];
    if InQueue(s, id, t) {
      var k :| 0 <= k < |s| && s[k].id == id && s[k].itemType == t;
      if k < |items| {
        assert items[k] == s[k];
      }
    }
    if InQueue(items, id, t) {
      var k :| 0 <= k < |items| && items[k].id == id && items[k].itemType == t;
      assert s[k] == items[k];
    }
    assert s[|items|] == item;
  }

  /** Adding keeps the queue free of duplicate (id, type) pairs. */
  lemma {:induction false} AddedUnique(items: seq<Item>, item: Item)
    requires Unique(items)
    ensures Unique(Added(items, item))
    decreases |items|
  {
    if !InQueue(items, item.id, item.itemType) && items != [] {
      InQueueTail(items, item.id, item.itemType);
      AddedUnique(items[1..], item);
      assert (items + [item])[1..] == items[1..] + [item];
      InQueueAppend(items[1..], item, items[0].id, items[0].itemType);
    }
  }

  /** Removing drops exactly the items with that id and type and keeps the others in order. */
  lemma RemovedItems(items: seq<Item>, id: string, t: ContentType)
    ensures IsSubsequence(Removed(items, id, t), items)
    ensures forall x :: x in Removed(items, id, t) <==> x in items && !(x.id == id && x.itemType == t)
    ensures !InQueue(Removed(items, id, t), id, t)
  {
    KeepIsSubsequence(items, Other(id, t));
    KeepMembers(items, Other(id, t));
  }

  /** The filter shortens the queue exactly when some item has that id and type. */
  lemma {:induction false} RemovedShorter(items: seq<Item>, id: string, t: ContentType)
    ensures |Removed(items, id, t)| == |items| <==> !InQueue(items, id, t)
    ensures !InQueue(items, id, t) ==> Removed(items, id, t) == items
    decreases |items|
  {
    if items != [] {
      InQueueTail(items, id, t);
      RemovedShorter(items[1..], id, t);
    }
  }

  /** Removing keeps the queue free of duplicate (id, type) pairs. */
  lemma {:induction false} RemovedUnique(items: seq<Item>, id: string, t: ContentType)
    requires Unique(items)
    ensures Unique(Removed(items, id, t))
    decreases |items|
  {
    if items != [] {
      var rest := items[1..];
      RemovedUnique(rest, id, t);
      if Other(id, t)(items[0]) {
        var r := Removed(items, id, t);
        assert r[1..] == Removed(rest, id, t);
        RemovedItems(rest, id, t);
        forall k | 0 <= k < |r[1..]|
          ensures !(r[1..][k].id == items[0].id && r[1..][k].itemType == items[0].itemType)
        {
          assert r[1..][k] in rest;
          var j :| 0 <= j < |rest| && rest[j] == r[1..][k];
        }
      }
    }
  }

  /** In a queue without duplicates, removing a queued pair removes exactly one item. */
  lemma {:induction false} RemoveOneOfUnique(items: seq<Item>, id: string, t: ContentType)
    requires Unique(items) && InQueue(items, id, t)
    ensures |Removed(items, id, t)| == |items| - 1
    decreases |items|
  {
    InQueueTail(items, id, t);
    if items[0].id == id && items[0].itemType == t {
      RemovedShorter(items[1..], id, t);
    } else {
      RemoveOneOfUnique(items[1..], id, t);
    }
  }

  /** Removing what was just added gives back the queue it was added to. */
  lemma AddThenRemove(items: seq<Item>, item: Item)
    requires !InQueue(items, item.id, item.itemType)
    ensures Removed(Added(items, item), item.id, item.itemType) == items
  {
    var f := Other(item.id, item.itemType);
    RemovedShorter(items, item.id, item.itemType);
    KeepAppend(items, item, f);
  }

  lemma {:induction false} KeepAppend(items: seq<Item>, item: Item, f: Item -> bool)
    ensures Keep(items + [item], f) == Keep(items, f) + (if f(item) then [item] else [])
    decreases |items|
  {
    if items == [] {
      assert [] + [item] == [item];
    } else {
      assert (items + [item])[1..] == items[1..] + [item];
      KeepAppend(items[1..], item, f);
    }
  }

  /** `{ success, error? }`. */
  datatype Outcome = Outcome(success: bool, error: Option<string>)

  function AlreadyQueued(id: string, t: ContentType): string {
    "Item \"" + id + "\" of type \"" + TypeName(t) + "\" already in queue"
  }

  function NotQueued(id: string, t: ContentType): string {
    "Item \"" + id + "\" of type \"" + TypeName(t) + "\" not found in queue"
  }

  /** The queue file: its list of items. */
  class Queue {
    var items: seq<Item>

    constructor (items: seq<Item>)
      ensures this.items == items
    {
      this.items := items;
    }

    /** `addToGatherQueue`: refuses a queued (id, type), otherwise appends the item. */
    method Add(item: Item) returns (r: Outcome)
      modifies this
      ensures r.success <==> !InQueue(old(items), item.id, item.itemType)
      ensures r.success ==> r.error.None? && items == old(items) + [item]
      ensures !r.success ==> r.error == Some(AlreadyQueued(item.id, item.itemType)) && items == old(items)
      ensures items == Added(old(items), item)
      ensures old(Unique(items)) ==> Unique(items)
    {
      if Unique(items) {
        AddedUnique(items, item);
      }
      var present := InQueue(items, item.id, item.itemType);
      if present {
        return Outcome(false, Some(AlreadyQueued(item.id, item.itemType)));
      }
      items := items + [item];
      return Outcome(true, None);
    }

    /** `removeFromGatherQueue`: drops every item with the id and type; fails, writing nothing, when there is none. */
    method Remove(id: string, t: ContentType) returns (r: Outcome)
      modifies this
      ensures r.success <==> InQueue(old(items), id, t)
      ensures r.success ==> r.error.None? && items == Removed(old(items), id, t)
      ensures !r.success ==> r.error == Some(NotQueued(id, t)) && items == old(items)
      ensures !InQueue(items, id, t)
      ensures old(Unique(items)) ==> Unique(items)
    {
      if Unique(items) {
        RemovedUnique(items, id, t);
      }
      var filtered := Keep(items, Other(id, t));
      RemovedShorter(items, id, t);
      RemovedItems(items, id, t);
      if |filtered| == |items| {
        return Outcome(false, Some(NotQueued(id, t)));
      }
      items := filtered;
      return Outcome(true, None);
    }

    /** `getGatherQueue`: every item in queue order, with its status. */
    function Listing(main: map<ContentType, set<string>>, staged: map<ContentType, set<string>>): (r: seq<ItemWithStatus>)
      reads this
      ensures |r| == |items|
      ensures forall k :: 0 <= k < |r| ==> r[k].item == items[k] && r[k].status == ItemStatus(main, staged, items[k])
    {
      WithStatus(items, main, staged)
    }

    /** `getGatherQueueByType`: the listing of the items of one type, in queue order. */
    function ListingByType(main: map<ContentType, set<string>>, staged: map<ContentType, set<string>>, t: ContentType): (r: seq<ItemWithStatus>)
      reads this
      ensures r == WithStatus(Keep(items, OfType(t)), main, staged)
      ensures IsSubsequence(r, Listing(main, staged))
    {
      ByTypeIsListingOfType(items, main, staged, t);
      KeepIsSubsequence(WithStatus(items, main, staged), TaggedOfType(t));
      Keep(Listing(main, staged), TaggedOfType(t))
    }
  }

  // ---- The reference store index ----

  /** `DukePlantSummary`. */
  datatype Summary = Summary(slug: string, latinName: string, family: string, commonNames: seq<string>, constituentCount: nat)

  /** The number of compounds over all parts, `Object.values(constituents).reduce((sum, arr) => sum + arr.length, 0)`. */
  ghost function PartsTotal(parts: map<string, seq<string>>): nat
    decreases |parts|
  {
    if parts == map[] then 0
    else
      var p :| p in parts;
      assert |parts - {p}| < |parts| by {
        assert (parts - {p}).Keys == parts.Keys - {p};
      }
      |parts[p]| + PartsTotal(parts - {p})
  }

  /** The total does not depend on the order in which the parts are summed. */
  lemma {:induction false} PartsTotalSplit(parts: map<string, seq<string>>, p: string)
    requires p in parts
    ensures PartsTotal(parts) == |parts[p]| + PartsTotal(parts - {p})
    decreases |parts|
  {
    var q :| q in parts && PartsTotal(parts) == |parts[q]| + PartsTotal(parts - {q});
    if q != p {
      assert (parts - {q}).Keys == parts.Keys - {q};
      assert (parts - {p}).Keys == parts.Keys - {p};
      PartsTotalSplit(parts - {q}, p);
      PartsTotalSplit(parts - {p}, q);
      assert parts - {q} - {p} == parts - {p} - {q};
    }
  }

  /** Every part's compounds are counted: the total is at least each part's count, and 0 only when every part is empty. */
  lemma {:induction false} PartsTotalBounds(parts: map<string, seq<string>>)
    ensures forall p :: p in parts ==> |parts[p]| <= PartsTotal(parts)
    ensures PartsTotal(parts) == 0 <==> forall p :: p in parts ==> parts[p] == []
    decreases |parts|
  {
    if parts != map[] {
      var p :| p in parts;
      PartsTotalSplit(parts, p);
      var rest := parts - {p};
      assert (parts - {p}).Keys == parts.Keys - {p};
      PartsTotalBounds(rest);
      forall q | q in parts && q != p ensures |parts[q]| <= PartsTotal(parts) {
        assert q in rest;
      }
    }
  }

  /** The loop the `reduce` call amounts to. */
  method CountConstituents(parts: map<string, seq<string>>) returns (n: nat)
    ensures n == PartsTotal(parts)
  {
    n := 0;
    var rest := parts;
    while rest != map[]
      invariant n + PartsTotal(rest) == PartsTotal(parts)
      decreases |rest|
    {
      var p :| p in rest;
      PartsTotalSplit(rest, p);
      assert (rest - {p}).Keys == rest.Keys - {p};
      n := n + |rest[p]|;
      rest := rest - {p};
    }
  }

  /** The summary of one store entry: an empty latin name falls back to the slug, absent fields to empty. */
  ghost function SummaryOf(slug: string, e: Assembler.Entry): Summary {
    Summary(
      slug,
      if e.latinName != "" then e.latinName else slug,
      if e.family.Some? then e.family.value else "",
      Assembler.OrEmpty(e.commonNames),
      if e.constituents.Some? then PartsTotal(e.constituents.value) else 0)
  }

  method Summarize(slug: string, e: Assembler.Entry) returns (s: Summary)
    ensures s == SummaryOf(slug, e)
  {
    var count := 0;
    if e.constituents.Some? {
      count := CountConstituents(e.constituents.value);
    }
    s := Summary(
      slug,
      if e.latinName != "" then e.latinName else slug,
      if e.family.Some? then e.family.value else "",
      Assembler.OrEmpty(e.commonNames),
      count);
  }

  ghost function Summaries(duke: Extract.Duke): (r: seq<Summary>)
    ensures |r| == |duke|
    ensures forall i :: 0 <= i < |duke| ==> r[i] == SummaryOf(duke[i].0, duke[i].1)
  {
    seq(|duke|, i requires 0 <= i < |duke| => SummaryOf(duke[i].0, duke[i].1))
  }

  /** No summary's latin name comes after a later one's. */
  predicate SortedByName(s: seq<Summary>) {
    forall i, j :: 0 <= i < j < |s| ==> !Less(s[j].latinName, s[i].latinName)
  }

  /** Places `x` after every summary whose name does not come after its own, so equal names keep their order. */
  function InsertByName(x: Summary, s: seq<Summary>): (r: seq<Summary>)
    requires SortedByName(s)
    ensures SortedByName(r)
    ensures multiset(r) == multiset(s) + multiset{x}
    decreases |s|
  {
    if s == [] then [x]
    else if Less(x.latinName, s[0].latinName) then
      PrependSorted(x, s);
      [x] + s
    else
      var t := InsertByName(x, s[1..]);
      assert s == [s[0]] + s[1..];
      NoneBefore(s, x, t);
      [s[0]] + t
  }

  lemma PrependSorted(x: Summary, s: seq<Summary>)
    requires SortedByName(s) && s != [] && Less(x.latinName, s[0].latinName)
    ensures SortedByName([x] + s)
  {
    var r := [x] + s;
    forall j | 0 < j < |r| ensures !Less(r[j].latinName, x.latinName) {
      if Less(r[j].latinName, x.latinName) {
        assert r[j] == s[j - 1];
        LessTransitive(r[j].latinName, x.latinName, s[0].latinName);
        if j == 1 {
          LessIrreflexive(s[0].latinName);
        }
      }
    }
  }

  lemma NoneBefore(s: seq<Summary>, x: Summary, t: seq<Summary>)
    requires SortedByName(s) && s != [] && !Less(x.latinName, s[0].latinName)
    requires SortedByName(t) && multiset(t) == multiset(s[1..]) + multiset{x}
    ensures SortedByName([s[0]] + t)
  {
    var r := [s[0]] + t;
    forall j | 0 < j < |r| ensures !Less(r[j].latinName, s[0].latinName) {
      assert r[j] == t[j - 1];
      assert t[j - 1] in multiset(t);
      if t[j - 1] != x {
        assert t[j - 1] in multiset(s[1..]);
        var k :| 0 <= k < |s[1..]| && s[1..][k] == t[j - 1];
        assert s[k + 1] == t[j - 1];
      }
    }
  }

  /**
    * `summaries.sort((a, b) => a.latinName.localeCompare(b.latinName))`, a stable sort, with
    * the character order standing in for the locale's.
    */
  function SortByName(s: seq<Summary>): (r: seq<Summary>)
    ensures SortedByName(r)
    ensures multiset(r) == multiset(s)
    decreases |s|
  {
    if s == [] then []
    else
      assert s == s[..|s| - 1] + [s[|s| - 1]];
      InsertByName(s[|s| - 1], SortByName(s[..|s| - 1]))
  }

  /** The index `getDukePlantIndex` returns for a reference file, or for none. */
  ghost function DukeIndex(duke: Option<Extract.Duke>): seq<Summary> {
    if duke.None? then [] else SortByName(Summaries(duke.value))
  }

  /** `getDukePlantIndex`, with the parsed reference file as the parameter (absent when it cannot be read). */
  method GetDukePlantIndex(duke: Option<Extract.Duke>) returns (index: seq<Summary>)
    ensures index == DukeIndex(duke)
  {
    if duke.None? {
      return [];
    }
    var entries := duke.value;
    var summaries: seq<Summary> := [];
    for i := 0 to |entries|
      invariant summaries == Summaries(entries)[..i]
    {
      var s := Summarize(entries[i].0, entries[i].1);
      summaries := summaries + [s];
    }
    assert summaries == Summaries(entries);
    index := SortByName(summaries);
  }

  /** One summary per store entry, sorted by latin name. */
  lemma DukeIndexShape(duke: Extract.Duke)
    ensures |DukeIndex(Some(duke))| == |duke|
    ensures SortedByName(DukeIndex(Some(duke)))
    ensures forall i :: 0 <= i < |duke| ==> SummaryOf(duke[i].0, duke[i].1) in DukeIndex(Some(duke))
    ensures forall s :: s in DukeIndex(Some(duke)) ==> exists i :: 0 <= i < |duke| && s == SummaryOf(duke[i].0, duke[i].1)
  {
    var r := DukeIndex(Some(duke));
    var all := Summaries(duke);
    assert |multiset(r)| == |multiset(all)|;
    forall i | 0 <= i < |duke| ensures SummaryOf(duke[i].0, duke[i].1) in r {
      assert all[i] in multiset(all);
    }
    forall s | s in r ensures exists i :: 0 <= i < |duke| && s == SummaryOf(duke[i].0, duke[i].1) {
      assert s in multiset(all);
      var i :| 0 <= i < |all| && all[i] == s;
    }
  }
}
