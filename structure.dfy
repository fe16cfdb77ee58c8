/**
 * The filtering and grouping step of `AssetComparer._filter_and_structure_paths`
 * (backend/analysis.py): keep the paths that contain the keyword, then file
 * each path, in ascending order, under the squad and name of the first
 * directory entry whose code occurs in it and that passes the squad and
 * character filters. With no filter at all, a path no code matches goes under
 * a catch-all bucket; with a filter, it is dropped.
 */
module Structure {
  import opened Wrappers
  import opened Ordering
  import opened Tally
  import opened Text
  import opened DataModels

  /** The catch-all squad and name for paths no character claims. */
  const OtherSquad: string := "기타"
  const OtherName: string := "공용/미분류 에셋"

  /** `report_data`: squad, then character name, then the paths filed there in filing order. */
  type Tree = map<string, map<string, seq<string>>>

  /** A place in the tree. */
  datatype Slot = Slot(squad: string, name: string)

  /** `if keyword:` a non-empty keyword keeps the paths that contain it, ignoring case. */
  function KeywordFilter(paths: set<string>, keyword: Option<string>): (r: set<string>)
    ensures r <= paths
    ensures keyword.None? || keyword.value == "" ==> r == paths
  {
    if keyword.None? || keyword.value == "" then paths
    else set p | p in paths && Contains(Lower(p), Lower(keyword.value))
  }

  /** The keyword's case does not matter, and a path kept by a keyword contains it in some casing. */
  lemma KeywordFilterIgnoresCase(paths: set<string>, keyword: string)
    ensures KeywordFilter(paths, Some(keyword)) == KeywordFilter(paths, Some(Lower(keyword)))
    ensures forall p :: p in paths && Contains(p, keyword) ==> p in KeywordFilter(paths, Some(keyword))
  {
    LowerIdempotent(keyword);
    forall p | p in paths && Contains(p, keyword)
      ensures p in KeywordFilter(paths, Some(keyword))
    {
      LowerContains(p, keyword);
    }
  }

  /** A longer keyword that contains a shorter one keeps no path the shorter one drops. */
  lemma KeywordFilterNarrows(paths: set<string>, short: string, long: string)
    requires Contains(long, short)
    ensures KeywordFilter(paths, Some(long)) <= KeywordFilter(paths, Some(short))
  {
    LowerContains(long, short);
    forall p | p in KeywordFilter(paths, Some(long))
      ensures p in KeywordFilter(paths, Some(short))
    {
      if short != "" {
        ContainsTransitive(Lower(p), Lower(long), Lower(short));
      }
    }
  }

  /** `set(xs) if xs else set()`: the requested names, or no filter. */
  function TargetSet(xs: Option<seq<string>>): (r: set<string>)
    ensures forall x :: x in r <==> xs.Some? && x in xs.value
  {
    if xs.None? then {} else set x | x in xs.value
  }

  /** The code stands in the path between underscores or between slashes, ignoring case. */
  predicate CodeOccurs(code: string, path: string)
  {
    Contains(Lower(path), "_" + Lower(code) + "_") || Contains(Lower(path), "/" + Lower(code) + "/")
  }

  /** The character passes the squad filter and the character filter; an empty filter passes everyone. */
  predicate Accepts(info: CharInfo, targetSquads: set<string>, targetChars: set<string>)
  {
    (targetSquads == {} || info.squad in targetSquads) && (targetChars == {} || info.name in targetChars)
  }

  /** The entry claims the path: its code occurs in it and it passes both filters. */
  predicate Hit(path: string, e: Entry, targetSquads: set<string>, targetChars: set<string>)
  {
    CodeOccurs(e.code, path) && Accepts(e.info, targetSquads, targetChars)
  }

  /**
   * The position of the first entry at or after `k` that claims the path: a
   * matching code whose character fails a filter does not stop the search.
   */
  function FirstHit(path: string, t: seq<Entry>, ts: set<string>, tc: set<string>, k: nat): (r: Option<nat>)
    requires k <= |t|
    ensures r.None? <==> forall j :: k <= j < |t| ==> !Hit(path, t[j], ts, tc)
    ensures r.Some? ==> k <= r.value < |t| && Hit(path, t[r.value], ts, tc)
    ensures r.Some? ==> forall j :: k <= j < r.value ==> !Hit(path, t[j], ts, tc)
    decreases |t| - k
  {
    if k == |t| then None
    else if Hit(path, t[k], ts, tc) then Some(k)
    else FirstHit(path, t, ts, tc, k + 1)
  }

  /**
   * Where the path is filed: under the first entry that claims it; failing
   * that, under the catch-all bucket when neither filter is set; otherwise nowhere.
   */
  function Placement(path: string, t: seq<Entry>, ts: set<string>, tc: set<string>): Option<Slot>
  {
    match FirstHit(path, t, ts, tc, 0)
    case Some(i) => Some(Slot(t[i].info.squad, t[i].info.name))
    case None => if ts == {} && tc == {} then Some(Slot(OtherSquad, OtherName)) else None
  }

  /** The paths filed under `slot` so far; a missing bucket reads as empty, as with `defaultdict`. */
  function Bucket(tree: Tree, slot: Slot): seq<string>
  {
    if slot.squad in tree && slot.name in tree[slot.squad] then tree[slot.squad][slot.name] else []
  }

  predicate HasSlot(tree: Tree, slot: Slot)
  {
    slot.squad in tree && slot.name in tree[slot.squad]
  }

  /** `report_data[squad][name].append(path)`. */
  function Add(tree: Tree, slot: Slot, path: string): Tree
  {
    var inner := if slot.squad in tree then tree[slot.squad] else map[];
    tree[slot.squad := inner[slot.name := Bucket(tree, slot) + [path]]]
  }

  /** The tree after filing `paths` one after the other. */
  function StructureOf(paths: seq<string>, t: seq<Entry>, ts: set<string>, tc: set<string>): Tree
  {
    if paths == [] then map[]
    else
      var prev := StructureOf(paths[..|paths| - 1], t, ts, tc);
      var path := paths[|paths| - 1];
      match Placement(path, t, ts, tc)
      case None => prev
      case Some(slot) => Add(prev, slot, path)
  }

  /** The paths of `paths` that are filed under `slot`, in order. */
  function FiledUnder(paths: seq<string>, t: seq<Entry>, ts: set<string>, tc: set<string>, slot: Slot): (r: seq<string>)
    ensures forall p :: p in r <==> p in paths && Placement(p, t, ts, tc) == Some(slot)
  {
    if paths == [] then []
    else
      var path := paths[|paths| - 1];
      assert paths == paths[..|paths| - 1] + [path];
      FiledUnder(paths[..|paths| - 1], t, ts, tc, slot) + (if Placement(path, t, ts, tc) == Some(slot) then [path] else [])
  }

  /** The paths of `paths` that are filed anywhere. */
  function Filed(paths: seq<string>, t: seq<Entry>, ts: set<string>, tc: set<string>): (r: seq<string>)
    ensures |r| <= |paths|
    ensures forall p :: p in r <==> p in paths && Placement(p, t, ts, tc).Some?
  {
    if paths == [] then []
    else
      var path := paths[|paths| - 1];
      assert paths == paths[..|paths| - 1] + [path];
      Filed(paths[..|paths| - 1], t, ts, tc) + (if Placement(path, t, ts, tc).Some? then [path] else [])
  }

  lemma AddBucket(tree: Tree, slot: Slot, path: string, other: Slot)
    ensures Bucket(Add(tree, slot, path), other) == if other == slot then Bucket(tree, slot) + [path] else Bucket(tree, other)
    ensures HasSlot(Add(tree, slot, path), other) <==> HasSlot(tree, other) || other == slot
    ensures Add(tree, slot, path).Keys == tree.Keys + {slot.squad}
  {
  }

  /**
   * Each bucket holds exactly the paths filed under its slot, in input order;
   * a bucket exists exactly when something is filed under it, so no bucket is
   * empty.
   */
  lemma {:induction false} StructureBuckets(paths: seq<string>, t: seq<Entry>, ts: set<string>, tc: set<string>, slot: Slot)
    ensures Bucket(StructureOf(paths, t, ts, tc), slot) == FiledUnder(paths, t, ts, tc, slot)
    ensures HasSlot(StructureOf(paths, t, ts, tc), slot) <==> FiledUnder(paths, t, ts, tc, slot) != []
    decreases |paths|
  {
    if paths != [] {
      var front := paths[..|paths| - 1];
      var path := paths[|paths| - 1];
      StructureBuckets(front, t, ts, tc, slot);
      var prev := StructureOf(front, t, ts, tc);
      match Placement(path, t, ts, tc)
      case None =>
      case Some(s) =>
        AddBucket(prev, s, path, slot);
    }
  }

  /** Every squad in the tree has at least one character with at least one path. */
  lemma {:induction false} StructureSquadsNonEmpty(paths: seq<string>, t: seq<Entry>, ts: set<string>, tc: set<string>, squad: string)
    requires squad in StructureOf(paths, t, ts, tc)
    ensures exists name :: name in StructureOf(paths, t, ts, tc)[squad] && StructureOf(paths, t, ts, tc)[squad][name] != []
    decreases |paths|
  {
    var front := paths[..|paths| - 1];
    var path := paths[|paths| - 1];
    var prev := StructureOf(front, t, ts, tc);
    match Placement(path, t, ts, tc)
    case None =>
      StructureSquadsNonEmpty(front, t, ts, tc, squad);
    case Some(s) =>
      var tree := Add(prev, s, path);
      if s.squad == squad {
        assert tree[squad][s.name] == Bucket(prev, s) + [path];
      } else {
        StructureSquadsNonEmpty(front, t, ts, tc, squad);
        assert tree[squad] == prev[squad];
      }
  }

  /** Filing ascending paths keeps every bucket strictly ascending. */
  lemma {:induction false} FiledUnderAscending(paths: seq<string>, t: seq<Entry>, ts: set<string>, tc: set<string>, slot: Slot)
    requires StrictlyAscending(paths)
    ensures StrictlyAscending(FiledUnder(paths, t, ts, tc, slot))
    decreases |paths|
  {
    if paths != [] {
      var front := paths[..|paths| - 1];
      var path := paths[|paths| - 1];
      FiledUnderAscending(front, t, ts, tc, slot);
      var prev := FiledUnder(front, t, ts, tc, slot);
      if Placement(path, t, ts, tc) == Some(slot) {
        forall i | 0 <= i < |prev| ensures Less(prev[i], path) {
          assert prev[i] in prev;
          var j :| 0 <= j < |front| && front[j] == prev[i];
          assert paths[j] == front[j];
        }
      }
    }
  }

  /**
   * Each bucket of the tree built from the keyword-filtered paths in ascending
   * order exists only with something in it, holds its paths in strictly
   * ascending order, and holds only paths that passed the keyword filter and
   * were filed under it.
   */
  lemma FilteredTreeBuckets(paths: set<string>, keyword: Option<string>, t: seq<Entry>, ts: set<string>, tc: set<string>,
                            slot: Slot)
    ensures var tree := StructureOf(SortSet(KeywordFilter(paths, keyword)), t, ts, tc);
            && (HasSlot(tree, slot) <==> Bucket(tree, slot) != [])
            && StrictlyAscending(Bucket(tree, slot))
            && forall p :: p in Bucket(tree, slot) ==> p in KeywordFilter(paths, keyword) && Placement(p, t, ts, tc) == Some(slot)
  {
    var ordered := SortSet(KeywordFilter(paths, keyword));
    StructureBuckets(ordered, t, ts, tc, slot);
    FiledUnderAscending(ordered, t, ts, tc, slot);
  }

  /** One append and then `break`: a path sits in one bucket of the tree at most. */
  lemma StructurePlacesOnce(paths: seq<string>, t: seq<Entry>, ts: set<string>, tc: set<string>, p: string, a: Slot, b: Slot)
    requires p in Bucket(StructureOf(paths, t, ts, tc), a) && p in Bucket(StructureOf(paths, t, ts, tc), b)
    ensures a == b
  {
    StructureBuckets(paths, t, ts, tc, a);
    StructureBuckets(paths, t, ts, tc, b);
  }

  /**
   * A path is filed under an entry's slot only when that entry claims it and
   * no earlier entry does; when no entry claims it, it goes to the catch-all
   * bucket if no filter is set and is dropped otherwise.
   */
  lemma PlacementSpec(path: string, t: seq<Entry>, ts: set<string>, tc: set<string>)
    ensures Placement(path, t, ts, tc).None? <==> (ts != {} || tc != {}) && forall j :: 0 <= j < |t| ==> !Hit(path, t[j], ts, tc)
    ensures forall i :: 0 <= i < |t| && Hit(path, t[i], ts, tc) && (forall j :: 0 <= j < i ==> !Hit(path, t[j], ts, tc))
              ==> Placement(path, t, ts, tc) == Some(Slot(t[i].info.squad, t[i].info.name))
    ensures ((forall j :: 0 <= j < |t| ==> !Hit(path, t[j], ts, tc)) && ts == {} && tc == {})
              ==> Placement(path, t, ts, tc) == Some(Slot(OtherSquad, OtherName))
  {
    var r := FirstHit(path, t, ts, tc, 0);
    forall i | 0 <= i < |t| && Hit(path, t[i], ts, tc) && (forall j :: 0 <= j < i ==> !Hit(path, t[j], ts, tc))
      ensures Placement(path, t, ts, tc) == Some(Slot(t[i].info.squad, t[i].info.name))
    {
      assert r.Some?;
    }
  }

  /** With a filter set, every filed path sits under a character that passes the filters. */
  lemma FiledPassesFilters(path: string, t: seq<Entry>, ts: set<string>, tc: set<string>)
    requires ts != {} || tc != {}
    requires Placement(path, t, ts, tc).Some?
    ensures var slot := Placement(path, t, ts, tc).value;
            (ts == {} || slot.squad in ts) && (tc == {} || slot.name in tc)
    ensures exists i :: 0 <= i < |t| && CodeOccurs(t[i].code, path) && t[i].info == CharInfo(Placement(path, t, ts, tc).value.name, Placement(path, t, ts, tc).value.squad)
  {
    var i := FirstHit(path, t, ts, tc, 0).value;
    assert t[i].info == CharInfo(t[i].info.name, t[i].info.squad);
  }

  /** The number of paths filed under one squad, over all its characters. */
  function SquadCount(inner: map<string, seq<string>>): (r: int)
    ensures r >= 0
    decreases |inner|
  {
    if inner == map[] then 0
    else
      var k := Min(inner.Keys);
      assert |inner - {k}| < |inner| by {
        assert (inner - {k}).Keys == inner.Keys - {k};
      }
      |inner[k]| + SquadCount(inner - {k})
  }

  /** A squad's count is the sum of its characters' list lengths, in ascending name order. */
  lemma {:induction false} SquadCountIsKeySum(inner: map<string, seq<string>>)
    ensures SquadCount(inner) == KeySum(Sizes(inner))
    decreases |inner|
  {
    if inner != map[] {
      var k := Min(inner.Keys);
      var rest := inner - {k};
      assert rest.Keys == inner.Keys - {k};
      SquadCountIsKeySum(rest);
      assert SortSet(inner.Keys) == [k] + SortSet(rest.Keys);
      SeqSumCons(k, SortSet(rest.Keys), Sizes(inner));
      SeqSumFrame(SortSet(rest.Keys), Sizes(rest), Sizes(inner));
    }
  }

  /** The number of paths per squad. */
  function SquadTotals(tree: Tree): (r: map<string, int>)
    ensures r.Keys == tree.Keys
    ensures forall s :: s in r ==> r[s] >= 0
  {
    map s | s in tree :: SquadCount(tree[s])
  }

  /** The number of paths in the tree, summed in ascending squad order. */
  function TreeCount(tree: Tree): (r: int)
    ensures r >= 0
  {
    KeySumNonNegative(SquadTotals(tree));
    KeySum(SquadTotals(tree))
  }

  /** The count of a tree is the sum of its squads' counts in ascending squad order. */
  lemma TreeCountInOrder(tree: Tree)
    ensures TreeCount(tree) == SeqSum(SortSet(tree.Keys), SquadTotals(tree))
  {
  }

  /** Appending one path to a character's list adds one to the squad's count. */
  lemma InnerCountAdd(inner: map<string, seq<string>>, name: string, path: string)
    ensures SquadCount(inner[name := (if name in inner then inner[name] else []) + [path]])
            == SquadCount(inner) + 1
  {
    var inner' := inner[name := (if name in inner then inner[name] else []) + [path]];
    var prior := if name in inner then |inner[name]| else 0;
    assert Sizes(inner') == Sizes(inner)[name := prior + 1];
    KeySumUpdate(Sizes(inner), name, prior + 1);
    SquadCountIsKeySum(inner);
    SquadCountIsKeySum(inner');
  }

  lemma SquadTotalAt(tree: Tree, slot: Slot, path: string, s: string)
    requires s in Add(tree, slot, path)
    ensures SquadTotals(Add(tree, slot, path))[s]
            == if s == slot.squad then (if s in tree then SquadTotals(tree)[s] else 0) + 1 else SquadTotals(tree)[s]
  {
    var tree' := Add(tree, slot, path);
    if s == slot.squad {
      var inner: map<string, seq<string>> := if slot.squad in tree then tree[slot.squad] else map[];
      InnerCountAdd(inner, slot.name, path);
      assert tree'[s] == inner[slot.name := (if slot.name in inner then inner[slot.name] else []) + [path]];
    } else {
      assert tree'[s] == tree[s];
    }
  }

  /** Filing one path adds one to its squad's count and leaves the other squads' counts alone. */
  lemma SquadTotalsAdd(tree: Tree, slot: Slot, path: string)
    ensures SquadTotals(Add(tree, slot, path))
            == SquadTotals(tree)[slot.squad := (if slot.squad in tree then SquadTotals(tree)[slot.squad] else 0) + 1]
  {
    var lhs := SquadTotals(Add(tree, slot, path));
    var rhs := SquadTotals(tree)[slot.squad := (if slot.squad in tree then SquadTotals(tree)[slot.squad] else 0) + 1];
    assert lhs.Keys == rhs.Keys;
    forall s | s in lhs ensures lhs[s] == rhs[s] {
      SquadTotalAt(tree, slot, path, s);
    }
  }

  /** Filing one path adds one to the count. */
  lemma TreeCountAdd(tree: Tree, slot: Slot, path: string)
    ensures TreeCount(Add(tree, slot, path)) == TreeCount(tree) + 1
  {
    var totals := SquadTotals(tree);
    var v := (if slot.squad in tree then totals[slot.squad] else 0) + 1;
    var totals' := SquadTotals(Add(tree, slot, path));
    SquadTotalsAdd(tree, slot, path);
    KeySumUpdate(totals, slot.squad, v);
    assert KeySum(totals') == KeySum(totals[slot.squad := v]);
  }

  /**
   * The tree holds one path per filed path. With no filter set, no path is
   * dropped, so the tree holds every input path.
   */
  lemma {:induction false} StructureCount(paths: seq<string>, t: seq<Entry>, ts: set<string>, tc: set<string>)
    ensures TreeCount(StructureOf(paths, t, ts, tc)) == |Filed(paths, t, ts, tc)|
    ensures ts == {} && tc == {} ==> TreeCount(StructureOf(paths, t, ts, tc)) == |paths|
    decreases |paths|
  {
    if paths == [] {
      var empty: Tree := map[];
      assert SquadTotals(empty) == map[];
      assert SortSet({}) == [];
    } else {
      var front := paths[..|paths| - 1];
      var path := paths[|paths| - 1];
      StructureCount(front, t, ts, tc);
      match Placement(path, t, ts, tc)
      case None =>
      case Some(s) =>
        TreeCountAdd(StructureOf(front, t, ts, tc), s, path);
    }
  }

  /** The tree is empty exactly when no path is filed; with no filter set, exactly when there is no path. */
  lemma {:induction false} StructureEmpty(paths: seq<string>, t: seq<Entry>, ts: set<string>, tc: set<string>)
    ensures StructureOf(paths, t, ts, tc) == map[] <==> Filed(paths, t, ts, tc) == []
    ensures ts == {} && tc == {} ==> (StructureOf(paths, t, ts, tc) == map[] <==> paths == [])
    decreases |paths|
  {
    if paths != [] {
      var front := paths[..|paths| - 1];
      var path := paths[|paths| - 1];
      StructureEmpty(front, t, ts, tc);
      match Placement(path, t, ts, tc)
      case None =>
      case Some(s) =>
        assert s.squad in Add(StructureOf(front, t, ts, tc), s, path);
    }
  }

  /** Filing one more path of a list. */
  lemma StructureSnoc(paths: seq<string>, i: nat, t: seq<Entry>, ts: set<string>, tc: set<string>)
    requires i < |paths|
    ensures StructureOf(paths[..i + 1], t, ts, tc)
            == match Placement(paths[i], t, ts, tc)
               case None => StructureOf(paths[..i], t, ts, tc)
               case Some(slot) => Add(StructureOf(paths[..i], t, ts, tc), slot, paths[i])
  {
    assert paths[..i + 1][..i] == paths[..i];
  }

  /** The search stopped at an entry that claims the path, with no claim before it. */
  lemma PlacementAtHit(path: string, t: seq<Entry>, ts: set<string>, tc: set<string>, j: nat)
    requires j < |t| && Hit(path, t[j], ts, tc)
    requires FirstHit(path, t, ts, tc, j) == FirstHit(path, t, ts, tc, 0)
    ensures Placement(path, t, ts, tc) == Some(Slot(t[j].info.squad, t[j].info.name))
  {
  }

  /** The search ran past the last entry without a claim. */
  lemma PlacementNoHit(path: string, t: seq<Entry>, ts: set<string>, tc: set<string>)
    requires FirstHit(path, t, ts, tc, |t|) == FirstHit(path, t, ts, tc, 0)
    ensures Placement(path, t, ts, tc) == if ts == {} && tc == {} then Some(Slot(OtherSquad, OtherName)) else None
  {
  }
}
