/**
 * `AssetComparer` (backend/analysis.py): turns a path file, or the paths a
 * new version adds over an old one, into the Markdown report, using the
 * character directory of a `CharacterManager`.
 */
module Analysis {
  import opened Wrappers
  import opened Ordering
  import opened Tally
  import opened Text
  import opened DataModels
  import opened PathSets
  import opened Structure
  import opened Report

  class AssetComparer {
    const charManager: CharacterManager

    constructor (charManager: CharacterManager)
      ensures this.charManager == charManager
    {
      this.charManager := charManager;
    }

    /** The tree `_filter_and_structure_paths` builds from `paths` with the directory as it is now. */
    ghost function TreeFor(paths: set<string>, squads: Option<seq<string>>, characters: Option<seq<string>>,
                           keyword: Option<string>): Tree
      reads charManager
    {
      StructureOf(SortSet(KeywordFilter(paths, keyword)), charManager.charData, TargetSet(squads), TargetSet(characters))
    }

    /**
     * `_filter_and_structure_paths`: keyword filter, then each path in
     * ascending order goes under the first directory entry that claims it
     * (`Structure.Placement`).
     */
    method FilterAndStructure(paths: set<string>, squads: Option<seq<string>>, characters: Option<seq<string>>,
                              keyword: Option<string>) returns (tree: Tree)
      ensures tree == TreeFor(paths, squads, characters, keyword)
    {
      var filtered := KeywordFilter(paths, keyword);
      var targetChars := TargetSet(characters);
      var targetSquads := TargetSet(squads);
      var entries := charManager.charData;
      var ordered := SortSet(filtered);
      tree := map[];
      for i := 0 to |ordered|
        invariant tree == StructureOf(ordered[..i], entries, targetSquads, targetChars)
      {
        StructureSnoc(ordered, i, entries, targetSquads, targetChars);
        var slot := FindSlot(ordered[i], entries, targetSquads, targetChars);
        if slot.Some? {
          tree := Add(tree, slot.value, ordered[i]);
        }
      }
      assert ordered[..|ordered|] == ordered;
    }

    /**
     * `format_report_to_markdown`: squads and then characters in ascending
     * order, a running total of the assets, and the total inserted as the
     * second line.
     */
    method FormatReport(tree: Tree, title: string) returns (text: string)
      ensures text == Render(tree, title)
    {
      if tree == map[] {
        return NotFound;
      }
      var lines, total := AddSquadLines([TitleLine(title), Rule], tree, SortSet(tree.Keys));
      TreeCountInOrder(tree);
      lines := lines[..1] + [TotalLine(total)] + lines[1..];
      text := Join(lines, "\n");
    }

    /**
     * `generate_single_report`: every path of the file, filtered and grouped,
     * under the title `'<file name>' 분석 결과`. A missing file reports that
     * nothing was found.
     */
    method GenerateSingleReport(file: Option<seq<string>>, fileName: string, squads: Option<seq<string>>,
                                characters: Option<seq<string>>, keyword: Option<string>) returns (text: string)
      ensures text == Render(TreeFor(ReadPathFile(file), squads, characters, keyword), "'" + fileName + "' 분석 결과")
      ensures file.None? ==> text == NotFound
    {
      var allPaths := ReadPathFile(file);
      var structured := FilterAndStructure(allPaths, squads, characters, keyword);
      text := FormatReport(structured, "'" + fileName + "' 분석 결과");
    }

    /**
     * `generate_comparison_report`: the paths the new file adds over the old
     * one, filtered and grouped, under the title `'<new>' vs '<old>' 비교 결과`.
     * Comparing a file with itself reports that nothing was found.
     */
    method GenerateComparisonReport(newFile: Option<seq<string>>, newName: string, oldFile: Option<seq<string>>,
                                    oldName: string, squads: Option<seq<string>>, characters: Option<seq<string>>,
                                    keyword: Option<string>) returns (text: string)
      ensures text == Render(TreeFor(CompareVersions(newFile, oldFile), squads, characters, keyword),
                             "'" + newName + "' vs '" + oldName + "' 비교 결과")
      ensures newFile == oldFile ==> text == NotFound
    {
      var addedPaths := CompareVersions(newFile, oldFile);
      var structured := FilterAndStructure(addedPaths, squads, characters, keyword);
      text := FormatReport(structured, "'" + newName + "' vs '" + oldName + "' 비교 결과");
    }
  }

  /**
   * The scan of `_filter_and_structure_paths` for one path: the first
   * directory entry whose code occurs in the path and whose character passes
   * both filters; with no such entry, the catch-all bucket when no filter is
   * set, and otherwise nowhere.
   */
  method FindSlot(path: string, entries: seq<Entry>, targetSquads: set<string>, targetChars: set<string>)
    returns (slot: Option<Slot>)
    ensures slot == Placement(path, entries, targetSquads, targetChars)
  {
    var j := 0;
    while j < |entries|
      invariant 0 <= j <= |entries|
      invariant FirstHit(path, entries, targetSquads, targetChars, j) == FirstHit(path, entries, targetSquads, targetChars, 0)
    {
      var entry := entries[j];
      if CodeOccurs(entry.code, path) && Accepts(entry.info, targetSquads, targetChars) {
        PlacementAtHit(path, entries, targetSquads, targetChars, j);
        return Some(Slot(entry.info.squad, entry.info.name));
      }
      j := j + 1;
    }
    PlacementNoHit(path, entries, targetSquads, targetChars);
    if targetSquads == {} && targetChars == {} {
      return Some(Slot(OtherSquad, OtherName));
    }
    return None;
  }

  /**
   * The outer loop of `format_report_to_markdown`: each squad in ascending
   * order, its header and underline, then its characters; the second result
   * is the running total of the assets written.
   */
  method AddSquadLines(lines: seq<string>, tree: Tree, squads: seq<string>) returns (r: seq<string>, total: int)
    requires forall s :: s in squads ==> s in tree
    ensures r == AppendSquads(lines, tree, squads)
    ensures total == SeqSum(squads, SquadTotals(tree))
  {
    r := lines;
    total := 0;
    for i := 0 to |squads|
      invariant r == AppendSquads(lines, tree, squads[..i])
      invariant total == SeqSum(squads[..i], SquadTotals(tree))
    {
      var squad := squads[i];
      AppendSquadsSnoc(lines, tree, squads, i);
      SeqSumSnoc(squads, SquadTotals(tree), i);
      var squadCount;
      r, squadCount := AddCharacterLines(r + [SquadHeader(squad), SquadRule(squad)], tree[squad]);
      total := total + squadCount;
    }
    assert squads[..|squads|] == squads;
  }

  /**
   * The inner loops of `format_report_to_markdown` for one squad: each
   * character in ascending name order, its header, then its assets; the
   * second result is the number of assets written.
   */
  method AddCharacterLines(lines: seq<string>, inner: map<string, seq<string>>) returns (r: seq<string>, count: int)
    ensures r == AppendCharacters(lines, inner, SortSet(inner.Keys))
    ensures count == SquadCount(inner)
  {
    r := lines;
    count := 0;
    var names := SortSet(inner.Keys);
    for j := 0 to |names|
      invariant CharactersWritten(lines, inner, j, r, count)
    {
      CharactersWrittenStep(lines, inner, j, r, count);
      var name := names[j];
      var assets := inner[name];
      count := count + |assets|;
      r := AddAssetLines(r + [CharHeader(name, |assets|)], assets);
    }
    CharactersWrittenAll(lines, inner, r, count);
  }

  /** The innermost loop of `format_report_to_markdown`: one indented line per asset. */
  method AddAssetLines(lines: seq<string>, assets: seq<string>) returns (r: seq<string>)
    ensures r == AppendAssets(lines, assets)
  {
    r := lines;
    for k := 0 to |assets|
      invariant r == AppendAssets(lines, assets[..k])
    {
      AppendAssetsSnoc(lines, assets, k);
      r := r + [AssetLine(assets[k])];
    }
    assert assets[..|assets|] == assets;
  }

  /**
   * With no keyword and no filter, the report of a set of paths is "nothing
   * found" exactly when the set is empty, and otherwise its total is the
   * number of paths: nothing is dropped.
   */
  lemma UnfilteredReportKeepsEveryPath(paths: set<string>, t: seq<Entry>, title: string)
    ensures var tree := StructureOf(SortSet(KeywordFilter(paths, None)), t, {}, {});
            (Render(tree, title) == NotFound <==> paths == {})
            && TreeCount(tree) == |paths|
            && AssetLineCount(ReportLines(tree, title)) == |paths|
  {
    var ordered := SortSet(paths);
    var tree := StructureOf(ordered, t, {}, {});
    StructureEmpty(ordered, t, {}, {});
    StructureCount(ordered, t, {}, {});
    RenderHead(tree, title);
    ReportCountsItsAssets(tree, title);
  }
}
