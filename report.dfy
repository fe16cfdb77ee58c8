/**
 * The Markdown report of `AssetComparer.format_report_to_markdown`
 * (backend/analysis.py), as the list of lines it joins with newlines: a
 * title, the total number of assets, a rule, then for each squad in
 * ascending order a header and an underline, and for each of its characters
 * in ascending order a header with the asset count followed by one line per
 * asset in filing order. An empty tree yields a fixed "nothing found" line.
 */
module Report {
  import opened Ordering
  import opened Tally
  import opened Text
  import opened Structure

  const NotFound: string := "### 지정한 조건에 해당하는 에셋을 찾지 못했습니다."

  const Rule: string := Repeat('=', 30)

  const AssetPrefix: string := "  - "

  function TitleLine(title: string): string
  {
    "# 📝 " + title
  }

  function TotalLine(total: nat): string
  {
    "총 " + DecimalString(total) + "개의 에셋이 발견되었습니다."
  }

  function SquadHeader(squad: string): string
  {
    "\n## 🏢 부대: " + squad
  }

  /** A line of dashes eight longer than the squad name. */
  function SquadRule(squad: string): string
  {
    Repeat('-', |squad| + 8)
  }

  function CharHeader(name: string, count: nat): string
  {
    "\n### 👤 " + name + " (" + DecimalString(count) + "개)"
  }

  function AssetLine(asset: string): string
  {
    AssetPrefix + asset
  }

  /** `lines` with one line appended per asset, in list order. */
  function AppendAssets(lines: seq<string>, assets: seq<string>): (r: seq<string>)
    ensures |r| == |lines| + |assets|
    ensures r[..|lines|] == lines
  {
    if assets == [] then lines
    else AppendAssets(lines, assets[..|assets| - 1]) + [AssetLine(assets[|assets| - 1])]
  }

  /** `lines` with, for each named character in turn, its header and then its assets. */
  function AppendCharacters(lines: seq<string>, inner: map<string, seq<string>>, names: seq<string>): (r: seq<string>)
    requires forall n :: n in names ==> n in inner
    ensures |r| >= |lines| + |names|
    ensures r[..|lines|] == lines
  {
    if names == [] then lines
    else
      var name := names[|names| - 1];
      var prev := AppendCharacters(lines, inner, names[..|names| - 1]);
      assert (prev + [CharHeader(name, |inner[name]|)])[..|lines|] == prev[..|lines|];
      AppendAssets(prev + [CharHeader(name, |inner[name]|)], inner[name])
  }

  /** `lines` with, for each named squad in turn, its header, its underline and its characters in ascending order. */
  function AppendSquads(lines: seq<string>, tree: Tree, squads: seq<string>): (r: seq<string>)
    requires forall s :: s in squads ==> s in tree
    ensures |r| >= |lines| + 2 * |squads|
    ensures r[..|lines|] == lines
  {
    if squads == [] then lines
    else
      var squad := squads[|squads| - 1];
      var prev := AppendSquads(lines, tree, squads[..|squads| - 1]);
      assert (prev + [SquadHeader(squad), SquadRule(squad)])[..|lines|] == prev[..|lines|];
      AppendCharacters(prev + [SquadHeader(squad), SquadRule(squad)], tree[squad], SortSet(tree[squad].Keys))
  }

  /** The lines gathered before the total is known: title, rule, then every squad in ascending order. */
  function BodyLines(tree: Tree, title: string): (r: seq<string>)
    ensures |r| >= 2 && r[..2] == [TitleLine(title), Rule]
  {
    AppendSquads([TitleLine(title), Rule], tree, SortSet(tree.Keys))
  }

  /** The report's lines: the total goes in as the second line once it is known. */
  function ReportLines(tree: Tree, title: string): seq<string>
  {
    var body := BodyLines(tree, title);
    body[..1] + [TotalLine(TreeCount(tree))] + body[1..]
  }

  /** The report text. */
  function Render(tree: Tree, title: string): string
  {
    if tree == map[] then NotFound else Join(ReportLines(tree, title), "\n")
  }

  /** The number of asset lines among `lines`. */
  function AssetLineCount(lines: seq<string>): nat
  {
    if lines == [] then 0
    else AssetLineCount(lines[..|lines| - 1]) + (if StartsWith(lines[|lines| - 1], AssetPrefix) then 1 else 0)
  }

  lemma {:induction false} AssetLineCountConcat(a: seq<string>, b: seq<string>)
    ensures AssetLineCount(a + b) == AssetLineCount(a) + AssetLineCount(b)
    decreases |b|
  {
    if b == [] {
      assert a + b == a;
    } else {
      var front := b[..|b| - 1];
      assert (a + b)[..|a + b| - 1] == a + front;
      assert (a + b)[|a + b| - 1] == b[|b| - 1];
      AssetLineCountConcat(a, front);
    }
  }

  /** A line that does not open with a space is not an asset line. */
  lemma NotAssetLine(line: string)
    requires line != [] && line[0] != ' '
    ensures AssetLineCount([line]) == 0
  {
    assert [line][..0] == [];
  }

  lemma {:induction false} AppendAssetsCount(lines: seq<string>, assets: seq<string>)
    ensures AssetLineCount(AppendAssets(lines, assets)) == AssetLineCount(lines) + |assets|
    decreases |assets|
  {
    if assets != [] {
      var front := assets[..|assets| - 1];
      var line := AssetLine(assets[|assets| - 1]);
      AppendAssetsCount(lines, front);
      AssetLineCountConcat(AppendAssets(lines, front), [line]);
      assert line[..|AssetPrefix|] == AssetPrefix;
    }
  }

  lemma {:induction false} AppendCharactersCount(lines: seq<string>, inner: map<string, seq<string>>, names: seq<string>)
    requires forall n :: n in names ==> n in inner
    ensures AssetLineCount(AppendCharacters(lines, inner, names)) == AssetLineCount(lines) + SeqSum(names, Sizes(inner))
    decreases |names|
  {
    if names != [] {
      var front := names[..|names| - 1];
      var name := names[|names| - 1];
      var header := CharHeader(name, |inner[name]|);
      var prev := AppendCharacters(lines, inner, front);
      AppendCharactersCount(lines, inner, front);
      AssetLineCountConcat(prev, [header]);
      AppendAssetsCount(prev + [header], inner[name]);
      assert header[0] == '\n';
      NotAssetLine(header);
    }
  }

  /** A squad's header and underline are not asset lines. */
  lemma SquadHeadCount(squad: string)
    ensures AssetLineCount([SquadHeader(squad), SquadRule(squad)]) == 0
  {
    AssetLineCountConcat([SquadHeader(squad)], [SquadRule(squad)]);
    assert SquadHeader(squad)[0] == '\n';
    NotAssetLine(SquadHeader(squad));
    assert SquadRule(squad)[0] == '-';
    NotAssetLine(SquadRule(squad));
  }

  /** The lines of one squad hold as many asset lines as the squad has paths. */
  lemma AppendSquadCount(lines: seq<string>, tree: Tree, squad: string)
    requires squad in tree
    ensures AssetLineCount(AppendCharacters(lines + [SquadHeader(squad), SquadRule(squad)], tree[squad], SortSet(tree[squad].Keys)))
            == AssetLineCount(lines) + SquadTotals(tree)[squad]
  {
    var inner := tree[squad];
    AssetLineCountConcat(lines, [SquadHeader(squad), SquadRule(squad)]);
    SquadHeadCount(squad);
    AppendCharactersCount(lines + [SquadHeader(squad), SquadRule(squad)], inner, SortSet(inner.Keys));
    SquadCountIsKeySum(inner);
  }

  lemma {:induction false} AppendSquadsCount(lines: seq<string>, tree: Tree, squads: seq<string>)
    requires forall s :: s in squads ==> s in tree
    ensures AssetLineCount(AppendSquads(lines, tree, squads)) == AssetLineCount(lines) + SeqSum(squads, SquadTotals(tree))
    decreases |squads|
  {
    if squads != [] {
      var front := squads[..|squads| - 1];
      AppendSquadsCount(lines, tree, front);
      AppendSquadCount(AppendSquads(lines, tree, front), tree, squads[|squads| - 1]);
    }
  }

  /** Before the total goes in, the lines hold one asset line per path of the tree. */
  lemma BodyCount(tree: Tree, title: string)
    ensures AssetLineCount(BodyLines(tree, title)) == TreeCount(tree)
  {
    AppendSquadsCount([TitleLine(title), Rule], tree, SortSet(tree.Keys));
    TopCount(title);
  }

  /** The title and the rule are not asset lines. */
  lemma TopCount(title: string)
    ensures AssetLineCount([TitleLine(title), Rule]) == 0
  {
    var title' := TitleLine(title);
    AssetLineCountConcat([title'], [Rule]);
    assert title'[0] == '#' && Rule[0] == '=';
    NotAssetLine(title');
    NotAssetLine(Rule);
    assert [title'] + [Rule] == [title', Rule];
  }

  /** Inserting a line that is not an asset line leaves the count alone. */
  lemma InsertCount(lines: seq<string>, line: string)
    requires |lines| >= 1 && line != [] && line[0] != ' '
    ensures AssetLineCount(lines[..1] + [line] + lines[1..]) == AssetLineCount(lines)
  {
    NotAssetLine(line);
    AssetLineCountConcat(lines[..1], lines[1..]);
    assert lines[..1] + lines[1..] == lines;
    AssetLineCountConcat(lines[..1], [line]);
    AssetLineCountConcat(lines[..1] + [line], lines[1..]);
  }

  /** The total printed at the top is the number of asset lines in the report. */
  lemma ReportCountsItsAssets(tree: Tree, title: string)
    ensures AssetLineCount(ReportLines(tree, title)) == TreeCount(tree)
  {
    var total := TotalLine(TreeCount(tree));
    assert total[0] == '총';
    BodyCount(tree, title);
    InsertCount(BodyLines(tree, title), total);
  }

  lemma JoinHead(lines: seq<string>, sep: string)
    requires |lines| > 3
    ensures Join(lines, sep) == lines[0] + sep + lines[1] + sep + lines[2] + sep + Join(lines[3..], sep)
  {
    JoinSplit(lines, sep, 3);
    var head := lines[..3];
    assert head[..2][..1] == [lines[0]];
    assert Join(head[..2], sep) == lines[0] + sep + lines[1];
  }

  lemma ReportLinesHead(tree: Tree, title: string)
    requires tree != map[]
    ensures var lines := ReportLines(tree, title);
            |lines| > 3 && lines[0] == TitleLine(title) && lines[1] == TotalLine(TreeCount(tree)) && lines[2] == Rule
  {
    var k :| k in tree;
    var squads := SortSet(tree.Keys);
    assert k in squads;
    var body := AppendSquads([TitleLine(title), Rule], tree, squads);
    assert |body| >= 4;
    assert body[..2][0] == body[0] && body[..2][1] == body[1];
  }

  /** A text opening with the title line is not the "nothing found" line. */
  lemma OpensWith(head: string, rest: string, title: string)
    requires StartsWith(head, TitleLine(title))
    ensures StartsWith(head + rest, head)
    ensures head + rest != NotFound
  {
    assert (head + rest)[..|head|] == head;
    assert (head + rest)[1] == TitleLine(title)[1] == ' ';
    assert NotFound[1] == '#';
  }

  /**
   * An empty tree reports that nothing was found; any other tree opens with
   * its title, the line with its total, and the rule.
   */
  lemma RenderHead(tree: Tree, title: string)
    ensures tree == map[] ==> Render(tree, title) == NotFound
    ensures tree != map[] ==> StartsWith(Render(tree, title), TitleLine(title) + "\n" + TotalLine(TreeCount(tree)) + "\n" + Rule)
    ensures Render(tree, title) == NotFound <==> tree == map[]
  {
    if tree != map[] {
      var lines := ReportLines(tree, title);
      ReportLinesHead(tree, title);
      JoinHead(lines, "\n");
      var head := TitleLine(title) + "\n" + TotalLine(TreeCount(tree)) + "\n" + Rule;
      assert head[..|TitleLine(title)|] == TitleLine(title);
      OpensWith(head, "\n" + Join(lines[3..], "\n"), title);
    }
  }

  lemma AppendAssetsSnoc(lines: seq<string>, assets: seq<string>, k: nat)
    requires k < |assets|
    ensures AppendAssets(lines, assets[..k + 1]) == AppendAssets(lines, assets[..k]) + [AssetLine(assets[k])]
  {
    assert assets[..k + 1][..k] == assets[..k];
  }

  lemma AppendCharactersSnoc(lines: seq<string>, inner: map<string, seq<string>>, names: seq<string>, j: nat)
    requires j < |names| && forall n :: n in names ==> n in inner
    ensures forall n :: n in names[..j + 1] ==> n in inner
    ensures AppendCharacters(lines, inner, names[..j + 1])
            == AppendAssets(AppendCharacters(lines, inner, names[..j]) + [CharHeader(names[j], |inner[names[j]]|)], inner[names[j]])
  {
    assert names[..j + 1][..j] == names[..j];
  }

  lemma AppendSquadsSnoc(lines: seq<string>, tree: Tree, squads: seq<string>, i: nat)
    requires i < |squads| && forall s :: s in squads ==> s in tree
    ensures forall s :: s in squads[..i + 1] ==> s in tree
    ensures AppendSquads(lines, tree, squads[..i + 1])
            == AppendCharacters(AppendSquads(lines, tree, squads[..i]) + [SquadHeader(squads[i]), SquadRule(squads[i])],
                                tree[squads[i]], SortSet(tree[squads[i]].Keys))
  {
    assert squads[..i + 1][..i] == squads[..i];
  }

  /**
   * The state after the first `j` characters of `inner`, in ascending name
   * order, have been written after `lines`: the lines so far and the assets counted.
   */
  ghost predicate CharactersWritten(lines: seq<string>, inner: map<string, seq<string>>, j: nat, r: seq<string>, count: int)
  {
    var names := SortSet(inner.Keys);
    j <= |names| && r == AppendCharacters(lines, inner, names[..j]) && count == SeqSum(names[..j], Sizes(inner))
  }

  /** Writing the next character's header and assets, and adding its count, keeps `CharactersWritten`. */
  lemma CharactersWrittenStep(lines: seq<string>, inner: map<string, seq<string>>, j: nat, r: seq<string>, count: int)
    requires CharactersWritten(lines, inner, j, r, count) && j < |SortSet(inner.Keys)|
    ensures SortSet(inner.Keys)[j] in inner
    ensures var name := SortSet(inner.Keys)[j];
            CharactersWritten(lines, inner, j + 1, AppendAssets(r + [CharHeader(name, |inner[name]|)], inner[name]),
                              count + |inner[name]|)
  {
    var names := SortSet(inner.Keys);
    AppendCharactersSnoc(lines, inner, names, j);
    SeqSumSnoc(names, Sizes(inner), j);
  }

  /** Once every character is written, the lines are the squad's and the count is the squad's. */
  lemma CharactersWrittenAll(lines: seq<string>, inner: map<string, seq<string>>, r: seq<string>, count: int)
    requires CharactersWritten(lines, inner, |SortSet(inner.Keys)|, r, count)
    ensures r == AppendCharacters(lines, inner, SortSet(inner.Keys))
    ensures count == SquadCount(inner)
  {
    var names := SortSet(inner.Keys);
    assert names[..|names|] == names;
    SquadCountIsKeySum(inner);
  }
}
