/**
 * `CharacterManager` (backend/data_models.py): the character directory. Rows
 * of the reference table `(code, name, squad)` are folded into two tables:
 * `charData`, an insertion-ordered dictionary from code to name and squad,
 * and `squadData`, the list of names seen for each squad, in row order.
 */
module DataModels {
  import opened Wrappers
  import opened Ordering
  import opened Tally

  datatype CharInfo = CharInfo(name: string, squad: string)

  /** One item of the insertion-ordered `char_data` dictionary. */
  datatype Entry = Entry(code: string, info: CharInfo)

  /** The three cells of one table row that the loader reads. */
  datatype Row = Row(code: string, name: string, squad: string)

  /** A table as `pandas.read_csv` hands it over: its column names and its rows. */
  datatype CsvTable = CsvTable(columns: seq<string>, rows: seq<Row>)

  /** The columns the loader requires: game code, character name, squad. */
  const RequiredColumns: seq<string> := ["게임코드", "캐릭터명(K)", "소속 부대"]

  predicate HasRequiredColumns(columns: seq<string>)
  {
    forall c :: c in RequiredColumns ==> c in columns
  }

  /** The table is read and folded: it exists and carries every required column. */
  predicate Loads(source: Option<CsvTable>)
  {
    source.Some? && HasRequiredColumns(source.value.columns)
  }

  function InfoOf(row: Row): CharInfo
  {
    CharInfo(row.name, row.squad)
  }

  function Codes(t: seq<Entry>): (r: seq<string>)
    ensures |r| == |t|
    ensures forall i :: 0 <= i < |t| ==> r[i] == t[i].code
  {
    if t == [] then [] else [t[0].code] + Codes(t[1..])
  }

  /** Dictionary keys are unique. */
  predicate DistinctCodes(t: seq<Entry>)
  {
    forall i, j :: 0 <= i < j < |t| ==> t[i].code != t[j].code
  }

  /** `d.get(code)`. */
  function Lookup(t: seq<Entry>, code: string): (r: Option<CharInfo>)
    ensures r.None? <==> code !in Codes(t)
  {
    if t == [] then None
    else if t[0].code == code then Some(t[0].info)
    else
      assert Codes(t) == [t[0].code] + Codes(t[1..]);
      Lookup(t[1..], code)
  }

  /** With unique keys, looking up the key stored at position `i` finds the value stored there. */
  lemma {:induction false} LookupAt(t: seq<Entry>, i: nat)
    requires DistinctCodes(t) && i < |t|
    ensures Lookup(t, t[i].code) == Some(t[i].info)
    decreases i
  {
    if i > 0 {
      assert t[1..][i - 1] == t[i];
      LookupAt(t[1..], i - 1);
    }
  }

  /**
   * `d[code] = info` on an insertion-ordered dictionary: an existing key keeps
   * its place and gets the new value; a new key goes to the end.
   */
  function Upsert(t: seq<Entry>, code: string, info: CharInfo): (r: seq<Entry>)
    requires DistinctCodes(t)
    ensures |r| == if code in Codes(t) then |t| else |t| + 1
    ensures forall i :: 0 <= i < |t| ==> r[i] == if t[i].code == code then Entry(code, info) else t[i]
    ensures code !in Codes(t) ==> r[|t|] == Entry(code, info)
  {
    if t == [] then [Entry(code, info)]
    else
      assert Codes(t) == [t[0].code] + Codes(t[1..]);
      var head := if t[0].code == code then Entry(code, info) else t[0];
      var rest := if t[0].code == code then t[1..] else Upsert(t[1..], code, info);
      assert forall i :: 1 <= i < |t| ==> t[i] == t[1..][i - 1];
      [head] + rest
  }

  /** Storing under `code` keeps the keys unique, makes `code` map to `info`, and changes no other key. */
  lemma UpsertKeepsDistinct(t: seq<Entry>, code: string, info: CharInfo)
    requires DistinctCodes(t)
    ensures DistinctCodes(Upsert(t, code, info))
  {
    var r := Upsert(t, code, info);
    assert forall i :: 0 <= i < |t| ==> r[i].code == t[i].code;
    if code !in Codes(t) {
      assert forall i :: 0 <= i < |t| ==> r[i].code != code;
    }
  }

  /** Storing under `code` keeps the keys unique, makes `code` map to `info`, and changes no other key. */
  lemma UpsertLookup(t: seq<Entry>, code: string, info: CharInfo, c: string)
    requires DistinctCodes(t)
    ensures DistinctCodes(Upsert(t, code, info))
    ensures Lookup(Upsert(t, code, info), c) == if c == code then Some(info) else Lookup(t, c)
  {
    var r := Upsert(t, code, info);
    UpsertKeepsDistinct(t, code, info);
    if c in Codes(t) {
      var i :| 0 <= i < |t| && Codes(t)[i] == c;
      LookupAt(r, i);
      LookupAt(t, i);
    } else if c == code {
      LookupAt(r, |t|);
    } else {
      assert forall i :: 0 <= i < |r| ==> r[i].code != c;
      assert c !in Codes(r);
    }
  }

  /** `char_data` after folding `rows` into `t`, one row at a time. */
  function CharsAfter(t: seq<Entry>, rows: seq<Row>): (r: seq<Entry>)
    requires DistinctCodes(t)
    ensures DistinctCodes(r)
  {
    if rows == [] then t
    else
      var last := rows[|rows| - 1];
      var before := CharsAfter(t, rows[..|rows| - 1]);
      UpsertKeepsDistinct(before, last.code, InfoOf(last));
      Upsert(before, last.code, InfoOf(last))
  }

  /** `squad_data` after folding `rows` into `m`: each row appends its name to its squad's list. */
  function SquadsAfter(m: map<string, seq<string>>, rows: seq<Row>): map<string, seq<string>>
  {
    if rows == [] then m
    else
      var last := rows[|rows| - 1];
      AppendName(SquadsAfter(m, rows[..|rows| - 1]), last.squad, last.name)
  }

  /** `m.setdefault(squad, []).append(name)`, as a value. */
  function AppendName(m: map<string, seq<string>>, squad: string, name: string): map<string, seq<string>>
  {
    m[squad := (if squad in m then m[squad] else []) + [name]]
  }

  function LoadedChars(source: Option<CsvTable>): (r: seq<Entry>)
    ensures DistinctCodes(r)
  {
    if Loads(source) then CharsAfter([], source.value.rows) else []
  }

  function LoadedSquads(source: Option<CsvTable>): map<string, seq<string>>
  {
    if Loads(source) then SquadsAfter(map[], source.value.rows) else map[]
  }

  /** Every name stored in `char_data`, in dictionary order. */
  function AllNames(t: seq<Entry>): (r: seq<string>)
    ensures |r| == |t|
    ensures forall i :: 0 <= i < |t| ==> r[i] == t[i].info.name
  {
    if t == [] then [] else [t[0].info.name] + AllNames(t[1..])
  }

  /** `squad_data.get(s, [])` concatenated over the requested squads, in request order. */
  function NamesOfSquads(m: map<string, seq<string>>, squads: seq<string>): seq<string>
  {
    if squads == [] then []
    else
      var s := squads[|squads| - 1];
      NamesOfSquads(m, squads[..|squads| - 1]) + (if s in m then m[s] else [])
  }

  class CharacterManager {
    var charData: seq<Entry>
    var squadData: map<string, seq<string>>

    ghost predicate Valid()
      reads this
    {
      DistinctCodes(charData)
    }

    /** Builds the directory from the reference table; `None` stands for a missing or unreadable file. */
    constructor (source: Option<CsvTable>)
      ensures Valid()
      ensures charData == LoadedChars(source)
      ensures squadData == LoadedSquads(source)
    {
      charData := [];
      squadData := map[];
      new;
      LoadData(source);
    }

    /**
     * `_load_data`: a missing file or a missing column leaves both tables as
     * they are; otherwise every row is folded in, in table order.
     */
    method LoadData(source: Option<CsvTable>)
      requires Valid()
      modifies this
      ensures Valid()
      ensures !Loads(source) ==> charData == old(charData) && squadData == old(squadData)
      ensures Loads(source) ==> charData == CharsAfter(old(charData), source.value.rows)
      ensures Loads(source) ==> squadData == SquadsAfter(old(squadData), source.value.rows)
    {
      if source.None? {
        return;
      }
      if !HasRequiredColumns(source.value.columns) {
        return;
      }
      var rows := source.value.rows;
      var chars0, squads0 := charData, squadData;
      var i := 0;
      while i < |rows|
        invariant 0 <= i <= |rows|
        invariant charData == CharsAfter(chars0, rows[..i])
        invariant squadData == SquadsAfter(squads0, rows[..i])
      {
        var row := rows[i];
        FoldStep(chars0, squads0, rows, i);
        charData := Upsert(charData, row.code, CharInfo(row.name, row.squad));
        AddToSquad(row.squad, row.name);
        i := i + 1;
      }
      assert rows[..i] == rows;
    }

    /** `squad_data.setdefault(squad, []).append(name)`. */
    method AddToSquad(squad: string, name: string)
      modifies this
      ensures charData == old(charData)
      ensures squadData == AppendName(old(squadData), squad, name)
    {
      if squad !in squadData {
        squadData := squadData[squad := []];
      }
      squadData := squadData[squad := squadData[squad] + [name]];
    }

    /** `get_squad_list`: every squad once, in ascending order. */
    function SquadList(): (r: seq<string>)
      reads this
      ensures StrictlyAscending(r)
      ensures |r| == |squadData|
      ensures forall s :: s in r <==> s in squadData
    {
      SortSet(squadData.Keys)
    }

    /**
     * `get_characters_by_squad`: with no squads (`None` or an empty list), the
     * names of all characters; otherwise the names listed under each requested
     * squad, as often as the squad is requested; ascending either way.
     */
    method CharactersBySquad(squads: Option<seq<string>>) returns (names: seq<string>)
      ensures Ascending(names)
      ensures squads.None? || squads.value == [] ==> multiset(names) == multiset(AllNames(charData))
      ensures squads.Some? && squads.value != [] ==>
                multiset(names) == multiset(NamesOfSquads(squadData, squads.value))
    {
      if squads.None? || squads.value == [] {
        names := SortSeq(AllNames(charData));
        return;
      }
      var chosen := squads.value;
      var charList: seq<string> := [];
      var i := 0;
      while i < |chosen|
        invariant 0 <= i <= |chosen|
        invariant charList == NamesOfSquads(squadData, chosen[..i])
      {
        assert chosen[..i + 1][..i] == chosen[..i];
        charList := charList + (if chosen[i] in squadData then squadData[chosen[i]] else []);
        i := i + 1;
      }
      assert chosen[..i] == chosen;
      names := SortSeq(charList);
    }
  }

  /** Folding one more row is one more dictionary update and one more append. */
  lemma FoldStep(t: seq<Entry>, m: map<string, seq<string>>, rows: seq<Row>, i: nat)
    requires DistinctCodes(t) && i < |rows|
    ensures CharsAfter(t, rows[..i + 1]) == Upsert(CharsAfter(t, rows[..i]), rows[i].code, InfoOf(rows[i]))
    ensures SquadsAfter(m, rows[..i + 1]) == AppendName(SquadsAfter(m, rows[..i]), rows[i].squad, rows[i].name)
  {
    assert rows[..i + 1][..i] == rows[..i];
  }

  /** Some row carries `code`. */
  predicate HasCode(rows: seq<Row>, code: string)
  {
    exists k :: 0 <= k < |rows| && rows[k].code == code
  }

  lemma HasCodeSnoc(rows: seq<Row>, code: string)
    requires rows != []
    ensures HasCode(rows, code) <==> HasCode(rows[..|rows| - 1], code) || rows[|rows| - 1].code == code
  {
    var front := rows[..|rows| - 1];
    if HasCode(rows, code) && rows[|rows| - 1].code != code {
      var k :| 0 <= k < |rows| && rows[k].code == code;
      assert front[k] == rows[k];
    }
    if HasCode(front, code) {
      var k :| 0 <= k < |front| && front[k].code == code;
      assert rows[k] == front[k];
    }
  }

  /** A code is in the loaded dictionary exactly when some row carries it. */
  lemma {:induction false} LoadedCodes(rows: seq<Row>, code: string)
    ensures Lookup(CharsAfter([], rows), code).Some? <==> HasCode(rows, code)
    decreases |rows|
  {
    if rows != [] {
      var n := |rows|;
      var front := rows[..n - 1];
      var last := rows[n - 1];
      var before := CharsAfter([], front);
      assert CharsAfter([], rows) == Upsert(before, last.code, InfoOf(last));
      LoadedCodes(front, code);
      UpsertLookup(before, last.code, InfoOf(last), code);
      HasCodeSnoc(rows, code);
    }
  }

  /** Looking a code up after one more row: the row's own values if it carries the code, the earlier ones otherwise. */
  lemma LookupSnoc(rows: seq<Row>, code: string)
    requires rows != []
    ensures Lookup(CharsAfter([], rows), code)
            == if rows[|rows| - 1].code == code then Some(InfoOf(rows[|rows| - 1]))
               else Lookup(CharsAfter([], rows[..|rows| - 1]), code)
  {
    var last := rows[|rows| - 1];
    var before := CharsAfter([], rows[..|rows| - 1]);
    assert CharsAfter([], rows) == Upsert(before, last.code, InfoOf(last));
    UpsertLookup(before, last.code, InfoOf(last), code);
  }

  /** `char_data[code]` holds the name and squad of the last row with that code. */
  lemma {:induction false} LastRowWins(rows: seq<Row>, code: string, k: nat)
    requires k < |rows| && rows[k].code == code
    requires forall j :: k < j < |rows| ==> rows[j].code != code
    ensures Lookup(CharsAfter([], rows), code) == Some(InfoOf(rows[k]))
    decreases |rows|
  {
    var n := |rows|;
    LookupSnoc(rows, code);
    if k < n - 1 {
      var front := rows[..n - 1];
      assert front[k] == rows[k];
      assert forall j :: k < j < |front| ==> front[j] == rows[j];
      LastRowWins(front, code, k);
    }
  }

  /** Some row with code `a` comes before every row with code `b`. */
  predicate SeenBefore(rows: seq<Row>, a: string, b: string)
  {
    exists i :: 0 <= i < |rows| && rows[i].code == a && forall j :: 0 <= j <= i ==> rows[j].code != b
  }

  /** Storing under a key leaves the key at every existing position as it was. */
  lemma UpsertKeepsCodes(t: seq<Entry>, code: string, info: CharInfo, i: nat)
    requires DistinctCodes(t) && i < |t|
    ensures i < |Upsert(t, code, info)| && Upsert(t, code, info)[i].code == t[i].code
  {
  }

  /**
   * The loaded dictionary lists codes in order of first appearance: a code that
   * comes again later keeps the position of its first row.
   */
  lemma {:induction false} LoadOrderIsFirstAppearance(rows: seq<Row>, x: nat, y: nat)
    requires x < y < |CharsAfter([], rows)|
    ensures SeenBefore(rows, CharsAfter([], rows)[x].code, CharsAfter([], rows)[y].code)
    decreases |rows|
  {
    var n := |rows|;
    var front := rows[..n - 1];
    var last := rows[n - 1];
    var before := CharsAfter([], front);
    var t := CharsAfter([], rows);
    assert t == Upsert(before, last.code, InfoOf(last));
    UpsertKeepsCodes(before, last.code, InfoOf(last), x);
    if y < |before| {
      UpsertKeepsCodes(before, last.code, InfoOf(last), y);
      LoadOrderIsFirstAppearance(front, x, y);
      SeenBeforeExtend(rows, before[x].code, before[y].code);
    } else {
      assert last.code !in Codes(before) && t[y].code == last.code;
      assert Codes(before)[x] == before[x].code;
      LoadedCodes(front, last.code);
      LoadedCodes(front, before[x].code);
      SeenBeforeNew(rows, before[x].code);
    }
  }

  /** A code seen before another among the first rows still is once more rows follow. */
  lemma SeenBeforeExtend(rows: seq<Row>, a: string, b: string)
    requires rows != [] && SeenBefore(rows[..|rows| - 1], a, b)
    ensures SeenBefore(rows, a, b)
  {
    var front := rows[..|rows| - 1];
    var i :| 0 <= i < |front| && front[i].code == a && forall j :: 0 <= j <= i ==> front[j].code != b;
    assert rows[i] == front[i];
    forall j | 0 <= j <= i ensures rows[j].code != b {
      assert rows[j] == front[j];
    }
  }

  /** Any code of the first rows is seen before the code of a last row that none of them carries. */
  lemma SeenBeforeNew(rows: seq<Row>, a: string)
    requires rows != []
    requires HasCode(rows[..|rows| - 1], a) && !HasCode(rows[..|rows| - 1], rows[|rows| - 1].code)
    ensures SeenBefore(rows, a, rows[|rows| - 1].code)
  {
    var front := rows[..|rows| - 1];
    var i :| 0 <= i < |front| && front[i].code == a;
    assert rows[i] == front[i];
    forall j | 0 <= j <= i ensures rows[j].code != rows[|rows| - 1].code {
      assert rows[j] == front[j];
    }
  }

  /** The names of the rows of squad `s`, in row order. */
  function NamesInSquad(rows: seq<Row>, s: string): seq<string>
  {
    if rows == [] then []
    else
      var last := rows[|rows| - 1];
      NamesInSquad(rows[..|rows| - 1], s) + (if last.squad == s then [last.name] else [])
  }

  /** `squad_data` has a list for each squad some row names, holding that squad's names in row order. */
  lemma {:induction false} LoadedSquadLists(rows: seq<Row>, s: string)
    ensures s in SquadsAfter(map[], rows) <==> exists k :: 0 <= k < |rows| && rows[k].squad == s
    ensures s in SquadsAfter(map[], rows) ==> SquadsAfter(map[], rows)[s] == NamesInSquad(rows, s)
    decreases |rows|
  {
    if rows != [] {
      var n := |rows|;
      var front := rows[..n - 1];
      LoadedSquadLists(front, s);
      assert forall k :: 0 <= k < n - 1 ==> front[k] == rows[k];
      if s !in SquadsAfter(map[], front) {
        assert NamesInSquad(front, s) == [] by {
          NoRowsNoNames(front, s);
        }
      }
    }
  }

  lemma {:induction false} NoRowsNoNames(rows: seq<Row>, s: string)
    requires forall k :: 0 <= k < |rows| ==> rows[k].squad != s
    ensures NamesInSquad(rows, s) == []
    decreases |rows|
  {
    if rows != [] {
      NoRowsNoNames(rows[..|rows| - 1], s);
    }
  }

  /** One append adds one name to the total over all lists. */
  lemma AppendNameTotal(m: map<string, seq<string>>, squad: string, name: string)
    ensures KeySum(Sizes(AppendName(m, squad, name))) == KeySum(Sizes(m)) + 1
  {
    var m2 := AppendName(m, squad, name);
    var sizes := Sizes(m);
    var prior := if squad in m then |m[squad]| else 0;
    var s2 := sizes[squad := prior + 1];
    assert Sizes(m2).Keys == s2.Keys;
    assert forall k :: k in s2 ==> Sizes(m2)[k] == s2[k];
    assert Sizes(m2) == s2;
    KeySumUpdate(sizes, squad, prior + 1);
  }

  /** One append adds at most one squad. */
  lemma AppendNameSquads(m: map<string, seq<string>>, squad: string, name: string)
    ensures |AppendName(m, squad, name)| <= |m| + 1
  {
    var m2 := AppendName(m, squad, name);
    assert m2.Keys == m.Keys + {squad};
    assert |m2.Keys| <= |m.Keys| + |{squad}|;
  }

  /**
   * Every row adds exactly one name to `squad_data`: the lists hold as many
   * names as there are rows, and there are no more squads than rows.
   */
  lemma {:induction false} LoadedSquadSizes(rows: seq<Row>)
    ensures KeySum(Sizes(SquadsAfter(map[], rows))) == |rows|
    ensures |SquadsAfter(map[], rows)| <= |rows|
    decreases |rows|
  {
    if rows == [] {
      var empty: map<string, seq<string>> := map[];
      assert Sizes(empty) == map[];
      assert SortSet({}) == [];
    } else {
      var n := |rows|;
      var front := rows[..n - 1];
      var last := rows[n - 1];
      var before := SquadsAfter(map[], front);
      assert SquadsAfter(map[], rows) == AppendName(before, last.squad, last.name);
      LoadedSquadSizes(front);
      AppendNameTotal(before, last.squad, last.name);
      AppendNameSquads(before, last.squad, last.name);
    }
  }

  /** Some code appears on two different rows. */
  predicate RepeatsCode(rows: seq<Row>)
  {
    exists i, j :: 0 <= i < j < |rows| && rows[i].code == rows[j].code
  }

  lemma RepeatsCodeSnoc(rows: seq<Row>)
    requires rows != []
    ensures RepeatsCode(rows) ==> RepeatsCode(rows[..|rows| - 1]) || HasCode(rows[..|rows| - 1], rows[|rows| - 1].code)
  {
    var n := |rows|;
    var front := rows[..n - 1];
    if RepeatsCode(rows) {
      var i, j :| 0 <= i < j < n && rows[i].code == rows[j].code;
      assert front[i] == rows[i];
      if j < n - 1 {
        assert front[j] == rows[j];
      }
    }
  }

  /** `char_data` has no more entries than there are rows, and strictly fewer when a code repeats. */
  lemma {:induction false} LoadedCharCount(rows: seq<Row>)
    ensures |CharsAfter([], rows)| <= |rows|
    ensures RepeatsCode(rows) ==> |CharsAfter([], rows)| < |rows|
    decreases |rows|
  {
    if rows != [] {
      var n := |rows|;
      var front := rows[..n - 1];
      var last := rows[n - 1];
      var before := CharsAfter([], front);
      assert CharsAfter([], rows) == Upsert(before, last.code, InfoOf(last));
      LoadedCharCount(front);
      RepeatsCodeSnoc(rows);
      LoadedCodes(front, last.code);
    }
  }

  /** `squad_data` lists at least one name per `char_data` entry, and strictly more once a code repeats. */
  lemma SquadNamesOutnumberCharacters(rows: seq<Row>)
    ensures |CharsAfter([], rows)| <= KeySum(Sizes(SquadsAfter(map[], rows)))
    ensures RepeatsCode(rows) ==> |CharsAfter([], rows)| < KeySum(Sizes(SquadsAfter(map[], rows)))
  {
    LoadedCharCount(rows);
    LoadedSquadSizes(rows);
  }

  /** A name listed under a requested squad is in the result, and only such names are. */
  lemma {:induction false} NamesOfSquadsMembers(m: map<string, seq<string>>, squads: seq<string>, name: string)
    ensures name in NamesOfSquads(m, squads) <==> exists s :: s in squads && s in m && name in m[s]
    decreases |squads|
  {
    if squads != [] {
      var n := |squads|;
      NamesOfSquadsMembers(m, squads[..n - 1], name);
      assert squads == squads[..n - 1] + [squads[n - 1]];
    }
  }
}
