/**
 * The path files of `AssetComparer` (backend/analysis.py): a text file with
 * one asset path per line, read into a set, and the difference of two such
 * sets, which is what a version comparison reports as added.
 */
module PathSets {
  import opened Wrappers
  import opened Text

  /**
   * `read_path_file`: the stripped non-blank lines of the file. A file is given
   * by its lines; `None` stands for a file that does not exist, which yields
   * the empty set.
   */
  function ReadPathFile(file: Option<seq<string>>): (r: set<string>)
    ensures file.None? ==> r == {}
  {
    if file.None? then {} else set line | line in file.value && Strip(line) != "" :: Strip(line)
  }

  /** A path read from a file is non-empty, has no whitespace at either end, and is a piece of one of the lines. */
  lemma ReadPathShape(file: Option<seq<string>>, p: string)
    requires p in ReadPathFile(file)
    ensures file.Some? && p != "" && Strip(p) == p
    ensures !IsSpace(p[0]) && !IsSpace(p[|p| - 1])
    ensures exists line :: line in file.value && Contains(line, p)
  {
    var line :| line in file.value && Strip(line) != "" && Strip(line) == p;
    StripIdempotent(line);
  }

  /**
   * A path read from a file is one of its lines with only the whitespace at
   * its two ends removed.
   */
  lemma ReadPathIsStrippedLine(file: Option<seq<string>>, p: string)
    requires p in ReadPathFile(file)
    ensures file.Some?
    ensures exists line, i: nat, j: nat :: line in file.value && TrimmedAt(line, p, i, j)
  {
    var line :| line in file.value && Strip(line) != "" && Strip(line) == p;
    StripRemovesOnlyEdgeSpace(line);
    var i: nat, j: nat :| TrimmedAt(line, Strip(line), i, j);
  }

  /** Every line with something besides whitespace contributes its stripped text; blank lines contribute nothing. */
  lemma ReadPathCovers(lines: seq<string>, k: nat)
    requires k < |lines|
    ensures Strip(lines[k]) in ReadPathFile(Some(lines)) <==> exists c :: c in lines[k] && !IsSpace(c)
  {
    var line := lines[k];
    if Strip(line) == "" {
      forall c | c in line ensures IsSpace(c) {
        var i :| 0 <= i < |line| && line[i] == c;
      }
    } else {
      var i :| 0 <= i < |line| && !IsSpace(line[i]);
      assert line[i] in line;
    }
  }

  lemma SubsetSize(x: set<string>, y: set<string>)
    requires x <= y
    ensures |x| <= |y|
  {
    assert y == x + (y - x);
  }

  /** The paths of `lines` are those of all but the last line, plus the last line's if it is not blank. */
  lemma ReadPathSnoc(lines: seq<string>)
    requires lines != []
    ensures ReadPathFile(Some(lines)) <= ReadPathFile(Some(lines[..|lines| - 1])) + {Strip(lines[|lines| - 1])}
  {
    var front := lines[..|lines| - 1];
    forall p | p in ReadPathFile(Some(lines))
      ensures p in ReadPathFile(Some(front)) || p == Strip(lines[|lines| - 1])
    {
      var l :| l in lines && Strip(l) != "" && Strip(l) == p;
      var i :| 0 <= i < |lines| && lines[i] == l;
      if i < |lines| - 1 {
        assert front[i] == l;
      }
    }
  }

  lemma {:induction false} ReadPathSizeSeq(lines: seq<string>)
    ensures |ReadPathFile(Some(lines))| <= |lines|
    decreases |lines|
  {
    if lines != [] {
      var front := lines[..|lines| - 1];
      var extra := {Strip(lines[|lines| - 1])};
      ReadPathSizeSeq(front);
      ReadPathSnoc(lines);
      SubsetSize(ReadPathFile(Some(lines)), ReadPathFile(Some(front)) + extra);
    }
  }

  /** A file of `n` lines yields at most `n` paths. */
  lemma ReadPathSize(file: Option<seq<string>>)
    ensures file.Some? ==> |ReadPathFile(file)| <= |file.value|
  {
    if file.Some? {
      ReadPathSizeSeq(file.value);
    }
  }

  /**
   * `compare_versions`: the paths of the new file that the old file does not
   * list. A missing file reads as empty.
   */
  function CompareVersions(newFile: Option<seq<string>>, oldFile: Option<seq<string>>): (r: set<string>)
    ensures r <= ReadPathFile(newFile)
    ensures r !! ReadPathFile(oldFile)
    ensures ReadPathFile(newFile) <= r + ReadPathFile(oldFile)
  {
    ReadPathFile(newFile) - ReadPathFile(oldFile)
  }

  /**
   * Two files with the same paths (in particular a file and itself) add
   * nothing; an old file with no paths (missing, empty or blank) adds every path.
   */
  lemma CompareVersionsEdges(newFile: Option<seq<string>>, oldFile: Option<seq<string>>)
    ensures ReadPathFile(newFile) == ReadPathFile(oldFile) ==> CompareVersions(newFile, oldFile) == {}
    ensures newFile == oldFile ==> CompareVersions(newFile, oldFile) == {}
    ensures ReadPathFile(oldFile) == {} ==> CompareVersions(newFile, oldFile) == ReadPathFile(newFile)
    ensures oldFile.None? ==> CompareVersions(newFile, oldFile) == ReadPathFile(newFile)
    ensures newFile.None? ==> CompareVersions(newFile, oldFile) == {}
  {
  }

  /** Adding lines to the old file can only shrink the set of added paths. */
  lemma CompareVersionsAntitone(newFile: Option<seq<string>>, oldLines: seq<string>, more: seq<string>)
    ensures CompareVersions(newFile, Some(oldLines + more)) <= CompareVersions(newFile, Some(oldLines))
  {
    forall p | p in ReadPathFile(Some(oldLines)) ensures p in ReadPathFile(Some(oldLines + more)) {
      var l :| l in oldLines && Strip(l) != "" && Strip(l) == p;
      assert l in oldLines + more;
    }
  }
}
