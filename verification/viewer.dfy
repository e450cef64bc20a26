/** The legacy viewer's `applyFilters`: the rows of the sheet whose level
    contains the selected level and whose course name contains the search
    term, both compared case-insensitively, always filtered from the full
    data set. */
module Viewer {
  import opened Wrappers
  import opened Text
  import opened Seqs

  /** The two columns of a sheet row the filter reads. `None` stands for a
      cell that is not a string, on which `toLowerCase` throws: a column
      that pandas reads as entirely numeric reaches the page as numbers, and
      one it reads as boolean as `true` and `false`. A cell that pandas
      reads as missing never reaches the page: an empty cell, and by default
      also "NA", "N/A", "null", "nan", "None" and the like, become NaN; the
      server writes `NaN`, which `response.json()` rejects, so the data
      never loads and the filter runs over no rows. */
  datatype Row = Row(level: Option<string>, courseName: Option<string>)

  /** The `TypeError` thrown by the callback at row `row`; it escapes the
      event handler and nothing is rendered. */
  datatype ViewerError = TypeError(row: nat)

  /** Whether the callback throws on `row`: the level cell is read only
      when a level is selected, the course name cell always. */
  predicate Throws(selectedLevel: string, row: Row) {
    (|selectedLevel| > 0 && row.level.None?) || row.courseName.None?
  }

  /** The first row at or after `k` on which the callback throws. */
  function FirstThrowing(rows: seq<Row>, selectedLevel: string, k: nat): (r: Option<nat>)
    ensures r.Some? ==> k <= r.value < |rows| && Throws(selectedLevel, rows[r.value])
    ensures r.Some? ==> forall j :: k <= j < r.value ==> !Throws(selectedLevel, rows[j])
    ensures r.None? ==> forall j :: k <= j < |rows| ==> !Throws(selectedLevel, rows[j])
    decreases |rows| - k
  {
    if k >= |rows| then None
    else if Throws(selectedLevel, rows[k]) then Some(k)
    else FirstThrowing(rows, selectedLevel, k + 1)
  }

  /** The callback's verdict on a row it does not throw on; `selectedLevel`
      and `searchTerm` arrive lower-cased. */
  predicate Kept(selectedLevel: string, searchTerm: string, row: Row) {
    && (|selectedLevel| == 0 || (row.level.Some? && Contains(Lower(row.level.value), selectedLevel)))
    && row.courseName.Some?
    && Contains(Lower(row.courseName.value), searchTerm)
  }

  /** `applyFilters` on the raw values of the level drop-down and the
      search box: either the error of the first row the callback throws
      on, or the rows passing both checks in their original order. */
  function ApplyFilters(allData: seq<Row>, levelInput: string, searchInput: string): (r: Result<seq<Row>, ViewerError>)
    ensures r.Failure? <==> exists i :: 0 <= i < |allData| && Throws(levelInput, allData[i])
    ensures r.Failure? ==>
      && r.error.row < |allData|
      && Throws(levelInput, allData[r.error.row])
      && forall j :: 0 <= j < r.error.row ==> !Throws(levelInput, allData[j])
    ensures r.Success? ==> IsSubsequence(r.value, allData)
    ensures r.Success? ==> forall row ::
      multiset(r.value)[row] == if Kept(Lower(levelInput), Lower(searchInput), row) then multiset(allData)[row] else 0
  {
    var selectedLevel := Lower(levelInput);
    var searchTerm := Lower(searchInput);
    match FirstThrowing(allData, levelInput, 0)
    case Some(i) => Failure(TypeError(i))
    case None => Success(Keep(allData, row => Kept(selectedLevel, searchTerm, row)))
  }

  /* ---------------- Properties ---------------- */

  /** A row is shown exactly when it is in the data, its level contains
      the selected level (or none is selected) and its course name
      contains the search term, ignoring the case of both sides. */
  lemma ShownIff(allData: seq<Row>, levelInput: string, searchInput: string, row: Row)
    requires ApplyFilters(allData, levelInput, searchInput).Success?
    ensures row in ApplyFilters(allData, levelInput, searchInput).value <==>
      && row in allData
      && (|levelInput| == 0 || Contains(Lower(row.level.value), Lower(levelInput)))
      && Contains(Lower(row.courseName.value), Lower(searchInput))
  {
    if row in allData {
      var i :| 0 <= i < |allData| && allData[i] == row;
      assert !Throws(levelInput, allData[i]);
    }
  }

  /** With no level selected and an empty search box every row is shown,
      provided every course name is a string. */
  lemma EmptyInputsShowAll(allData: seq<Row>)
    requires forall i :: 0 <= i < |allData| ==> allData[i].courseName.Some?
    ensures ApplyFilters(allData, "", "") == Success(allData)
  {
    forall row | row in allData
      ensures Kept("", "", row)
    {
      ContainsEmpty(Lower(row.courseName.value));
    }
    KeepAll(allData, row => Kept("", "", row));
  }

  /** An empty search box constrains nothing: only the level decides. */
  lemma EmptySearchMatchesEveryName(allData: seq<Row>, levelInput: string, row: Row)
    requires ApplyFilters(allData, levelInput, "").Success?
    ensures row in ApplyFilters(allData, levelInput, "").value <==>
      row in allData && (|levelInput| == 0 || Contains(Lower(row.level.value), Lower(levelInput)))
  {
    ShownIff(allData, levelInput, "", row);
    if row in allData {
      var i :| 0 <= i < |allData| && allData[i] == row;
      assert !Throws(levelInput, allData[i]);
      ContainsEmpty(Lower(row.courseName.value));
    }
  }

  /** Typing in a different case changes nothing: both inputs are
      lower-cased before the comparison. */
  lemma InputCaseIgnored(allData: seq<Row>, levelInput: string, searchInput: string)
    ensures ApplyFilters(allData, Lower(levelInput), Lower(searchInput))
         == ApplyFilters(allData, levelInput, searchInput)
  {
    LowerIdempotent(levelInput);
    LowerIdempotent(searchInput);
    assert forall row :: Throws(Lower(levelInput), row) == Throws(levelInput, row);
    FirstThrowingCongruent(allData, Lower(levelInput), levelInput, 0);
  }

  /** Two level inputs that are both empty or both non-empty throw on the
      same rows. */
  lemma {:induction false} FirstThrowingCongruent(rows: seq<Row>, a: string, b: string, k: nat)
    requires (|a| == 0) == (|b| == 0)
    ensures FirstThrowing(rows, a, k) == FirstThrowing(rows, b, k)
    decreases |rows| - k
  {
    if k < |rows| {
      FirstThrowingCongruent(rows, a, b, k + 1);
    }
  }

  /** Lengthening the search term can only hide rows: a term that
      contains the old one shows a subsequence of what the old one showed. */
  lemma LongerSearchNarrows(allData: seq<Row>, levelInput: string, searchInput: string, longer: string)
    requires Contains(longer, searchInput)
    requires ApplyFilters(allData, levelInput, searchInput).Success?
    ensures ApplyFilters(allData, levelInput, longer).Success?
    ensures IsSubsequence(ApplyFilters(allData, levelInput, longer).value,
                          ApplyFilters(allData, levelInput, searchInput).value)
  {
    var sel := Lower(levelInput);
    ContainsLower(longer, searchInput);
    forall row | row in allData && Kept(sel, Lower(longer), row)
      ensures Kept(sel, Lower(searchInput), row)
    {
      ContainsTransitive(Lower(row.courseName.value), Lower(longer), Lower(searchInput));
    }
    KeepMonotone(allData, row => Kept(sel, Lower(longer), row), row => Kept(sel, Lower(searchInput), row));
  }

  /** Filtering what is shown again with the same inputs shows the same
      rows: the result does not depend on the filters applied before. */
  lemma Idempotent(allData: seq<Row>, levelInput: string, searchInput: string)
    requires ApplyFilters(allData, levelInput, searchInput).Success?
    ensures ApplyFilters(ApplyFilters(allData, levelInput, searchInput).value, levelInput, searchInput)
         == ApplyFilters(allData, levelInput, searchInput)
  {
    var p := row => Kept(Lower(levelInput), Lower(searchInput), row);
    var shown := Keep(allData, p);
    forall j | 0 <= j < |shown| ensures !Throws(levelInput, shown[j]) {
      assert shown[j] in allData;
    }
    KeepIdempotent(allData, p);
  }

  /** The level test is containment, not equality: a row whose level
      merely contains the selection, such as "Beginner, Intermediate" for
      "beginner", is kept when its course name is a string. */
  lemma LevelIsSubstringMatch(level: string, selected: string, name: string)
    requires |selected| > 0
    requires Contains(Lower(level), Lower(selected))
    ensures ApplyFilters([Row(Some(level), Some(name))], selected, "") == Success([Row(Some(level), Some(name))])
  {
    var row := Row(Some(level), Some(name));
    ContainsEmpty(Lower(name));
    assert Kept(Lower(selected), Lower(""), row);
    assert Keep([row], r => Kept(Lower(selected), Lower(""), r)) == [row];
  }
}
