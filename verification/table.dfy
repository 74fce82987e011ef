/** The table view: every (locale, format) pair formatted into its own
    cell, in locale-major order, with the lookup the table uses to fill each
    cell and the error count shown in the status bar. */
module TableComparison {
  import opened Wrappers
  import opened DateTimeOptions
  import opened Platform
  import opened FormatsManager

  /** One cell of the table. */
  datatype FormattedResult = FormattedResult(locale: Locale, formatId: string, formatted: string, error: Option<string>)

  /** `formatDate(locale, format)`: the formatted string with no error, or
      the empty string with the caught exception's message. */
  function FormatCell(p: Platform, date: Date, locale: Locale, f: FormatConfiguration): (r: FormattedResult)
    ensures r.locale == locale && r.formatId == f.id
    ensures Attempt(p, date, locale, f.options).Success? ==>
      r.error.None? && r.formatted == p.format(locale, f.options, date).value
    ensures Attempt(p, date, locale, f.options).Failure? ==>
      r.formatted == "" && r.error == Some(Attempt(p, date, locale, f.options).error)
  {
    match Attempt(p, date, locale, f.options)
    case Success(s) => FormattedResult(locale, f.id, s, None)
    case Failure(m) => FormattedResult(locale, f.id, "", Some(m))
  }

  /** `formats.map(format => formatDate(locale, format))`. */
  function Row(p: Platform, date: Date, locale: Locale, formats: seq<FormatConfiguration>): (r: seq<FormattedResult>)
    ensures |r| == |formats|
    ensures forall j :: 0 <= j < |formats| ==> r[j] == FormatCell(p, date, locale, formats[j])
  {
    seq(|formats|, j requires 0 <= j < |formats| => FormatCell(p, date, locale, formats[j]))
  }

  /** `allResults`: `locales.flatMap(locale => formats.map(...))`. */
  function AllResults(p: Platform, date: Date, locales: seq<Locale>, formats: seq<FormatConfiguration>): (rs: seq<FormattedResult>)
    ensures |rs| == |locales| * |formats|
    decreases |locales|
  {
    if |locales| == 0 then []
    else
      var rest := AllResults(p, date, locales[1..], formats);
      assert |locales| * |formats| == |formats| + (|locales| - 1) * |formats|;
      Row(p, date, locales[0], formats) + rest
  }

  /** `totalCombinations`. */
  function TotalCombinations(locales: seq<Locale>, formats: seq<FormatConfiguration>): nat
  {
    |locales| * |formats|
  }

  lemma MulMono(a: nat, b: nat, m: nat)
    requires a <= b
    ensures a * m <= b * m
  {
  }

  /** Locale-major order and cell isolation: entry `i * |formats| + j` is
      the cell of locale i and format j, computed from that locale, that
      format and the date alone. */
  lemma {:induction false} AllResultsAt(p: Platform, date: Date, locales: seq<Locale>, formats: seq<FormatConfiguration>, i: nat, j: nat)
    requires i < |locales| && j < |formats|
    ensures i * |formats| + j < |AllResults(p, date, locales, formats)|
    ensures AllResults(p, date, locales, formats)[i * |formats| + j] == FormatCell(p, date, locales[i], formats[j])
  {
    var before, rest := locales[..i], locales[i..];
    assert locales == before + rest;
    AllResultsConcat(p, date, before, rest, formats);
    var head := AllResults(p, date, before, formats);
    var row := Row(p, date, locales[i], formats);
    assert |head| == i * |formats|;
    assert AllResults(p, date, rest, formats) == row + AllResults(p, date, rest[1..], formats);
    assert AllResults(p, date, locales, formats) == head + (row + AllResults(p, date, rest[1..], formats));
  }

  /** The rows of a concatenation of locale lists are the rows of each list. */
  lemma {:induction false} AllResultsConcat(p: Platform, date: Date, a: seq<Locale>, b: seq<Locale>, formats: seq<FormatConfiguration>)
    ensures AllResults(p, date, a + b, formats) == AllResults(p, date, a, formats) + AllResults(p, date, b, formats)
    decreases |a|
  {
    if |a| == 0 {
      assert a + b == b;
    } else {
      assert (a + b)[1..] == a[1..] + b;
      AllResultsConcat(p, date, a[1..], b, formats);
    }
  }

  /** A cell does not depend on the other locales or formats: two matrices
      that agree on locale i and format j agree on that cell, whatever else
      differs, including other cells that fail. */
  lemma CellIsolation(p: Platform, date: Date,
                      locales: seq<Locale>, formats: seq<FormatConfiguration>,
                      locales': seq<Locale>, formats': seq<FormatConfiguration>,
                      i: nat, j: nat)
    requires i < |locales| && i < |locales'| && j < |formats| && j < |formats'|
    requires locales[i] == locales'[i] && formats[j] == formats'[j]
    ensures i * |formats| + j < |AllResults(p, date, locales, formats)|
    ensures i * |formats'| + j < |AllResults(p, date, locales', formats')|
    ensures AllResults(p, date, locales, formats)[i * |formats| + j] ==
            AllResults(p, date, locales', formats')[i * |formats'| + j]
  {
    AllResultsAt(p, date, locales, formats, i, j);
    AllResultsAt(p, date, locales', formats', i, j);
  }

  /** Editing one format's options changes only that format's column. */
  lemma UpdateFormatChangesOneColumn(p: Platform, date: Date, locales: seq<Locale>,
                                     formats: seq<FormatConfiguration>, id: string, o: Options, i: nat, j: nat)
    requires i < |locales| && j < |formats| && formats[j].id != id
    ensures i * |formats| + j < |AllResults(p, date, locales, formats)|
    ensures AllResults(p, date, locales, UpdateFormat(formats, id, o))[i * |formats| + j] ==
            AllResults(p, date, locales, formats)[i * |formats| + j]
  {
    CellIsolation(p, date, locales, formats, locales, UpdateFormat(formats, id, o), i, j);
  }

  predicate IsCellFor(r: FormattedResult, locale: Locale, formatId: string)
  {
    r.locale == locale && r.formatId == formatId
  }

  /** `allResults.find(...)` as a position: the first entry with this
      locale and format id, or `|rs|` when there is none. */
  function FindIndex(rs: seq<FormattedResult>, locale: Locale, formatId: string): (i: nat)
    ensures i <= |rs|
    ensures i < |rs| ==> IsCellFor(rs[i], locale, formatId)
    ensures forall k :: 0 <= k < i ==> !IsCellFor(rs[k], locale, formatId)
    decreases |rs|
  {
    if |rs| == 0 then 0
    else if IsCellFor(rs[0], locale, formatId) then 0
    else 1 + FindIndex(rs[1..], locale, formatId)
  }

  /** The placeholder the lookup falls back to. */
  function NoResult(locale: Locale, formatId: string): FormattedResult
  {
    FormattedResult(locale, formatId, "", Some("No result"))
  }

  /** `getResultForLocaleAndFormat`: the first entry for this locale and
      format id, or the "No result" placeholder. Either way the answer
      carries the locale and id asked for. */
  function GetResultForLocaleAndFormat(rs: seq<FormattedResult>, locale: Locale, formatId: string): (r: FormattedResult)
    ensures r.locale == locale && r.formatId == formatId
    ensures (forall k :: 0 <= k < |rs| ==> !IsCellFor(rs[k], locale, formatId)) ==> r == NoResult(locale, formatId)
    ensures (exists k :: 0 <= k < |rs| && IsCellFor(rs[k], locale, formatId)) ==>
      exists k :: 0 <= k < |rs| && rs[k] == r && forall k' :: 0 <= k' < k ==> !IsCellFor(rs[k'], locale, formatId)
  {
    var i := FindIndex(rs, locale, formatId);
    if i < |rs| then rs[i] else NoResult(locale, formatId)
  }

  lemma {:induction false} FindIndexAppend(a: seq<FormattedResult>, b: seq<FormattedResult>, locale: Locale, formatId: string)
    ensures FindIndex(a + b, locale, formatId) ==
      if FindIndex(a, locale, formatId) < |a| then FindIndex(a, locale, formatId)
      else |a| + FindIndex(b, locale, formatId)
    decreases |a|
  {
    if |a| > 0 {
      assert (a + b)[0] == a[0];
      assert (a + b)[1..] == a[1..] + b;
      FindIndexAppend(a[1..], b, locale, formatId);
    } else {
      assert a + b == b;
    }
  }

  lemma RowFind(p: Platform, date: Date, locale: Locale, formats: seq<FormatConfiguration>, l: Locale, id: string)
    ensures FindIndex(Row(p, date, locale, formats), l, id) ==
      if locale == l then IndexOfId(formats, id) else |formats|
  {
    var row := Row(p, date, locale, formats);
    var i := FindIndex(row, l, id);
    var j := IndexOfId(formats, id);
    if locale == l {
      if j < |formats| { assert IsCellFor(row[j], l, id); }
      if i < |row| { assert formats[i].id == id; }
    } else {
      assert forall k :: 0 <= k < |row| ==> row[k].locale == locale;
    }
  }

  /** The lookup always finds a real cell for a locale of the list and an
      id of the list, duplicated locales included, and finds none
      otherwise: it lands on the cell of the first format with that id. */
  lemma LookupFindsCell(p: Platform, date: Date, locales: seq<Locale>, formats: seq<FormatConfiguration>, l: Locale, id: string)
    ensures var rs := AllResults(p, date, locales, formats);
      (FindIndex(rs, l, id) < |rs| <==> l in locales && HasId(formats, id)) &&
      (l in locales && HasId(formats, id) ==>
        GetResultForLocaleAndFormat(rs, l, id) == FormatCell(p, date, l, formats[IndexOfId(formats, id)]))
  {
    var j := IndexOfId(formats, id);
    assert HasId(formats, id) <==> j < |formats|;
    if l in locales && j < |formats| {
      LookupHits(p, date, locales, formats, l, id);
    } else {
      LookupMisses(p, date, locales, formats, l, id);
    }
  }

  /** A listed locale and a listed id lead to the cell of the first format
      with that id. */
  lemma {:induction false} LookupHits(p: Platform, date: Date, locales: seq<Locale>, formats: seq<FormatConfiguration>, l: Locale, id: string)
    requires l in locales && IndexOfId(formats, id) < |formats|
    ensures var rs := AllResults(p, date, locales, formats);
      FindIndex(rs, l, id) < |rs| &&
      rs[FindIndex(rs, l, id)] == FormatCell(p, date, l, formats[IndexOfId(formats, id)])
    decreases |locales|
  {
    var rs := AllResults(p, date, locales, formats);
    var row := Row(p, date, locales[0], formats);
    var rest := AllResults(p, date, locales[1..], formats);
    var j := IndexOfId(formats, id);
    assert rs == row + rest;
    FindIndexAppend(row, rest, l, id);
    RowFind(p, date, locales[0], formats, l, id);
    if locales[0] == l {
      assert FindIndex(rs, l, id) == j;
      assert rs[j] == row[j];
    } else {
      assert l in locales[1..] by { assert locales == [locales[0]] + locales[1..]; }
      LookupHits(p, date, locales[1..], formats, l, id);
      var f := FindIndex(rest, l, id);
      assert FindIndex(rs, l, id) == |row| + f;
      assert rs[|row| + f] == rest[f];
    }
  }

  /** An unlisted locale or an unknown id finds nothing. */
  lemma {:induction false} LookupMisses(p: Platform, date: Date, locales: seq<Locale>, formats: seq<FormatConfiguration>, l: Locale, id: string)
    requires l !in locales || IndexOfId(formats, id) == |formats|
    ensures FindIndex(AllResults(p, date, locales, formats), l, id) == |AllResults(p, date, locales, formats)|
    decreases |locales|
  {
    if |locales| > 0 {
      var row := Row(p, date, locales[0], formats);
      var rest := AllResults(p, date, locales[1..], formats);
      assert AllResults(p, date, locales, formats) == row + rest;
      FindIndexAppend(row, rest, l, id);
      RowFind(p, date, locales[0], formats, l, id);
      assert l !in locales[1..] || IndexOfId(formats, id) == |formats| by {
        assert locales == [locales[0]] + locales[1..];
      }
      LookupMisses(p, date, locales[1..], formats, l, id);
    }
  }

  /** `errorCount`: how many cells have a truthy `error`. */
  function ErrorCount(rs: seq<FormattedResult>): (n: nat)
    ensures n <= |rs|
    ensures n == 0 <==> forall k :: 0 <= k < |rs| ==> !IsTruthy(rs[k].error)
    ensures n == |rs| <==> forall k :: 0 <= k < |rs| ==> IsTruthy(rs[k].error)
    decreases |rs|
  {
    if |rs| == 0 then 0
    else
      var n := ErrorCount(rs[1..]);
      assert forall k :: 1 <= k < |rs| ==> rs[k] == rs[1..][k - 1];
      (if IsTruthy(rs[0].error) then 1 else 0) + n
  }

  /** The count is additive: one for each cell with a truthy error, so
      `ErrorCount` is the length of `filter((r) => r.error)`. */
  lemma {:induction false} ErrorCountAppend(a: seq<FormattedResult>, b: seq<FormattedResult>)
    ensures ErrorCount(a + b) == ErrorCount(a) + ErrorCount(b)
    ensures |a| == 1 ==> ErrorCount(a) == (if IsTruthy(a[0].error) then 1 else 0)
    decreases |a|
  {
    if |a| > 0 {
      assert (a + b)[0] == a[0];
      assert (a + b)[1..] == a[1..] + b;
      ErrorCountAppend(a[1..], b);
    } else {
      assert a + b == b;
    }
  }

  /** Every entry of the matrix is the cell of some listed locale and some
      listed format. */
  lemma EntryIsCell(p: Platform, date: Date, locales: seq<Locale>, formats: seq<FormatConfiguration>, k: nat)
    requires k < |AllResults(p, date, locales, formats)|
    ensures exists i, j :: (0 <= i < |locales| && 0 <= j < |formats| &&
                            AllResults(p, date, locales, formats)[k] == FormatCell(p, date, locales[i], formats[j]))
  {
    var i, j := CellCoordinates(p, date, locales, formats, k);
  }

  /** The locale and format positions of entry `k`. */
  lemma {:induction false} CellCoordinates(p: Platform, date: Date, locales: seq<Locale>, formats: seq<FormatConfiguration>, k: nat)
    returns (i: nat, j: nat)
    requires k < |AllResults(p, date, locales, formats)|
    ensures i < |locales| && j < |formats|
    ensures AllResults(p, date, locales, formats)[k] == FormatCell(p, date, locales[i], formats[j])
    decreases |locales|
  {
    var row := Row(p, date, locales[0], formats);
    var rest := AllResults(p, date, locales[1..], formats);
    assert AllResults(p, date, locales, formats) == row + rest;
    if k < |row| {
      i, j := 0, k;
    } else {
      var i', j' := CellCoordinates(p, date, locales[1..], formats, k - |row|);
      i, j := i' + 1, j';
      assert locales[1..][i'] == locales[i];
    }
  }

  /** Every cell failing with a message. */
  predicate AllCellsFail(p: Platform, date: Date, locales: seq<Locale>, formats: seq<FormatConfiguration>)
  {
    forall i, j :: 0 <= i < |locales| && 0 <= j < |formats| ==>
      IsTruthy(FormatCell(p, date, locales[i], formats[j]).error)
  }

  /** The error badge never exceeds the number of combinations, and reaches
      it exactly when every cell failed with a message. */
  lemma ErrorCountBounds(p: Platform, date: Date, locales: seq<Locale>, formats: seq<FormatConfiguration>)
    ensures ErrorCount(AllResults(p, date, locales, formats)) <= TotalCombinations(locales, formats)
    ensures ErrorCount(AllResults(p, date, locales, formats)) == TotalCombinations(locales, formats) <==>
      AllCellsFail(p, date, locales, formats)
  {
    if ErrorCount(AllResults(p, date, locales, formats)) == TotalCombinations(locales, formats) {
      AllErrorsMeansAllFail(p, date, locales, formats);
    }
    if AllCellsFail(p, date, locales, formats) {
      AllFailMeansAllErrors(p, date, locales, formats);
    }
  }

  lemma AllErrorsMeansAllFail(p: Platform, date: Date, locales: seq<Locale>, formats: seq<FormatConfiguration>)
    requires ErrorCount(AllResults(p, date, locales, formats)) == |locales| * |formats|
    ensures AllCellsFail(p, date, locales, formats)
  {
    var rs := AllResults(p, date, locales, formats);
    assert forall c :: c in rs ==> IsTruthy(c.error);
    forall i, j | 0 <= i < |locales| && 0 <= j < |formats|
      ensures IsTruthy(FormatCell(p, date, locales[i], formats[j]).error)
    {
      CellAt(p, date, locales, formats, i, j);
    }
  }

  lemma CellAt(p: Platform, date: Date, locales: seq<Locale>, formats: seq<FormatConfiguration>, i: nat, j: nat)
    requires i < |locales| && j < |formats|
    ensures FormatCell(p, date, locales[i], formats[j]) in AllResults(p, date, locales, formats)
  {
    AllResultsAt(p, date, locales, formats, i, j);
  }

  lemma AllFailMeansAllErrors(p: Platform, date: Date, locales: seq<Locale>, formats: seq<FormatConfiguration>)
    requires AllCellsFail(p, date, locales, formats)
    ensures ErrorCount(AllResults(p, date, locales, formats)) == |locales| * |formats|
  {
    var rs := AllResults(p, date, locales, formats);
    forall k | 0 <= k < |rs| ensures IsTruthy(rs[k].error) {
      EntryIsCell(p, date, locales, formats, k);
      var i, j :| 0 <= i < |locales| && 0 <= j < |formats| &&
        rs[k] == FormatCell(p, date, locales[i], formats[j]);
    }
  }
}
