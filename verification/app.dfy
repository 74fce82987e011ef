/** The page itself: the test date, the list of locales, the list of format
    configurations with the rename dialog's state, and the events the page
    reacts to. There is always at least one locale. While every "Add format"
    click reads a clock value with an unused id, there is also always at
    least one format and format ids are distinct, which is what makes every
    table cell find its own result. */
module App {
  import opened Wrappers
  import opened DateTimeOptions
  import opened Platform
  import opened FormatsManager
  import opened TableComparison
  import Text
  import Intl

  /** The locales the page starts with. */
  const InitialLocales: seq<Locale> := ["en-US", "es-ES", "fr-FR", "ja-JP"]

  /** The three formats the page starts with. */
  const InitialFormats: seq<FormatConfiguration> := [
    FormatConfiguration("format-1", "Standard Date & Time",
      [Entry(DateStyle, Str("medium")), Entry(TimeStyle, Str("short"))]),
    FormatConfiguration("format-2", "Full Date Only",
      [Entry(DateStyle, Str("full"))]),
    FormatConfiguration("format-3", "Custom Format",
      [Entry(Weekday, Str("long")), Entry(Year, Str("numeric")), Entry(Month, Str("long")),
       Entry(Day, Str("numeric")), Entry(Hour, Str("2-digit")), Entry(Minute, Str("2-digit"))])
  ]

  /** "Add locale": `en-GB` goes last. */
  function AddLocale(locales: seq<Locale>): (r: seq<Locale>)
    ensures |r| == |locales| + 1 && r[..|locales|] == locales && r[|locales|] == "en-GB"
  {
    locales + ["en-GB"]
  }

  /** `locales.filter((_, i) => i !== index)`. */
  function WithoutIndex(locales: seq<Locale>, index: int): (r: seq<Locale>)
    ensures |r| <= |locales|
    decreases |locales|
  {
    if |locales| == 0 then []
    else
      var last := |locales| - 1;
      WithoutIndex(locales[..last], index) + (if last != index then [locales[last]] else [])
  }

  /** Dropping position `index` removes exactly that element when it is a
      position of the list, and nothing otherwise. */
  lemma {:induction false} WithoutIndexSlice(locales: seq<Locale>, index: int)
    ensures WithoutIndex(locales, index) ==
      if 0 <= index < |locales| then locales[..index] + locales[index + 1..] else locales
    decreases |locales|
  {
    if |locales| > 0 {
      var last := |locales| - 1;
      var init := locales[..last];
      WithoutIndexSlice(init, index);
      if 0 <= index < last {
        SliceSnoc(locales, index);
      } else if index == last {
        assert init == locales[..index] && locales[index + 1..] == [];
      } else {
        assert init + [locales[last]] == locales;
      }
    }
  }

  /** Cutting position `index` out of all but the last element and then
      adding the last element back is cutting it out of the whole list. */
  lemma SliceSnoc(locales: seq<Locale>, index: nat)
    requires index < |locales| - 1
    ensures var init := locales[..|locales| - 1];
      init[..index] + init[index + 1..] + [locales[|locales| - 1]] == locales[..index] + locales[index + 1..]
  {
    var init := locales[..|locales| - 1];
    assert init[..index] == locales[..index];
    assert init[index + 1..] + [locales[|locales| - 1]] == locales[index + 1..];
  }

  /** "Remove locale": ignored while only one locale is left. */
  function RemoveLocale(locales: seq<Locale>, index: int): seq<Locale>
  {
    if |locales| > 1 then WithoutIndex(locales, index) else locales
  }

  /** Removing a locale takes out that row only, never leaves the list
      empty, and removes the locale just added. */
  lemma RemoveLocaleProperties(locales: seq<Locale>, index: int)
    ensures RemoveLocale(locales, index) ==
      if |locales| > 1 && 0 <= index < |locales| then locales[..index] + locales[index + 1..] else locales
    ensures |locales| >= 1 ==> |RemoveLocale(locales, index)| >= 1
    ensures |locales| >= 1 ==> RemoveLocale(AddLocale(locales), |locales|) == locales
  {
    WithoutIndexSlice(locales, index);
    WithoutIndexSlice(AddLocale(locales), |locales|);
    assert AddLocale(locales)[..|locales|] == locales;
  }

  /** `updateLocale(index, newLocale)`: only row `index` changes. */
  function UpdateLocale(locales: seq<Locale>, index: int, locale: Locale): (r: seq<Locale>)
    requires 0 <= index < |locales|
    ensures |r| == |locales| && r[index] == locale
    ensures forall i :: 0 <= i < |locales| && i != index ==> r[i] == locales[i]
  {
    locales[index := locale]
  }

  /** Choosing the locale a row already has changes nothing, and choosing
      the old locale back undoes a change. */
  lemma UpdateLocaleUndo(locales: seq<Locale>, index: int, locale: Locale)
    requires 0 <= index < |locales|
    ensures UpdateLocale(locales, index, locales[index]) == locales
    ensures UpdateLocale(UpdateLocale(locales, index, locale), index, locales[index]) == locales
  {
  }

  /** The page's state. */
  datatype AppState = AppState(date: Date, locales: seq<Locale>, formats: seq<FormatConfiguration>, edit: EditState)

  /** What the user can do on the page. `AddFormatAt(stamp)` is "Add
      format" clicked when the clock reads `stamp` milliseconds. */
  datatype Event =
    | SetDate(date: Date)
    | AddLocaleClicked
    | RemoveLocaleClicked(index: int)
    | LocaleChosen(index: int, locale: Locale)
    | AddFormatAt(stamp: nat)
    | RemoveFormatClicked(id: string)
    | OptionsChanged(id: string, options: Options)
    | StartRename(index: int)
    | NameTyped(text: string)
    | SaveRename
    | CancelRename

  /** The id a new format gets: "format-" followed by the clock reading. */
  function FormatId(stamp: nat): (id: string)
    ensures |id| > 7 && id[..7] == "format-"
    ensures Text.AllDigits(id[7..]) && Text.ParseDigits(id[7..]) == stamp
    ensures |id| > 8 ==> id[7] != '0'
  {
    Text.ParseNatToString(stamp);
    var id := "format-" + Text.NatToString(stamp);
    assert id[7..] == Text.NatToString(stamp);
    id
  }

  /** The page as it loads: `date` is the clock reading of `new Date()`. */
  function Initial(date: Date): AppState
  {
    AppState(date, InitialLocales, InitialFormats, NotEditing)
  }

  /** The events the page can produce in a state: the row events name an
      existing row. */
  predicate Enabled(s: AppState, e: Event)
  {
    match e
    case LocaleChosen(i, _) => 0 <= i < |s.locales|
    case StartRename(i) => 0 <= i < |s.formats|
    case _ => true
  }

  /** The hypothesis under which format ids stay distinct: an "Add format"
      click reads a clock value whose id is not yet in use. The page does
      not check this (see `SameStampCanEmptyFormats`). */
  predicate FreshStamp(s: AppState, e: Event)
  {
    e.AddFormatAt? ==> !HasId(s.formats, FormatId(e.stamp))
  }

  /** Every "Add format" click of a run reads a clock value with an unused id. */
  predicate FreshRun(s: AppState, es: seq<Event>)
    decreases |es|
  {
    |es| == 0 || !Enabled(s, es[0]) || (FreshStamp(s, es[0]) && FreshRun(Step(s, es[0]), es[1..]))
  }

  /** The page's reaction to one event. */
  function Step(s: AppState, e: Event): AppState
    requires Enabled(s, e)
  {
    match e
    case SetDate(d) => s.(date := d)
    case AddLocaleClicked => s.(locales := AddLocale(s.locales))
    case RemoveLocaleClicked(i) => s.(locales := RemoveLocale(s.locales, i))
    case LocaleChosen(i, l) => s.(locales := UpdateLocale(s.locales, i, l))
    case AddFormatAt(stamp) => s.(formats := AddFormat(s.formats, FormatId(stamp)))
    case RemoveFormatClicked(id) => s.(formats := RemoveFormat(s.formats, id))
    case OptionsChanged(id, o) => s.(formats := UpdateFormat(s.formats, id, o))
    case StartRename(i) => s.(edit := StartEditingName(s.formats[i]))
    case NameTyped(t) => s.(edit := TypeName(s.edit, t))
    case SaveRename =>
      var r := SaveName(s.formats, s.edit);
      s.(formats := r.0, edit := r.1)
    case CancelRename => s.(edit := CancelEdit(s.edit))
  }

  /** Runs a sequence of events; `None` when one of them names a row that
      does not exist at that point. */
  function Run(s: AppState, es: seq<Event>): Option<AppState>
    decreases |es|
  {
    if |es| == 0 then Some(s)
    else if Enabled(s, es[0]) then Run(Step(s, es[0]), es[1..])
    else None
  }

  /** What the page keeps true. */
  predicate Invariant(s: AppState)
  {
    |s.locales| >= 1 && |s.formats| >= 1 && UniqueIds(s.formats)
  }

  /** The page starts with four locales and three formats with distinct ids. */
  lemma InitialState(date: Date)
    ensures Invariant(Initial(date)) && |Initial(date).locales| == 4 && |Initial(date).formats| == 3
  {
    var fs := InitialFormats;
    assert fs[0].id[7] == '1' && fs[1].id[7] == '2' && fs[2].id[7] == '3';
  }

  /** The first initial format previews as "dateStyle: medium, timeStyle: short". */
  lemma InitialPreview()
    ensures Intl.StringifyOptions(InitialFormats[0].options) == "dateStyle: medium, timeStyle: short"
  {
    var o := InitialFormats[0].options;
    var first, second := "dateStyle: medium", "timeStyle: short";
    assert o == [Entry(DateStyle, Str("medium")), Entry(TimeStyle, Str("short"))];
    InitialSegments();
    assert Intl.Segments(o) == [first, second];
    Text.JoinTwo(first, second, ", ");
  }

  lemma InitialSegments()
    ensures Intl.Segment(Entry(DateStyle, Str("medium"))) == "dateStyle: medium"
    ensures Intl.Segment(Entry(TimeStyle, Str("short"))) == "timeStyle: short"
    ensures "dateStyle: medium" + ", " + "timeStyle: short" == "dateStyle: medium, timeStyle: short"
  {
    assert Name(DateStyle) == "dateStyle" && Name(TimeStyle) == "timeStyle";
  }

  /** Every event keeps at least one locale, whatever the clock reads. */
  lemma StepKeepsLocales(s: AppState, e: Event)
    requires |s.locales| >= 1 && Enabled(s, e)
    ensures |Step(s, e).locales| >= 1
  {
    if e.RemoveLocaleClicked? { RemoveLocaleProperties(s.locales, e.index); }
  }

  /** Every run keeps at least one locale, whatever the clock reads. */
  lemma {:induction false} RunKeepsLocales(s: AppState, es: seq<Event>)
    requires |s.locales| >= 1 && Run(s, es).Some?
    ensures |Run(s, es).value.locales| >= 1
    decreases |es|
  {
    if |es| > 0 {
      StepKeepsLocales(s, es[0]);
      RunKeepsLocales(Step(s, es[0]), es[1..]);
    }
  }

  /** Every event keeps the invariant, provided an "Add format" click reads
      a clock value with an unused id. */
  lemma StepKeepsInvariant(s: AppState, e: Event)
    requires Invariant(s) && Enabled(s, e) && FreshStamp(s, e)
    ensures Invariant(Step(s, e))
  {
    match e
    case RemoveLocaleClicked(i) =>
      RemoveLocaleProperties(s.locales, i);
    case AddFormatAt(stamp) =>
      AddFormatKeepsIdsUnique(s.formats, FormatId(stamp));
    case RemoveFormatClicked(id) =>
      RemoveFormatUniqueIds(s.formats, id);
    case OptionsChanged(id, o) =>
      UpdateFormatProperties(s.formats, id, o);
    case SaveRename =>
      SaveNameKeepsIds(s.formats, s.edit);
    case _ =>
  }

  /** Every state reached by a run whose "Add format" clicks read unused
      ids keeps the invariant. */
  lemma {:induction false} RunKeepsInvariant(s: AppState, es: seq<Event>)
    requires Invariant(s) && FreshRun(s, es) && Run(s, es).Some?
    ensures Invariant(Run(s, es).value)
    decreases |es|
  {
    if |es| > 0 {
      StepKeepsInvariant(s, es[0]);
      RunKeepsInvariant(Step(s, es[0]), es[1..]);
    }
  }

  /** With distinct ids, the first format carrying a format's id is that format. */
  lemma IndexOfOwnId(fs: seq<FormatConfiguration>, j: nat)
    requires UniqueIds(fs) && j < |fs|
    ensures IndexOfId(fs, fs[j].id) == j
  {
    var k := IndexOfId(fs, fs[j].id);
    assert k <= j;
  }

  /** In every state reached by a run whose "Add format" clicks read unused
      ids, the table is not empty and the cell of locale row `i` and format
      column `j` shows exactly that locale formatted with that format. */
  lemma ReachableCellsAreRight(p: Platform, date: Date, es: seq<Event>, i: nat, j: nat)
    requires Run(Initial(date), es).Some? && FreshRun(Initial(date), es)
    requires var s := Run(Initial(date), es).value; i < |s.locales| && j < |s.formats|
    ensures var s := Run(Initial(date), es).value;
      var rs := AllResults(p, s.date, s.locales, s.formats);
      |rs| >= 1 &&
      GetResultForLocaleAndFormat(rs, s.locales[i], s.formats[j].id) ==
        FormatCell(p, s.date, s.locales[i], s.formats[j])
  {
    InitialState(date);
    RunKeepsInvariant(Initial(date), es);
    var s := Run(Initial(date), es).value;
    assert |s.locales| * |s.formats| >= 1 by { MulMono(1, |s.locales|, |s.formats|); }
    IndexOfOwnId(s.formats, j);
    assert HasId(s.formats, s.formats[j].id);
    LookupFindsCell(p, s.date, s.locales, s.formats, s.locales[i], s.formats[j].id);
  }

  /** Two clicks on "Add format" within the same millisecond give two
      formats the same id; removing either then removes both. */
  lemma SameStampTwiceSharesId(fs: seq<FormatConfiguration>, stamp: nat)
    requires |fs| >= 1 && !HasId(fs, FormatId(stamp))
    ensures var r := AddFormat(AddFormat(fs, FormatId(stamp)), FormatId(stamp));
      !UniqueIds(r) && RemoveFormat(r, FormatId(stamp)) == fs
  {
    var id := FormatId(stamp);
    var r1 := AddFormat(fs, id);
    var r := AddFormat(r1, id);
    assert r[|fs|].id == id && r[|fs| + 1].id == id;
    assert r1 == fs + [r1[|fs|]];
    assert r == r1 + [r[|fs| + 1]];
    WithoutIdAppend(r1, r[|fs| + 1], id);
    WithoutIdAppend(fs, r1[|fs|], id);
    WithoutAbsentId(fs, id);
    assert [r1[|fs|]][1..] == [] && [r[|fs| + 1]][1..] == [];
  }

  /** Without fresh clock readings the format list can empty: two "Add
      format" clicks in the same millisecond, removing the three initial
      formats, and then removing the shared id leaves no format and so an
      empty table. */
  lemma SameStampCanEmptyFormats(date: Date, stamp: nat)
    requires stamp > 3
    ensures var id := FormatId(stamp);
      var r := Run(Initial(date), [AddFormatAt(stamp), AddFormatAt(stamp),
        RemoveFormatClicked("format-1"), RemoveFormatClicked("format-2"),
        RemoveFormatClicked("format-3"), RemoveFormatClicked(id)]);
      r.Some? && r.value.formats == []
  {
    var id := FormatId(stamp);
    var s0 := Initial(date);
    var s1 := s0.(formats := AddFormat(s0.formats, id));
    var s2 := s1.(formats := AddFormat(s1.formats, id));
    var s3 := s2.(formats := RemoveFormat(s2.formats, "format-1"));
    var s4 := s3.(formats := RemoveFormat(s3.formats, "format-2"));
    var s5 := s4.(formats := RemoveFormat(s4.formats, "format-3"));
    var s6 := s5.(formats := RemoveFormat(s5.formats, id));
    RunCons(s5, RemoveFormatClicked(id), []);
    RunCons(s4, RemoveFormatClicked("format-3"), [RemoveFormatClicked(id)]);
    RunCons(s3, RemoveFormatClicked("format-2"), [RemoveFormatClicked("format-3"), RemoveFormatClicked(id)]);
    RunCons(s2, RemoveFormatClicked("format-1"),
      [RemoveFormatClicked("format-2"), RemoveFormatClicked("format-3"), RemoveFormatClicked(id)]);
    RunCons(s1, AddFormatAt(stamp),
      [RemoveFormatClicked("format-1"), RemoveFormatClicked("format-2"), RemoveFormatClicked("format-3"),
       RemoveFormatClicked(id)]);
    RunCons(s0, AddFormatAt(stamp),
      [AddFormatAt(stamp), RemoveFormatClicked("format-1"), RemoveFormatClicked("format-2"),
       RemoveFormatClicked("format-3"), RemoveFormatClicked(id)]);
    SameStampFormats(stamp);
  }

  /** An enabled first event is taken, and the run goes on from there. */
  lemma RunCons(s: AppState, e: Event, es: seq<Event>)
    requires Enabled(s, e)
    ensures Run(s, [e] + es) == Run(Step(s, e), es)
  {
    assert ([e] + es)[0] == e && ([e] + es)[1..] == es;
  }

  /** The format lists of that run: the last removal leaves none. */
  lemma SameStampFormats(stamp: nat)
    requires stamp > 3
    ensures var id := FormatId(stamp);
      var f2 := AddFormat(AddFormat(InitialFormats, id), id);
      RemoveFormat(RemoveFormat(RemoveFormat(RemoveFormat(f2, "format-1"), "format-2"), "format-3"), id) == []
  {
    var id := FormatId(stamp);
    FreshStampId(stamp);
    var a, b := TwoAdded(id);
    assert InitialFormats[0].id == "format-1" && InitialFormats[1].id == "format-2";
    assert InitialFormats[2].id == "format-3";
    SharedPairOutlastsInitial(InitialFormats, a, b, id);
  }

  /** Two additions with the same id append two different formats with it. */
  lemma TwoAdded(id: string) returns (a: FormatConfiguration, b: FormatConfiguration)
    ensures AddFormat(AddFormat(InitialFormats, id), id) == InitialFormats + [a, b]
    ensures a.id == id && b.id == id && a != b
  {
    var f1 := AddFormat(InitialFormats, id);
    var f2 := AddFormat(f1, id);
    a, b := f2[3], f2[4];
    assert a == f1[3];
    assert a.name != b.name by {
      assert Text.ParseDigits(a.name[7..]) == 4 && Text.ParseDigits(b.name[7..]) == 5;
    }
    assert f2 == f1 + [b] && f1 == InitialFormats + [a];
  }

  /** Removing the three initial ids from formats that start with the
      initial ones and end with two different formats sharing a new id
      keeps that pair, and removing the shared id then leaves nothing. */
  lemma SharedPairOutlastsInitial(init: seq<FormatConfiguration>, a: FormatConfiguration, b: FormatConfiguration, id: string)
    requires forall f :: f in init ==> f.id == "format-1" || f.id == "format-2" || f.id == "format-3"
    requires a.id == id && b.id == id && a != b
    requires id != "format-1" && id != "format-2" && id != "format-3"
    ensures var f2 := init + [a, b];
      RemoveFormat(RemoveFormat(RemoveFormat(RemoveFormat(f2, "format-1"), "format-2"), "format-3"), id) == []
  {
    var f2 := init + [a, b];
    var f3 := RemoveFormat(f2, "format-1");
    var f4 := RemoveFormat(f3, "format-2");
    var f5 := RemoveFormat(f4, "format-3");
    assert a in f2 && b in f2;
    RemoveKeepsPair(f2, a, b, "format-1");
    RemoveKeepsPair(f3, a, b, "format-2");
    RemoveKeepsPair(f4, a, b, "format-3");
    OnlySharedIdLeft(init, a, b, id, f5);
    WithoutIdAllShared(f5, id);
  }

  /** Once the initial ids are gone, only the shared id is left. */
  lemma OnlySharedIdLeft(init: seq<FormatConfiguration>, a: FormatConfiguration, b: FormatConfiguration, id: string,
                         fs: seq<FormatConfiguration>)
    requires forall f :: f in init ==> f.id == "format-1" || f.id == "format-2" || f.id == "format-3"
    requires a.id == id && b.id == id
    requires forall f :: f in fs ==> f in init + [a, b] && f.id != "format-1" && f.id != "format-2" && f.id != "format-3"
    ensures forall k :: 0 <= k < |fs| ==> fs[k].id == id
  {
    forall k | 0 <= k < |fs| ensures fs[k].id == id {
      assert fs[k] in fs;
    }
  }

  /** Removing an id that neither of two different members carries keeps
      both, and keeps only members without that id. */
  lemma RemoveKeepsPair(fs: seq<FormatConfiguration>, a: FormatConfiguration, b: FormatConfiguration, x: string)
    requires a in fs && b in fs && a != b && a.id != x && b.id != x
    ensures var r := RemoveFormat(fs, x);
      a in r && b in r && forall f :: f in r ==> f in fs && f.id != x
  {
    TwoDistinct(fs, a, b);
  }

  /** A clock reading above 3 gives an id none of the initial formats has. */
  lemma FreshStampId(stamp: nat)
    requires stamp > 3
    ensures !HasId(InitialFormats, FormatId(stamp))
  {
    var id := FormatId(stamp);
    forall k | 0 <= k < 3 ensures InitialFormats[k].id != id {
      var own := InitialFormats[k].id;
      assert own[7..] == [own[7]];
      assert Text.AllDigits(own[7..]) && Text.ParseDigits(own[7..]) == k + 1;
    }
  }

  /** Two different members make a list longer than one. */
  lemma TwoDistinct(fs: seq<FormatConfiguration>, a: FormatConfiguration, b: FormatConfiguration)
    requires a in fs && b in fs && a != b
    ensures |fs| > 1
  {
  }
}
