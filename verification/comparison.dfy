/** The single-options comparison view: one result per locale, the
    distinct successful renderings in first-seen order, the locales grouped
    by rendering, the Primary / Variant badges, and the resolved options of
    the first locale the platform accepts, listed under readable labels. */
module ComparisonDisplay {
  import opened Wrappers
  import opened Sequences
  import opened DateTimeOptions
  import opened Platform
  import Intl

  /** One locale's result. */
  datatype LocaleResult = LocaleResult(locale: Locale, formatted: string, error: Option<string>)

  /** `formatDate(locale)`: the formatted string with no error, or the
      empty string with the caught exception's message. */
  function FormatForLocale(p: Platform, date: Date, options: Options, locale: Locale): (r: LocaleResult)
    ensures r.locale == locale
    ensures r.error.None? <==> Attempt(p, date, locale, options).Success?
    ensures r.error.None? ==> r.formatted == p.format(locale, options, date).value
    ensures r.error.Some? ==> r.formatted == "" && r.error.value == Attempt(p, date, locale, options).error
  {
    match Attempt(p, date, locale, options)
    case Success(s) => LocaleResult(locale, s, None)
    case Failure(m) => LocaleResult(locale, "", Some(m))
  }

  /** `results = locales.map(formatDate)`: one result per locale, in the
      locales' order. */
  function Results(p: Platform, date: Date, options: Options, locales: seq<Locale>): (rs: seq<LocaleResult>)
    ensures |rs| == |locales|
    ensures forall i :: 0 <= i < |locales| ==> rs[i] == FormatForLocale(p, date, options, locales[i])
  {
    seq(|locales|, i requires 0 <= i < |locales| => FormatForLocale(p, date, options, locales[i]))
  }

  /** A result shown as a success: its `error` is falsy. */
  predicate Succeeded(r: LocaleResult)
  {
    !IsTruthy(r.error)
  }

  /** `results.filter(r => !r.error).map(r => r.formatted)`. */
  function SuccessStrings(rs: seq<LocaleResult>): (s: seq<string>)
    ensures |s| <= |rs|
    decreases |rs|
  {
    if |rs| == 0 then []
    else (if Succeeded(rs[0]) then [rs[0].formatted] else []) + SuccessStrings(rs[1..])
  }

  lemma {:induction false} SuccessStringsMembers(rs: seq<LocaleResult>)
    ensures forall x :: x in SuccessStrings(rs) <==>
      exists k :: 0 <= k < |rs| && Succeeded(rs[k]) && rs[k].formatted == x
    decreases |rs|
  {
    if |rs| > 0 {
      SuccessStringsMembers(rs[1..]);
      assert forall k :: 1 <= k < |rs| ==> rs[k] == rs[1..][k - 1];
    }
  }

  lemma {:induction false} SuccessStringsHead(rs: seq<LocaleResult>, k: nat)
    requires k < |rs| && Succeeded(rs[k]) && forall k' :: 0 <= k' < k ==> !Succeeded(rs[k'])
    ensures |SuccessStrings(rs)| > 0 && SuccessStrings(rs)[0] == rs[k].formatted
    decreases k
  {
    if k > 0 { SuccessStringsHead(rs[1..], k - 1); }
  }

  /** `uniqueFormats`: the distinct successful renderings. */
  function UniqueFormats(rs: seq<LocaleResult>): seq<string>
  {
    Distinct(SuccessStrings(rs))
  }

  /** The distinct renderings: no duplicates, exactly the strings of the
      successful results, in the order each first appears, and never more
      of them than successful results, nor those more than locales. */
  lemma UniqueFormatsProperties(rs: seq<LocaleResult>)
    ensures NoDup(UniqueFormats(rs))
    ensures forall x :: x in UniqueFormats(rs) <==>
      exists k :: 0 <= k < |rs| && Succeeded(rs[k]) && rs[k].formatted == x
    ensures forall i, j :: 0 <= i < j < |UniqueFormats(rs)| ==>
      FirstIndex(SuccessStrings(rs), UniqueFormats(rs)[i]) < FirstIndex(SuccessStrings(rs), UniqueFormats(rs)[j])
    ensures |UniqueFormats(rs)| <= |SuccessStrings(rs)| <= |rs|
  {
    SuccessStringsMembers(rs);
    DistinctFirstSeenOrder(SuccessStrings(rs));
    var u := UniqueFormats(rs);
    var s := SuccessStrings(rs);
    forall x ensures x in u <==> x in s {
      if x in s { assert s[FirstIndex(s, x)] == x; }
      if x in u { assert u[FirstIndex(u, x)] == x; }
    }
  }

  /** `localesWithFormat`: the locales whose successful result is this
      string, in the locales' order. */
  function LocalesWithFormat(rs: seq<LocaleResult>, format: string): (ls: seq<Locale>)
    ensures |ls| == Occurrences(SuccessStrings(rs), format)
    decreases |rs|
  {
    if |rs| == 0 then []
    else
      var rest := LocalesWithFormat(rs[1..], format);
      OccurrencesAppend(if Succeeded(rs[0]) then [rs[0].formatted] else [], SuccessStrings(rs[1..]), format);
      Listed(rs[0], format) + rest
  }

  /** What one result adds to a rendering's list: its locale when it
      succeeded with that string, and nothing otherwise. */
  function Listed(r: LocaleResult, format: string): seq<Locale>
  {
    if Succeeded(r) && r.formatted == format then [r.locale] else []
  }

  lemma {:induction false} LocalesWithFormatMembers(rs: seq<LocaleResult>, format: string)
    ensures forall l :: l in LocalesWithFormat(rs, format) <==>
      exists k :: 0 <= k < |rs| && Succeeded(rs[k]) && rs[k].formatted == format && rs[k].locale == l
    decreases |rs|
  {
    if |rs| > 0 {
      LocalesWithFormatMembers(rs[1..], format);
      assert forall k :: 1 <= k < |rs| ==> rs[k] == rs[1..][k - 1];
    }
  }

  /** The group's list is a filter of the results in locale order: a
      further result adds its locale at the end exactly when it succeeded
      with that string. With `LocalesWithFormat([], format) == []` this fixes
      the list completely, order and repeats included. */
  lemma {:induction false} LocalesWithFormatSnoc(rs: seq<LocaleResult>, r: LocaleResult, format: string)
    ensures LocalesWithFormat(rs + [r], format) == LocalesWithFormat(rs, format) + Listed(r, format)
    decreases |rs|
  {
    if |rs| == 0 {
      assert rs + [r] == [r] && [r][1..] == [];
      assert Listed(r, format) + [] == [] + Listed(r, format);
    } else {
      SnocSplit(rs, r);
      LocalesWithFormatSnoc(rs[1..], r, format);
      var head, rest, last := Listed(rs[0], format), LocalesWithFormat(rs[1..], format), Listed(r, format);
      assert head + (rest + last) == (head + rest) + last;
    }
  }

  /** One block of the "Grouped by Format" card. */
  datatype Group = Group(format: string, locales: seq<Locale>)

  function GroupsFor(rs: seq<LocaleResult>, formats: seq<string>): (gs: seq<Group>)
    ensures |gs| == |formats|
    ensures forall g :: 0 <= g < |formats| ==> gs[g] == Group(formats[g], LocalesWithFormat(rs, formats[g]))
    decreases |formats|
  {
    if |formats| == 0 then []
    else [Group(formats[0], LocalesWithFormat(rs, formats[0]))] + GroupsFor(rs, formats[1..])
  }

  /** The grouped view: one group per distinct rendering. */
  function Groups(rs: seq<LocaleResult>): seq<Group>
  {
    GroupsFor(rs, UniqueFormats(rs))
  }

  /** Total number of locales listed over all groups. */
  function ListedCount(gs: seq<Group>): nat
    decreases |gs|
  {
    if |gs| == 0 then 0 else |gs[0].locales| + ListedCount(gs[1..])
  }

  lemma {:induction false} ListedCountIsCountAll(rs: seq<LocaleResult>, formats: seq<string>)
    ensures ListedCount(GroupsFor(rs, formats)) == CountAll(formats, SuccessStrings(rs))
    decreases |formats|
  {
    if |formats| > 0 {
      ListedCountIsCountAll(rs, formats[1..]);
      assert GroupsFor(rs, formats)[1..] == GroupsFor(rs, formats[1..]);
    }
  }

  /** The groups partition the successful results: each successful result
      is listed in the group of its own string, every listed locale comes
      from a successful result with the group's string, and the groups
      together list exactly as many entries as there are successes. */
  lemma GroupsPartition(rs: seq<LocaleResult>)
    ensures forall k :: 0 <= k < |rs| && Succeeded(rs[k]) ==>
      exists g :: 0 <= g < |Groups(rs)| && Groups(rs)[g].format == rs[k].formatted &&
        rs[k].locale in Groups(rs)[g].locales
    ensures forall g, l :: 0 <= g < |Groups(rs)| && l in Groups(rs)[g].locales ==>
      exists k :: 0 <= k < |rs| && Succeeded(rs[k]) && rs[k].formatted == Groups(rs)[g].format && rs[k].locale == l
    ensures ListedCount(Groups(rs)) == |SuccessStrings(rs)|
  {
    GroupsCover(rs);
    GroupsSound(rs);
    GroupsCount(rs);
  }

  lemma GroupsCover(rs: seq<LocaleResult>)
    ensures forall k :: 0 <= k < |rs| && Succeeded(rs[k]) ==>
      exists g :: 0 <= g < |Groups(rs)| && Groups(rs)[g].format == rs[k].formatted &&
        rs[k].locale in Groups(rs)[g].locales
  {
    var u := UniqueFormats(rs);
    UniqueFormatsProperties(rs);
    forall k | 0 <= k < |rs| && Succeeded(rs[k])
      ensures exists g :: (0 <= g < |Groups(rs)| && Groups(rs)[g].format == rs[k].formatted &&
                           rs[k].locale in Groups(rs)[g].locales)
    {
      var g := FirstIndex(u, rs[k].formatted);
      LocalesWithFormatMembers(rs, rs[k].formatted);
      assert Groups(rs)[g] == Group(u[g], LocalesWithFormat(rs, u[g]));
    }
  }

  lemma GroupsSound(rs: seq<LocaleResult>)
    ensures forall g, l :: 0 <= g < |Groups(rs)| && l in Groups(rs)[g].locales ==>
      exists k :: 0 <= k < |rs| && Succeeded(rs[k]) && rs[k].formatted == Groups(rs)[g].format && rs[k].locale == l
  {
    var u := UniqueFormats(rs);
    forall g, l | 0 <= g < |Groups(rs)| && l in Groups(rs)[g].locales
      ensures exists k :: 0 <= k < |rs| && Succeeded(rs[k]) && rs[k].formatted == Groups(rs)[g].format && rs[k].locale == l
    {
      LocalesWithFormatMembers(rs, u[g]);
    }
  }

  lemma GroupsCount(rs: seq<LocaleResult>)
    ensures ListedCount(Groups(rs)) == |SuccessStrings(rs)|
  {
    var u := UniqueFormats(rs);
    UniqueFormatsProperties(rs);
    ListedCountIsCountAll(rs, u);
    forall x | x in SuccessStrings(rs) ensures x in u {
      SuccessStringsMembers(rs);
    }
    CountAllCovers(u, SuccessStrings(rs));
  }

  /** A locale listed under a rendering, when the results come from the
      platform, renders that way itself. */
  lemma ListedLocaleRendersFormat(p: Platform, date: Date, options: Options, locales: seq<Locale>, format: string, l: Locale)
    requires l in LocalesWithFormat(Results(p, date, options, locales), format)
    ensures Succeeded(FormatForLocale(p, date, options, l))
    ensures FormatForLocale(p, date, options, l).formatted == format
  {
    var rs := Results(p, date, options, locales);
    LocalesWithFormatMembers(rs, format);
    var k :| 0 <= k < |rs| && Succeeded(rs[k]) && rs[k].formatted == format && rs[k].locale == l;
    assert rs[k] == FormatForLocale(p, date, options, locales[k]);
  }

  /** Because formatting is deterministic, no locale appears in two
      groups. */
  lemma GroupsDisjoint(p: Platform, date: Date, options: Options, locales: seq<Locale>, g1: nat, g2: nat, l: Locale)
    requires var gs := Groups(Results(p, date, options, locales));
      g1 < |gs| && g2 < |gs| && l in gs[g1].locales && l in gs[g2].locales
    ensures g1 == g2
  {
    var rs := Results(p, date, options, locales);
    var u := UniqueFormats(rs);
    UniqueFormatsProperties(rs);
    ListedLocaleRendersFormat(p, date, options, locales, u[g1], l);
    ListedLocaleRendersFormat(p, date, options, locales, u[g2], l);
    assert u[g1] == u[g2];
  }

  /** The badge on a successful result. */
  datatype Badge = Primary | Variant

  /** No badge on a failed result; otherwise "Primary" when the string is
      `uniqueFormats[0]` and "Variant" when it is not. */
  function BadgeFor(rs: seq<LocaleResult>, k: nat): Option<Badge>
    requires k < |rs|
  {
    if !Succeeded(rs[k]) then None
    else
      var u := UniqueFormats(rs);
      Some(if |u| > 0 && rs[k].formatted == u[0] then Primary else Variant)
  }

  /** "Primary" marks exactly the successes that render like the first
      successful locale; the first successful locale is always Primary. */
  lemma PrimaryIsFirstSuccess(rs: seq<LocaleResult>, first: nat, k: nat)
    requires first < |rs| && Succeeded(rs[first]) && forall k' :: 0 <= k' < first ==> !Succeeded(rs[k'])
    requires k < |rs|
    ensures BadgeFor(rs, k) == Some(Primary) <==> Succeeded(rs[k]) && rs[k].formatted == rs[first].formatted
    ensures BadgeFor(rs, first) == Some(Primary)
  {
    SuccessStringsHead(rs, first);
    DistinctHead(SuccessStrings(rs));
  }

  /** The grouped card: shown only with more than one distinct rendering. */
  function ShowsGroupedView(rs: seq<LocaleResult>): bool
  {
    |UniqueFormats(rs)| > 1
  }

  /** The grouped card is shown exactly when two successful results render
      differently. */
  lemma GroupedViewIffDivergence(rs: seq<LocaleResult>)
    ensures ShowsGroupedView(rs) <==>
      exists a, b :: 0 <= a < |rs| && 0 <= b < |rs| && Succeeded(rs[a]) && Succeeded(rs[b]) &&
        rs[a].formatted != rs[b].formatted
  {
    var s := SuccessStrings(rs);
    DistinctMoreThanOne(s);
    SuccessStringsMembers(rs);
    if exists i, j :: 0 <= i < |s| && 0 <= j < |s| && s[i] != s[j] {
      var i, j :| 0 <= i < |s| && 0 <= j < |s| && s[i] != s[j];
      assert s[i] in s && s[j] in s;
    }
    if exists a, b :: 0 <= a < |rs| && 0 <= b < |rs| && Succeeded(rs[a]) && Succeeded(rs[b]) && rs[a].formatted != rs[b].formatted {
      var a, b :| 0 <= a < |rs| && 0 <= b < |rs| && Succeeded(rs[a]) && Succeeded(rs[b]) && rs[a].formatted != rs[b].formatted;
      assert rs[a].formatted in s && rs[b].formatted in s;
      var i, j := FirstIndex(s, rs[a].formatted), FirstIndex(s, rs[b].formatted);
      assert s[i] != s[j];
    }
  }

  /** `firstValidLocale`: the first locale whose constructor does not throw. */
  function FirstValidLocale(p: Platform, options: Options, locales: seq<Locale>): (r: Option<Locale>)
    ensures r.None? <==> forall i :: 0 <= i < |locales| ==> !Constructs(p, locales[i], options)
    ensures r.Some? ==> exists i :: (0 <= i < |locales| && locales[i] == r.value &&
                                     Constructs(p, r.value, options) &&
                                     forall i' :: 0 <= i' < i ==> !Constructs(p, locales[i'], options))
    decreases |locales|
  {
    if |locales| == 0 then None
    else if Constructs(p, locales[0], options) then Some(locales[0])
    else
      var r := FirstValidLocale(p, options, locales[1..]);
      assert forall i :: 1 <= i < |locales| ==> locales[i] == locales[1..][i - 1];
      if r.Some? then
        var i :| 0 <= i < |locales[1..]| && locales[1..][i] == r.value &&
          Constructs(p, r.value, options) && forall i' :: 0 <= i' < i ==> !Constructs(p, locales[1..][i'], options);
        assert locales[i + 1] == r.value;
        r
      else r
  }

  /** A result without error means its constructor succeeded, so a valid
      locale exists. */
  lemma SuccessMeansValidLocale(p: Platform, date: Date, options: Options, locales: seq<Locale>, k: nat)
    requires k < |locales| && Results(p, date, options, locales)[k].error.None?
    ensures FirstValidLocale(p, options, locales).Some?
  {
  }

  /** `resolvedOptions`: the platform's resolved options for the first valid
      locale; `null` when there is none, and also when that locale is the
      empty string, which is falsy. */
  function ResolvedOptionsShown(p: Platform, options: Options, locales: seq<Locale>): (r: Option<ResolvedOptions>)
    ensures var f := FirstValidLocale(p, options, locales);
      r.Some? <==> f.Some? && f.value != ""
    ensures r.Some? ==> r.value == p.construct(FirstValidLocale(p, options, locales).value, options).value
  {
    var f := FirstValidLocale(p, options, locales);
    if f.Some? && f.value != "" then
      match p.construct(f.value, options)
      case Success(ro) => Some(ro)
      case Failure(_) => None
    else None
  }

  /** On a platform that rejects the empty tag, the resolved-options card is
      missing exactly when no locale is accepted. */
  lemma ResolvedOptionsIffValidLocale(p: Platform, options: Options, locales: seq<Locale>)
    requires !Constructs(p, "", options)
    ensures ResolvedOptionsShown(p, options, locales).None? <==>
      forall i :: 0 <= i < |locales| ==> !Constructs(p, locales[i], options)
  {
  }

  // ---------------------------------------------------------------------
  // The resolved-options card.
  // ---------------------------------------------------------------------

  predicate IsUpper(c: char)
  {
    'A' <= c <= 'Z'
  }

  function Lower(c: char): char
  {
    if IsUpper(c) then (c as int + 32) as char else c
  }

  function Upper(c: char): char
  {
    if 'a' <= c <= 'z' then (c as int - 32) as char else c
  }

  /** `key.replace(/([A-Z])/g, ' $1')`: a blank before every capital. */
  function SpaceBeforeCapitals(s: string): string
    decreases |s|
  {
    if |s| == 0 then ""
    else (if IsUpper(s[0]) then [' ', s[0]] else [s[0]]) + SpaceBeforeCapitals(s[1..])
  }

  /** `toLowerCase()` on ASCII letters. */
  function ToLower(s: string): (r: string)
    ensures |r| == |s|
    ensures forall i :: 0 <= i < |s| ==> r[i] == Lower(s[i])
  {
    seq(|s|, i requires 0 <= i < |s| => Lower(s[i]))
  }

  /** How many capitals `s` holds. */
  function Capitals(s: string): nat
    decreases |s|
  {
    if |s| == 0 then 0 else (if IsUpper(s[0]) then 1 else 0) + Capitals(s[1..])
  }

  /** The label of a resolved option: `hourCycle` becomes "hour cycle". */
  function KeyLabel(key: string): (r: string)
    ensures forall i :: 0 <= i < |r| ==> !IsUpper(r[i])
    ensures |r| == |key| + Capitals(key)
  {
    LabelLength(key);
    ToLower(SpaceBeforeCapitals(key))
  }

  lemma {:induction false} LabelLength(s: string)
    ensures |SpaceBeforeCapitals(s)| == |s| + Capitals(s)
    decreases |s|
  {
    if |s| > 0 { LabelLength(s[1..]); }
  }

  /** Reads a label back: a blank followed by a lower-case letter becomes
      that letter in upper case. */
  function CamelKey(s: string): string
    decreases |s|
  {
    if |s| >= 2 && s[0] == ' ' && 'a' <= s[1] <= 'z' then [Upper(s[1])] + CamelKey(s[2..])
    else if |s| == 0 then ""
    else [s[0]] + CamelKey(s[1..])
  }

  lemma LowerCons(a: string, b: string)
    ensures ToLower(a + b) == ToLower(a) + ToLower(b)
  {
  }

  /** No information is lost in a label: for a key without blanks, reading
      the label back gives the key. */
  lemma {:induction false} KeyLabelRoundTrip(key: string)
    requires ' ' !in key
    ensures CamelKey(KeyLabel(key)) == key
    decreases |key|
  {
    if |key| > 0 {
      var c := key[0];
      var head := if IsUpper(c) then [' ', c] else [c];
      assert SpaceBeforeCapitals(key) == head + SpaceBeforeCapitals(key[1..]);
      LowerCons(head, SpaceBeforeCapitals(key[1..]));
      assert ' ' !in key[1..];
      KeyLabelRoundTrip(key[1..]);
      var lab := KeyLabel(key);
      assert lab == ToLower(head) + KeyLabel(key[1..]);
      if IsUpper(c) {
        assert lab[0] == ' ' && lab[1] == Lower(c);
        assert lab[2..] == KeyLabel(key[1..]);
      } else {
        assert lab[0] == c && c != ' ';
        assert lab[1..] == KeyLabel(key[1..]);
      }
    }
  }

  /** One row of the resolved-options card: label and rendered value. */
  datatype Row = Row(name: string, text: string)

  /** `Object.entries(resolvedOptions).filter(key !== 'locale').map(...)`:
      every property except `locale`, in order, with its label and its value
      as text ("true" / "false" for booleans). */
  function ResolvedRows(ro: ResolvedOptions): (rows: seq<Row>)
    ensures |rows| <= |ro|
    decreases |ro|
  {
    if |ro| == 0 then []
    else (if ro[0].name == "locale" then [] else [RowOf(ro[0])]) + ResolvedRows(ro[1..])
  }

  /** The row of one property: its label and its value as text. */
  function RowOf(q: Property): Row
  {
    Row(KeyLabel(q.name), Intl.ValueText(q.value))
  }

  /** The properties other than `locale`. */
  function Others(ro: ResolvedOptions): seq<Property>
    decreases |ro|
  {
    if |ro| == 0 then []
    else (if ro[0].name == "locale" then [] else [ro[0]]) + Others(ro[1..])
  }

  /** The card has one row per property other than `locale`, in order. */
  lemma {:induction false} ResolvedRowsContent(ro: ResolvedOptions)
    ensures |ResolvedRows(ro)| == |Others(ro)|
    ensures forall i :: 0 <= i < |Others(ro)| ==> ResolvedRows(ro)[i] == RowOf(Others(ro)[i])
    decreases |ro|
  {
    if |ro| > 0 {
      ResolvedRowsContent(ro[1..]);
      var rows, qs := ResolvedRows(ro[1..]), Others(ro[1..]);
      if ro[0].name != "locale" {
        assert ResolvedRows(ro) == [RowOf(ro[0])] + rows;
        assert Others(ro) == [ro[0]] + qs;
        forall i | 1 <= i < |Others(ro)| ensures ResolvedRows(ro)[i] == RowOf(Others(ro)[i]) {
          assert ResolvedRows(ro)[i] == rows[i - 1] && Others(ro)[i] == qs[i - 1];
        }
      }
    }
  }

  /** The properties other than `locale` are exactly those of `ro` not
      named `locale`. */
  lemma {:induction false} OthersMembers(ro: ResolvedOptions)
    ensures forall q :: q in Others(ro) <==> q in ro && q.name != "locale"
    decreases |ro|
  {
    if |ro| > 0 {
      OthersMembers(ro[1..]);
      assert ro == [ro[0]] + ro[1..];
    }
  }
}
