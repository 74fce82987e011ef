/** The `DateTimeFormatOptions` record edited by the options selector, as an
    ordered list of entries so that JavaScript's property order (insertion
    order, kept on overwrite) is explicit, and the selector's `updateOption`
    with the control handlers that feed it. */
module DateTimeOptions {
  import opened Wrappers
  import Text

  /** The seventeen option names the record declares. */
  datatype Key =
    | DateStyle | TimeStyle
    | Weekday | Era | Year | Month | Day
    | Hour | Minute | Second | FractionalSecondDigits
    | TimeZoneName | TimeZone
    | Hour12 | HourCycle | Calendar | NumberingSystem

  /** Property names never contain the colon, comma or blank that the
      preview uses as separators. */
  predicate PlainName(name: string)
  {
    name != [] && ':' !in name && ',' !in name && ' ' !in name
  }

  /** The JavaScript property name of a key, by group. */
  function Name(k: Key): (name: string)
    ensures PlainName(name)
  {
    match k
    case DateStyle | TimeStyle => StyleName(k)
    case Weekday | Era | Year | Month | Day => DateFieldName(k)
    case Hour | Minute | Second | FractionalSecondDigits => TimeFieldName(k)
    case TimeZoneName | TimeZone => ZoneName(k)
    case Hour12 | HourCycle | Calendar | NumberingSystem => ExtensionName(k)
  }

  /** The names of the two style shortcuts. */
  function StyleName(k: Key): (name: string)
    requires k.DateStyle? || k.TimeStyle?
    ensures PlainName(name)
  {
    match k
    case DateStyle => "dateStyle"
    case TimeStyle => "timeStyle"
  }

  /** The names of the date components. */
  function DateFieldName(k: Key): (name: string)
    requires k.Weekday? || k.Era? || k.Year? || k.Month? || k.Day?
    ensures PlainName(name)
  {
    match k
    case Weekday => "weekday"
    case Era => "era"
    case Year => "year"
    case Month => "month"
    case Day => "day"
  }

  /** The names of the time components. */
  function TimeFieldName(k: Key): (name: string)
    requires k.Hour? || k.Minute? || k.Second? || k.FractionalSecondDigits?
    ensures PlainName(name)
  {
    match k
    case Hour => "hour"
    case Minute => "minute"
    case Second => "second"
    case FractionalSecondDigits => "fractionalSecondDigits"
  }

  /** The names of the time-zone options. */
  function ZoneName(k: Key): (name: string)
    requires k.TimeZoneName? || k.TimeZone?
    ensures PlainName(name)
  {
    match k
    case TimeZoneName => "timeZoneName"
    case TimeZone => "timeZone"
  }

  /** The names of the options that override the locale's Unicode extension keys hc, ca and nu. */
  function ExtensionName(k: Key): (name: string)
    requires k.Hour12? || k.HourCycle? || k.Calendar? || k.NumberingSystem?
    ensures PlainName(name)
  {
    match k
    case Hour12 => "hour12"
    case HourCycle => "hourCycle"
    case Calendar => "calendar"
    case NumberingSystem => "numberingSystem"
  }

  /** The key a property name stands for, if any. */
  function KeyNamed(name: string): Option<Key>
  {
    if name == "dateStyle" then Some(DateStyle)
    else if name == "timeStyle" then Some(TimeStyle)
    else if name == "weekday" then Some(Weekday)
    else if name == "era" then Some(Era)
    else if name == "year" then Some(Year)
    else if name == "month" then Some(Month)
    else if name == "day" then Some(Day)
    else if name == "hour" then Some(Hour)
    else if name == "minute" then Some(Minute)
    else if name == "second" then Some(Second)
    else if name == "fractionalSecondDigits" then Some(FractionalSecondDigits)
    else if name == "timeZoneName" then Some(TimeZoneName)
    else if name == "timeZone" then Some(TimeZone)
    else if name == "hour12" then Some(Hour12)
    else if name == "hourCycle" then Some(HourCycle)
    else if name == "calendar" then Some(Calendar)
    else if name == "numberingSystem" then Some(NumberingSystem)
    else None
  }

  /** Every key is recovered from its name. */
  lemma KeyNamedName(k: Key)
    ensures KeyNamed(Name(k)) == Some(k)
  {
    match k
    case DateStyle | TimeStyle => StyleNamed(k);
    case Weekday | Era | Year | Month | Day => DateFieldNamed(k);
    case Hour | Minute | Second | FractionalSecondDigits => TimeFieldNamed(k);
    case TimeZoneName | TimeZone => ZoneNamed(k);
    case Hour12 | HourCycle | Calendar | NumberingSystem => ExtensionNamed(k);
  }

  lemma StyleNamed(k: Key)
    requires k.DateStyle? || k.TimeStyle?
    ensures KeyNamed(StyleName(k)) == Some(k)
  {
  }

  lemma DateFieldNamed(k: Key)
    requires k.Weekday? || k.Era? || k.Year? || k.Month? || k.Day?
    ensures KeyNamed(DateFieldName(k)) == Some(k)
  {
  }

  lemma TimeFieldNamed(k: Key)
    requires k.Hour? || k.Minute? || k.Second? || k.FractionalSecondDigits?
    ensures KeyNamed(TimeFieldName(k)) == Some(k)
  {
  }

  lemma ZoneNamed(k: Key)
    requires k.TimeZoneName? || k.TimeZone?
    ensures KeyNamed(ZoneName(k)) == Some(k)
  {
  }

  lemma ExtensionNamed(k: Key)
    requires k.Hour12? || k.HourCycle? || k.Calendar? || k.NumberingSystem?
    ensures KeyNamed(ExtensionName(k)) == Some(k)
  {
  }

  /** Distinct keys have distinct names. */
  lemma NameInjective(k: Key, k': Key)
    ensures Name(k) == Name(k') ==> k == k'
  {
    KeyNamedName(k);
    KeyNamedName(k');
  }

  /** An option value: the record holds strings, the number
      `fractionalSecondDigits` and the boolean `hour12`. */
  datatype Value = Str(s: string) | Num(n: int) | Bool(b: bool)

  /** One own property of the options object. */
  datatype Entry = Entry(key: Key, value: Value)

  /** An options object: its own properties in property order. */
  type Options = seq<Entry>

  /** A JavaScript object has each property at most once. */
  predicate UniqueKeys(o: Options)
  {
    forall i, j :: 0 <= i < j < |o| ==> o[i].key != o[j].key
  }

  /** The position of the property `k`, or `|o|` when it is absent. */
  function KeyIndex(o: Options, k: Key): (i: nat)
    ensures i <= |o|
    ensures i < |o| ==> o[i].key == k
    ensures forall j :: 0 <= j < i ==> o[j].key != k
    decreases |o|
  {
    if |o| == 0 then 0 else if o[0].key == k then 0 else 1 + KeyIndex(o[1..], k)
  }

  /** `options[k]`: the value of property `k`, or `undefined`. */
  function Lookup(o: Options, k: Key): (r: Option<Value>)
    ensures r.None? <==> forall j :: 0 <= j < |o| ==> o[j].key != k
    ensures r.Some? ==> Entry(k, r.value) in o
  {
    var i := KeyIndex(o, k);
    if i < |o| then Some(o[i].value) else None
  }

  /** `delete o[k]`: the object without property `k`. */
  function Delete(o: Options, k: Key): (r: Options)
    ensures |r| <= |o|
    decreases |o|
  {
    if |o| == 0 then []
    else if o[0].key == k then Delete(o[1..], k)
    else [o[0]] + Delete(o[1..], k)
  }

  /** `delete` keeps exactly the entries of the other keys. */
  lemma {:induction false} DeleteMembers(o: Options, k: Key)
    ensures forall e :: e in Delete(o, k) <==> e in o && e.key != k
    decreases |o|
  {
    if |o| > 0 {
      DeleteMembers(o[1..], k);
      assert o == [o[0]] + o[1..];
    }
  }

  /** `o[k] = v`: an existing property keeps its place and gets the new
      value; a new property goes last. */
  function Assign(o: Options, k: Key, v: Value): Options
  {
    var i := KeyIndex(o, k);
    if i < |o| then o[i := Entry(k, v)] else o + [Entry(k, v)]
  }

  /** The first position holding `k` is where `KeyIndex` points. */
  lemma {:induction false} KeyIndexIs(o: Options, k: Key, j: nat)
    requires j < |o| && o[j].key == k
    requires forall m :: 0 <= m < j ==> o[m].key != k
    ensures KeyIndex(o, k) == j
    decreases j
  {
    if j > 0 {
      KeyIndexIs(o[1..], k, j - 1);
    }
  }

  lemma LookupAssign(o: Options, k: Key, v: Value, k': Key)
    ensures Lookup(Assign(o, k, v), k') == if k' == k then Some(v) else Lookup(o, k')
  {
    if k' == k { AssignedKeyReads(o, k, v); } else { OtherKeyReads(o, k, v, k'); }
  }

  lemma AssignedKeyReads(o: Options, k: Key, v: Value)
    ensures Lookup(Assign(o, k, v), k) == Some(v)
  {
    var r := Assign(o, k, v);
    var i := KeyIndex(o, k);
    assert i < |r| && r[i] == Entry(k, v);
    assert forall m :: 0 <= m < i ==> r[m] == o[m];
    KeyIndexIs(r, k, i);
  }

  lemma OtherKeyReads(o: Options, k: Key, v: Value, k': Key)
    requires k' != k
    ensures Lookup(Assign(o, k, v), k') == Lookup(o, k')
  {
    var i := KeyIndex(o, k);
    if i < |o| { ReplacedReads(o, i, Entry(k, v), k'); } else { AppendedReads(o, Entry(k, v), k'); }
  }

  /** Overwriting the entry of another key leaves `k'` where it was. */
  lemma ReplacedReads(o: Options, i: nat, e: Entry, k': Key)
    requires i < |o| && o[i].key == e.key && e.key != k'
    ensures Lookup(o[i := e], k') == Lookup(o, k')
  {
    var r := o[i := e];
    var j := KeyIndex(o, k');
    forall m | 0 <= m < |r| ensures r[m].key == o[m].key {
      if m != i { assert r[m] == o[m]; }
    }
    if j < |o| {
      KeyIndexIs(r, k', j);
    } else {
      assert forall m :: 0 <= m < |r| ==> r[m].key != k';
    }
  }

  /** Appending an entry of another key leaves `k'` where it was. */
  lemma AppendedReads(o: Options, e: Entry, k': Key)
    requires e.key != k'
    ensures Lookup(o + [e], k') == Lookup(o, k')
  {
    var r := o + [e];
    var j := KeyIndex(o, k');
    if j < |o| {
      KeyIndexIs(r, k', j);
    } else {
      assert forall m :: 0 <= m < |r| ==> r[m].key != k';
    }
  }

  lemma LookupCons(e: Entry, t: Options, k: Key)
    ensures Lookup([e] + t, k) == if e.key == k then Some(e.value) else Lookup(t, k)
  {
    var o := [e] + t;
    assert o[0] == e;
    if e.key == k {
      KeyIndexIs(o, k, 0);
    } else {
      var i := KeyIndex(t, k);
      forall m | 1 <= m < |o| ensures o[m] == t[m - 1] { }
      if i < |t| {
        KeyIndexIs(o, k, 1 + i);
      } else {
        assert forall m :: 0 <= m < |o| ==> o[m].key != k;
      }
    }
  }

  lemma {:induction false} LookupDelete(o: Options, k: Key, k': Key)
    ensures Lookup(Delete(o, k), k') == if k' == k then None else Lookup(o, k')
    decreases |o|
  {
    if |o| > 0 {
      LookupDelete(o[1..], k, k');
      assert o == [o[0]] + o[1..];
      LookupCons(o[0], o[1..], k');
      if o[0].key != k {
        LookupCons(o[0], Delete(o[1..], k), k');
      }
    }
  }

  lemma {:induction false} DeleteUnique(o: Options, k: Key)
    requires UniqueKeys(o)
    ensures UniqueKeys(Delete(o, k))
    decreases |o|
  {
    if |o| > 0 {
      DeleteUnique(o[1..], k);
      if o[0].key != k {
        var r := Delete(o, k);
        DeleteMembers(o[1..], k);
        forall j | 0 < j < |r| ensures r[0].key != r[j].key {
          assert r[j] in Delete(o[1..], k);
          var m :| 0 <= m < |o[1..]| && o[1..][m] == r[j];
          assert o[m + 1] == r[j];
        }
      }
    }
  }

  /** A value that makes `updateOption` delete the key: `undefined` or `""`. */
  predicate Clears(v: Option<Value>)
  {
    v.None? || v == Some(Str(""))
  }

  /** `updateOption(key, value)`: a copy of the options with `key` deleted
      when the value is `undefined` or `""`, and set to the value otherwise.
      Every other key keeps its value. */
  function UpdateOption(o: Options, k: Key, v: Option<Value>): (r: Options)
    ensures Lookup(r, k) == if Clears(v) then None else v
    ensures forall k' :: k' != k ==> Lookup(r, k') == Lookup(o, k')
    ensures UniqueKeys(o) ==> UniqueKeys(r)
  {
    DeleteFacts(o, k);
    AssignFacts(o, k, if v.Some? then v.value else Str(""));
    if Clears(v) then Delete(o, k) else Assign(o, k, v.value)
  }

  lemma DeleteFacts(o: Options, k: Key)
    ensures forall k' :: Lookup(Delete(o, k), k') == if k' == k then None else Lookup(o, k')
    ensures UniqueKeys(o) ==> UniqueKeys(Delete(o, k))
  {
    forall k' ensures Lookup(Delete(o, k), k') == if k' == k then None else Lookup(o, k') {
      LookupDelete(o, k, k');
    }
    if UniqueKeys(o) { DeleteUnique(o, k); }
  }

  lemma AssignFacts(o: Options, k: Key, v: Value)
    ensures forall k' :: Lookup(Assign(o, k, v), k') == if k' == k then Some(v) else Lookup(o, k')
    ensures UniqueKeys(o) ==> UniqueKeys(Assign(o, k, v))
  {
    forall k' ensures Lookup(Assign(o, k, v), k') == if k' == k then Some(v) else Lookup(o, k') {
      LookupAssign(o, k, v, k');
    }
    var r := Assign(o, k, v);
    if UniqueKeys(o) {
      forall i, j | 0 <= i < j < |r| ensures r[i].key != r[j].key {
        if j == |o| {
          assert r[i] == o[i];
        }
      }
    }
  }

  /** Applying the same update twice is the same as applying it once. */
  lemma {:induction false} UpdateOptionIdempotent(o: Options, k: Key, v: Option<Value>)
    ensures UpdateOption(UpdateOption(o, k, v), k, v) == UpdateOption(o, k, v)
  {
    var r := UpdateOption(o, k, v);
    if Clears(v) {
      DeleteAbsent(r, k);
    } else {
      var i := KeyIndex(o, k);
      assert r == Assign(o, k, v.value);
      assert KeyIndex(r, k) == i by {
        assert r[i] == Entry(k, v.value);
        assert forall j :: 0 <= j < i ==> r[j] == o[j];
      }
      assert r[i := Entry(k, v.value)] == r;
    }
  }

  /** Deleting an absent key changes nothing. */
  lemma {:induction false} DeleteAbsent(o: Options, k: Key)
    requires forall j :: 0 <= j < |o| ==> o[j].key != k
    ensures Delete(o, k) == o
    decreases |o|
  {
    if |o| > 0 { DeleteAbsent(o[1..], k); }
  }

  /** Deleting from a concatenation deletes from each part. */
  lemma {:induction false} DeleteAppend(a: Options, b: Options, k: Key)
    ensures Delete(a + b, k) == Delete(a, k) + Delete(b, k)
    decreases |a|
  {
    if |a| == 0 {
      assert a + b == b;
    } else {
      assert (a + b)[1..] == a[1..] + b;
      DeleteAppend(a[1..], b, k);
    }
  }

  /** Deleting a key that is present removes exactly its one entry and keeps
      the rest in order. */
  lemma DeleteKeepsOrder(o: Options, k: Key)
    requires UniqueKeys(o)
    requires KeyIndex(o, k) < |o|
    ensures Delete(o, k) == o[..KeyIndex(o, k)] + o[KeyIndex(o, k) + 1..]
  {
    var i := KeyIndex(o, k);
    var before, rest := o[..i], o[i..];
    assert o == before + rest;
    DeleteAppend(before, rest, k);
    DeleteAbsent(before, k);
    assert rest[0] == o[i] && rest[1..] == o[i + 1..];
    DeleteAbsentAfter(o, i, k);
  }

  /** With distinct keys, nothing after the key's own position holds it. */
  lemma DeleteAbsentAfter(o: Options, i: nat, k: Key)
    requires UniqueKeys(o) && i < |o| && o[i].key == k
    ensures Delete(o[i + 1..], k) == o[i + 1..]
  {
    var after := o[i + 1..];
    forall j | 0 <= j < |after| ensures after[j].key != k {
      assert after[j] == o[i + 1 + j];
    }
    DeleteAbsent(after, k);
  }

  /** Where `updateOption` puts things: overwriting keeps the key's place,
      a new key is appended, and deleting closes the gap without reordering. */
  lemma UpdateOptionOrder(o: Options, k: Key, v: Option<Value>)
    requires UniqueKeys(o)
    ensures var i := KeyIndex(o, k);
      UpdateOption(o, k, v) ==
        if Clears(v) then (if i < |o| then o[..i] + o[i + 1..] else o)
        else if i < |o| then o[i := Entry(k, v.value)]
        else o + [Entry(k, v.value)]
  {
    if Clears(v) {
      if KeyIndex(o, k) < |o| { DeleteKeepsOrder(o, k); } else { DeleteAbsent(o, k); }
    }
  }

  // ---------------------------------------------------------------------
  // The selector's controls and the values they pass to updateOption.
  // ---------------------------------------------------------------------

  /** The item of a select control that stands for "not set": "none" on the
      style and component selects, "local" on the time zone select, "auto"
      on the hour cycle select. The other keys use other controls. */
  function UnsetItem(k: Key): Option<string>
  {
    match k
    case TimeZone => Some("local")
    case HourCycle => Some("auto")
    case FractionalSecondDigits => None
    case Hour12 => None
    case Calendar => None
    case NumberingSystem => None
    case _ => Some("none")
  }

  /** Choosing `item` in the select for `k`: the unset item becomes
      `undefined`, anything else is stored as the string. */
  function OnSelect(o: Options, k: Key, item: string): (r: Options)
    requires UnsetItem(k).Some?
    ensures item == UnsetItem(k).value ==> Lookup(r, k).None?
    ensures item != UnsetItem(k).value && item != "" ==> Lookup(r, k) == Some(Str(item))
    ensures forall k' :: k' != k ==> Lookup(r, k') == Lookup(o, k')
  {
    UpdateOption(o, k, if item == UnsetItem(k).value then None else Some(Str(item)))
  }

  /** The item a select shows: the stored string, or the unset item when the
      key is absent or holds a falsy value (`options.k || "none"`). */
  function Shown(o: Options, k: Key): string
    requires UnsetItem(k).Some?
  {
    match Lookup(o, k)
    case Some(Str(s)) => if s == "" then UnsetItem(k).value else s
    case _ => UnsetItem(k).value
  }

  /** Re-choosing the item a select already shows leaves the options exactly
      as they were, order included. */
  lemma ReselectShownIsNoOp(o: Options, k: Key)
    requires UniqueKeys(o)
    requires UnsetItem(k).Some?
    requires Lookup(o, k).None? ||
      (Lookup(o, k).value.Str? && Lookup(o, k).value.s != "" && Lookup(o, k).value.s != UnsetItem(k).value)
    ensures OnSelect(o, k, Shown(o, k)) == o
  {
    UpdateOptionOrder(o, k, if Shown(o, k) == UnsetItem(k).value then None else Some(Str(Shown(o, k))));
    var i := KeyIndex(o, k);
    if i < |o| {
      assert o[i] == Entry(k, Lookup(o, k).value);
      assert o[i := o[i]] == o;
    }
  }

  /** The items of the fractional-second-digits select. */
  const FractionalItems: seq<string> := ["none", "0", "1", "2", "3"]

  /** Choosing a fractional-second-digits item: "none" becomes `undefined`,
      a digit item is stored as `parseInt(item)`, 0 included although the
      declared type allows only 1, 2 and 3. */
  function OnFractionalSelect(o: Options, item: string): (r: Options)
    requires item in FractionalItems
    ensures item == "none" ==> Lookup(r, FractionalSecondDigits).None?
    ensures item != "none" ==>
      (Text.AllDigits(item) && Lookup(r, FractionalSecondDigits) == Some(Num(Text.ParseDigits(item))))
    ensures item == "0" ==> Lookup(r, FractionalSecondDigits) == Some(Num(0))
    ensures forall k' :: k' != FractionalSecondDigits ==> Lookup(r, k') == Lookup(o, k')
  {
    if item == "none" then UpdateOption(o, FractionalSecondDigits, None)
    else
      assert Text.AllDigits(item) && |item| == 1;
      UpdateOption(o, FractionalSecondDigits, Some(Num(Text.ParseDigits(item))))
  }

  /** The item the fractional-second-digits select shows:
      `options.fractionalSecondDigits?.toString() || "none"`. */
  function ShownFractional(o: Options): string
  {
    match Lookup(o, FractionalSecondDigits)
    case Some(Num(n)) => Text.IntToString(n)
    case _ => "none"
  }

  /** Re-choosing the shown fractional digit leaves the options unchanged:
      the digit shown parses back to the number stored. */
  lemma ReselectFractionalIsNoOp(o: Options)
    requires UniqueKeys(o)
    requires Lookup(o, FractionalSecondDigits).None? ||
      (Lookup(o, FractionalSecondDigits).value.Num? && 0 <= Lookup(o, FractionalSecondDigits).value.n <= 3)
    ensures ShownFractional(o) in FractionalItems
    ensures OnFractionalSelect(o, ShownFractional(o)) == o
  {
    var i := KeyIndex(o, FractionalSecondDigits);
    if i < |o| {
      var n := Lookup(o, FractionalSecondDigits).value.n;
      assert n == 0 || n == 1 || n == 2 || n == 3;
      assert ShownFractional(o) == Text.NatToString(n);
      Text.ParseNatToString(n);
      UpdateOptionOrder(o, FractionalSecondDigits, Some(Num(n)));
      assert o[i] == Entry(FractionalSecondDigits, Num(n));
      assert o[i := o[i]] == o;
    } else {
      UpdateOptionOrder(o, FractionalSecondDigits, None);
    }
  }

  /** Toggling the 12-hour checkbox: checked stores `true`, unchecked
      removes the key, so `hour12` is never stored as `false`. */
  function OnHour12Change(o: Options, checked: bool): (r: Options)
    ensures checked <==> Lookup(r, Hour12) == Some(Bool(true))
    ensures Lookup(r, Hour12) != Some(Bool(false))
    ensures forall k' :: k' != Hour12 ==> Lookup(r, k') == Lookup(o, k')
  {
    UpdateOption(o, Hour12, if checked then Some(Bool(true)) else None)
  }

  /** Typing in the calendar or numbering-system field
      (`e.target.value || undefined`): empty text removes the key. */
  function OnTextInput(o: Options, k: Key, text: string): (r: Options)
    requires k == Calendar || k == NumberingSystem
    ensures text == "" <==> Lookup(r, k).None?
    ensures text != "" ==> Lookup(r, k) == Some(Str(text))
    ensures forall k' :: k' != k ==> Lookup(r, k') == Lookup(o, k')
  {
    UpdateOption(o, k, if text == "" then None else Some(Str(text)))
  }
}
