/** `stringifyOptions`: the one-line preview of an options object shown
    under each format's name, and the rendering of option values that the
    template string performs. */
module Intl {
  import opened Wrappers
  import opened DateTimeOptions
  import opened Text
  import opened Sequences

  /** A value as a template string (or `String(value)`) renders it: strings
      as themselves, numbers in decimal, booleans as "true" / "false". */
  function ValueText(v: Value): string
  {
    match v
    case Str(s) => s
    case Num(n) => IntToString(n)
    case Bool(b) => if b then "true" else "false"
  }

  /** The rendering of one entry: `${key}: ${value}`. */
  function Segment(e: Entry): string
  {
    Name(e.key) + ": " + ValueText(e.value)
  }

  /** `Object.entries(options).map(...)`: one segment per entry, in order. */
  function Segments(o: Options): (segs: seq<string>)
    ensures |segs| == |o|
    ensures forall i :: 0 <= i < |o| ==> segs[i] == Segment(o[i])
  {
    seq(|o|, i requires 0 <= i < |o| => Segment(o[i]))
  }

  /** `stringifyOptions(options)`: the segments joined by ", ". */
  function StringifyOptions(o: Options): (r: string)
    ensures r == "" <==> |o| == 0
    ensures |o| == 1 ==> r == Segment(o[0])
  {
    var segs := Segments(o);
    JoinLengthAtLeastFirst(segs);
    Join(segs, ", ")
  }

  lemma JoinLengthAtLeastFirst(segs: seq<string>)
    ensures |segs| >= 1 ==> |Join(segs, ", ")| >= |segs[0]|
  {
  }

  /** The property name and value text of one rendered segment: the name
      ends at the first ':', and the value follows the ": ". */
  function ParseSegment(seg: string): (string, string)
  {
    if ':' !in seg then (seg, "")
    else
      var i := FirstIndex(seg, ':');
      var rest := seg[i + 1..];
      (seg[..i], if |rest| > 0 && rest[0] == ' ' then rest[1..] else rest)
  }

  lemma ParseOneSegment(e: Entry)
    ensures ParseSegment(Segment(e)) == (Name(e.key), ValueText(e.value))
  {
    var name := Name(e.key);
    var seg := Segment(e);
    assert seg[|name|] == ':';
    forall k | 0 <= k < |name| ensures seg[k] != ':' {
      assert seg[k] == name[k];
    }
    var i := FirstIndex(seg, ':');
    assert i == |name|;
    assert seg[..i] == name;
    assert seg[i + 1..] == " " + ValueText(e.value);
  }

  /** Reads a preview back into (name, value text) pairs. */
  function ParsePreview(s: string): seq<(string, string)>
  {
    var parts := SplitList(s);
    seq(|parts|, i requires 0 <= i < |parts| => ParseSegment(parts[i]))
  }

  /** No value text of the options contains a comma. */
  predicate CommaFreeValues(o: Options)
  {
    forall i :: 0 <= i < |o| ==> ',' !in ValueText(o[i].value)
  }

  lemma SegmentsCommaFree(o: Options)
    requires CommaFreeValues(o)
    ensures CommaFree(Segments(o))
  {
    forall i | 0 <= i < |o| ensures ',' !in Segments(o)[i] {
      SegmentCommaFree(o[i]);
    }
  }

  /** A segment holds a comma only when its value text does. */
  lemma SegmentCommaFree(e: Entry)
    requires ',' !in ValueText(e.value)
    ensures ',' !in Segment(e)
  {
    var name := Name(e.key);
    assert Segment(e) == name + (": " + ValueText(e.value));
    assert ',' !in ": ";
  }

  /** The preview loses nothing and reorders nothing: when no value text
      contains a comma, it reads back as every entry's name and value text,
      in the options' order. */
  lemma PreviewRoundTrip(o: Options)
    requires |o| >= 1 && CommaFreeValues(o)
    ensures ParsePreview(StringifyOptions(o)) ==
      seq(|o|, i requires 0 <= i < |o| => (Name(o[i].key), ValueText(o[i].value)))
  {
    SegmentsCommaFree(o);
    SplitJoin(Segments(o));
    forall i | 0 <= i < |o| ensures ParseSegment(Segments(o)[i]) == (Name(o[i].key), ValueText(o[i].value)) {
      ParseOneSegment(o[i]);
    }
  }

  /** With n >= 1 comma-free entries the preview holds exactly n - 1
      separating commas. */
  lemma PreviewSeparators(o: Options)
    requires |o| >= 1 && CommaFreeValues(o)
    ensures Occurrences(StringifyOptions(o), ',') == |o| - 1
  {
    SegmentsCommaFree(o);
    JoinCommaCount(Segments(o));
  }

  /** Adding a new option to non-empty options extends the preview by a
      separator and the new entry's segment; the earlier text is unchanged. */
  lemma PreviewOfAddedOption(o: Options, k: Key, v: Value)
    requires |o| >= 1 && UniqueKeys(o)
    requires Lookup(o, k).None? && v != Str("")
    ensures StringifyOptions(UpdateOption(o, k, Some(v))) ==
      StringifyOptions(o) + ", " + Segment(Entry(k, v))
  {
    var e := Entry(k, v);
    assert KeyIndex(o, k) == |o|;
    UpdateOptionOrder(o, k, Some(v));
    assert UpdateOption(o, k, Some(v)) == o + [e];
    AppendedSegments(o, e);
    JoinSnoc(Segments(o), Segment(e), ", ");
  }

  lemma AppendedSegments(o: Options, e: Entry)
    ensures Segments(o + [e]) == Segments(o) + [Segment(e)]
  {
  }

  /** A segment starts with "k: " exactly when it renders key k. */
  lemma SegmentPrefix(e: Entry, k: Key)
    ensures Name(k) + ": " <= Segment(e) <==> e.key == k
  {
    var seg := Segment(e);
    var b := Name(e.key) + ": ";
    assert b <= seg by {
      assert seg == b + ValueText(e.value);
    }
    if Name(k) + ": " <= seg {
      NameBeforeColon(Name(k), Name(e.key), seg);
      NameInjective(k, e.key);
    }
  }

  /** Two colon-free names that both open `seg` with ": " are the same name. */
  lemma NameBeforeColon(a: string, b: string, seg: string)
    requires ':' !in a && ':' !in b
    requires a + ": " <= seg && b + ": " <= seg
    ensures a == b
  {
    assert seg[|a|] == (a + ": ")[|a|] == ':';
    assert seg[|b|] == (b + ": ")[|b|] == ':';
    assert forall j :: 0 <= j < |a| ==> seg[j] == (a + ": ")[j] == a[j];
    assert forall j :: 0 <= j < |b| ==> seg[j] == (b + ": ")[j] == b[j];
    assert |a| == |b|;
  }

  /** After `updateOption(k, undefined)` no segment of the preview renders
      key k, and every other key's segment is still there. */
  lemma ClearedKeyNotRendered(o: Options, k: Key, v: Option<Value>)
    requires Clears(v)
    ensures forall i :: 0 <= i < |Segments(UpdateOption(o, k, v))| ==>
      !(Name(k) + ": " <= Segments(UpdateOption(o, k, v))[i])
    ensures forall e :: e in o && e.key != k ==> Segment(e) in Segments(UpdateOption(o, k, v))
  {
    var r := UpdateOption(o, k, v);
    assert r == Delete(o, k);
    DeleteMembers(o, k);
    forall i | 0 <= i < |r| ensures !(Name(k) + ": " <= Segments(r)[i]) {
      assert r[i] in r;
      SegmentPrefix(r[i], k);
    }
    forall e | e in o && e.key != k ensures Segment(e) in Segments(r) {
      assert e in r;
      var i :| 0 <= i < |r| && r[i] == e;
      assert Segments(r)[i] == Segment(e);
    }
  }
}
