/** The string plumbing the explorer borrows from JavaScript: decimal
    rendering of numbers (template strings and `String(n)`), `parseInt` on
    digit strings, and `Array.prototype.join` together with a splitter that
    undoes a `", "` join of comma-free parts. */
module Text {
  import opened Sequences

  predicate IsDigit(c: char)
  {
    '0' <= c <= '9'
  }

  predicate AllDigits(s: string)
  {
    forall i :: 0 <= i < |s| ==> IsDigit(s[i])
  }

  function DigitChar(d: nat): (c: char)
    requires d < 10
    ensures IsDigit(c)
  {
    (d + '0' as int) as char
  }

  function DigitValue(c: char): (d: nat)
    requires IsDigit(c)
    ensures d < 10
  {
    c as int - '0' as int
  }

  /** `String(n)` for a non-negative integer: its shortest decimal form. */
  function NatToString(n: nat): (s: string)
    ensures |s| >= 1 && AllDigits(s)
    ensures |s| > 1 ==> s[0] != '0'
    decreases n
  {
    if n < 10 then [DigitChar(n)] else NatToString(n / 10) + [DigitChar(n % 10)]
  }

  /** `parseInt(s)` for a string made only of decimal digits. */
  function ParseDigits(s: string): nat
    requires AllDigits(s)
    decreases |s|
  {
    if |s| == 0 then 0 else ParseDigits(s[..|s| - 1]) * 10 + DigitValue(s[|s| - 1])
  }

  /** Parsing the decimal form of a number gives the number back. */
  lemma {:induction false} ParseNatToString(n: nat)
    ensures ParseDigits(NatToString(n)) == n
    decreases n
  {
    if n >= 10 {
      var s := NatToString(n);
      assert s[..|s| - 1] == NatToString(n / 10);
      ParseNatToString(n / 10);
    }
  }

  /** `String(n)` (and `${n}`) for an integer below 10^21 in magnitude: a
      minus sign exactly for negative numbers, followed by the decimal
      digits of its magnitude. Larger magnitudes, which JavaScript prints in
      exponent form, are rendered in plain decimal here too. */
  function IntToString(n: int): (s: string)
    ensures |s| >= 1
    ensures s[0] == '-' <==> n < 0
    ensures n >= 0 ==> AllDigits(s) && ParseDigits(s) == n
    ensures n < 0 ==> AllDigits(s[1..]) && ParseDigits(s[1..]) == -n
  {
    ParseNatToString(if n < 0 then -n else n);
    if n < 0 then
      assert ("-" + NatToString(-n))[1..] == NatToString(-n);
      "-" + NatToString(-n)
    else NatToString(n)
  }

  /** `parts.join(sep)`: the empty list gives the empty string, otherwise the
      parts with `sep` between neighbours. */
  function Join(parts: seq<string>, sep: string): string
    decreases |parts|
  {
    if |parts| == 0 then ""
    else if |parts| == 1 then parts[0]
    else parts[0] + sep + Join(parts[1..], sep)
  }

  /** Two parts are joined with one separator between them. */
  lemma JoinTwo(x: string, y: string, sep: string)
    ensures Join([x, y], sep) == x + sep + y
  {
    assert [x, y][1..] == [y];
  }

  predicate CommaFree(parts: seq<string>)
  {
    forall i :: 0 <= i < |parts| ==> ',' !in parts[i]
  }

  /** Joining comma-free parts with `", "` puts exactly one comma between
      neighbours: nothing is dropped and nothing extra is inserted. */
  lemma {:induction false} JoinCommaCount(parts: seq<string>)
    requires |parts| >= 1 && CommaFree(parts)
    ensures Occurrences(Join(parts, ", "), ',') == |parts| - 1
    decreases |parts|
  {
    if |parts| == 1 {
      assert ',' !in parts[0];
    } else {
      assert ',' !in parts[0];
      JoinCommaCount(parts[1..]);
      OccurrencesAppend(parts[0], ", " + Join(parts[1..], ", "), ',');
      OccurrencesAppend(", ", Join(parts[1..], ", "), ',');
      assert parts[0] + ", " + Join(parts[1..], ", ") == parts[0] + (", " + Join(parts[1..], ", "));
    }
  }

  /** Appending a part to a non-empty list appends the separator and the part. */
  lemma {:induction false} JoinSnoc(parts: seq<string>, last: string, sep: string)
    requires |parts| >= 1
    ensures Join(parts + [last], sep) == Join(parts, sep) + sep + last
    decreases |parts|
  {
    if |parts| > 1 {
      assert (parts + [last])[1..] == parts[1..] + [last];
      JoinSnoc(parts[1..], last, sep);
    }
  }

  /** Splits a `", "`-separated list into its parts: a part ends at each
      comma, and one blank after the comma is skipped. */
  function SplitList(s: string): (parts: seq<string>)
    ensures |parts| >= 1
    decreases |s|
  {
    if ',' !in s then [s]
    else
      var i := FirstIndex(s, ',');
      var rest := s[i + 1..];
      [s[..i]] + SplitList(if |rest| > 0 && rest[0] == ' ' then rest[1..] else rest)
  }

  /** A comma-free head followed by `", "` splits off as the first part. */
  lemma SplitListCons(head: string, tail: string)
    requires ',' !in head
    ensures SplitList(head + ", " + tail) == [head] + SplitList(tail)
  {
    var s := head + ", " + tail;
    assert s[|head|] == ',';
    forall k | 0 <= k < |head| ensures s[k] != ',' {
      assert s[k] == head[k];
    }
    var i := FirstIndex(s, ',');
    assert i == |head|;
    assert s[..i] == head;
    assert s[i + 1..] == " " + tail;
    assert (" " + tail)[1..] == tail;
  }

  /** Splitting undoes a `", "` join of comma-free parts. */
  lemma {:induction false} SplitJoin(parts: seq<string>)
    requires |parts| >= 1 && CommaFree(parts)
    ensures SplitList(Join(parts, ", ")) == parts
    decreases |parts|
  {
    assert ',' !in parts[0];
    if |parts| > 1 {
      SplitListCons(parts[0], Join(parts[1..], ", "));
      SplitJoin(parts[1..]);
      assert parts == [parts[0]] + parts[1..];
    }
  }
}
