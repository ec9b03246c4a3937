/**
 * Indian-style digit grouping of numeric strings, as the form helpers
 * `formatIndianNumber` and `unformatNumber` do it: the last three digits of
 * the integer part stay together, every two digits before them get a comma,
 * the decimal part is copied verbatim, and removing the commas undoes it.
 *
 * Strings are `seq<char>`. The regular expression the formatter applies is
 * modelled position by position (`InsertCommas`), and proved equal on digit
 * strings to an independent right-to-left grouping (`PairGroups`).
 */
module IndianFormat {

  // ---------------------------------------------------------------------
  // Characters
  // ---------------------------------------------------------------------

  /** `\d` of a JavaScript regular expression (ASCII digits only). */
  predicate IsDigit(c: char) {
    '0' <= c <= '9'
  }

  /** `\w` of a JavaScript regular expression: ASCII letters, digits and `_`. */
  predicate IsWordChar(c: char) {
    IsDigit(c) || ('a' <= c <= 'z') || ('A' <= c <= 'Z') || c == '_'
  }

  predicate IsSign(c: char) {
    c == '-' || c == '+'
  }

  predicate AllDigits(s: string) {
    forall i :: 0 <= i < |s| ==> IsDigit(s[i])
  }

  // ---------------------------------------------------------------------
  // String.prototype.split with a one-character separator
  // ---------------------------------------------------------------------

  /** The pieces joined back with the separator between them. */
  function Join(parts: seq<string>, sep: char): string
    requires |parts| >= 1
  {
    if |parts| == 1 then parts[0] else parts[0] + [sep] + Join(parts[1..], sep)
  }

  /** `s.split(sep)`; `SplitJoin` states what the pieces are. */
  function Split(s: string, sep: char): (parts: seq<string>)
    ensures |parts| >= 1
  {
    if |s| == 0 then [""]
    else
      var rest := Split(s[1..], sep);
      if s[0] == sep then [""] + rest
      else [[s[0]] + rest[0]] + rest[1..]
  }

  /** Joining the pieces of `s.split(sep)` with the separator gives `s`
      back. */
  lemma {:induction false} SplitJoin(s: string, sep: char)
    ensures Join(Split(s, sep), sep) == s
  {
    if |s| > 0 {
      var rest := Split(s[1..], sep);
      SplitJoin(s[1..], sep);
      var parts := Split(s, sep);
      if s[0] == sep {
        assert parts[1..] == rest;
      } else {
        assert parts[1..] == rest[1..];
        if |rest| > 1 {
          assert Join(rest, sep) == rest[0] + [sep] + Join(rest[1..], sep);
        }
      }
      assert s == [s[0]] + s[1..];
    }
  }

  /** No piece of `s.split(sep)` holds the separator. */
  lemma {:induction false} SplitPieces(s: string, sep: char)
    ensures forall i :: 0 <= i < |Split(s, sep)| ==> sep !in Split(s, sep)[i]
  {
    if |s| > 0 {
      var rest := Split(s[1..], sep);
      SplitPieces(s[1..], sep);
      var parts := Split(s, sep);
      if s[0] == sep {
        assert forall i :: 1 <= i < |parts| ==> parts[i] == rest[i - 1];
      } else {
        assert forall i :: 1 <= i < |parts| ==> parts[i] == rest[i];
        assert parts[0] == [s[0]] + rest[0];
      }
    }
  }

  lemma {:induction false} SplitWithout(s: string, sep: char)
    requires sep !in s
    ensures Split(s, sep) == [s]
  {
    if |s| > 0 {
      assert sep !in s[1..] by {
        forall i | 0 <= i < |s[1..]| ensures s[1..][i] != sep { assert s[1..][i] == s[i + 1]; }
      }
      SplitWithout(s[1..], sep);
      assert [s[0]] + s[1..] == s;
    }
  }

  /** One step of `Split`: the first character opens a new piece or joins
      the first piece of the rest. */
  lemma SplitCons(c: char, t: string, sep: char)
    ensures var rest := Split(t, sep);
      Split([c] + t, sep) == if c == sep then [""] + rest else [[c] + rest[0]] + rest[1..]
  {
    assert ([c] + t)[1..] == t;
  }

  lemma {:induction false} SplitAround(a: string, b: string, sep: char)
    ensures Split(a + [sep] + b, sep) == Split(a, sep) + Split(b, sep)
  {
    if |a| == 0 {
      assert a + [sep] + b == [sep] + b;
      SplitCons(sep, b, sep);
    } else {
      SplitAround(a[1..], b, sep);
      SplitAroundStep(a[0], a[1..], b, sep);
      assert a == [a[0]] + a[1..];
      assert a + [sep] + b == [a[0]] + (a[1..] + [sep] + b);
    }
  }

  /** The inductive step of `SplitAround`: one more character in front. */
  lemma SplitAroundStep(c: char, a: string, b: string, sep: char)
    requires Split(a + [sep] + b, sep) == Split(a, sep) + Split(b, sep)
    ensures Split([c] + (a + [sep] + b), sep) == Split([c] + a, sep) + Split(b, sep)
  {
    SplitCons(c, a + [sep] + b, sep);
    SplitCons(c, a, sep);
    if c != sep {
      PrependToFirst([c], Split(a, sep), Split(b, sep));
    }
  }

  /** Extending the first piece commutes with appending further pieces. */
  lemma PrependToFirst(c: string, ra: seq<string>, rb: seq<string>)
    requires |ra| >= 1
    ensures [c + ra[0]] + ra[1..] + rb == [c + (ra + rb)[0]] + (ra + rb)[1..]
  {
    assert (ra + rb)[1..] == ra[1..] + rb;
  }

  // ---------------------------------------------------------------------
  // Numeric strings: the strings for which `isNaN` is false
  // ---------------------------------------------------------------------

  /** The leading sign of `s`, if it has one. */
  function SignPrefix(s: string): (sign: string)
    ensures |sign| <= 1 && sign <= s
  {
    if |s| > 0 && IsSign(s[0]) then s[..1] else ""
  }

  /** A decimal numeral: an optional sign, digits, an optional point and
      more digits, with at least one digit in all. */
  predicate IsNumeral(s: string) {
    var parts := Split(s[|SignPrefix(s)|..], '.');
    AllDigits(parts[0]) &&
    ((|parts| == 1 && |parts[0]| > 0) ||
     (|parts| == 2 && AllDigits(parts[1]) && |parts[0]| + |parts[1]| > 0))
  }

  /** A numeral taken apart: sign, integer digits, whether a point is
      written, and the digits after it. */
  datatype Numeral = Numeral(sign: string, whole: string, point: bool, fraction: string) {

    predicate WellFormed() {
      (sign == "" || sign == "-" || sign == "+") &&
      AllDigits(whole) && AllDigits(fraction) &&
      (point || fraction == "") &&
      |whole| + |fraction| > 0
    }

    function Text(): string {
      sign + whole + (if point then "." + fraction else "")
    }

    /** What the formatter appends after the integer part. */
    function DecimalSuffix(): string {
      if fraction != "" then "." + fraction else ""
    }
  }

  lemma DigitsHaveNo(s: string, c: char)
    requires AllDigits(s) && !IsDigit(c)
    ensures c !in s
  {
  }

  lemma {:induction false} SplitPointed(a: string, point: bool, fraction: string)
    requires '.' !in a && '.' !in fraction
    ensures Split(a + (if point then "." + fraction else ""), '.') == [a] + (if point then [fraction] else [])
  {
    SplitWithout(a, '.');
    if point {
      SplitWithout(fraction, '.');
      assert a + ("." + fraction) == a + ['.'] + fraction;
      SplitAround(a, fraction, '.');
    } else {
      assert a + "" == a;
    }
  }

  lemma SignOfText(n: Numeral)
    requires n.WellFormed()
    ensures SignPrefix(n.Text()) == n.sign
  {
    var t := n.Text();
    if n.sign == "" && |n.whole| == 0 {
      assert t[0] == '.';
    } else if n.sign == "" {
      assert t[0] == n.whole[0];
    } else {
      assert t[0] == n.sign[0];
    }
  }

  lemma TextSplit(n: Numeral)
    requires n.WellFormed()
    ensures SignPrefix(n.Text()) == n.sign
    ensures Split(n.Text(), '.') == [n.sign + n.whole] + (if n.point then [n.fraction] else [])
    ensures Split(n.Text()[|n.sign|..], '.') == [n.whole] + (if n.point then [n.fraction] else [])
  {
    SignOfText(n);
    DigitsHaveNo(n.whole, '.');
    DigitsHaveNo(n.fraction, '.');
    var tail := if n.point then "." + n.fraction else "";
    assert n.Text() == (n.sign + n.whole) + tail;
    assert n.Text()[|n.sign|..] == n.whole + tail;
    assert '.' !in n.sign + n.whole;
    SplitPointed(n.sign + n.whole, n.point, n.fraction);
    SplitPointed(n.whole, n.point, n.fraction);
  }

  /** Every well-formed numeral is written as a numeral. */
  lemma TextIsNumeral(n: Numeral)
    requires n.WellFormed()
    ensures IsNumeral(n.Text())
  {
    TextSplit(n);
  }

  /** A sign prefix is empty or one sign character, and the string is the
      sign followed by what comes after it. */
  lemma SignPrefixParts(s: string)
    ensures var sign := SignPrefix(s);
      (sign == "" || sign == "-" || sign == "+") && s == sign + s[|sign|..]
  {
    if |s| > 0 && IsSign(s[0]) {
      assert SignPrefix(s) == [s[0]];
    }
  }

  lemma JoinOneOrTwo(parts: seq<string>, sep: char)
    requires |parts| == 1 || |parts| == 2
    ensures Join(parts, sep) == if |parts| == 2 then parts[0] + [sep] + parts[1] else parts[0]
  {
    if |parts| == 2 {
      assert Join(parts[1..], sep) == parts[1];
    }
  }

  /** A numeral is its sign, the digits before the point and, when there is
      a point, the point and the digits after it. */
  lemma NumeralPieces(s: string)
    requires IsNumeral(s)
    ensures var sign := SignPrefix(s);
      var parts := Split(s[|sign|..], '.');
      s == sign + parts[0] + (if |parts| == 2 then "." + parts[1] else "")
  {
    var sign := SignPrefix(s);
    var rest := s[|sign|..];
    var parts := Split(rest, '.');
    SignPrefixParts(s);
    assert Join(parts, '.') == rest by {
      SplitJoin(rest, '.');
    }
    JoinOneOrTwo(parts, '.');
  }

  /** Every numeral is the text of exactly the parts `Parse` finds. */
  function Parse(s: string): (n: Numeral)
    requires IsNumeral(s)
    ensures n.WellFormed() && n.Text() == s
  {
    var sign := SignPrefix(s);
    var parts := Split(s[|sign|..], '.');
    SignPrefixParts(s);
    NumeralPieces(s);
    Numeral(sign, parts[0], |parts| == 2, if |parts| == 2 then parts[1] else "")
  }

  // ---------------------------------------------------------------------
  // The regular expression /\B(?=(\d{2})+(?!\d))/g, position by position
  // ---------------------------------------------------------------------

  /** Length of the run of digits that starts at position `p`. */
  function DigitRun(s: string, p: nat): nat
    requires p <= |s|
    decreases |s| - p
  {
    if p < |s| && IsDigit(s[p]) then 1 + DigitRun(s, p + 1) else 0
  }

  /** `\B`: the characters on both sides of position `p` are alike in being
      word characters (a missing character is not one). */
  predicate NotAtWordBoundary(s: string, p: nat)
    requires p <= |s|
  {
    (p > 0 && IsWordChar(s[p - 1])) == (p < |s| && IsWordChar(s[p]))
  }

  /** `(?=(\d{2})+(?!\d))`: an even, non-zero number of digits follows and
      then no digit, i.e. the digit run from `p` has even length at least 2. */
  predicate PairsToRunEnd(s: string, p: nat)
    requires p <= |s|
  {
    var k := DigitRun(s, p);
    k >= 2 && k % 2 == 0
  }

  /** The pattern matches (with zero width) at position `p`. */
  predicate CommaAt(s: string, p: nat)
    requires p <= |s|
  {
    NotAtWordBoundary(s, p) && PairsToRunEnd(s, p)
  }

  /** The replacement from position `p` onwards: a comma at every matching
      position, and each character copied. */
  function InsertFrom(s: string, p: nat): string
    requires p <= |s|
    decreases |s| - p
  {
    var mark := if CommaAt(s, p) then "," else "";
    if p == |s| then mark else mark + [s[p]] + InsertFrom(s, p + 1)
  }

  /** `s.replace(/\B(?=(\d{2})+(?!\d))/g, ',')`. */
  function InsertCommas(s: string): string {
    InsertFrom(s, 0)
  }

  // ---------------------------------------------------------------------
  // Reference grouping
  // ---------------------------------------------------------------------

  /** Digits in pairs counted from the right, the leftmost group having one
      or two digits. */
  function PairGroups(x: string): string {
    if |x| <= 2 then x else PairGroups(x[..|x| - 2]) + "," + x[|x| - 2..]
  }

  /** Indian grouping of an integer's digits: the last three together,
      pairs before them. */
  function IndianGroups(d: string): string {
    if |d| <= 3 then d else PairGroups(d[..|d| - 3]) + "," + d[|d| - 3..]
  }

  /** A comma before every character that has an even number of characters
      from it to the end; the regex's effect on a digit tail. */
  function EvenPairs(t: string): string {
    if t == "" then "" else (if |t| % 2 == 0 then "," else "") + [t[0]] + EvenPairs(t[1..])
  }

  lemma {:induction false} DigitRunToEnd(s: string, p: nat)
    requires p <= |s|
    requires forall i :: p <= i < |s| ==> IsDigit(s[i])
    ensures DigitRun(s, p) == |s| - p
    decreases |s| - p
  {
    if p < |s| {
      DigitRunToEnd(s, p + 1);
    }
  }

  /** After a digit, on an all-digit tail, the regex inserts exactly the
      commas of `EvenPairs`. */
  lemma {:induction false} InsertFromDigitTail(s: string, p: nat)
    requires 1 <= p <= |s| && IsDigit(s[p - 1])
    requires forall i :: p <= i < |s| ==> IsDigit(s[i])
    ensures InsertFrom(s, p) == EvenPairs(s[p..])
    decreases |s| - p
  {
    DigitRunToEnd(s, p);
    if p < |s| {
      InsertFromDigitTail(s, p + 1);
      assert s[p..][1..] == s[p + 1..];
    }
  }

  lemma {:induction false} EvenPairsShort(t: string)
    requires |t| <= 1
    ensures EvenPairs(t) == t
  {
    if |t| == 1 {
      assert EvenPairs(t[1..]) == "";
    }
  }

  lemma {:induction false} EvenPairsSnoc(t: string, a: char, b: char)
    ensures EvenPairs(t + [a, b]) == EvenPairs(t) + [',', a, b]
  {
    if t == "" {
      assert t + [a, b] == [a, b];
      assert ([a, b])[1..] == [b];
      EvenPairsShort([b]);
    } else {
      assert (t + [a, b])[1..] == t[1..] + [a, b];
      EvenPairsSnoc(t[1..], a, b);
    }
  }

  lemma {:induction false} LeadThenEvenPairs(d: string)
    requires |d| >= 1
    ensures [d[0]] + EvenPairs(d[1..]) == PairGroups(d)
  {
    if |d| <= 2 {
      EvenPairsShort(d[1..]);
      assert [d[0]] + d[1..] == d;
    } else {
      var x, a, b := d[..|d| - 2], d[|d| - 2], d[|d| - 1];
      var e := EvenPairs(x[1..]);
      assert EvenPairs(d[1..]) == e + [',', a, b] by {
        assert d[1..] == x[1..] + [a, b];
        EvenPairsSnoc(x[1..], a, b);
      }
      assert [d[0]] + e == PairGroups(x) by {
        LeadThenEvenPairs(x);
      }
      assert PairGroups(d) == PairGroups(x) + [',', a, b] by {
        assert d[|d| - 2..] == [a, b];
      }
      assert [d[0]] + (e + [',', a, b]) == ([d[0]] + e) + [',', a, b];
    }
  }

  /** On a string of digits the regex replacement is the pair grouping. */
  lemma InsertCommasDigits(d: string)
    requires AllDigits(d)
    ensures InsertCommas(d) == PairGroups(d)
  {
    if |d| > 0 {
      assert !CommaAt(d, 0);
      InsertFromDigitTail(d, 1);
      LeadThenEvenPairs(d);
    }
  }

  /** A leading sign is copied and the digits after it are grouped as if it
      were not there: position 0 has no digit after it, position 1 is a
      word boundary. */
  lemma InsertCommasSigned(c: char, d: string)
    requires IsSign(c) && AllDigits(d)
    ensures InsertCommas([c] + d) == [c] + InsertCommas(d)
  {
    var s := [c] + d;
    assert !CommaAt(s, 0);
    if |d| == 0 {
      assert InsertFrom(s, 1) == "";
    } else {
      assert !CommaAt(s, 1);
      assert InsertFrom(s, 1) == [d[0]] + InsertFrom(s, 2);
      InsertFromDigitTail(s, 2);
      assert s[2..] == d[1..];
      LeadThenEvenPairs(d);
      InsertCommasDigits(d);
    }
  }

  // ---------------------------------------------------------------------
  // Group shape
  // ---------------------------------------------------------------------

  /** Concatenation of the groups, in order. */
  function Concat(gs: seq<string>): string {
    if gs == [] then "" else Concat(gs[..|gs| - 1]) + gs[|gs| - 1]
  }

  /** Indian grouping: at most three digits in one group; otherwise a last
      group of three, a leading group of one or two and pairs between. */
  predicate IndianShape(gs: seq<string>) {
    |gs| >= 1 && |gs[|gs| - 1]| <= 3 &&
    (|gs| > 1 ==>
      |gs[|gs| - 1]| == 3 && 1 <= |gs[0]| <= 2 &&
      forall i :: 0 < i < |gs| - 1 ==> |gs[i]| == 2)
  }

  /** Splitting `a` followed by a comma and comma-free `b` adds `b` as a
      last piece. */
  lemma SplitLastGroup(a: string, b: string)
    requires ',' !in b
    ensures Split(a + "," + b, ',') == Split(a, ',') + [b]
  {
    SplitWithout(b, ',');
    SplitAround(a, b, ',');
  }

  lemma ConcatSnoc(gs: seq<string>, g: string)
    ensures Concat(gs + [g]) == Concat(gs) + g
  {
    assert (gs + [g])[..|gs|] == gs;
  }

  lemma {:induction false} PairGroupsSplit(x: string)
    requires AllDigits(x) && |x| >= 1
    ensures var gs := Split(PairGroups(x), ',');
      1 <= |gs[0]| <= 2 && (forall i :: 0 < i < |gs| ==> |gs[i]| == 2) && Concat(gs) == x
  {
    if |x| <= 2 {
      DigitsHaveNo(x, ',');
      SplitWithout(x, ',');
      assert Concat([x]) == Concat([]) + x;
    } else {
      var y, ab := x[..|x| - 2], x[|x| - 2..];
      var gs := Split(PairGroups(y), ',');
      assert 1 <= |gs[0]| <= 2 && (forall i :: 0 < i < |gs| ==> |gs[i]| == 2) && Concat(gs) == y by {
        PairGroupsSplit(y);
      }
      assert Split(PairGroups(x), ',') == gs + [ab] by {
        DigitsHaveNo(ab, ',');
        SplitLastGroup(PairGroups(y), ab);
      }
      ConcatSnoc(gs, ab);
      assert y + ab == x;
    }
  }

  /** The groups between the commas of `IndianGroups(d)` have the Indian
      shape and spell `d` in order. */
  lemma GroupingShape(d: string)
    requires AllDigits(d)
    ensures var gs := Split(IndianGroups(d), ',');
      IndianShape(gs) && Concat(gs) == d
  {
    if |d| <= 3 {
      DigitsHaveNo(d, ',');
      SplitWithout(d, ',');
      assert Concat([d]) == Concat([]) + d;
    } else {
      var o, last := d[..|d| - 3], d[|d| - 3..];
      var gs := Split(PairGroups(o), ',');
      assert 1 <= |gs[0]| <= 2 && (forall i :: 0 < i < |gs| ==> |gs[i]| == 2) && Concat(gs) == o by {
        PairGroupsSplit(o);
      }
      assert Split(IndianGroups(d), ',') == gs + [last] by {
        DigitsHaveNo(last, ',');
        SplitLastGroup(PairGroups(o), last);
      }
      LongShape(gs, last);
      ConcatSnoc(gs, last);
      assert o + last == d;
    }
  }

  /** Pair groups after a leading one or two, then a last group of three,
      have the Indian shape. */
  lemma LongShape(gs: seq<string>, last: string)
    requires |gs| >= 1 && 1 <= |gs[0]| <= 2 && |last| == 3
    requires forall i :: 0 < i < |gs| ==> |gs[i]| == 2
    ensures IndianShape(gs + [last])
  {
  }

  // ---------------------------------------------------------------------
  // The formatter and its inverse
  // ---------------------------------------------------------------------

  /** `parts[0]` of `num.split('.')`. */
  function IntegerPart(num: string): (integerPart: string) {
    Split(num, '.')[0]
  }

  /** `parts[1] ? '.' + parts[1] : ''`: an empty piece after the point is
      dropped together with the point. */
  function DecimalPart(num: string): (decimalPart: string) {
    var parts := Split(num, '.');
    if |parts| > 1 && parts[1] != "" then "." + parts[1] else ""
  }

  /** The integer part as the formatter groups it: unchanged up to three
      characters, otherwise the regex replacement on all but the last three,
      a comma, and the last three. */
  function GroupInteger(integerPart: string): (grouped: string) {
    if |integerPart| <= 3 then integerPart
    else
      var lastThree := integerPart[|integerPart| - 3..];
      var otherNumbers := integerPart[..|integerPart| - 3];
      InsertCommas(otherNumbers) + "," + lastThree
  }

  /** `formatIndianNumber` as written: the empty string for empty or
      non-numeric input; otherwise the grouped integer part followed by the
      decimal part. */
  function FormatIndianNumber(num: string): (formatted: string) {
    if num == "" || !IsNumeral(num) then ""
    else GroupInteger(IntegerPart(num)) + DecimalPart(num)
  }

  /** The formatter with the sign set aside before grouping, so that a
      signed three-digit integer part gets no comma. */
  function FormatIndianNumberCorrected(num: string): (formatted: string) {
    if num == "" || !IsNumeral(num) then ""
    else
      var integerPart := IntegerPart(num);
      var sign := SignPrefix(integerPart);
      sign + GroupInteger(integerPart[|sign|..]) + DecimalPart(num)
  }

  /** `unformatNumber`: `str.replace(/,/g, '')`. */
  function UnformatNumber(str: string): (plain: string)
  {
    if str == [] then []
    else (if str[0] == ',' then [] else [str[0]]) + UnformatNumber(str[1..])
  }

  // ---------------------------------------------------------------------
  // Properties of the formatter
  // ---------------------------------------------------------------------

  lemma TextParts(n: Numeral)
    requires n.WellFormed()
    ensures IsNumeral(n.Text()) && n.Text() != ""
    ensures IntegerPart(n.Text()) == n.sign + n.whole
    ensures SignPrefix(n.sign + n.whole) == n.sign
    ensures DecimalPart(n.Text()) == n.DecimalSuffix()
  {
    TextSplit(n);
    var m := Numeral(n.sign, n.whole, false, "");
    if |n.whole| > 0 {
      SignOfText(m);
    }
  }

  /** On plain digits the formatter's grouping is the Indian grouping. */
  lemma GroupDigits(d: string)
    requires AllDigits(d)
    ensures GroupInteger(d) == IndianGroups(d)
  {
    if |d| > 3 {
      InsertCommasDigits(d[..|d| - 3]);
    }
  }

  /** A sign and exactly three digits: the formatter puts a comma between
      them, as `otherNumbers` is the sign alone. */
  lemma GroupSignedThree(c: char, d: string)
    requires IsSign(c) && AllDigits(d) && |d| == 3
    ensures GroupInteger([c] + d) == [c] + "," + d
  {
    var ip := [c] + d;
    assert ip[..1] == [c];
    assert ip[1..] == d;
    assert InsertCommas([c]) == [c] by {
      assert InsertFrom([c], 1) == "";
    }
  }

  /** A sign and more than three digits: the sign is not separated, and the
      digits get the Indian grouping. */
  lemma GroupSignedLong(c: char, d: string)
    requires IsSign(c) && AllDigits(d) && |d| > 3
    ensures GroupInteger([c] + d) == [c] + IndianGroups(d)
  {
    var ip := [c] + d;
    var o := d[..|d| - 3];
    assert ip[..|ip| - 3] == [c] + o;
    assert ip[|ip| - 3..] == d[|d| - 3..];
    assert InsertCommas([c] + o) == [c] + PairGroups(o) by {
      InsertCommasSigned(c, o);
      InsertCommasDigits(o);
    }
  }

  /** After a sign the formatter groups the digits as if the sign were a
      digit: exactly three digits get a comma between sign and digits. */
  lemma GroupSigned(c: char, d: string)
    requires IsSign(c) && AllDigits(d)
    ensures GroupInteger([c] + d) ==
      if |d| == 3 then [c] + "," + d else [c] + IndianGroups(d)
  {
    if |d| == 3 {
      GroupSignedThree(c, d);
    } else if |d| > 3 {
      GroupSignedLong(c, d);
    }
  }

  /** The corrected formatter: sign, Indian grouping of the integer digits,
      then the decimal part exactly when digits follow the point. */
  lemma FormatCorrectedNumeral(n: Numeral)
    requires n.WellFormed()
    ensures FormatIndianNumberCorrected(n.Text()) == n.sign + IndianGroups(n.whole) + n.DecimalSuffix()
  {
    TextParts(n);
    assert (n.sign + n.whole)[|n.sign|..] == n.whole;
    GroupDigits(n.whole);
  }

  /** The formatter applied to a numeral's text: the grouped integer part
      (sign included) followed by the decimal part. */
  lemma FormatOfText(n: Numeral)
    requires n.WellFormed()
    ensures FormatIndianNumber(n.Text()) == GroupInteger(n.sign + n.whole) + n.DecimalSuffix()
  {
    TextParts(n);
  }

  /** Grouping a signed integer part: a comma straight after the sign when
      exactly three digits follow it, the Indian grouping otherwise. */
  lemma GroupOfNumeral(n: Numeral)
    requires n.WellFormed()
    ensures GroupInteger(n.sign + n.whole) ==
      if n.sign != "" && |n.whole| == 3 then n.sign + "," + n.whole
      else n.sign + IndianGroups(n.whole)
  {
    if n.sign == "" {
      assert n.sign + n.whole == n.whole;
      GroupDigits(n.whole);
    } else {
      assert n.sign == [n.sign[0]] && IsSign(n.sign[0]);
      GroupSigned(n.sign[0], n.whole);
    }
  }

  /** The formatter as written agrees with the corrected one except on a
      signed integer part of exactly three digits, where it puts a comma
      straight after the sign. */
  lemma FormatAsWrittenNumeral(n: Numeral)
    requires n.WellFormed()
    ensures FormatIndianNumber(n.Text()) ==
      if n.sign != "" && |n.whole| == 3 then n.sign + "," + n.whole + n.DecimalSuffix()
      else n.sign + IndianGroups(n.whole) + n.DecimalSuffix()
  {
    FormatOfText(n);
    GroupOfNumeral(n);
  }

  /** The two formatters differ exactly on the signed three-digit case. */
  lemma FormattersAgree(n: Numeral)
    requires n.WellFormed()
    ensures FormatIndianNumber(n.Text()) == FormatIndianNumberCorrected(n.Text())
      <==> !(n.sign != "" && |n.whole| == 3)
  {
    FormatAsWrittenNumeral(n);
    FormatCorrectedNumeral(n);
    if n.sign != "" && |n.whole| == 3 {
      var asWritten := n.sign + "," + n.whole + n.DecimalSuffix();
      var corrected := n.sign + n.whole + n.DecimalSuffix();
      assert |asWritten| != |corrected|;
    }
  }

  /** A signed three-digit integer: "-123" becomes "-,123". */
  lemma SignedThreeDigitComma()
    ensures FormatIndianNumber("-123") == "-,123"
    ensures FormatIndianNumberCorrected("-123") == "-123"
  {
    var n := Numeral("-", "123", false, "");
    assert n.WellFormed();
    assert n.Text() == "-123";
    assert n.DecimalSuffix() == "";
    assert IndianGroups("123") == "123";
    FormatAsWrittenNumeral(n);
    assert "-" + "," + "123" + "" == "-,123";
    FormatCorrectedNumeral(n);
    assert "-" + "123" + "" == "-123";
  }

  /** Empty or non-numeric input, and only that, yields the empty string. */
  lemma FormatEmptyExactlyWhenNotNumeral(s: string)
    ensures FormatIndianNumber(s) == "" <==> !IsNumeral(s)
    ensures FormatIndianNumberCorrected(s) == "" <==> !IsNumeral(s)
  {
    if IsNumeral(s) {
      var n := Parse(s);
      FormatAsWrittenNumeral(n);
      FormatCorrectedNumeral(n);
      if |n.whole| > 0 {
        UnformatIndianGroups(n.whole);
        assert UnformatNumber("") == "";
      } else {
        assert n.DecimalSuffix() != "";
      }
    }
  }

  /** An integer part of at most three characters is left as it is, and so
      is the decimal part unless it is a bare point. */
  lemma ShortIntegerUnchanged(s: string)
    requires IsNumeral(s) && |Split(s, '.')[0]| <= 3 && s[|s| - 1] != '.'
    ensures FormatIndianNumber(s) == s
    ensures FormatIndianNumberCorrected(s) == s
  {
    var n := Parse(s);
    TextSplit(n);
    FormatAsWrittenNumeral(n);
    FormatCorrectedNumeral(n);
    assert !(n.point && n.fraction == "");
  }

  // ---------------------------------------------------------------------
  // Properties of the inverse
  // ---------------------------------------------------------------------

  lemma {:induction false} UnformatConcat(a: string, b: string)
    ensures UnformatNumber(a + b) == UnformatNumber(a) + UnformatNumber(b)
  {
    if a == [] {
      assert a + b == b;
    } else {
      assert (a + b)[0] == a[0];
      assert (a + b)[1..] == a[1..] + b;
      UnformatConcat(a[1..], b);
    }
  }

  lemma {:induction false} UnformatCommaFree(s: string)
    requires ',' !in s
    ensures UnformatNumber(s) == s
  {
    if s != [] {
      assert ',' !in s[1..] by {
        forall i | 0 <= i < |s[1..]| ensures s[1..][i] != ',' { assert s[1..][i] == s[i + 1]; }
      }
      UnformatCommaFree(s[1..]);
      assert [s[0]] + s[1..] == s;
    }
  }

  /** No comma is left. */
  lemma {:induction false} UnformatNoCommas(s: string)
    ensures ',' !in UnformatNumber(s)
  {
    if s != [] {
      UnformatNoCommas(s[1..]);
    }
  }

  /** Removing commas twice is removing them once. */
  lemma UnformatIdempotent(s: string)
    ensures UnformatNumber(UnformatNumber(s)) == UnformatNumber(s)
  {
    UnformatNoCommas(s);
    UnformatCommaFree(UnformatNumber(s));
  }

  lemma UnformatThree(x: string, y: string, z: string)
    ensures UnformatNumber(x + y + z) == UnformatNumber(x) + UnformatNumber(y) + UnformatNumber(z)
  {
    UnformatConcat(x + y, z);
    UnformatConcat(x, y);
  }

  /** Every character other than a comma keeps its number of occurrences. */
  lemma {:induction false} UnformatKeepsOthers(s: string, c: char)
    requires c != ','
    ensures multiset(UnformatNumber(s))[c] == multiset(s)[c]
  {
    if s != [] {
      var head := if s[0] == ',' then [] else [s[0]];
      assert UnformatNumber(s) == head + UnformatNumber(s[1..]);
      assert multiset(UnformatNumber(s)) == multiset(head) + multiset(UnformatNumber(s[1..]));
      assert s == [s[0]] + s[1..];
      assert multiset(s) == multiset([s[0]]) + multiset(s[1..]);
      assert multiset(head)[c] == multiset([s[0]])[c];
      UnformatKeepsOthers(s[1..], c);
    }
  }

  lemma UnformatComma()
    ensures UnformatNumber(",") == ""
  {
    assert ","[1..] == [];
  }

  /** A comma before comma-free text disappears and the text stays. */
  lemma UnformatAroundComma(a: string, b: string)
    requires ',' !in b
    ensures UnformatNumber(a + "," + b) == UnformatNumber(a) + b
  {
    UnformatConcat(a + ",", b);
    UnformatConcat(a, ",");
    UnformatComma();
    UnformatCommaFree(b);
  }

  lemma {:induction false} UnformatPairGroups(x: string)
    requires AllDigits(x)
    ensures UnformatNumber(PairGroups(x)) == x
  {
    if |x| <= 2 {
      DigitsHaveNo(x, ',');
      UnformatCommaFree(x);
    } else {
      var y, ab := x[..|x| - 2], x[|x| - 2..];
      assert AllDigits(y) && AllDigits(ab);
      DigitsHaveNo(ab, ',');
      UnformatAroundComma(PairGroups(y), ab);
      UnformatPairGroups(y);
      assert y + ab == x;
    }
  }

  lemma UnformatIndianGroups(d: string)
    requires AllDigits(d)
    ensures UnformatNumber(IndianGroups(d)) == d
  {
    if |d| <= 3 {
      DigitsHaveNo(d, ',');
      UnformatCommaFree(d);
    } else {
      var o, last := d[..|d| - 3], d[|d| - 3..];
      assert AllDigits(o) && AllDigits(last);
      DigitsHaveNo(last, ',');
      UnformatAroundComma(PairGroups(o), last);
      UnformatPairGroups(o);
      assert o + last == d;
    }
  }

  /** Removing the commas from a formatted numeral leaves its sign, its
      integer digits and its decimal part. */
  lemma UnformatFormatted(n: Numeral)
    requires n.WellFormed()
    ensures UnformatNumber(FormatIndianNumber(n.Text())) == n.sign + n.whole + n.DecimalSuffix()
    ensures UnformatNumber(FormatIndianNumberCorrected(n.Text())) == n.sign + n.whole + n.DecimalSuffix()
  {
    FormatAsWrittenNumeral(n);
    FormatCorrectedNumeral(n);
    UnformatIndianGroups(n.whole);
    DigitsHaveNo(n.whole, ',');
    DigitsHaveNo(n.fraction, ',');
    var dec := n.DecimalSuffix();
    assert ',' !in n.sign;
    assert ',' !in dec;
    UnformatCommaFree(n.sign);
    UnformatCommaFree(dec);
    UnformatThree(n.sign, IndianGroups(n.whole), dec);
    if n.sign != "" && |n.whole| == 3 {
      UnformatThree(n.sign + ",", n.whole, dec);
      UnformatConcat(n.sign, ",");
      UnformatCommaFree(n.whole);
      assert UnformatNumber(",") == "";
    }
  }

  /** `unformatNumber` undoes `formatIndianNumber` on every numeral, except
      that a point with no digits after it is dropped by the formatter. */
  /** What the formatter keeps of a numeral's text: all of it, less a bare
      point at the end. */
  lemma KeptText(n: Numeral)
    requires n.WellFormed()
    ensures var t := n.Text();
      |t| > 0 &&
      n.sign + n.whole + n.DecimalSuffix() == if t[|t| - 1] == '.' then t[..|t| - 1] else t
  {
    var t := n.Text();
    if n.point && n.fraction == "" {
      assert t == n.sign + n.whole + ".";
      assert t[..|t| - 1] == n.sign + n.whole;
    } else {
      assert t == n.sign + n.whole + n.DecimalSuffix();
      assert t[|t| - 1] != '.' by {
        if n.point {
          assert t[|t| - 1] == n.fraction[|n.fraction| - 1];
        } else {
          assert t[|t| - 1] == n.whole[|n.whole| - 1];
        }
      }
    }
  }

  lemma RoundTrip(s: string)
    requires IsNumeral(s)
    ensures UnformatNumber(FormatIndianNumber(s)) == if s[|s| - 1] == '.' then s[..|s| - 1] else s
    ensures UnformatNumber(FormatIndianNumberCorrected(s)) == if s[|s| - 1] == '.' then s[..|s| - 1] else s
  {
    var n := Parse(s);
    UnformatFormatted(n);
    KeptText(n);
  }
}
