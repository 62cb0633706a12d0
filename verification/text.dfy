/** Byte-string helpers shared by the codecs: character classes of Ruby's
    regular expressions, `String#split` (both the string-separator and the
    awk-style whitespace form), `Array#join`, and decimal numerals.
    A Ruby string is modelled as a `string` whose characters stand for bytes. */
module Text {

  import opened Results

  predicate IsUpper(c: char) { 'A' <= c <= 'Z' }

  predicate IsLower(c: char) { 'a' <= c <= 'z' }

  predicate IsDigit(c: char) { '0' <= c <= '9' }

  /** `\w` */
  predicate IsWordChar(c: char) { IsUpper(c) || IsLower(c) || IsDigit(c) || c == '_' }

  /** `\h`: upper- or lower-case hexadecimal digit */
  predicate IsHexDigit(c: char) { IsDigit(c) || 'a' <= c <= 'f' || 'A' <= c <= 'F' }

  /** The whitespace that awk-style `String#split` (no argument) skips. */
  predicate IsSpace(c: char) { c == ' ' || c == '\t' || c == '\n' || c == '\r' || c as int == 11 || c as int == 12 }

  predicate AllDigits(s: string) { forall i :: 0 <= i < |s| ==> IsDigit(s[i]) }

  predicate AllWordChars(s: string) { forall i :: 0 <= i < |s| ==> IsWordChar(s[i]) }

  /** ASCII `downcase` of one character. */
  function Lower(c: char): (r: char)
    ensures !IsUpper(r)
    ensures IsUpper(c) ==> r as int == c as int + 32
    ensures !IsUpper(c) ==> r == c
  {
    if IsUpper(c) then (c as int + 32) as char else c
  }

  /** ASCII `upcase` of one character. */
  function Upper(c: char): (r: char)
    ensures !IsLower(r)
    ensures IsLower(c) ==> r as int == c as int - 32
    ensures !IsLower(c) ==> r == c
  {
    if IsLower(c) then (c as int - 32) as char else c
  }

  // ---------------------------------------------------------------------------
  // Splitting on a separator character and joining back.

  /** All `sep`-separated fields of `s`, empty ones included (Ruby's
      `split(sep, -1)`): there is always at least one field. */
  function Fields(s: string, sep: char): (r: seq<string>)
    ensures |r| >= 1
    ensures forall i :: 0 <= i < |r| ==> sep !in r[i]
    decreases |s|
  {
    if |s| == 0 then [""]
    else if s[0] == sep then [""] + Fields(s[1..], sep)
    else
      var rest := Fields(s[1..], sep);
      [[s[0]] + rest[0]] + rest[1..]
  }

  /** `Array#join(sep)` on strings. */
  function Join(rows: seq<string>, sep: char): string
    decreases |rows|
  {
    if |rows| == 0 then ""
    else if |rows| == 1 then rows[0]
    else rows[0] + [sep] + Join(rows[1..], sep)
  }

  lemma SliceSplit<T>(s: seq<T>, i: nat, j: nat)
    requires i <= j <= |s|
    ensures s[i..] == s[i..j] + s[j..]
  {
  }

  lemma SliceOfSlice<T>(s: seq<T>, i: nat, n: nat, a: nat, b: nat)
    requires i + n <= |s| && a <= b <= n
    ensures s[i..i + n][a..b] == s[i + a..i + b]
  {
    var t := s[i..i + n][a..b];
    assert forall m :: 0 <= m < |t| ==> t[m] == s[i + a + m];
  }

  lemma ConsTail<T>(s: seq<T>)
    requires |s| > 0
    ensures [s[0]] + s[1..] == s
  {
  }

  lemma AppendAssoc<T>(x: seq<T>, y: seq<T>, z: seq<T>)
    ensures x + (y + z) == x + y + z
  {
  }

  /** Drops the trailing empty strings, as `String#split` does. */
  function DropTrailingEmpty(rows: seq<string>): (r: seq<string>)
    ensures |r| <= |rows| && r == rows[..|r|]
    ensures |r| > 0 ==> r[|r| - 1] != ""
    ensures forall i :: |r| <= i < |rows| ==> rows[i] == ""
    decreases |rows|
  {
    if |rows| > 0 && rows[|rows| - 1] == "" then DropTrailingEmpty(rows[..|rows| - 1]) else rows
  }

  /** `String#split(sep)` with a one-character string separator: the fields,
      without the trailing empty ones (so `""` splits into no rows at all). */
  function Split(s: string, sep: char): (r: seq<string>)
    ensures forall i :: 0 <= i < |r| ==> sep !in r[i]
  {
    DropTrailingEmpty(Fields(s, sep))
  }

  /** Joining the fields of `s` gives `s` back. */
  lemma {:induction false} JoinFields(s: string, sep: char)
    ensures Join(Fields(s, sep), sep) == s
    decreases |s|
  {
    if |s| == 0 {
    } else if s[0] == sep {
      JoinFields(s[1..], sep);
      var rest := Fields(s[1..], sep);
      assert Fields(s, sep) == [""] + rest;
      assert s == [sep] + s[1..];
    } else {
      JoinFields(s[1..], sep);
      var rest := Fields(s[1..], sep);
      var r := Fields(s, sep);
      assert r == [[s[0]] + rest[0]] + rest[1..];
      if |rest| == 1 {
        assert s == [s[0]] + s[1..];
      } else {
        assert r[1..] == rest[1..];
        assert Join(r, sep) == r[0] + [sep] + Join(rest[1..], sep);
        assert Join(rest, sep) == rest[0] + [sep] + Join(rest[1..], sep);
        assert s == [s[0]] + s[1..];
      }
    }
  }

  /** A separator-free prefix followed by a separator is a field of its own. */
  lemma {:induction false} FieldsCons(a: string, sep: char, b: string)
    requires sep !in a
    ensures Fields(a + [sep] + b, sep) == [a] + Fields(b, sep)
    decreases |a|
  {
    if |a| == 0 {
      assert a + [sep] + b == [sep] + b;
      assert ([sep] + b)[1..] == b;
    } else {
      assert (a + [sep] + b)[1..] == a[1..] + [sep] + b;
      FieldsCons(a[1..], sep, b);
      assert [a[0]] + a[1..] == a;
    }
  }

  /** A separator-free string is one field. */
  lemma {:induction false} FieldsSingle(a: string, sep: char)
    requires sep !in a
    ensures Fields(a, sep) == [a]
    decreases |a|
  {
    if |a| > 0 {
      FieldsSingle(a[1..], sep);
      assert [a[0]] + a[1..] == a;
    }
  }

  /** The fields of joined separator-free rows are those rows. */
  lemma {:induction false} FieldsJoin(rows: seq<string>, sep: char)
    requires |rows| >= 1
    requires forall i :: 0 <= i < |rows| ==> sep !in rows[i]
    ensures Fields(Join(rows, sep), sep) == rows
    decreases |rows|
  {
    if |rows| == 1 {
      FieldsSingle(rows[0], sep);
    } else {
      FieldsJoin(rows[1..], sep);
      FieldsCons(rows[0], sep, Join(rows[1..], sep));
      assert [rows[0]] + rows[1..] == rows;
    }
  }

  /** The last field is empty only when the string is empty or ends with
      the separator. */
  lemma LastFieldEmpty(s: string, sep: char)
    ensures var r := Fields(s, sep);
      r[|r| - 1] == "" ==> s == "" || s[|s| - 1] == sep
  {
    var r := Fields(s, sep);
    JoinFields(s, sep);
    if |r| > 1 {
      JoinSnoc(r[..|r| - 1], r[|r| - 1], sep);
      assert r[..|r| - 1] + [r[|r| - 1]] == r;
    }
  }

  /** No row holds the separator. */
  predicate SepFree(rows: seq<string>, sep: char) {
    forall i :: 0 <= i < |rows| ==> sep !in rows[i]
  }

  lemma SepFreeAppend(a: seq<string>, b: seq<string>, sep: char)
    requires SepFree(a, sep) && SepFree(b, sep)
    ensures SepFree(a + b, sep)
  {
    var ab := a + b;
    forall i | 0 <= i < |ab|
      ensures sep !in ab[i]
    {
      if i >= |a| { assert ab[i] == b[i - |a|]; }
    }
  }

  /** Splitting separator-terminated rows whose last row may hold
      separators itself gives the rows before it and then that row's
      fields, as long as it is not empty and does not end in a separator. */
  lemma SplitLinesWithLast(rows: seq<string>, last: string, sep: char)
    requires forall i :: 0 <= i < |rows| ==> sep !in rows[i]
    requires last != "" && last[|last| - 1] != sep
    ensures Split(Lines(rows + [last], sep), sep) == rows + Fields(last, sep)
  {
    var lines := Fields(last, sep);
    var split := rows + lines;
    assert Lines(rows + [last], sep) == Lines(split, sep) by {
      LinesAppend(rows, [last], sep);
      LinesAppend(rows, lines, sep);
      LinesJoin(lines, sep);
      JoinFields(last, sep);
      assert Lines([last], sep) == last + [sep];
    }
    assert |split| > 0 && split[|split| - 1] != "" by {
      LastFieldEmpty(last, sep);
    }
    assert forall i :: 0 <= i < |split| ==> sep !in split[i];
    SplitLines(split, sep);
  }

  /** Index of the first occurrence of `x` in `xs` (`Array#index`/`String#index`). */
  function IndexOf<T(==)>(xs: seq<T>, x: T): (r: Option<nat>)
    ensures r.None? <==> x !in xs
    ensures r.Some? ==> r.value < |xs| && xs[r.value] == x && x !in xs[..r.value]
    decreases |xs|
  {
    if |xs| == 0 then None
    else if xs[0] == x then Some(0)
    else
      match IndexOf(xs[1..], x)
      case None => None
      case Some(i) =>
        assert xs[..i + 1] == [xs[0]] + xs[1..][..i];
        Some(i + 1)
  }

  /** The first occurrence is where `x` occurs with no earlier occurrence. */
  lemma IndexOfAt<T>(xs: seq<T>, x: T, n: nat)
    requires n < |xs| && xs[n] == x && x !in xs[..n]
    ensures IndexOf(xs, x) == Some(n)
  {
    assert xs[n] == x;
  }

  // ---------------------------------------------------------------------------
  // awk-style `String#split` (no argument): maximal runs of non-whitespace.

  /** The maximal non-whitespace prefix of `s`. */
  function WordPrefix(s: string): (w: string)
    ensures |w| <= |s| && w == s[..|w|]
    ensures forall i :: 0 <= i < |w| ==> !IsSpace(w[i])
    ensures |w| < |s| ==> IsSpace(s[|w|])
    decreases |s|
  {
    if |s| == 0 || IsSpace(s[0]) then "" else [s[0]] + WordPrefix(s[1..])
  }

  /** `s.split`: the whitespace-separated words of `s`, in order. */
  function Words(s: string): (r: seq<string>)
    ensures forall i :: 0 <= i < |r| ==> |r[i]| > 0
    decreases |s|
  {
    if |s| == 0 then []
    else if IsSpace(s[0]) then Words(s[1..])
    else
      var w := WordPrefix(s);
      [w] + Words(s[|w|..])
  }

  /** A non-empty whitespace-free tag followed by a space is the first word. */
  lemma {:induction false} FirstWordOfLabelled(tag: string, rest: string)
    requires |tag| > 0
    requires forall i :: 0 <= i < |tag| ==> !IsSpace(tag[i])
    ensures |Words(tag + " " + rest)| > 0 && Words(tag + " " + rest)[0] == tag
  {
    var s := tag + " " + rest;
    WordPrefixOfLabelled(tag, rest);
  }

  lemma {:induction false} WordPrefixOfLabelled(tag: string, rest: string)
    requires forall i :: 0 <= i < |tag| ==> !IsSpace(tag[i])
    ensures WordPrefix(tag + " " + rest) == tag
    decreases |tag|
  {
    if |tag| > 0 {
      WordPrefixOfLabelled(tag[1..], rest);
      assert (tag + " " + rest)[1..] == tag[1..] + " " + rest;
      assert [tag[0]] + tag[1..] == tag;
    }
  }

  // ---------------------------------------------------------------------------
  // Decimal numerals (`Integer#to_s`, `String#to_i` on digit strings).

  function DigitChar(d: nat): (c: char)
    requires d < 10
    ensures IsDigit(c) && c as int - '0' as int == d
  {
    ('0' as int + d) as char
  }

  function DigitValue(c: char): (d: nat)
    requires IsDigit(c)
    ensures d < 10
  {
    c as int - '0' as int
  }

  /** `n.to_s`: the decimal numeral of `n`, without leading zeros. */
  function Decimal(n: nat): (s: string)
    ensures |s| > 0 && AllDigits(s)
    decreases n
  {
    if n < 10 then [DigitChar(n)] else Decimal(n / 10) + [DigitChar(n % 10)]
  }

  /** The value of a numeral made of decimal digits. */
  function DigitsValue(s: string): nat
    requires AllDigits(s)
    decreases |s|
  {
    if |s| == 0 then 0 else DigitsValue(s[..|s| - 1]) * 10 + DigitValue(s[|s| - 1])
  }

  /** Reading a printed number gives the number back. */
  lemma {:induction false} DecimalRoundTrip(n: nat)
    ensures DigitsValue(Decimal(n)) == n
    decreases n
  {
    if n >= 10 {
      DecimalRoundTrip(n / 10);
      var s := Decimal(n);
      assert s[..|s| - 1] == Decimal(n / 10);
    }
  }

  // ---------------------------------------------------------------------------
  // Runs of one character class, as a greedy `\w+` or `\d+` consumes them.

  /** The end of the run of word characters that starts at `i`. */
  function WordEnd(s: string, i: nat): (j: nat)
    requires i <= |s|
    ensures i <= j <= |s|
    ensures forall k :: i <= k < j ==> IsWordChar(s[k])
    ensures j < |s| ==> !IsWordChar(s[j])
    decreases |s| - i
  {
    if i < |s| && IsWordChar(s[i]) then WordEnd(s, i + 1) else i
  }

  /** The end of the run of decimal digits that starts at `i`. */
  function DigitEnd(s: string, i: nat): (j: nat)
    requires i <= |s|
    ensures i <= j <= |s|
    ensures forall k :: i <= k < j ==> IsDigit(s[k])
    ensures j < |s| ==> !IsDigit(s[j])
    decreases |s| - i
  {
    if i < |s| && IsDigit(s[i]) then DigitEnd(s, i + 1) else i
  }

  /** A run is determined by where it stops. */
  lemma {:induction false} WordEndAt(s: string, i: nat, j: nat)
    requires i <= j <= |s|
    requires forall k :: i <= k < j ==> IsWordChar(s[k])
    requires j < |s| ==> !IsWordChar(s[j])
    ensures WordEnd(s, i) == j
    decreases j - i
  {
    if i < j {
      WordEndAt(s, i + 1, j);
    }
  }

  lemma {:induction false} DigitEndAt(s: string, i: nat, j: nat)
    requires i <= j <= |s|
    requires forall k :: i <= k < j ==> IsDigit(s[k])
    requires j < |s| ==> !IsDigit(s[j])
    ensures DigitEnd(s, i) == j
    decreases j - i
  {
    if i < j {
      DigitEndAt(s, i + 1, j);
    }
  }

  /** Every row followed by a separator: `rows.map { |r| r + sep }.join`. */
  function Lines(rows: seq<string>, sep: char): (s: string)
    decreases |rows|
  {
    if |rows| == 0 then "" else rows[0] + [sep] + Lines(rows[1..], sep)
  }

  lemma {:induction false} LinesJoin(rows: seq<string>, sep: char)
    requires |rows| > 0
    ensures Lines(rows, sep) == Join(rows, sep) + [sep]
    decreases |rows|
  {
    if |rows| > 1 {
      LinesJoin(rows[1..], sep);
    }
  }

  lemma {:induction false} LinesAppend(a: seq<string>, b: seq<string>, sep: char)
    ensures Lines(a + b, sep) == Lines(a, sep) + Lines(b, sep)
    decreases |a|
  {
    if |a| == 0 {
      assert a + b == b;
    } else {
      assert (a + b)[1..] == a[1..] + b;
      LinesAppend(a[1..], b, sep);
    }
  }

  /** Splitting separator-terminated rows gives the rows back, as long as the
      last one is not empty. */
  lemma SplitLines(rows: seq<string>, sep: char)
    requires |rows| > 0 && rows[|rows| - 1] != ""
    requires forall i :: 0 <= i < |rows| ==> sep !in rows[i]
    ensures Split(Lines(rows, sep), sep) == rows
  {
    LinesJoin(rows, sep);
    var ext := rows + [""];
    assert forall i :: 0 <= i < |ext| ==> sep !in ext[i];
    FieldsJoin(ext, sep);
    JoinSnoc(rows, "", sep);
    assert Join(ext, sep) == Join(rows, sep) + [sep];
    assert Fields(Lines(rows, sep), sep) == ext;
    assert ext[..|ext| - 1] == rows;
    assert DropTrailingEmpty(ext) == DropTrailingEmpty(rows) == rows;
  }

  lemma {:induction false} JoinSnoc(rows: seq<string>, last: string, sep: char)
    requires |rows| > 0
    ensures Join(rows + [last], sep) == Join(rows, sep) + [sep] + last
    decreases |rows|
  {
    if |rows| == 1 {
      assert (rows + [last])[1..] == [last];
    } else {
      assert (rows + [last])[1..] == rows[1..] + [last];
      JoinSnoc(rows[1..], last, sep);
    }
  }

  lemma DropOneTrailingEmpty(rows: seq<string>)
    ensures DropTrailingEmpty(rows + [""]) == DropTrailingEmpty(rows)
  {
    assert (rows + [""])[..|rows|] == rows;
  }

  /** Two empty rows at the end are dropped by `split` along with the
      empty field after the final separator. */
  lemma SplitLinesTwoBlank(rows: seq<string>, sep: char)
    requires |rows| > 0 && rows[|rows| - 1] != ""
    requires forall i :: 0 <= i < |rows| ==> sep !in rows[i]
    ensures Split(Lines(rows + ["", ""], sep), sep) == rows
  {
    var padded := rows + ["", ""];
    var ext := padded + [""];
    LinesJoin(padded, sep);
    JoinSnoc(padded, "", sep);
    assert forall i :: 0 <= i < |ext| ==> sep !in ext[i];
    FieldsJoin(ext, sep);
    assert Join(padded, sep) + [sep] + "" == Join(padded, sep) + [sep];
    assert Lines(padded, sep) == Join(ext, sep);
    DropOneTrailingEmpty(padded);
    assert padded == (rows + [""]) + [""];
    DropOneTrailingEmpty(rows + [""]);
    DropOneTrailingEmpty(rows);
  }

  // ---------------------------------------------------------------------------
  // `flat_map` / `find_all` followed by `map`.

  /** Each element's contribution, concatenated in order. */
  function ConcatMap<T, U>(xs: seq<T>, f: T -> seq<U>): seq<U>
    decreases |xs|
  {
    if |xs| == 0 then [] else f(xs[0]) + ConcatMap(xs[1..], f)
  }

  lemma {:induction false} ConcatMapAppend<T, U>(a: seq<T>, b: seq<T>, f: T -> seq<U>)
    ensures ConcatMap(a + b, f) == ConcatMap(a, f) + ConcatMap(b, f)
    decreases |a|
  {
    if |a| == 0 {
      assert a + b == b;
    } else {
      assert (a + b)[1..] == a[1..] + b;
      ConcatMapAppend(a[1..], b, f);
    }
  }

  lemma ConcatMapSingle<T, U>(x: T, f: T -> seq<U>)
    ensures ConcatMap([x], f) == f(x)
  {
    assert [x][1..] == [];
  }

  /** Elements that contribute one value each contribute those values. */
  lemma {:induction false} ConcatMapSingles<T, U>(xs: seq<T>, f: T -> seq<U>, ys: seq<U>)
    requires |ys| == |xs| && forall i :: 0 <= i < |xs| ==> f(xs[i]) == [ys[i]]
    ensures ConcatMap(xs, f) == ys
    decreases |xs|
  {
    if |xs| > 0 {
      ConcatMapSingles(xs[1..], f, ys[1..]);
      assert f(xs[0]) == [ys[0]];
      assert ys == [ys[0]] + ys[1..];
    }
  }

  /** Elements that contribute nothing contribute nothing together. */
  lemma {:induction false} ConcatMapEmpty<T, U>(xs: seq<T>, f: T -> seq<U>)
    requires forall i :: 0 <= i < |xs| ==> f(xs[i]) == []
    ensures ConcatMap(xs, f) == []
    decreases |xs|
  {
    if |xs| > 0 {
      ConcatMapEmpty(xs[1..], f);
      assert f(xs[0]) == [];
    }
  }
}
