/** The `String` extensions of lib/string_extensions.rb that the object model
    relies on: `underscore` (class name to type symbol), `camel_case` and
    `is_sha1?`. Letters are ASCII; the encoding helpers are not modelled. */
module StringExtensions {

  import opened Text

  // ---------------------------------------------------------------------------
  // underscore: the five rewriting passes, each one its own function.

  /** `gsub(/::/, '/')`, scanning left to right. */
  function ReplaceColons(s: string): string
    decreases |s|
  {
    if |s| >= 2 && s[0] == ':' && s[1] == ':' then "/" + ReplaceColons(s[2..])
    else if |s| == 0 then ""
    else [s[0]] + ReplaceColons(s[1..])
  }

  /** `gsub(/([A-Z]+)([A-Z][a-z])/, '\1_\2')`: inside an upper-case run that is
      followed by a lower-case letter, an underscore goes before the run's
      last capital ("HTMLParser" becomes "HTML_Parser"). */
  function SplitAcronyms(s: string): string
    decreases |s|
  {
    if |s| == 0 then ""
    else if |s| >= 3 && IsUpper(s[0]) && IsUpper(s[1]) && IsLower(s[2]) then [s[0], '_'] + SplitAcronyms(s[1..])
    else [s[0]] + SplitAcronyms(s[1..])
  }

  /** `gsub(/([a-z\d])([A-Z])/, '\1_\2')`: an underscore between a lower-case
      letter or digit and the capital that follows it. */
  function SplitWords(s: string): string
    decreases |s|
  {
    if |s| == 0 then ""
    else if |s| >= 2 && (IsLower(s[0]) || IsDigit(s[0])) && IsUpper(s[1]) then [s[0], '_'] + SplitWords(s[1..])
    else [s[0]] + SplitWords(s[1..])
  }

  /** `tr("-", "_")` */
  function DashesToUnderscores(s: string): (r: string)
    ensures |r| == |s|
    ensures forall i :: 0 <= i < |s| ==> r[i] == (if s[i] == '-' then '_' else s[i])
  {
    seq(|s|, i requires 0 <= i < |s| => if s[i] == '-' then '_' else s[i])
  }

  /** `downcase` (ASCII letters only) */
  function Downcase(s: string): (r: string)
    ensures |r| == |s|
    ensures forall i :: 0 <= i < |s| ==> r[i] == Lower(s[i])
  {
    seq(|s|, i requires 0 <= i < |s| => Lower(s[i]))
  }

  /** `String#underscore`: the snake-case form of a (class) name. */
  function Underscore(s: string): (r: string)
    ensures forall i :: 0 <= i < |r| ==> !IsUpper(r[i]) && r[i] != '-'
  {
    Downcase(DashesToUnderscores(SplitWords(SplitAcronyms(ReplaceColons(s)))))
  }

  predicate NoDoubleColon(s: string) {
    forall i :: 0 <= i < |s| - 1 ==> !(s[i] == ':' && s[i + 1] == ':')
  }

  predicate NoUpper(s: string) {
    forall i :: 0 <= i < |s| ==> !IsUpper(s[i])
  }

  lemma {:induction false} ReplaceColonsHead(s: string)
    requires |s| > 0
    ensures |ReplaceColons(s)| > 0
    ensures ReplaceColons(s)[0] == (if |s| >= 2 && s[0] == ':' && s[1] == ':' then '/' else s[0])
  {
  }

  /** The colon pass leaves no "::" behind. */
  lemma {:induction false} ReplaceColonsLeavesNone(s: string)
    ensures NoDoubleColon(ReplaceColons(s))
    decreases |s|
  {
    if |s| >= 2 && s[0] == ':' && s[1] == ':' {
      ReplaceColonsLeavesNone(s[2..]);
    } else if |s| > 0 {
      ReplaceColonsLeavesNone(s[1..]);
      var r := ReplaceColons(s);
      if |s| > 1 {
        ReplaceColonsHead(s[1..]);
        assert r[1..] == ReplaceColons(s[1..]);
      }
    }
  }

  lemma {:induction false} ReplaceColonsIdentity(s: string)
    requires NoDoubleColon(s)
    ensures ReplaceColons(s) == s
    decreases |s|
  {
    if |s| > 0 {
      ReplaceColonsIdentity(s[1..]);
      assert [s[0]] + s[1..] == s;
    }
  }

  lemma {:induction false} SplitAcronymsKeepsNoDoubleColon(s: string)
    requires NoDoubleColon(s)
    ensures NoDoubleColon(SplitAcronyms(s))
    ensures |s| > 0 ==> |SplitAcronyms(s)| > 0 && SplitAcronyms(s)[0] == s[0]
    decreases |s|
  {
    if |s| > 0 {
      SplitAcronymsKeepsNoDoubleColon(s[1..]);
    }
  }

  lemma {:induction false} SplitWordsKeepsNoDoubleColon(s: string)
    requires NoDoubleColon(s)
    ensures NoDoubleColon(SplitWords(s))
    ensures |s| > 0 ==> |SplitWords(s)| > 0 && SplitWords(s)[0] == s[0]
    decreases |s|
  {
    if |s| > 0 {
      SplitWordsKeepsNoDoubleColon(s[1..]);
    }
  }

  lemma {:induction false} SplitAcronymsIdentity(s: string)
    requires NoUpper(s)
    ensures SplitAcronyms(s) == s
    decreases |s|
  {
    if |s| > 0 {
      SplitAcronymsIdentity(s[1..]);
      assert [s[0]] + s[1..] == s;
    }
  }

  lemma {:induction false} SplitWordsIdentity(s: string)
    requires NoUpper(s)
    ensures SplitWords(s) == s
    decreases |s|
  {
    if |s| > 0 {
      SplitWordsIdentity(s[1..]);
      assert [s[0]] + s[1..] == s;
    }
  }

  /** `underscore` is idempotent: its output is already lower case, free of
      dashes and free of "::", so every pass leaves it unchanged. */
  lemma UnderscoreIdempotent(s: string)
    ensures Underscore(Underscore(s)) == Underscore(s)
  {
    var a := ReplaceColons(s);
    ReplaceColonsLeavesNone(s);
    SplitAcronymsKeepsNoDoubleColon(a);
    SplitWordsKeepsNoDoubleColon(SplitAcronyms(a));
    var u := Underscore(s);
    assert NoDoubleColon(u);
    ReplaceColonsIdentity(u);
    SplitAcronymsIdentity(u);
    SplitWordsIdentity(u);
    assert DashesToUnderscores(u) == u;
    assert Downcase(u) == u;
  }

  // ---------------------------------------------------------------------------
  // camel_case

  predicate HasUpper(s: string) {
    exists i :: 0 <= i < |s| && IsUpper(s[i])
  }

  /** `String#capitalize`: first letter up, the rest down. */
  function Capitalize(w: string): (r: string)
    ensures |r| == |w|
    ensures '_' in w <==> '_' in r
  {
    if |w| == 0 then "" else [Upper(w[0])] + Downcase(w[1..])
  }

  function ConcatCapitalized(pieces: seq<string>): string
    decreases |pieces|
  {
    if |pieces| == 0 then "" else Capitalize(pieces[0]) + ConcatCapitalized(pieces[1..])
  }

  lemma {:induction false} ConcatCapitalizedNoUnderscore(pieces: seq<string>)
    requires forall i :: 0 <= i < |pieces| ==> '_' !in pieces[i]
    ensures '_' !in ConcatCapitalized(pieces)
    decreases |pieces|
  {
    if |pieces| > 0 {
      ConcatCapitalizedNoUnderscore(pieces[1..]);
    }
  }

  /** `String#camel_case`: an underscore-free string with a capital in it is
      returned as it is; anything else is split on "_" and its pieces are
      capitalised and concatenated, so no underscore survives. */
  function CamelCase(s: string): (r: string)
    ensures '_' !in s && HasUpper(s) ==> r == s
    ensures !('_' !in s && HasUpper(s)) ==> '_' !in r
  {
    if '_' !in s && HasUpper(s) then s
    else
      ConcatCapitalizedNoUnderscore(Split(s, '_'));
      ConcatCapitalized(Split(s, '_'))
  }

  // ---------------------------------------------------------------------------
  // Class names made of capitalised words: `underscore` and `camel_case` are
  // inverse to each other on them ("GitSubModule" <-> "git_sub_module").

  /** A lower-case word of at least two letters. */
  predicate LowerWord(w: string) {
    |w| >= 2 && forall i :: 0 <= i < |w| ==> IsLower(w[i])
  }

  predicate LowerWords(ws: seq<string>) {
    |ws| >= 1 && forall i :: 0 <= i < |ws| ==> LowerWord(ws[i])
  }

  function CapitalizeAll(ws: seq<string>): (r: seq<string>)
    ensures |r| == |ws| && forall i :: 0 <= i < |ws| ==> r[i] == Capitalize(ws[i])
  {
    seq(|ws|, i requires 0 <= i < |ws| => Capitalize(ws[i]))
  }

  lemma CapitalizeLowerWord(w: string)
    requires LowerWord(w)
    ensures Capitalize(w) == [Upper(w[0])] + w[1..]
    ensures IsUpper(Capitalize(w)[0])
    ensures Downcase(Capitalize(w)) == w
    ensures DashesToUnderscores(Capitalize(w)) == Capitalize(w)
  {
    assert Downcase(w[1..]) == w[1..];
    var c := Capitalize(w);
    assert Downcase(c) == w by {
      assert forall i :: 1 <= i < |w| ==> Downcase(c)[i] == w[i];
    }
  }

  lemma DowncaseConcat(a: string, b: string)
    ensures Downcase(a + b) == Downcase(a) + Downcase(b)
    ensures DashesToUnderscores(a + b) == DashesToUnderscores(a) + DashesToUnderscores(b)
  {
  }

  lemma {:induction false} ReplaceColonsLetters(a: string, t: string)
    requires forall i :: 0 <= i < |a| ==> a[i] != ':'
    ensures ReplaceColons(a + t) == a + ReplaceColons(t)
    decreases |a|
  {
    if |a| > 0 {
      var s := a + t;
      assert s[0] == a[0] && s[1..] == a[1..] + t;
      ReplaceColonsLetters(a[1..], t);
      assert [a[0]] + (a[1..] + ReplaceColons(t)) == ([a[0]] + a[1..]) + ReplaceColons(t);
      assert [a[0]] + a[1..] == a;
    } else {
      assert a + t == t;
    }
  }

  lemma {:induction false} SplitAcronymsLowerRun(l: string, t: string)
    requires forall i :: 0 <= i < |l| ==> IsLower(l[i])
    ensures SplitAcronyms(l + t) == l + SplitAcronyms(t)
    decreases |l|
  {
    if |l| > 0 {
      var s := l + t;
      assert s[0] == l[0] && s[1..] == l[1..] + t;
      SplitAcronymsLowerRun(l[1..], t);
      assert [l[0]] + (l[1..] + SplitAcronyms(t)) == ([l[0]] + l[1..]) + SplitAcronyms(t);
      assert [l[0]] + l[1..] == l;
    } else {
      assert l + t == t;
    }
  }

  lemma {:induction false} SplitWordsLowerRun(l: string, t: string)
    requires |l| > 0 && forall i :: 0 <= i < |l| ==> IsLower(l[i])
    requires |t| > 0 && IsUpper(t[0])
    ensures SplitWords(l + t) == l + "_" + SplitWords(t)
    decreases |l|
  {
    assert (l + t)[1..] == l[1..] + t;
    if |l| > 1 {
      SplitWordsLowerRun(l[1..], t);
    }
  }

  lemma SplitAcronymsCapitalizedWord(w: string, t: string)
    requires LowerWord(w)
    ensures SplitAcronyms(Capitalize(w) + t) == Capitalize(w) + SplitAcronyms(t)
  {
    CapitalizeLowerWord(w);
    var cw := Capitalize(w);
    var s := cw + t;
    assert s[0] == cw[0] && s[1] == w[1] && s[1..] == w[1..] + t;
    assert SplitAcronyms(s) == [s[0]] + SplitAcronyms(s[1..]);
    SplitAcronymsLowerRun(w[1..], t);
    assert [cw[0]] + (w[1..] + SplitAcronyms(t)) == ([cw[0]] + w[1..]) + SplitAcronyms(t);
  }

  /** Past its first letter a capitalised word is lower case. */
  lemma CapitalizedShape(w: string)
    requires LowerWord(w)
    ensures |Capitalize(w)| >= 2 && IsUpper(Capitalize(w)[0])
    ensures forall i :: 1 <= i < |Capitalize(w)| ==> IsLower(Capitalize(w)[i])
  {
    CapitalizeLowerWord(w);
  }

  lemma SplitWordsHeadRun(l: string, t: string)
    requires |l| >= 2 && forall i :: 1 <= i < |l| ==> IsLower(l[i])
    requires |t| > 0 && IsUpper(t[0])
    ensures SplitWords(l + t) == l + "_" + SplitWords(t)
  {
    var s := l + t;
    assert s[1] == l[1] && s[1..] == l[1..] + t;
    assert !IsUpper(s[1]);
    assert SplitWords(s) == [s[0]] + SplitWords(s[1..]);
    SplitWordsLowerRun(l[1..], t);
    assert s[0] == l[0] && [l[0]] + l[1..] == l;
  }

  lemma SplitWordsHeadAlone(l: string)
    requires |l| >= 2 && forall i :: 1 <= i < |l| ==> IsLower(l[i])
    ensures SplitWords(l) == l
  {
    assert SplitWords(l) == [l[0]] + SplitWords(l[1..]);
    SplitWordsIdentity(l[1..]);
    assert [l[0]] + l[1..] == l;
  }

  lemma JoinCapitalizeAll(ws: seq<string>)
    requires |ws| >= 2
    ensures Join(CapitalizeAll(ws), '_') == Capitalize(ws[0]) + "_" + Join(CapitalizeAll(ws[1..]), '_')
  {
    assert CapitalizeAll(ws)[1..] == CapitalizeAll(ws[1..]);
  }

  /** The first two passes leave a capitalised-words name unchanged. */
  lemma {:induction false} EarlyPassesOnCapitalized(ws: seq<string>)
    requires LowerWords(ws)
    ensures |ConcatCapitalized(ws)| > 0 && IsUpper(ConcatCapitalized(ws)[0])
    ensures ReplaceColons(ConcatCapitalized(ws)) == ConcatCapitalized(ws)
    ensures SplitAcronyms(ConcatCapitalized(ws)) == ConcatCapitalized(ws)
    decreases |ws|
  {
    var w := ws[0];
    assert LowerWord(w);
    CapitalizeLowerWord(w);
    var cw := Capitalize(w);
    var t := ConcatCapitalized(ws[1..]);
    assert ConcatCapitalized(ws) == cw + t;
    if |ws| > 1 {
      EarlyPassesOnCapitalized(ws[1..]);
    } else {
      assert t == "";
    }
    assert forall i :: 0 <= i < |cw| ==> cw[i] != ':' by {
      assert forall i :: 1 <= i < |cw| ==> cw[i] == w[i];
    }
    ReplaceColonsLetters(cw, t);
    SplitAcronymsCapitalizedWord(w, t);
  }

  /** The word-splitting pass puts "_" between the capitalised words. */
  lemma {:induction false} SplitWordsOnCapitalized(ws: seq<string>)
    requires LowerWords(ws)
    ensures SplitWords(ConcatCapitalized(ws)) == Join(CapitalizeAll(ws), '_')
    decreases |ws|
  {
    var w := ws[0];
    var rest := ws[1..];
    assert LowerWord(w);
    CapitalizedShape(w);
    var t := ConcatCapitalized(rest);
    assert ConcatCapitalized(ws) == Capitalize(w) + t;
    if |rest| == 0 {
      assert Capitalize(w) + t == Capitalize(w);
      SplitWordsHeadAlone(Capitalize(w));
    } else {
      assert LowerWords(rest);
      EarlyPassesOnCapitalized(rest);
      SplitWordsOnCapitalized(rest);
      SplitWordsHeadRun(Capitalize(w), t);
      JoinCapitalizeAll(ws);
    }
  }

  lemma PassesOnJoinStep(a: string, tail: string)
    ensures Downcase(DashesToUnderscores(a + "_" + tail)) ==
      Downcase(DashesToUnderscores(a)) + "_" + Downcase(DashesToUnderscores(tail))
  {
    DowncaseConcat(a, "_" + tail);
    DowncaseConcat("_", tail);
    DowncaseConcat(DashesToUnderscores(a), DashesToUnderscores("_" + tail));
    DowncaseConcat(DashesToUnderscores("_"), DashesToUnderscores(tail));
    assert a + "_" + tail == a + ("_" + tail);
    assert Downcase(DashesToUnderscores(a)) + "_" + Downcase(DashesToUnderscores(tail)) ==
      Downcase(DashesToUnderscores(a)) + ("_" + Downcase(DashesToUnderscores(tail)));
  }

  lemma {:induction false} LowerPassesOnJoin(ws: seq<string>)
    requires LowerWords(ws)
    ensures Downcase(DashesToUnderscores(Join(CapitalizeAll(ws), '_'))) == Join(ws, '_')
    decreases |ws|
  {
    var cws := CapitalizeAll(ws);
    CapitalizeLowerWord(ws[0]);
    if |ws| > 1 {
      LowerPassesOnJoin(ws[1..]);
      assert cws[1..] == CapitalizeAll(ws[1..]);
      var tail := Join(cws[1..], '_');
      assert Join(cws, '_') == cws[0] + "_" + tail;
      PassesOnJoinStep(cws[0], tail);
      assert Join(ws, '_') == ws[0] + "_" + Join(ws[1..], '_');
    }
  }

  /** `underscore` of a capitalised-words name joins the words with "_". */
  lemma UnderscoreOfCapitalized(ws: seq<string>)
    requires LowerWords(ws)
    ensures Underscore(ConcatCapitalized(ws)) == Join(ws, '_')
  {
    EarlyPassesOnCapitalized(ws);
    SplitWordsOnCapitalized(ws);
    LowerPassesOnJoin(ws);
  }

  lemma {:induction false} JoinOfLowerWordsHasNoUpper(ws: seq<string>)
    requires LowerWords(ws)
    ensures !HasUpper(Join(ws, '_'))
    ensures |Join(ws, '_')| > 0 && Join(ws, '_')[|Join(ws, '_')| - 1] != '_'
    decreases |ws|
  {
    if |ws| > 1 {
      JoinOfLowerWordsHasNoUpper(ws[1..]);
      var j := Join(ws, '_');
      assert j == ws[0] + "_" + Join(ws[1..], '_');
      assert forall i :: 0 <= i < |j| ==> !IsUpper(j[i]) by {
        forall i | 0 <= i < |j|
          ensures !IsUpper(j[i])
        {
          if i > |ws[0]| {
            assert j[i] == Join(ws[1..], '_')[i - |ws[0]| - 1];
          }
        }
      }
    }
  }

  /** `camel_case` undoes `underscore` on capitalised-words names. */
  lemma CamelCaseOfJoined(ws: seq<string>)
    requires LowerWords(ws)
    ensures CamelCase(Join(ws, '_')) == ConcatCapitalized(ws)
  {
    JoinOfLowerWordsHasNoUpper(ws);
    assert forall i :: 0 <= i < |ws| ==> '_' !in ws[i];
    FieldsJoin(ws, '_');
  }

  // ---------------------------------------------------------------------------
  // is_sha1?

  /** Number of leading hexadecimal digits of `s`. */
  function LeadingHexDigits(s: string): (n: nat)
    ensures n <= |s|
    ensures forall i :: 0 <= i < n ==> IsHexDigit(s[i])
    ensures n < |s| ==> !IsHexDigit(s[n])
    decreases |s|
  {
    if |s| == 0 || !IsHexDigit(s[0]) then 0 else 1 + LeadingHexDigits(s[1..])
  }

  /** `is_sha1?`, i.e. `/\A\h{40}\Z/`: forty hex digits (either case) and
      nothing after them except, through `\Z`, a single final newline. */
  function IsSha1(s: string): (b: bool)
    ensures b <==> (|s| == 40 || (|s| == 41 && s[40] == '\n'))
                   && forall i :: 0 <= i < 40 ==> IsHexDigit(s[i])
  {
    var n := LeadingHexDigits(s);
    n == 40 && (|s| == 40 || (|s| == 41 && s[40] == '\n'))
  }
}
