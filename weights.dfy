/**
 * `find_weight`: the pattern `p\s*[:：]?\s*([\d.,]+)\s*kg`, searched case
 * insensitively for each weight label in turn, and the conversion of the
 * matched numeral written in European notation into a number.
 */
module Weights {
  import opened Wrappers
  import opened Text
  import opened Json
  import opened Rules

  /** The class `[\d.,]`. */
  predicate IsNumeralChar(c: char) { IsDigit(c) || c == '.' || c == ',' }

  /** The end of the run of numeral characters starting at `i`: greedy `[\d.,]+`. */
  function NumeralEnd(s: string, i: nat): (r: nat)
    requires i <= |s|
    ensures i <= r <= |s|
    ensures forall j :: i <= j < r ==> IsNumeralChar(s[j])
    ensures r == |s| || !IsNumeralChar(s[r])
    decreases |s| - i
  {
    if i < |s| && IsNumeralChar(s[i]) then NumeralEnd(s, i + 1) else i
  }

  /** The group `([\d.,]+)` of `p\s*[:：]?\s*([\d.,]+)\s*kg` when the pattern
      `p` ends at `e`, if the rest matches there. No backtracking can help:
      the number can only start after the longest separator, and it must be
      the whole run of numeral characters, for `\s*kg` to follow it
      (`WeightAtComplete`). */
  function WeightAt(s: string, e: nat): (r: Option<string>)
    requires e <= |s|
    ensures r.Some? ==> r.value != [] && forall j :: 0 <= j < |r.value| ==> IsNumeralChar(r.value[j])
  {
    var q := ValueStart(s, e);
    var n := NumeralEnd(s, q);
    if q < n && MatchesAt(s, "kg", SkipSpaces(s, n)) then
      assert forall j :: 0 <= j < n - q ==> s[q..n][j] == s[q + j];
      Some(s[q..n])
    else None
  }

  /** `WeightAt` is complete: every way the rest of the weight pattern can
      match after `e` (a separator, a numeral run, whitespace, then `kg`)
      captures the very number `WeightAt` returns. So there is no other
      capture, and `None` means the rest of the pattern matches nowhere. */
  lemma WeightAtComplete(s: string, e: nat, q: nat, n: nat, t: nat)
    requires e <= q < n <= t <= |s|
    requires IsSeparator(s[e..q])
    requires forall j :: q <= j < n ==> IsNumeralChar(s[j])
    requires forall j :: n <= j < t ==> IsSpace(s[j])
    requires MatchesAt(s, "kg", t)
    ensures WeightAt(s, e) == Some(s[q..n])
  {
    ValueStartIsLongestSeparator(s, e);
    var v := ValueStart(s, e);
    if q < v {
      NumeralIsNoSpace(s[q]);
      NotSeparatorAt(s, e, v, q);
    }
    assert q == v;
    assert Lower(s[t..t + 2][0]) == Lower("kg"[0]);
    assert s[t..t + 2][0] == s[t];
    var m := NumeralEnd(s, q);
    if m > n {
      if n < t { NumeralIsNoSpace(s[n]); }
    }
    assert m == n;
    var w := SkipSpaces(s, n);
    if w > t {
      assert IsSpace(s[t]);
      KIsNoSpace(s[t]);
    }
    assert w == t;
  }

  lemma NumeralIsNoSpace(c: char)
    requires IsNumeralChar(c)
    ensures !IsSpace(c) && !IsColon(c)
  {
  }

  lemma KIsNoSpace(c: char)
    requires Lower(c) == 'k'
    ensures !IsSpace(c) && !IsNumeralChar(c)
  {
  }

  /** What each start position yields: the number, when the pattern `p`
      occurs there and the rest of the weight pattern matches after it. */
  function WeightCandidates(s: string, p: string): (r: seq<Option<string>>)
    ensures |r| == |s| + 1
    ensures forall a :: 0 <= a <= |s| ==> r[a] == if MatchesAt(s, p, a) then WeightAt(s, a + |p|) else None
  {
    seq(|s| + 1, a requires 0 <= a <= |s| => if MatchesAt(s, p, a) then WeightAt(s, a + |p|) else None)
  }

  /** `re.search` of the weight pattern for `p`, case ignored: the number at
      the leftmost occurrence of `p` after which the rest of the pattern matches. */
  function WeightMatch(s: string, p: string): (r: Option<string>)
    ensures r.None? <==> forall a :: 0 <= a <= |s| ==> WeightCandidates(s, p)[a].None?
    ensures r.Some? ==> exists a :: 0 <= a <= |s| && WeightCandidates(s, p)[a] == r
                                    && forall b :: 0 <= b < a ==> WeightCandidates(s, p)[b].None?
  {
    FirstSome(WeightCandidates(s, p))
  }

  /** `num.replace(".", "").replace(",", ".")`: thousands dots dropped, the
      decimal comma turned into a dot. */
  function Rewrite(num: string): string
  {
    if num == [] then []
    else (if num[0] == '.' then [] else if num[0] == ',' then "." else [num[0]]) + Rewrite(num[1..])
  }

  /** The digits of a string, in order. */
  function Digits(s: string): string
  {
    if s == [] then [] else (if IsDigit(s[0]) then [s[0]] else []) + Digits(s[1..])
  }

  /** The rewrite leaves no comma, has one dot for each comma of the
      original, and keeps the digits in order. */
  lemma {:induction false} RewriteShape(num: string)
    ensures ',' !in Rewrite(num)
    ensures CountChar(Rewrite(num), '.') == CountChar(num, ',')
    ensures Digits(Rewrite(num)) == Digits(num)
    ensures (forall i :: 0 <= i < |num| ==> IsNumeralChar(num[i])) ==>
              forall i :: 0 <= i < |Rewrite(num)| ==> IsDigit(Rewrite(num)[i]) || Rewrite(num)[i] == '.'
  {
    if num != [] {
      RewriteShape(num[1..]);
      var head: string := if num[0] == '.' then [] else if num[0] == ',' then "." else [num[0]];
      CountCharAppend(head, Rewrite(num[1..]), '.');
      DigitsAppend(head, Rewrite(num[1..]));
      assert forall i :: 0 <= i < |num[1..]| ==> num[1..][i] == num[i + 1];
    }
  }

  lemma {:induction false} DigitsAppend(a: string, b: string)
    ensures Digits(a + b) == Digits(a) + Digits(b)
  {
    if a == [] {
      assert a + b == b;
    } else {
      assert (a + b)[1..] == a[1..] + b;
      DigitsAppend(a[1..], b);
    }
  }

  predicate AllDigits(s: string)
  {
    forall i :: 0 <= i < |s| ==> IsDigit(s[i])
  }

  lemma {:induction false} DigitsOfDigits(s: string)
    ensures AllDigits(s) ==> Digits(s) == s
  {
    if s != [] {
      DigitsOfDigits(s[1..]);
      assert AllDigits(s) ==> AllDigits(s[1..]) by {
        assert forall i :: 0 <= i < |s[1..]| ==> s[1..][i] == s[i + 1];
      }
    }
  }

  /** The number a string of decimal digits denotes. */
  function Value(ds: string): nat
  {
    if ds == [] then 0
    else Value(ds[..|ds| - 1]) * 10 + (if IsDigit(ds[|ds| - 1]) then ds[|ds| - 1] as int - '0' as int else 0)
  }

  /** Python's `float(t)` on a string of digits and dots, as an exact
      decimal: digits with at most one dot among them and at least one digit
      make the number whose mantissa is all the digits and whose scale is
      the count of digits after the dot; anything else raises `ValueError`. */
  function ParseNumber(t: string): (r: Option<Json>)
    ensures r.Some? ==> r.value.JNum?
  {
    match IndexOf(t, '.')
    case None =>
      if t != [] && AllDigits(t) then Some(JNum(Value(t), 0)) else None
    case Some(i) =>
      var whole := t[..i];
      var frac := t[i + 1..];
      if AllDigits(whole) && AllDigits(frac) && whole + frac != [] then Some(JNum(Value(whole + frac), |frac|))
      else None
  }

  /** On digits and dots, the conversion succeeds exactly when there is at
      most one dot and at least one digit, and then the mantissa is the
      number the digits spell. */
  lemma ParseNumberSucceeds(t: string)
    requires forall i :: 0 <= i < |t| ==> IsDigit(t[i]) || t[i] == '.'
    ensures ParseNumber(t).Some? <==> CountChar(t, '.') <= 1 && Digits(t) != []
    ensures ParseNumber(t).Some? ==> ParseNumber(t).value.JNum? && ParseNumber(t).value.mantissa == Value(Digits(t))
  {
    match IndexOf(t, '.')
    case None =>
      CountCharAbsent(t, '.');
      DigitsOfDigits(t);
    case Some(i) =>
      OneDotSplit(t, i);
      var whole := t[..i];
      var frac := t[i + 1..];
      if AllDigits(frac) {
        assert Digits(t) == whole + frac;
        assert ParseNumber(t) == if whole + frac != [] then Some(JNum(Value(whole + frac), |frac|)) else None;
      } else {
        assert ParseNumber(t) == None;
      }
  }

  /** Split at the first dot: the digits before it, the rest after it. */
  lemma OneDotSplit(t: string, i: nat)
    requires forall j :: 0 <= j < |t| ==> IsDigit(t[j]) || t[j] == '.'
    requires IndexOf(t, '.') == Some(i)
    ensures CountChar(t, '.') == 1 + CountChar(t[i + 1..], '.')
    ensures Digits(t) == t[..i] + Digits(t[i + 1..])
    ensures AllDigits(t[..i])
    ensures AllDigits(t[i + 1..]) <==> CountChar(t[i + 1..], '.') == 0
    ensures AllDigits(t[i + 1..]) ==> Digits(t[i + 1..]) == t[i + 1..]
  {
    WholeIsDigits(t, i);
    DotSplit(t, i);
    FracDigits(t, i);
  }

  /** Cutting out the dot at `i`. */
  lemma DotSplit(t: string, i: nat)
    requires i < |t| && t[i] == '.'
    ensures CountChar(t, '.') == CountChar(t[..i], '.') + 1 + CountChar(t[i + 1..], '.')
    ensures Digits(t) == Digits(t[..i]) + Digits(t[i + 1..])
  {
    var whole := t[..i];
    var frac := t[i + 1..];
    var rest := ['.'] + frac;
    assert t == whole + rest;
    assert rest[1..] == frac;
    CountCharAppend(whole, rest, '.');
    assert CountChar(rest, '.') == 1 + CountChar(frac, '.');
    DigitsAppend(whole, rest);
    assert Digits(rest) == Digits(frac);
  }

  lemma WholeIsDigits(t: string, i: nat)
    requires forall j :: 0 <= j < |t| ==> IsDigit(t[j]) || t[j] == '.'
    requires IndexOf(t, '.') == Some(i)
    ensures AllDigits(t[..i]) && Digits(t[..i]) == t[..i] && CountChar(t[..i], '.') == 0
  {
    var whole := t[..i];
    assert forall j :: 0 <= j < |whole| ==> whole[j] == t[j];
    CountCharAbsent(whole, '.');
    DigitsOfDigits(whole);
  }

  lemma FracDigits(t: string, i: nat)
    requires forall j :: 0 <= j < |t| ==> IsDigit(t[j]) || t[j] == '.'
    requires i < |t|
    ensures AllDigits(t[i + 1..]) <==> CountChar(t[i + 1..], '.') == 0
    ensures AllDigits(t[i + 1..]) ==> Digits(t[i + 1..]) == t[i + 1..]
  {
    var frac := t[i + 1..];
    CountCharZero(frac, '.');
    assert forall j :: 0 <= j < |frac| ==> frac[j] == t[i + 1 + j];
    DigitsOfDigits(frac);
  }

  /** The weight pattern `p` yields: the rewritten number of its leftmost
      match, when that converts; a failed conversion yields nothing, like
      the `except: pass` that moves on to the next pattern. */
  function PatternWeight(text: string, p: string): (r: Option<Json>)
    ensures r.Some? ==> r.value.JNum?
  {
    match WeightMatch(text, p)
    case None => None
    case Some(num) => ParseNumber(Rewrite(num))
  }

  /** The number a pattern's match converts to exists exactly when the
      matched numeral has at most one comma and a digit, and its mantissa
      is the digits, dots dropped. */
  lemma PatternWeightConverts(text: string, p: string)
    requires WeightMatch(text, p).Some?
    ensures PatternWeight(text, p).Some? <==>
      CountChar(WeightMatch(text, p).value, ',') <= 1 && Digits(WeightMatch(text, p).value) != []
    ensures PatternWeight(text, p).Some? ==>
      PatternWeight(text, p).value == JNum(Value(Digits(WeightMatch(text, p).value)), PatternWeight(text, p).value.scale)
  {
    var num := WeightMatch(text, p).value;
    var a :| 0 <= a <= |text| && WeightCandidates(text, p)[a] == Some(num);
    assert MatchesAt(text, p, a) && WeightAt(text, a + |p|) == Some(num);
    RewriteShape(num);
    ParseNumberSucceeds(Rewrite(num));
  }

  function PatternWeights(text: string, patterns: seq<string>): (r: seq<Option<Json>>)
    ensures |r| == |patterns| && forall i :: 0 <= i < |patterns| ==> r[i] == PatternWeight(text, patterns[i])
  {
    seq(|patterns|, i requires 0 <= i < |patterns| => PatternWeight(text, patterns[i]))
  }

  /** `find_weight(patterns)`: the weight of the first pattern, in list
      order, that yields one. */
  function FindWeight(text: string, patterns: seq<string>): (r: Option<Json>)
    ensures r.Some? ==> r.value.JNum?
    ensures r.None? <==> forall i :: 0 <= i < |patterns| ==> PatternWeight(text, patterns[i]).None?
    ensures r.Some? ==> exists i :: 0 <= i < |patterns| && PatternWeight(text, patterns[i]) == r
                                    && forall j :: 0 <= j < i ==> PatternWeight(text, patterns[j]).None?
  {
    FirstSome(PatternWeights(text, patterns))
  }

  lemma {:induction false} RewriteAppend(x: string, y: string)
    ensures Rewrite(x + y) == Rewrite(x) + Rewrite(y)
  {
    if x == [] {
      assert x + y == y;
    } else {
      assert (x + y)[1..] == x[1..] + y;
      RewriteAppend(x[1..], y);
    }
  }

  lemma {:induction false} RewriteDigits(x: string)
    requires AllDigits(x)
    ensures Rewrite(x) == x
  {
    if x != [] {
      assert AllDigits(x[1..]) by {
        assert forall i :: 0 <= i < |x[1..]| ==> x[1..][i] == x[i + 1];
      }
      RewriteDigits(x[1..]);
    }
  }

  /** European notation: digits, a thousands dot, digits, a decimal comma,
      digits (`1.234,50`) become the number whose mantissa is all the
      digits and whose scale is the count after the comma (`123450` at
      scale 2, that is 1234.50). */
  lemma EuropeanNumber(a: string, b: string, c: string)
    requires AllDigits(a) && AllDigits(b) && AllDigits(c) && a + b + c != []
    ensures Rewrite(a + "." + b + "," + c) == a + b + "." + c
    ensures ParseNumber(Rewrite(a + "." + b + "," + c)) == Some(JNum(Value(a + b + c), |c|))
  {
    EuropeanRewrite(a, b, c);
    assert AllDigits(a + b) by {
      assert forall i :: 0 <= i < |a + b| ==> (a + b)[i] == if i < |a| then a[i] else b[i - |a|];
    }
    assert a + b + c == (a + b) + c;
    ParseDecimal(a + b, c);
  }

  lemma EuropeanRewrite(a: string, b: string, c: string)
    requires AllDigits(a) && AllDigits(b) && AllDigits(c)
    ensures Rewrite(a + "." + b + "," + c) == a + b + "." + c
  {
    RewriteMarks();
    RewriteDigits(a);
    RewriteDigits(b);
    RewriteDigits(c);
    var x1 := a + ".";
    RewriteAppend(a, ".");
    assert Rewrite(x1) == a;
    var x2 := x1 + b;
    RewriteAppend(x1, b);
    assert Rewrite(x2) == a + b;
    var x3 := x2 + ",";
    RewriteAppend(x2, ",");
    assert Rewrite(x3) == a + b + ".";
    RewriteAppend(x3, c);
  }

  lemma RewriteMarks()
    ensures Rewrite(".") == [] && Rewrite(",") == "."
  {
    assert "."[1..] == [] && ","[1..] == [];
  }

  /** Digits, a dot, digits: the number with all the digits as mantissa and
      the count after the dot as scale. */
  lemma ParseDecimal(w: string, f: string)
    requires AllDigits(w) && AllDigits(f) && w + f != []
    ensures ParseNumber(w + "." + f) == Some(JNum(Value(w + f), |f|))
  {
    var t := w + "." + f;
    assert t[|w|] == '.';
    assert t[..|w|] == w && t[|w| + 1..] == f;
    IndexOfFirst(t, '.', |w|);
  }
}
