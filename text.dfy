/**
 * The Python string operations the normaliser relies on, over Dafny strings:
 * `str.strip()` and `str.strip(chars)`, `str.split(sep)`, `sep.join(parts)`,
 * ASCII case-insensitive literal search (the `re.IGNORECASE` matching of a
 * fixed label) and the `re.sub(r"\n{3,}", "\n\n", s)` newline collapse.
 */
module Text {
  import opened Wrappers

  /** The characters for which Python's `str.isspace()` holds: the ASCII
      controls `\t` to `\r` and `\x1c` to `\x1f`, the space, and the Unicode
      separators U+0085, U+00A0, U+1680, U+2000 to U+200A, U+2028, U+2029,
      U+202F, U+205F and U+3000. */
  predicate SpaceChar(c: char)
  {
    ('\t' <= c <= '\r') || ('\U{1C}' <= c <= ' ') || c == '\U{85}' || c == '\U{A0}' || c == '\U{1680}'
    || ('\U{2000}' <= c <= '\U{200A}') || c == '\U{2028}' || c == '\U{2029}' || c == '\U{202F}'
    || c == '\U{205F}' || c == '\U{3000}'
  }

  /** `str.strip()` removes exactly these, and the regular-expression class `\s` matches them. */
  const Whitespace: set<char> := set c: char | '\t' <= c <= '\U{3000}' && SpaceChar(c)

  predicate IsSpace(c: char) { c in Whitespace }

  /** The regular-expression class `\d`, restricted to ASCII digits. */
  predicate IsDigit(c: char) { '0' <= c <= '9' }

  /** Drops the leading characters that belong to `cs`. */
  function TrimStart(s: string, cs: set<char>): (r: string)
    ensures |r| <= |s|
  {
    if s != [] && s[0] in cs then TrimStart(s[1..], cs) else s
  }

  /** `TrimStart` leaves a suffix that does not begin with a character of `cs`,
      and every character it drops is in `cs`. */
  lemma {:induction false} TrimStartShape(s: string, cs: set<char>)
    ensures TrimStart(s, cs) == s[|s| - |TrimStart(s, cs)|..]
    ensures TrimStart(s, cs) == [] || TrimStart(s, cs)[0] !in cs
    ensures forall i :: 0 <= i < |s| - |TrimStart(s, cs)| ==> s[i] in cs
  {
    if s != [] && s[0] in cs {
      TrimStartShape(s[1..], cs);
    }
  }

  /** Drops the trailing characters that belong to `cs`. */
  function TrimEnd(s: string, cs: set<char>): string
  {
    if s != [] && s[|s| - 1] in cs then TrimEnd(s[..|s| - 1], cs) else s
  }

  /** `TrimEnd` leaves a prefix that does not end with a character of `cs`,
      and every character it drops is in `cs`. */
  lemma {:induction false} TrimEndShape(s: string, cs: set<char>)
    ensures |TrimEnd(s, cs)| <= |s| && TrimEnd(s, cs) == s[..|TrimEnd(s, cs)|]
    ensures TrimEnd(s, cs) == [] || TrimEnd(s, cs)[|TrimEnd(s, cs)| - 1] !in cs
    ensures forall i :: |TrimEnd(s, cs)| <= i < |s| ==> s[i] in cs
  {
    if s != [] && s[|s| - 1] in cs {
      TrimEndShape(s[..|s| - 1], cs);
      assert s[..|s| - 1][..|TrimEnd(s, cs)|] == s[..|TrimEnd(s, cs)|];
    }
  }

  /** How many leading characters `StripChars` removes. */
  function StripOffset(s: string, cs: set<char>): nat
  {
    |s| - |TrimStart(s, cs)|
  }

  /** Python's `s.strip(chars)` with `chars` given as the set `cs`. */
  function StripChars(s: string, cs: set<char>): string
  {
    TrimEnd(TrimStart(s, cs), cs)
  }

  /** `s.strip(chars)` is the slice of `s` left after removing every leading
      and every trailing character in `cs`: it neither starts nor ends with
      one, and everything outside it is one. */
  lemma StripCharsShape(s: string, cs: set<char>)
    ensures StripChars(s, cs) == [] || (StripChars(s, cs)[0] !in cs && StripChars(s, cs)[|StripChars(s, cs)| - 1] !in cs)
    ensures StripOffset(s, cs) + |StripChars(s, cs)| <= |s|
    ensures StripChars(s, cs) == s[StripOffset(s, cs)..StripOffset(s, cs) + |StripChars(s, cs)|]
    ensures forall i :: 0 <= i < StripOffset(s, cs) ==> s[i] in cs
    ensures forall i :: StripOffset(s, cs) + |StripChars(s, cs)| <= i < |s| ==> s[i] in cs
  {
    var t := TrimStart(s, cs);
    TrimStartShape(s, cs);
    TrimEndShape(t, cs);
    var r := TrimEnd(t, cs);
    var off := |s| - |t|;
    assert r == t[..|r|] == s[off..][..|r|];
    assert s[off..][..|r|] == s[off..off + |r|];
    assert forall i :: off + |r| <= i < |s| ==> s[i] == t[i - off];
    if r != [] {
      assert r[0] == t[0];
    }
  }

  /** Python's `s.strip()`. */
  function Strip(s: string): string
  {
    StripChars(s, Whitespace)
  }

  /** A string that neither starts nor ends with a character of `cs` is left alone. */
  lemma StripCharsNoop(s: string, cs: set<char>)
    requires s == [] || (s[0] !in cs && s[|s| - 1] !in cs)
    ensures StripChars(s, cs) == s
  {
  }

  /** Stripping twice removes nothing more than stripping once. */
  lemma StripCharsIdempotent(s: string, cs: set<char>)
    ensures StripChars(StripChars(s, cs), cs) == StripChars(s, cs)
  {
    StripCharsShape(s, cs);
    StripCharsNoop(StripChars(s, cs), cs);
  }

  // ---------- ASCII case-insensitive literal matching ----------

  /** ASCII lower-casing: the case folding `re.IGNORECASE` applies to the labels. */
  function Lower(c: char): char
  {
    if 'A' <= c <= 'Z' then (c as int + 32) as char else c
  }

  predicate SameIgnoringCase(a: string, b: string)
  {
    |a| == |b| && forall i :: 0 <= i < |a| ==> Lower(a[i]) == Lower(b[i])
  }

  /** The literal `p` matches, ignoring case, at position `i` of `s`. */
  predicate MatchesAt(s: string, p: string, i: nat)
  {
    i + |p| <= |s| && SameIgnoringCase(s[i..i + |p|], p)
  }

  /** The first position at or after `from` where `p` matches ignoring case:
      the start of the match `re.search` reports for the literal `p`. */
  function FindIgnoringCase(s: string, p: string, from: nat): (r: Option<nat>)
    ensures r.Some? ==> from <= r.value && MatchesAt(s, p, r.value)
    ensures r.Some? ==> forall i :: from <= i < r.value ==> !MatchesAt(s, p, i)
    ensures r.None? ==> forall i :: from <= i ==> !MatchesAt(s, p, i)
    decreases |s| - from
  {
    if from + |p| > |s| then None
    else if MatchesAt(s, p, from) then Some(from)
    else FindIgnoringCase(s, p, from + 1)
  }

  // ---------- split and join ----------

  function CountChar(s: string, c: char): nat
  {
    if s == [] then 0 else (if s[0] == c then 1 else 0) + CountChar(s[1..], c)
  }

  /** The first position of `c` in `s`, if any. */
  function IndexOf(s: string, c: char): (r: Option<nat>)
    ensures r.Some? ==> r.value < |s| && s[r.value] == c && c !in s[..r.value]
    ensures r.None? ==> c !in s
  {
    if s == [] then None
    else if s[0] == c then Some(0)
    else match IndexOf(s[1..], c)
      case None => None
      case Some(i) => Some(i + 1)
  }

  /** `IndexOf` finds the first occurrence. */
  lemma {:induction false} IndexOfFirst(s: string, c: char, i: nat)
    requires i < |s| && s[i] == c && c !in s[..i]
    ensures IndexOf(s, c) == Some(i)
  {
    if i > 0 {
      assert s[..i][0] == s[0];
      var t := s[1..][..i - 1];
      assert forall j :: 0 <= j < |t| ==> t[j] == s[j + 1];
      assert s[1..][i - 1] == s[i];
      IndexOfFirst(s[1..], c, i - 1);
    }
  }

  /** Python's `s.split(sep)` for a one-character separator. */
  function Split(s: string, sep: char): (parts: seq<string>)
    ensures |parts| >= 1
    ensures forall i :: 0 <= i < |parts| ==> sep !in parts[i]
    decreases |s|
  {
    match IndexOf(s, sep)
    case None => [s]
    case Some(i) => [s[..i]] + Split(s[i + 1..], sep)
  }

  /** Python's `sep.join(parts)`. */
  function Join(parts: seq<string>, sep: string): string
  {
    if |parts| == 0 then ""
    else if |parts| == 1 then parts[0]
    else parts[0] + sep + Join(parts[1..], sep)
  }

  /** Splitting and joining back with the same separator gives the string back. */
  lemma {:induction false} JoinSplit(s: string, sep: char)
    ensures Join(Split(s, sep), [sep]) == s
    decreases |s|
  {
    match IndexOf(s, sep)
    case None =>
    case Some(i) =>
      var tail := Split(s[i + 1..], sep);
      var parts := [s[..i]] + tail;
      assert Split(s, sep) == parts;
      assert parts[0] == s[..i] && parts[1..] == tail;
      assert Join(parts, [sep]) == s[..i] + [sep] + Join(tail, [sep]);
      JoinSplit(s[i + 1..], sep);
      assert s == s[..i] + [sep] + s[i + 1..];
  }

  lemma {:induction false} CountCharAppend(a: string, b: string, c: char)
    ensures CountChar(a + b, c) == CountChar(a, c) + CountChar(b, c)
  {
    if a == [] {
      assert a + b == b;
    } else {
      assert (a + b)[0] == a[0];
      assert (a + b)[1..] == a[1..] + b;
      CountCharAppend(a[1..], b, c);
    }
  }

  lemma CountCharAbsent(s: string, c: char)
    requires c !in s
    ensures CountChar(s, c) == 0
  {
  }

  lemma {:induction false} CountCharZero(s: string, c: char)
    ensures CountChar(s, c) == 0 <==> c !in s
  {
    if s != [] {
      CountCharZero(s[1..], c);
      assert s == [s[0]] + s[1..];
    }
  }

  /** A string with `n` separators splits into `n + 1` parts. */
  lemma {:induction false} SplitCount(s: string, sep: char)
    ensures |Split(s, sep)| == CountChar(s, sep) + 1
    decreases |s|
  {
    match IndexOf(s, sep)
    case None =>
      CountCharAbsent(s, sep);
    case Some(i) =>
      SplitCount(s[i + 1..], sep);
      assert s == s[..i] + ([sep] + s[i + 1..]);
      CountCharAppend(s[..i], [sep] + s[i + 1..], sep);
      CountCharAbsent(s[..i], sep);
      assert ([sep] + s[i + 1..])[1..] == s[i + 1..];
  }

  /** `a + "." + b` splits back into `a` and `b` when neither holds a dot. */
  lemma SplitTwo(a: string, b: string, sep: char)
    requires sep !in a && sep !in b
    ensures Split(a + [sep] + b, sep) == [a, b]
  {
    var s := a + [sep] + b;
    assert s[|a|] == sep;
    assert s[..|a|] == a;
    assert s[|a| + 1..] == b;
    assert forall j :: 0 <= j < |a| ==> s[j] == a[j];
    assert IndexOf(s, sep) == Some(|a|);
  }

  // ---------- newline collapse ----------

  /** No three consecutive newlines. */
  predicate NoTripleNewline(s: string)
  {
    forall i :: 0 <= i < |s| - 2 ==> !(s[i] == '\n' && s[i + 1] == '\n' && s[i + 2] == '\n')
  }

  /** How the text may begin after `run` newlines (counted up to two) were output:
      it must not carry the run of newlines past two. */
  predicate FitsAfterRun(s: string, run: nat)
  {
    (run >= 1 ==> !(|s| >= 2 && s[0] == '\n' && s[1] == '\n'))
    && (run >= 2 ==> !(|s| >= 1 && s[0] == '\n'))
  }

  /** `re.sub(r"\n{3,}", "\n\n", s)` scanned left to right: `run` counts (up to
      two) the newlines just output, and a newline arriving when two were
      output is dropped, so every run of three or more becomes exactly two. */
  function CollapseRun(s: string, run: nat): string
    decreases |s|
  {
    if s == [] then []
    else if s[0] == '\n' then
      if run >= 2 then CollapseRun(s[1..], run) else "\n" + CollapseRun(s[1..], run + 1)
    else [s[0]] + CollapseRun(s[1..], 0)
  }

  function CollapseNewlines(s: string): string
  {
    CollapseRun(s, 0)
  }

  lemma {:induction false} CollapseRunShape(s: string, run: nat)
    requires run <= 2
    ensures NoTripleNewline(CollapseRun(s, run))
    ensures FitsAfterRun(CollapseRun(s, run), run)
    decreases |s|
  {
    if s == [] {
    } else if s[0] == '\n' {
      if run >= 2 {
        CollapseRunShape(s[1..], run);
      } else {
        CollapseRunShape(s[1..], run + 1);
        var rest := CollapseRun(s[1..], run + 1);
        assert CollapseRun(s, run) == "\n" + rest;
        assert forall i :: 1 <= i < |rest| + 1 - 2 ==> ("\n" + rest)[i] == rest[i - 1];
      }
    } else {
      CollapseRunShape(s[1..], 0);
      var rest := CollapseRun(s[1..], 0);
      assert CollapseRun(s, run) == [s[0]] + rest;
      assert forall i :: 1 <= i < |rest| + 1 - 2 ==> ([s[0]] + rest)[i] == rest[i - 1];
    }
  }

  /** The collapse leaves no run of three newlines. */
  lemma CollapseNewlinesNoTriple(s: string)
    ensures NoTripleNewline(CollapseNewlines(s))
  {
    CollapseRunShape(s, 0);
  }

  lemma {:induction false} CollapseRunFixed(s: string, run: nat)
    requires run <= 2 && NoTripleNewline(s) && FitsAfterRun(s, run)
    ensures CollapseRun(s, run) == s
    decreases |s|
  {
    if s != [] {
      assert forall i :: 0 <= i < |s[1..]| - 2 ==> s[1..][i] == s[i + 1];
      if s[0] == '\n' {
        CollapseRunFixed(s[1..], run + 1);
      } else {
        CollapseRunFixed(s[1..], 0);
      }
    }
  }

  /** Text without a run of three newlines is left unchanged. */
  lemma CollapseNewlinesFixed(s: string)
    requires NoTripleNewline(s)
    ensures CollapseNewlines(s) == s
  {
    CollapseRunFixed(s, 0);
  }

  /** Collapsing twice is collapsing once. */
  lemma CollapseNewlinesIdempotent(s: string)
    ensures CollapseNewlines(CollapseNewlines(s)) == CollapseNewlines(s)
  {
    CollapseNewlinesNoTriple(s);
    CollapseNewlinesFixed(CollapseNewlines(s));
  }

  /** `s` without its newlines. */
  function WithoutNewlines(s: string): string
  {
    if s == [] then [] else (if s[0] == '\n' then [] else [s[0]]) + WithoutNewlines(s[1..])
  }

  /** The collapse removes newlines only: every other character stays, in order. */
  lemma {:induction false} CollapseRunKeepsText(s: string, run: nat)
    ensures WithoutNewlines(CollapseRun(s, run)) == WithoutNewlines(s)
    decreases |s|
  {
    if s != [] {
      if s[0] == '\n' {
        if run >= 2 {
          CollapseRunKeepsText(s[1..], run);
        } else {
          CollapseRunKeepsText(s[1..], run + 1);
          assert ("\n" + CollapseRun(s[1..], run + 1))[1..] == CollapseRun(s[1..], run + 1);
        }
      } else {
        CollapseRunKeepsText(s[1..], 0);
        assert ([s[0]] + CollapseRun(s[1..], 0))[1..] == CollapseRun(s[1..], 0);
      }
    }
  }

  /** A slice of a string without triple newlines has none either. */
  lemma NoTripleNewlineSlice(s: string, i: nat, j: nat)
    requires i <= j <= |s| && NoTripleNewline(s)
    ensures NoTripleNewline(s[i..j])
  {
    assert forall k :: 0 <= k < j - i ==> s[i..j][k] == s[i + k];
  }

  /** Stripping a string without triple newlines leaves none. */
  lemma StripCharsNoTriple(s: string, cs: set<char>)
    requires NoTripleNewline(s)
    ensures NoTripleNewline(StripChars(s, cs))
  {
    var r := StripChars(s, cs);
    var off := StripOffset(s, cs);
    StripCharsShape(s, cs);
    NoTripleNewlineSlice(s, off, off + |r|);
  }
}
