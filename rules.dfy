/**
 * The label scanning shared by the rules of `extract_candidates_rules`, and
 * `find_val`. Each regular expression of the rule pass is a fixed pattern,
 * written here as a matcher that follows the backtracking order of Python's
 * `re` engine.
 */
module Rules {
  import opened Wrappers
  import opened Text

  // ---------- scanning ----------

  /** The full-width colon U+FF1A and the ASCII colon: the class `[:：]`. */
  predicate IsColon(c: char) { c == ':' || c == '\U{FF1A}' }

  /** The end of the run of whitespace starting at `i`: greedy `\s*`. */
  function SkipSpaces(s: string, i: nat): (r: nat)
    requires i <= |s|
    ensures i <= r <= |s|
    ensures forall j :: i <= j < r ==> IsSpace(s[j])
    ensures r == |s| || !IsSpace(s[r])
    decreases |s| - i
  {
    if i < |s| && IsSpace(s[i]) then SkipSpaces(s, i + 1) else i
  }

  /** The end of the line holding position `i`: where `.+` stops and a
      multi-line `$` holds. */
  function LineEnd(s: string, i: nat): (r: nat)
    requires i <= |s|
    ensures i <= r <= |s|
    ensures forall j :: i <= j < r ==> s[j] != '\n'
    ensures r == |s| || s[r] == '\n'
    decreases |s| - i
  {
    if i < |s| && s[i] != '\n' then LineEnd(s, i + 1) else i
  }

  /** The last position at or after `lo` that does not hold a newline. */
  function LastNonNewline(s: string, lo: nat): (r: Option<nat>)
    requires lo <= |s|
    ensures r.Some? ==> lo <= r.value < |s| && s[r.value] != '\n'
    ensures r.Some? ==> forall j :: r.value < j < |s| ==> s[j] == '\n'
    ensures r.None? ==> forall j :: lo <= j < |s| ==> s[j] == '\n'
    decreases |s|
  {
    if |s| == lo then None
    else if s[|s| - 1] != '\n' then Some(|s| - 1)
    else LastNonNewline(s[..|s| - 1], lo)
  }

  /** What `\s*[:：]?\s*` can match: whitespace with at most one colon among it. */
  predicate IsSeparator(t: string)
  {
    (forall i :: 0 <= i < |t| ==> IsSpace(t[i]) || IsColon(t[i]))
    && (forall i, j :: 0 <= i < j < |t| && IsColon(t[i]) ==> !IsColon(t[j]))
  }

  /** A stretch holding a character that is neither whitespace nor a colon
      is no separator. */
  lemma NotSeparatorAt(s: string, e: nat, r: nat, k: nat)
    requires e <= k < r <= |s| && !IsSpace(s[k]) && !IsColon(s[k])
    ensures !IsSeparator(s[e..r])
  {
    assert s[e..r][k - e] == s[k];
  }

  /** A stretch holding two colons is no separator. */
  lemma TwoColons(s: string, e: nat, r: nat, k1: nat, k2: nat)
    requires e <= k1 < k2 < r <= |s| && IsColon(s[k1]) && IsColon(s[k2])
    ensures !IsSeparator(s[e..r])
  {
    assert s[e..r][k1 - e] == s[k1] && s[e..r][k2 - e] == s[k2];
  }

  /** A run of whitespace is a separator. */
  lemma SpacesAreSeparator(s: string, e: nat, w: nat)
    requires e <= w <= |s| && forall j :: e <= j < w ==> IsSpace(s[j])
    ensures IsSeparator(s[e..w])
  {
    assert forall j :: e <= j < w ==> s[e..w][j - e] == s[j];
  }

  /** Whitespace, one colon, whitespace: a separator. */
  lemma SpacesColonSpaces(s: string, e: nat, w: nat, w2: nat)
    requires e <= w < w2 <= |s| && IsColon(s[w])
    requires forall j :: e <= j < w ==> IsSpace(s[j])
    requires forall j :: w < j < w2 ==> IsSpace(s[j])
    ensures IsSeparator(s[e..w2])
  {
    var t := s[e..w2];
    assert forall j :: 0 <= j < |t| ==> t[j] == s[e + j];
    assert forall j :: 0 <= j < |t| && IsColon(t[j]) ==> j == w - e;
  }

  /** Where the value after a label begins when `\s*[:：]?\s*` is matched
      greedily from `e`. */
  function ValueStart(s: string, e: nat): (r: nat)
    requires e <= |s|
    ensures e <= r <= |s|
  {
    var w := SkipSpaces(s, e);
    if w < |s| && IsColon(s[w]) then SkipSpaces(s, w + 1) else w
  }

  /** The greedy separator is the longest one: `s[e..ValueStart(s, e)]` is a
      separator and no longer stretch from `e` is. */
  lemma ValueStartIsLongestSeparator(s: string, e: nat)
    requires e <= |s|
    ensures IsSeparator(s[e..ValueStart(s, e)])
    ensures forall r' :: ValueStart(s, e) < r' <= |s| ==> !IsSeparator(s[e..r'])
  {
    var w := SkipSpaces(s, e);
    if w < |s| && IsColon(s[w]) {
      var w2 := SkipSpaces(s, w + 1);
      SpacesColonSpaces(s, e, w, w2);
      forall r' | w2 < r' <= |s|
        ensures !IsSeparator(s[e..r'])
      {
        if IsColon(s[w2]) {
          TwoColons(s, e, r', w, w2);
        } else {
          NotSeparatorAt(s, e, r', w2);
        }
      }
    } else {
      SpacesAreSeparator(s, e, w);
      forall r' | w < r' <= |s|
        ensures !IsSeparator(s[e..r'])
      {
        NotSeparatorAt(s, e, r', w);
      }
    }
  }

  // ---------- find_val ----------

  /** Where the group `(.+)` of `lbl\s*[:：]?\s*(.+)$` (multi-line mode)
      begins when the label ends at `e`, in the order the backtracking engine
      tries the alternatives; `None` when no alternative matches. The group
      then runs to the end of that line. As a consequence, a label whose
      first occurrence fails to match fails at every later occurrence too:
      after a failing occurrence nothing but newlines follows. */
  function GroupStart(s: string, e: nat): (r: Option<nat>)
    requires e <= |s|
    ensures r.Some? ==> e <= r.value < |s| && s[r.value] != '\n' && IsSeparator(s[e..r.value])
    ensures r.None? <==> forall j :: e <= j < |s| ==> s[j] == '\n'
  {
    var w := SkipSpaces(s, e);
    SpacesAreSeparator(s, e, w);
    if w < |s| then
      if IsColon(s[w]) then Some(AfterColon(s, e, w)) else Some(w)
    else
      LastNonNewline(s, e)
  }

  /** The backtracking after a colon at `w`: the value starts after the
      whitespace that follows the colon, or, when only whitespace is left, at
      the last character of it that is not a newline, or else at the colon
      itself. */
  function AfterColon(s: string, e: nat, w: nat): (r: nat)
    requires e <= w < |s| && IsColon(s[w])
    requires forall j :: e <= j < w ==> IsSpace(s[j])
    ensures w <= r < |s| && s[r] != '\n' && IsSeparator(s[e..r])
  {
    var w2 := SkipSpaces(s, w + 1);
    if w2 < |s| then
      SpacesColonSpaces(s, e, w, w2);
      w2
    else
      match LastNonNewline(s, w + 1)
      case Some(p) =>
        SpacesColonSpaces(s, e, w, p);
        p
      case None =>
        SpacesAreSeparator(s, e, w);
        w
  }

  /** Which match the engine reports: the value starts right after the
      longest separator when a character follows it; otherwise the engine has
      backtracked to a position after which there are only newlines. */
  lemma GroupStartPriority(s: string, e: nat)
    requires e <= |s|
    ensures ValueStart(s, e) < |s| ==> GroupStart(s, e) == Some(ValueStart(s, e))
    ensures ValueStart(s, e) == |s| && GroupStart(s, e).Some? ==>
      forall j :: GroupStart(s, e).value < j < |s| ==> s[j] == '\n'
  {
    var w := SkipSpaces(s, e);
    if w < |s| && IsColon(s[w]) {
      var w2 := SkipSpaces(s, w + 1);
      if w2 == |s| {
        assert forall j :: w < j < |s| ==> IsSpace(s[j]);
      }
    }
  }

  /** `re.split(r"\s{2,}|$|\n", v)` cuts at `i`: a run of two whitespace
      characters, a newline or the end of the string starts there. */
  predicate CutsAt(v: string, i: nat)
  {
    i == |v| || (i < |v| && v[i] == '\n') || (i + 1 < |v| && IsSpace(v[i]) && IsSpace(v[i + 1]))
  }

  function CutFrom(v: string, i: nat): (r: nat)
    requires i <= |v|
    ensures i <= r <= |v| && CutsAt(v, r)
    ensures forall j :: i <= j < r ==> !CutsAt(v, j)
    decreases |v| - i
  {
    if CutsAt(v, i) then i else CutFrom(v, i + 1)
  }

  /** `re.split(r"\s{2,}|$|\n", v)[0]`: `v` up to the leftmost cut. */
  function FirstPiece(v: string): (r: string)
    ensures |r| <= |v| && r == v[..|r|]
    ensures CutsAt(v, |r|)
    ensures forall j :: 0 <= j < |r| ==> !CutsAt(v, j)
  {
    v[..CutFrom(v, 0)]
  }

  predicate OneLine(v: string)
  {
    forall i :: 0 <= i < |v| ==> v[i] != '\n'
  }

  predicate NoDoubleSpace(v: string)
  {
    forall i :: 0 <= i < |v| - 1 ==> !(IsSpace(v[i]) && IsSpace(v[i + 1]))
  }

  lemma FirstPieceShape(v: string)
    ensures OneLine(FirstPiece(v)) && NoDoubleSpace(FirstPiece(v))
  {
    var r := FirstPiece(v);
    forall j | 0 <= j < |r|
      ensures r[j] == v[j] && !CutsAt(v, j)
    {
    }
  }

  /** A slice keeps both properties. */
  lemma SliceShape(v: string, i: nat, j: nat)
    requires i <= j <= |v| && OneLine(v) && NoDoubleSpace(v)
    ensures OneLine(v[i..j]) && NoDoubleSpace(v[i..j])
  {
    assert forall k :: 0 <= k < j - i ==> v[i..j][k] == v[i + k];
  }

  /** `m.group(1).strip()`, cut at the first `re.split` separator, stripped again. */
  function CleanValue(g: string): string
  {
    Strip(FirstPiece(Strip(g)))
  }

  /** A cleaned value is one stripped line without a run of two whitespace characters. */
  lemma CleanValueShape(g: string)
    ensures OneLine(CleanValue(g)) && NoDoubleSpace(CleanValue(g))
    ensures Strip(CleanValue(g)) == CleanValue(g)
  {
    var piece := FirstPiece(Strip(g));
    FirstPieceShape(Strip(g));
    StripCharsShape(piece, Whitespace);
    var off := StripOffset(piece, Whitespace);
    SliceShape(piece, off, off + |CleanValue(g)|);
    StripCharsIdempotent(piece, Whitespace);
  }

  predicate IsDash(c: char) { c == '-' || c == '\U{2013}' || c == '\U{2014}' }

  /** `re.fullmatch(r"[\-–—]+", v)`: made only of hyphens, en and em dashes. */
  predicate AllDashes(v: string)
  {
    v != [] && forall i :: 0 <= i < |v| ==> IsDash(v[i])
  }

  /** What `find_val` can return. */
  predicate IsFieldValue(v: string)
  {
    v != "" && !AllDashes(v) && OneLine(v) && NoDoubleSpace(v) && Strip(v) == v
  }

  /** The value one label yields: the search stops at the first occurrence
      of the label in the text (`GroupStart` explains why a later occurrence
      cannot match when the first does not), and a blank or all-dash value
      counts as none. */
  function LabelValue(text: string, lbl: string): (r: Option<string>)
    ensures r.Some? ==> IsFieldValue(r.value)
  {
    match FindIgnoringCase(text, lbl, 0)
    case None => None
    case Some(at) =>
      match GroupStart(text, at + |lbl|)
      case None => None
      case Some(q) =>
        var v := CleanValue(text[q..LineEnd(text, q)]);
        CleanValueShape(text[q..LineEnd(text, q)]);
        if v != "" && !AllDashes(v) then Some(v) else None
  }

  /** Why only the first occurrence of a label matters: a later occurrence
      of a label without newlines leaves a character other than a newline
      after the first one, so the pattern matches at the first one. */
  lemma LaterOccurrenceMeansMatch(text: string, lbl: string, at: nat, a: nat)
    requires lbl != "" && '\n' !in lbl
    requires at < a && MatchesAt(text, lbl, a)
    ensures GroupStart(text, at + |lbl|).Some?
  {
    var k := a + |lbl| - 1;
    assert text[a..a + |lbl|][|lbl| - 1] == text[k];
    assert lbl[|lbl| - 1] != '\n';
    assert text[k] != '\n';
  }

  function LabelValues(text: string, labels: seq<string>): (r: seq<Option<string>>)
    ensures |r| == |labels| && forall i :: 0 <= i < |labels| ==> r[i] == LabelValue(text, labels[i])
  {
    seq(|labels|, i requires 0 <= i < |labels| => LabelValue(text, labels[i]))
  }

  /** `find_val(label_variants)`: the value of the first label, in list
      order, that yields one. */
  function FindVal(text: string, labels: seq<string>): (r: Option<string>)
    ensures r.Some? ==> IsFieldValue(r.value)
    ensures r.None? <==> forall i :: 0 <= i < |labels| ==> LabelValue(text, labels[i]).None?
    ensures r.Some? ==> exists i :: 0 <= i < |labels| && LabelValue(text, labels[i]) == r
                                    && forall j :: 0 <= j < i ==> LabelValue(text, labels[j]).None?
  {
    FirstSome(LabelValues(text, labels))
  }
}
