/**
 * The packaging block of `extract_candidates_rules`: up to 600 characters
 * after the first `Packaging` label (`(Packaging\s*[:：]?\s*)([\s\S]{0,600})`,
 * case ignored) are split into lines; the first ten lines are cleaned of
 * bullets and whitespace, the scan stops at a blank line or at a line that
 * begins with a keyword of the next block, and the lines longer than two
 * characters are kept.
 */
module Packaging {
  import opened Wrappers
  import opened Text
  import opened Json
  import opened Rules

  const PackagingLabel: string := "Packaging"

  /** The longest block the pattern captures: `[\s\S]{0,600}`. */
  const MaxTail: nat := 600

  /** How many lines of the block are looked at: `tail[:10]`. */
  const MaxLines: nat := 10

  function Min(a: nat, b: nat): nat { if a <= b then a else b }

  /** Group 2 of the packaging pattern. The separator is matched greedily
      and the block may be empty, so the first occurrence of the label
      always matches, with the block starting after the longest separator
      and running for up to 600 characters. */
  function PackagingTail(text: string): (r: Option<string>)
    ensures r.None? <==> FindIgnoringCase(text, PackagingLabel, 0).None?
    ensures r.Some? ==> |r.value| <= MaxTail
    ensures r.Some? ==> var q := ValueStart(text, FindIgnoringCase(text, PackagingLabel, 0).value + |PackagingLabel|);
                        r.value == text[q..Min(q + MaxTail, |text|)]
  {
    match FindIgnoringCase(text, PackagingLabel, 0)
    case None => None
    case Some(at) =>
      var q := ValueStart(text, at + |PackagingLabel|);
      Some(text[q..Min(q + MaxTail, |text|)])
  }

  /** `m.group(2).split("\n")[:10]`. */
  function FirstLines(tail: string): (r: seq<string>)
    ensures |r| <= MaxLines && |r| <= |Split(tail, '\n')|
    ensures r == Split(tail, '\n')[..|r|]
    ensures |r| < MaxLines ==> r == Split(tail, '\n')
  {
    var lines := Split(tail, '\n');
    lines[..Min(MaxLines, |lines|)]
  }

  /** The characters `line.strip("-• \t")` removes. */
  const Bullets: set<char> := {'-', '\U{2022}', ' ', '\t'}

  /** `line.strip("-• \t").strip()`. */
  function CleanLine(line: string): string
  {
    Strip(StripChars(line, Bullets))
  }

  /** The keywords of the blocks that follow the packaging list. */
  const StopWords: seq<string> := ["Net", "Gross", "HS", "Incoterm", "B/L", "Marks"]

  /** `not line or re.search(r"^(Net|Gross|HS|Incoterm|B/L|Marks)", line, re.IGNORECASE)`. */
  predicate IsStopLine(line: string)
  {
    line == "" || exists i :: 0 <= i < |StopWords| && MatchesAt(line, StopWords[i], 0)
  }

  /** What one cleaned line adds to the list: itself when it is longer than
      two characters. */
  function Kept(line: string): (r: seq<string>)
    ensures |r| <= 1 && (r != [] <==> |line| > 2) && (r != [] ==> r[0] == line)
  {
    if |line| > 2 then [line] else []
  }

  /** The items the loop keeps from `lines`, in order. */
  function PackagingItems(lines: seq<string>): seq<string>
  {
    if lines == [] then []
    else
      var line := CleanLine(lines[0]);
      if IsStopLine(line) then [] else Kept(line) + PackagingItems(lines[1..])
  }

  /** The items of the packaging block: the loop over `tail[:10]`. */
  method SplitPackaging(tail: string) returns (items: seq<string>)
    ensures items == PackagingItems(FirstLines(tail))
  {
    var lines := FirstLines(tail);
    items := ScanLines(lines);
  }

  /** The loop body of the packaging block, with its `break`. */
  method ScanLines(lines: seq<string>) returns (items: seq<string>)
    ensures items == PackagingItems(lines)
  {
    items := [];
    var i := 0;
    while i < |lines|
      invariant 0 <= i <= |lines|
      invariant items + PackagingItems(lines[i..]) == PackagingItems(lines)
    {
      var line := CleanLine(lines[i]);
      var stop := IsStopLine(line);
      ScanStep(lines, i, items);
      if stop {
        break;
      }
      items := items + Kept(line);
      i := i + 1;
    }
  }

  /** One step of the loop: a stop line ends the list, any other line adds
      what it keeps. */
  lemma ScanStep(lines: seq<string>, i: nat, items: seq<string>)
    requires i < |lines| && items + PackagingItems(lines[i..]) == PackagingItems(lines)
    ensures IsStopLine(CleanLine(lines[i])) ==> items == PackagingItems(lines)
    ensures !IsStopLine(CleanLine(lines[i])) ==>
              (items + Kept(CleanLine(lines[i]))) + PackagingItems(lines[i + 1..]) == PackagingItems(lines)
  {
    assert lines[i..][0] == lines[i] && lines[i..][1..] == lines[i + 1..];
    var line := CleanLine(lines[i]);
    if !IsStopLine(line) {
      assert PackagingItems(lines[i..]) == Kept(line) + PackagingItems(lines[i + 1..]);
      assert (items + Kept(line)) + PackagingItems(lines[i + 1..]) == items + (Kept(line) + PackagingItems(lines[i + 1..]));
    }
  }

  /** Every kept item is stripped, longer than two characters and no stop
      line, and there are no more items than lines. */
  lemma {:induction false} PackagingItemsShape(lines: seq<string>)
    ensures |PackagingItems(lines)| <= |lines|
    ensures forall i :: 0 <= i < |PackagingItems(lines)| ==>
              var item := PackagingItems(lines)[i];
              |item| > 2 && !IsStopLine(item) && Strip(item) == item
  {
    if lines != [] {
      var line := CleanLine(lines[0]);
      StripCharsIdempotent(StripChars(lines[0], Bullets), Whitespace);
      PackagingItemsShape(lines[1..]);
    }
  }

  /** Where the scan stops: the first line that cleans to a stop line, or
      the end. */
  function StopIndex(lines: seq<string>): (r: nat)
    ensures r <= |lines|
    ensures forall j :: 0 <= j < r ==> !IsStopLine(CleanLine(lines[j]))
    ensures r < |lines| ==> IsStopLine(CleanLine(lines[r]))
  {
    if lines == [] || IsStopLine(CleanLine(lines[0])) then 0
    else
      var r := StopIndex(lines[1..]);
      assert forall j :: 1 <= j < |lines| ==> lines[j] == lines[1..][j - 1];
      1 + r
  }

  /** The cleaned lines longer than two characters, in order. */
  function LongLines(lines: seq<string>): seq<string>
  {
    if lines == [] then []
    else Kept(CleanLine(lines[0])) + LongLines(lines[1..])
  }

  /** The loop keeps the long cleaned lines before the first stop line. */
  lemma {:induction false} PackagingItemsBeforeStop(lines: seq<string>)
    ensures PackagingItems(lines) == LongLines(lines[..StopIndex(lines)])
  {
    if lines != [] && !IsStopLine(CleanLine(lines[0])) {
      PackagingItemsBeforeStop(lines[1..]);
      var k := StopIndex(lines);
      assert lines[..k][0] == lines[0];
      assert lines[..k][1..] == lines[1..][..k - 1];
    }
  }

  /** The strings of a list, as JSON. */
  function JStrs(xs: seq<string>): (r: seq<Json>)
    ensures |r| == |xs| && forall i :: 0 <= i < |xs| ==> r[i] == JStr(xs[i])
  {
    seq(|xs|, i requires 0 <= i < |xs| => JStr(xs[i]))
  }

  /** What `cargo.packaging` receives: the item list, only when it is not empty. */
  function PackagingValue(text: string): (r: Option<Json>)
    ensures r.Some? ==> r.value.JList? && r.value.items != []
    ensures r.Some? ==> forall i :: 0 <= i < |r.value.items| ==> r.value.items[i].JStr?
    ensures r.Some? ==> exists tail :: PackagingTail(text) == Some(tail) && r.value.items == JStrs(PackagingItems(FirstLines(tail)))
  {
    match PackagingTail(text)
    case None => None
    case Some(tail) =>
      var items := PackagingItems(FirstLines(tail));
      if items != [] then Some(JList(JStrs(items))) else None
  }
}
