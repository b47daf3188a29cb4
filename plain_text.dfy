/**
 * `extract_plain_text`: the document text the rule engine searches. The
 * layout tree is walked depth first; every dict contributes its stripped
 * `"Text"` string when that is a non-blank string, then its other values in
 * order; a list contributes its items in order. The pieces are joined with
 * newlines, runs of three or more newlines become two, and the result is
 * stripped.
 */
module PlainText {
  import opened Wrappers
  import opened Text
  import opened Json

  /** What a dict's `"Text"` value contributes: its stripped form, when it is
      a string that is not blank. */
  function OwnText(t: Option<Json>): (r: seq<string>)
  {
    match t
    case Some(JStr(s)) => if Strip(s) != "" then [Strip(s)] else []
    case _ => []
  }

  /** The texts `walk` appends for a node, in the order it appends them. */
  function TextsOf(j: Json): seq<string>
    decreases j, 1
  {
    match j
    case JObj(fs) => OwnText(Get(fs, "Text")) + TextsOfFields(fs)
    case JList(xs) => TextsOfItems(xs)
    case _ => []
  }

  /** The texts of a dict's values other than the one under `"Text"`, which is never walked into. */
  function TextsOfFields(fs: Dict<Json>): seq<string>
    decreases fs, 0
  {
    if fs == [] then [] else
    var last := fs[|fs| - 1];
    TextsOfFields(fs[..|fs| - 1]) + (if last.key == "Text" then [] else TextsOf(last.value))
  }

  function TextsOfItems(xs: seq<Json>): seq<string>
    decreases xs, 0
  {
    if xs == [] then [] else TextsOfItems(xs[..|xs| - 1]) + TextsOf(xs[|xs| - 1])
  }

  /** A piece that is stripped and not empty. */
  predicate Clean(t: string)
  {
    t != "" && Strip(t) == t
  }

  lemma StrippedIsClean(s: string)
    requires Strip(s) != ""
    ensures Clean(Strip(s))
  {
    StripCharsIdempotent(s, Whitespace);
  }

  lemma OwnTextClean(t: Option<Json>)
    ensures forall p :: p in OwnText(t) ==> Clean(p)
  {
    if t.Some? && t.value.JStr? && Strip(t.value.s) != "" {
      StrippedIsClean(t.value.s);
    }
  }

  /** Every collected piece is stripped and not empty. */
  lemma {:induction false} TextsOfClean(j: Json)
    ensures forall t :: t in TextsOf(j) ==> Clean(t)
    decreases j, 1
  {
    match j
    case JObj(fs) =>
      OwnTextClean(Get(fs, "Text"));
      TextsOfFieldsClean(fs);
    case JList(xs) => TextsOfItemsClean(xs);
    case _ =>
  }

  lemma {:induction false} TextsOfFieldsClean(fs: Dict<Json>)
    ensures forall t :: t in TextsOfFields(fs) ==> Clean(t)
    decreases fs, 0
  {
    if fs != [] {
      TextsOfFieldsClean(fs[..|fs| - 1]);
      if fs[|fs| - 1].key != "Text" {
        TextsOfClean(fs[|fs| - 1].value);
      }
    }
  }

  lemma {:induction false} TextsOfItemsClean(xs: seq<Json>)
    ensures forall t :: t in TextsOfItems(xs) ==> Clean(t)
    decreases xs, 0
  {
    if xs != [] {
      TextsOfItemsClean(xs[..|xs| - 1]);
      TextsOfClean(xs[|xs| - 1]);
    }
  }

  lemma {:induction false} TextsOfFieldsAppend(a: Dict<Json>, b: Dict<Json>)
    ensures TextsOfFields(a + b) == TextsOfFields(a) + TextsOfFields(b)
    decreases |b|
  {
    if b == [] {
      assert a + b == a;
    } else {
      var b' := b[..|b| - 1];
      var ab := a + b;
      assert ab[..|ab| - 1] == a + b';
      assert ab[|ab| - 1] == b[|b| - 1];
      TextsOfFieldsAppend(a, b');
      TextsOfFieldsLast(ab);
      TextsOfFieldsLast(b);
      var e := b[|b| - 1];
      AppendAssoc(TextsOfFields(a), TextsOfFields(b'), if e.key == "Text" then [] else TextsOf(e.value));
    }
  }

  lemma TextsOfFieldsLast(fs: Dict<Json>)
    requires fs != []
    ensures TextsOfFields(fs) == TextsOfFields(fs[..|fs| - 1]) + (if fs[|fs| - 1].key == "Text" then [] else TextsOf(fs[|fs| - 1].value))
  {
  }

  /** A dict's `"Text"` value is read, never walked into: whatever it holds
      (a nested dict or list with texts of its own included), it contributes
      only its own stripped string, and nothing when it is not a non-blank string. */
  lemma TextValueNotWalked(v: Json, rest: Dict<Json>)
    requires "Text" !in Keys(rest)
    ensures TextsOf(JObj([Entry("Text", v)] + rest)) == OwnText(Some(v)) + TextsOf(JObj(rest))
  {
    TextsOfFieldsAppend([Entry("Text", v)], rest);
    assert TextsOfFields([Entry("Text", v)]) == [] by {
      assert [Entry("Text", v)][..0] == [];
    }
  }

  /** `walk(node)`: appends the texts of `node` to `texts`. */
  method Walk(node: Json, texts: seq<string>) returns (out: seq<string>)
    ensures out == texts + TextsOf(node)
    decreases node, 1
  {
    match node
    case JObj(fs) =>
      var own := OwnTextOf(fs);
      out := WalkFields(fs, texts + own);
    case JList(xs) =>
      out := WalkItems(xs, texts);
    case _ =>
      out := texts;
  }

  /** The stripped `"Text"` string of a dict, when it has a non-blank one. */
  method OwnTextOf(fs: Dict<Json>) returns (own: seq<string>)
    ensures own == OwnText(Get(fs, "Text"))
  {
    own := [];
    var t := Get(fs, "Text");
    if t.Some? && t.value.JStr? {
      var s := Strip(t.value.s);
      if s != "" {
        own := [s];
      }
    }
  }

  /** The loop of `walk` over a dict's items, skipping the `"Text"` key. */
  method WalkFields(fs: Dict<Json>, texts: seq<string>) returns (out: seq<string>)
    ensures out == texts + TextsOfFields(fs)
    decreases fs, 0
  {
    out := texts;
    var i := 0;
    while i < |fs|
      invariant 0 <= i <= |fs|
      invariant out == texts + TextsOfFields(fs[..i])
    {
      TextsOfFieldsStep(fs, i);
      if fs[i].key != "Text" {
        AppendAssoc(texts, TextsOfFields(fs[..i]), TextsOf(fs[i].value));
        out := Walk(fs[i].value, out);
      }
      i := i + 1;
    }
    assert fs[..i] == fs;
  }

  lemma TextsOfFieldsStep(fs: Dict<Json>, i: nat)
    requires i < |fs|
    ensures TextsOfFields(fs[..i + 1]) == TextsOfFields(fs[..i]) + (if fs[i].key == "Text" then [] else TextsOf(fs[i].value))
  {
    assert fs[..i + 1][..i] == fs[..i];
  }

  lemma AppendAssoc<T>(a: seq<T>, b: seq<T>, c: seq<T>)
    ensures (a + b) + c == a + (b + c)
  {
  }

  /** The loop of `walk` over a list's items. */
  method WalkItems(xs: seq<Json>, texts: seq<string>) returns (out: seq<string>)
    ensures out == texts + TextsOfItems(xs)
    decreases xs, 0
  {
    out := texts;
    var i := 0;
    while i < |xs|
      invariant 0 <= i <= |xs|
      invariant out == texts + TextsOfItems(xs[..i])
    {
      TextsOfItemsStep(xs, i);
      AppendAssoc(texts, TextsOfItems(xs[..i]), TextsOf(xs[i]));
      out := Walk(xs[i], out);
      i := i + 1;
    }
    assert xs[..i] == xs;
  }

  lemma TextsOfItemsStep(xs: seq<Json>, i: nat)
    requires i < |xs|
    ensures TextsOfItems(xs[..i + 1]) == TextsOfItems(xs[..i]) + TextsOf(xs[i])
  {
    assert xs[..i + 1][..i] == xs[..i];
  }

  /** The plain text of a layout tree, as `extract_plain_text` returns it. */
  function PlainTextOf(doc: Json): string
  {
    Strip(CollapseNewlines(Join(TextsOf(doc), "\n")))
  }

  /** `extract_plain_text(adobe_json)`. */
  method ExtractPlainText(doc: Json) returns (text: string)
    ensures text == PlainTextOf(doc)
    ensures text == [] || (!IsSpace(text[0]) && !IsSpace(text[|text| - 1]))
    ensures NoTripleNewline(text)
  {
    var texts := Walk(doc, []);
    assert texts == TextsOf(doc);
    var joined := Join(texts, "\n");
    var collapsed := CollapseNewlines(joined);
    text := Strip(collapsed);
    CollapseNewlinesNoTriple(joined);
    StripCharsNoTriple(collapsed, Whitespace);
    StripCharsShape(collapsed, Whitespace);
  }
}
