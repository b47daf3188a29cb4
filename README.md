# Shipping-document normaliser: the rule-based core

`ai_normalizer.py` turns the layout tree of a shipping document (the JSON
that a PDF extraction service produces) into the fields of a fixed
document schema, with a confidence per field. This project models the
deterministic half of that program and proves what it does:

- **Plain text** (`PlainText`). `extract_plain_text` walks the layout tree
  depth first. It collects the stripped `"Text"` strings and joins them with
  newlines. Runs of three or more newlines become two, and the result is
  stripped.
- **Rules** (`Rules`, `Weights`, `Packaging`, `Candidates`).
  `extract_candidates_rules` runs three kinds of rule over that text:
  - `find_val`: a case-insensitive label search, with the value cut at the
    end of the line or at a double space;
  - `find_weight`: a `<number> kg` search with the European rewrite of the
    number;
  - the packaging block.

  The results go into a dict under dotted `section.field` keys, and the
  absent ones are filtered out.
- **Dates** (`Dates`). `_date_fmt` rewrites day-first dates as `yyyy-mm-dd`.
- **Nested dicts** (`Paths`, `Merge`):
  - `merge_dict_path` writes a value at a dotted path;
  - `flatten` turns nested dicts into one dict from dotted paths to leaves;
  - `deep_merge` merges one nested dict into another.
- **Confidence** (`Scoring`). This is the part of `main` that ties these
  together:
  - rule hits get 0.95;
  - the language model's answer is merged in;
  - every flattened target key without a confidence gets 0.75;
  - the confidence map is popped again by `validate_and_score`.

Shared pieces:

- `Text` holds the Python string operations used throughout. These are
  `strip`, `split`, `join`, ASCII case-insensitive literal search and the
  newline collapse.
- `Json` holds JSON values and the Python dict operations on them. A dict
  is an ordered list of entries, since Python dicts keep insertion order.
  `Get`, `Set`, `Remove` and `Assign` are `d.get(k)`, `d[k] = v`,
  `d.pop(k)` and a run of assignments (a dict display, `update`).
- `Schema` defines `TARGET_KEYS`.
- `Wrappers` holds `Option` and `Result`.

Each fixed regular expression of the program is written as a matcher that
follows the backtracking order of Python's `re` engine. Comments in
`rules.dfy` and `weights.dfy` explain, case by case, which match the engine
reports.

Where the program changes state step by step, the model does too:

- `walk`'s appends: `Walk`, `WalkFields`, `WalkItems`.
- The packaging loop with its `break`: `ScanLines`.
- `merge_dict_path`'s descending cursor: `MergeDictPath`.
- `flatten`'s loop: `FlattenDict`.
- `deep_merge`'s loop and recursion: `DeepMerge`.
- The loops of `main`: `MergeHits` and `FillConfidence`.

Each of these is a method proved equal to a function of its inputs. The
properties are then proved about that function.

There are only two confidences, 0.95 for a rule hit (ai_normalizer.py:272)
and 0.75 for a filled key (ai_normalizer.py:288), and `deep_merge`
overwrites unconditionally (ai_normalizer.py:281).

Python's `float` values are exact decimals here. `JNum(m, s)` is
`m / 10^s`, so the confidences are `JNum(95, 2)` and `JNum(75, 2)`, and a
weight keeps the digits and the scale of its numeral.

## Model

A row whose third column begins with *definition* names the function that
models the cited lines; what it means is stated by the lemmas and methods in
the rows that name it. Every other row states a proved property.

| member | source | states |
|---|---|---|
| Text.SpaceChar | ai_normalizer.py:93-94 | definition: the characters `str.isspace()` accepts, which `strip()` removes and `\s` matches |
| Text.TrimEnd | ai_normalizer.py:154 | definition: dropping the trailing characters of a set (`TrimEndShape`) |
| Text.StripChars | ai_normalizer.py:154 | definition: `s.strip(chars)`, the leading then the trailing characters of `chars` dropped (`StripCharsShape`, `StripCharsIdempotent`) |
| Text.Strip | ai_normalizer.py:93-94 | definition: `s.strip()`, `StripChars` over the whitespace |
| Text.TrimStartShape | ai_normalizer.py:154 | stripping leading characters leaves a suffix that does not begin with one of them, and every dropped character is one |
| Text.TrimEndShape | ai_normalizer.py:154 | stripping trailing characters leaves a prefix that does not end with one of them, and every dropped character is one |
| Text.StripCharsShape | ai_normalizer.py:154 | `s.strip(chars)` is the slice of `s` between the leading and trailing characters of `chars`; it neither starts nor ends with one |
| Text.StripCharsNoop | ai_normalizer.py:93-94 | a string that neither starts nor ends with a stripped character is left alone |
| Text.StripCharsIdempotent | ai_normalizer.py:154 | stripping twice is stripping once |
| Text.FindIgnoringCase | ai_normalizer.py:109-110 | the search for a literal label with `re.IGNORECASE` reports the leftmost position where it matches, and `None` exactly when it matches nowhere |
| Text.IndexOf | ai_normalizer.py:232 | the first position of the separator, or `None` when it does not occur |
| Text.IndexOfFirst | ai_normalizer.py:232 | a position holding the separator with none before it is the one found |
| Text.Split | ai_normalizer.py:232 | `s.split(sep)` has at least one part and no part holds the separator |
| Text.Join | ai_normalizer.py:104 | definition: `sep.join(parts)`, the partner of `Split` in `JoinSplit` |
| Text.CountChar | ai_normalizer.py:232 | definition: the occurrences of a character (`SplitCount`, `CountCharZero`) |
| Text.JoinSplit | ai_normalizer.py:232 | joining the parts of `s.split(sep)` with `sep` gives `s` back |
| Text.SplitCount | ai_normalizer.py:232 | a string with `n` separators splits into `n + 1` parts |
| Text.SplitTwo | ai_normalizer.py:249 | `a + "." + b` splits into `[a, b]` when neither holds a dot |
| Text.CountCharZero | ai_normalizer.py:232 | a character occurs zero times exactly when it is absent |
| Text.CollapseRun | ai_normalizer.py:104 | definition: the newline collapse scanning left to right, keeping at most two newlines of each run, given the length of the run before it |
| Text.CollapseNewlines | ai_normalizer.py:104 | definition: `re.sub(r"\n{3,}", "\n\n", s)`, each run of three or more newlines replaced by two (`CollapseNewlinesNoTriple`, `CollapseNewlinesFixed`, `CollapseRunKeepsText`) |
| Text.CollapseRunShape | ai_normalizer.py:104 | the newline collapse, started after a run of up to two newlines, leaves no triple newline, counting the run before it |
| Text.CollapseRunFixed | ai_normalizer.py:104 | the collapse leaves text alone when no run, counting the one before it, reaches three newlines |
| Text.CollapseNewlinesNoTriple | ai_normalizer.py:104 | after `re.sub(r"\n{3,}", "\n\n", s)` there is no run of three newlines |
| Text.CollapseNewlinesFixed | ai_normalizer.py:104 | text without a run of three newlines is left unchanged |
| Text.CollapseNewlinesIdempotent | ai_normalizer.py:104 | collapsing twice is collapsing once |
| Text.CollapseRunKeepsText | ai_normalizer.py:104 | the collapse removes newlines only; every other character stays, in order |
| Text.StripCharsNoTriple | ai_normalizer.py:104 | stripping text without a triple newline leaves none |
| Json.Get | ai_normalizer.py:92 | `d.get(k)` is `None` exactly when `k` is not a key, else a value stored under `k` |
| Json.GetAt | ai_normalizer.py:92 | in a dict with distinct keys, `d.get(k)` is the value of the entry with key `k` |
| Json.Set | ai_normalizer.py:238 | after `d[k] = v`, `k` holds `v` and every other key holds what it held |
| Json.SetKeys | ai_normalizer.py:238 | `d[k] = v` keeps the key order and appends a new key at the end |
| Json.SetEntries | ai_normalizer.py:238 | every entry after `d[k] = v` was in `d` or is the new one |
| Json.SetAppends | ai_normalizer.py:278 | `d[k] = v` for a new key appends the entry |
| Json.SetAppendsAt | ai_normalizer.py:238 | `d[k] = v` with `k` absent from every entry gives `d` with the entry appended |
| Json.SetDistinct | ai_normalizer.py:238 | `d[k] = v` keeps the keys distinct |
| Json.SetSame | ai_normalizer.py:238 | writing back the value a key holds changes nothing |
| Json.GetSnoc | ai_normalizer.py:270 | lookup in a dict with one more entry at the end: the old value if the key was there, else the new entry's |
| Json.Remove | ai_normalizer.py:241 | after `d.pop(k)`, `k` is absent, every other key holds what it held, and a dict without `k` is unchanged |
| Json.Assign | ai_normalizer.py:251 | definition: a run of assignments `d[k] = v`, as `update` and a dict display perform them (`AssignGetAll`, `AssignKeys`, `Paths.AssignGetLast`) |
| Json.AssignAppend | ai_normalizer.py:251 | assigning `a + b` is assigning `a`, then `b` |
| Json.AssignDistinct | ai_normalizer.py:251 | `d.update(es)` keeps the keys distinct |
| Json.AssignKeys | ai_normalizer.py:251 | every key after `d.update(es)` was in `d` or is a key of `es` |
| Json.AssignGetAll | ai_normalizer.py:129-140 | when every entry for `k` carries `v`, assigning them leaves `v` under `k`, or the old value when there is none |
| Json.FieldWellFormed | ai_normalizer.py:264 | a value inside a well-formed dict is well formed |
| Json.WellFormed | ai_normalizer.py:264 | definition: distinct keys in every dict, at every level, as every dict `json.load` returns has |
| Json.LookupPath | ai_normalizer.py:237 | definition: reading `d[k1][k2]...` through nested dicts, `None` where a key is missing or a value is no dict; the results of `merge_dict_path` and `deep_merge` are stated with it |
| Schema.Key | ai_normalizer.py:220-229 | definition: the dotted key `section.field` |
| Schema.SectionKeys | ai_normalizer.py:220-229 | definition: the keys of one section line of `TARGET_KEYS`; `TargetKeys` is their union over the eight sections (`TargetKeysShape`) |
| Schema.IsSectionKey | ai_normalizer.py:232 | definition: one dot after a non-empty section name, the shape `split(".")` turns into a section and a field (`KeyParts`, `Paths.SectionKeySplit`) |
| Schema.KeyParts | ai_normalizer.py:220-229 | `section.field` splits back into section and field, and has exactly one dot |
| Schema.SectionKeysShape | ai_normalizer.py:220-229 | every key of a section line has one dot after a non-empty section name |
| Schema.TargetKeysShape | ai_normalizer.py:220-229 | every target key has exactly one dot, after a non-empty section name |
| PlainText.OwnText | ai_normalizer.py:92-94 | definition: a dict's own contribution, the stripped `"Text"` string when it is a non-blank string |
| PlainText.TextsOf | ai_normalizer.py:90-101 | definition: the pieces `walk` appends, in depth-first order: a dict's own text, then its other values; a list's items; nothing for any other value (`TextsOfClean`, `Walk`) |
| PlainText.TextsOfFields | ai_normalizer.py:95-98 | definition: the pieces of a dict's values, skipping the one under `"Text"` (`TextsOfFieldsAppend`, `WalkFields`) |
| PlainText.TextsOfItems | ai_normalizer.py:99-101 | definition: the pieces of a list's items (`WalkItems`) |
| PlainText.PlainTextOf | ai_normalizer.py:104 | definition: the pieces joined with newlines, collapsed and stripped (`ExtractPlainText`) |
| PlainText.StrippedIsClean | ai_normalizer.py:93-94 | a non-blank stripped string is stripped and not empty |
| PlainText.OwnTextClean | ai_normalizer.py:92-94 | a dict's own `"Text"` contributes only stripped, non-empty strings |
| PlainText.TextsOfClean | ai_normalizer.py:90-101 | every piece the walk collects is stripped and not empty |
| PlainText.TextsOfFieldsClean | ai_normalizer.py:95-98 | the same for the values of a dict |
| PlainText.TextsOfItemsClean | ai_normalizer.py:99-101 | the same for the items of a list |
| PlainText.TextsOfFieldsAppend | ai_normalizer.py:95-98 | the pieces of a dict's values are those of its first entries followed by those of the rest, in order |
| PlainText.TextValueNotWalked | ai_normalizer.py:92-97 | a `"Text"` value is never walked into: whatever it holds, it contributes only its own stripped string, and nothing when that is blank or not a string |
| PlainText.Walk | ai_normalizer.py:90-101 | `walk(node)` appends exactly the pieces of `node`, in depth-first order |
| PlainText.OwnTextOf | ai_normalizer.py:92-94 | the stripped `"Text"` string of a dict, when it is a non-blank string |
| PlainText.WalkFields | ai_normalizer.py:95-98 | the loop over a dict's items appends the pieces of every value except the one under `"Text"` |
| PlainText.WalkItems | ai_normalizer.py:99-101 | the loop over a list appends the pieces of every item, in order |
| PlainText.ExtractPlainText | ai_normalizer.py:87-104 | the plain text is the joined, collapsed and stripped pieces; it has no leading or trailing whitespace and no run of three newlines |
| Dates.IsDayFirst | ai_normalizer.py:48 | definition: the whole string matches `(\d{2})[./-](\d{2})[./-](\d{4})$` (`DateFmt`, `IsoIsNotDayFirst`) |
| Dates.IsIso | ai_normalizer.py:52 | definition: the whole string matches `(\d{4})-(\d{2})-(\d{2})$` (`DateFmtKeepsIso`) |
| Dates.DateFmt | ai_normalizer.py:45-54 | `None` stays `None`; a value whose stripped form is a day-first date becomes the ISO date with the same fields; any other value comes back unchanged |
| Dates.IsoIsNotDayFirst | ai_normalizer.py:48-52 | no string is both a day-first and an ISO date |
| Dates.IsoIsStripped | ai_normalizer.py:52 | an ISO date has no surrounding whitespace |
| Dates.DateFmtKeepsIso | ai_normalizer.py:52-53 | a value whose stripped form is already ISO comes back unchanged, whitespace included |
| Dates.DateFmtIdempotent | ai_normalizer.py:45-54 | normalising twice is normalising once |
| Dates.DateFmtExample | ai_normalizer.py:48-51 | example, for documentation: `"05.03.2024"` becomes `"2024-03-05"` |
| Dates.DateFmtPaddedExample | ai_normalizer.py:48-51 | example, for documentation: `" 05/03-2024\n"` becomes `"2024-03-05"`, stripped first, separators mixed |
| Rules.SkipSpaces | ai_normalizer.py:109 | greedy `\s*` stops at the first non-whitespace character |
| Rules.LineEnd | ai_normalizer.py:109 | `.+` runs to the next newline or the end, where multi-line `$` holds |
| Rules.LastNonNewline | ai_normalizer.py:109 | the last position that does not hold a newline; after it there are only newlines |
| Rules.ValueStart | ai_normalizer.py:109 | the greedy match of `\s*[:：]?\s*` after the label ends at or after the label and within the text |
| Rules.IsSeparator | ai_normalizer.py:109 | definition: what `\s*[:：]?\s*` can match, whitespace with at most one colon (`ValueStartIsLongestSeparator`) |
| Rules.NotSeparatorAt | ai_normalizer.py:109 | a stretch holding a character that is neither whitespace nor a colon does not match `\s*[:：]?\s*` |
| Rules.TwoColons | ai_normalizer.py:109 | a stretch with two colons does not match `\s*[:：]?\s*` |
| Rules.SpacesAreSeparator | ai_normalizer.py:109 | a run of whitespace matches `\s*[:：]?\s*` |
| Rules.SpacesColonSpaces | ai_normalizer.py:109 | whitespace, one colon, whitespace matches `\s*[:：]?\s*` |
| Rules.ValueStartIsLongestSeparator | ai_normalizer.py:109 | the greedy separator is a separator and no longer stretch is |
| Rules.GroupStart | ai_normalizer.py:109-112 | where `(.+)` begins after the label: a non-newline after a separator, and `None` exactly when only newlines follow |
| Rules.AfterColon | ai_normalizer.py:109 | the backtracking after a colon lands on a non-newline character after a separator |
| Rules.GroupStartPriority | ai_normalizer.py:109-112 | the group starts right after the longest separator when a character follows it; otherwise only newlines follow the group's start |
| Rules.CutsAt | ai_normalizer.py:113 | definition: the places where the split pattern matches: two whitespace characters, a newline, or the end |
| Rules.CutFrom | ai_normalizer.py:113 | the leftmost place at or after a position where the split pattern cuts: a run of two whitespace characters, a newline, or the end |
| Rules.FirstPiece | ai_normalizer.py:113 | `re.split(...)[0]` is the prefix up to the leftmost cut |
| Rules.FirstPieceShape | ai_normalizer.py:113 | that piece holds no newline and no run of two whitespace characters |
| Rules.SliceShape | ai_normalizer.py:113 | slicing keeps both properties |
| Rules.CleanValue | ai_normalizer.py:112-113 | definition: the group stripped, cut at the first piece of the split, stripped again |
| Rules.CleanValueShape | ai_normalizer.py:112-113 | the cleaned value is one stripped line without a double space |
| Rules.AllDashes | ai_normalizer.py:114 | definition: `re.fullmatch(r"[\-–—]+", v)`, a non-empty run of hyphens, en and em dashes |
| Rules.IsFieldValue | ai_normalizer.py:114 | definition: what `find_val` may return: non-empty, not all dashes, one stripped line without a double space (`LabelValue`, `FindVal`) |
| Rules.LabelValue | ai_normalizer.py:108-115 | what one label yields is non-empty, not all dashes, one line, without a double space and stripped |
| Rules.LaterOccurrenceMeansMatch | ai_normalizer.py:109-110 | when a label occurs again later, the pattern matches at its first occurrence, so only the first occurrence matters |
| Rules.LabelValues | ai_normalizer.py:108 | definition: each label's result in list order; `FindVal` states what the search returns |
| Rules.FindVal | ai_normalizer.py:107-116 | the value of the first label, in list order, that yields one; `None` exactly when none does; every value satisfies the field-value shape |
| Weights.NumeralEnd | ai_normalizer.py:120 | greedy `[\d.,]+` runs to the first character outside the class |
| Weights.WeightAt | ai_normalizer.py:120 | the number captured after a pattern is a non-empty run of digits, dots and commas |
| Weights.WeightAtComplete | ai_normalizer.py:120 | the capture is unique: every way the rest of the weight pattern (separator, numeral run, whitespace, `kg`) matches after the label captures the number `WeightAt` returns, so `None` means it matches nowhere there |
| Weights.WeightCandidates | ai_normalizer.py:120 | definition: what each start position yields; `WeightMatch` states the leftmost one |
| Weights.WeightMatch | ai_normalizer.py:120 | `re.search` returns the number at the leftmost position where the whole weight pattern matches |
| Weights.Rewrite | ai_normalizer.py:122 | definition: `num.replace(".", "").replace(",", ".")`, character by character (`RewriteShape`, `EuropeanRewrite`, `RewriteMarks`) |
| Weights.RewriteShape | ai_normalizer.py:122 | after the rewrite no comma is left, there is one dot per original comma, the digits stay in order, and a numeral becomes digits and dots |
| Weights.DigitsAppend | ai_normalizer.py:122 | the digits of a concatenation are the digits of its parts |
| Weights.DigitsOfDigits | ai_normalizer.py:122 | a string of digits is its own digits |
| Weights.Value | ai_normalizer.py:124 | definition: the value of a string of decimal digits, the mantissa `float()` reads (`ParseNumberSucceeds`, `EuropeanNumber`) |
| Weights.ParseNumber | ai_normalizer.py:124 | `float(num)` on the rewritten numeral gives a number, or nothing when it raises |
| Weights.ParseNumberSucceeds | ai_normalizer.py:122-126 | on digits and dots, conversion succeeds exactly when there is at most one dot and at least one digit, and the mantissa is the digits' value |
| Weights.OneDotSplit | ai_normalizer.py:124 | splitting at the first dot: the digits before it, and the rest after it |
| Weights.DotSplit | ai_normalizer.py:124 | cutting out a dot splits the dot count and the digits |
| Weights.PatternWeight | ai_normalizer.py:119-126 | one pattern yields a number or nothing |
| Weights.PatternWeightConverts | ai_normalizer.py:120-126 | a pattern's match converts exactly when the numeral has at most one comma and a digit; the mantissa is the value of its digits |
| Weights.PatternWeights | ai_normalizer.py:119 | definition: each pattern's result in list order; `FindWeight` states the first one that converts |
| Weights.FindWeight | ai_normalizer.py:118-127 | the weight of the first pattern that yields one; `None` exactly when every pattern fails |
| Weights.RewriteAppend | ai_normalizer.py:122 | the rewrite works piecewise |
| Weights.RewriteDigits | ai_normalizer.py:122 | digits are left alone by the rewrite |
| Weights.EuropeanNumber | ai_normalizer.py:122-124 | `a.b,c` with digit groups becomes `ab.c`, the number with all the digits as mantissa and `len(c)` as scale (`1.234,50` is 1234.50) |
| Weights.EuropeanRewrite | ai_normalizer.py:122 | the rewrite turns `a.b,c` into `ab.c` for groups of digits |
| Weights.RewriteMarks | ai_normalizer.py:122 | a dot is dropped and a comma becomes a dot |
| Weights.ParseDecimal | ai_normalizer.py:124 | digits, a dot, digits convert to the number with all the digits as mantissa |
| Packaging.PackagingTail | ai_normalizer.py:149 | the block exists exactly when the label occurs; it is at most 600 characters, starting after the longest separator that follows the first occurrence |
| Packaging.FirstLines | ai_normalizer.py:151-153 | at most ten lines are examined, the first ones of the block |
| Packaging.CleanLine | ai_normalizer.py:154 | definition: `line.strip("-• \t").strip()` |
| Packaging.IsStopLine | ai_normalizer.py:155 | definition: an empty cleaned line, or one that begins, case ignored, with `Net`, `Gross`, `HS`, `Incoterm`, `B/L` or `Marks` |
| Packaging.Kept | ai_normalizer.py:157-158 | definition: `len(line) > 2`, as a list of zero or one items; `ScanStep` and `PackagingItemsShape` use it |
| Packaging.PackagingItems | ai_normalizer.py:153-158 | definition: the cleaned lines longer than two characters, up to the first stop line (`ScanLines`, `PackagingItemsShape`, `PackagingItemsBeforeStop`) |
| Packaging.SplitPackaging | ai_normalizer.py:151-158 | the loop over the first ten lines yields the packaging items |
| Packaging.ScanLines | ai_normalizer.py:153-158 | the loop with its `break` keeps the long cleaned lines until a stop line |
| Packaging.ScanStep | ai_normalizer.py:154-158 | a stop line ends the list; any other line adds what it keeps |
| Packaging.PackagingItemsShape | ai_normalizer.py:153-158 | there are no more items than lines, and each item is stripped, longer than two characters and no stop line |
| Packaging.StopIndex | ai_normalizer.py:155-156 | the first line that cleans to an empty line or begins with a stop keyword, or the end |
| Packaging.LongLines | ai_normalizer.py:157-158 | definition: the cleaned lines longer than two characters, with no stop; the independent reference for `PackagingItemsBeforeStop` |
| Packaging.PackagingItemsBeforeStop | ai_normalizer.py:153-158 | the items are exactly the long cleaned lines before the first stop line |
| Packaging.JStrs | ai_normalizer.py:160 | definition: the items as JSON strings; `PackagingValue` states the result |
| Packaging.PackagingValue | ai_normalizer.py:149-160 | `cargo.packaging` is set only to a non-empty list of strings, the items of the block |
| Candidates.Present | ai_normalizer.py:169 | the filtered dict holds only present values, each under its key |
| Candidates.PresentGet | ai_normalizer.py:169 | the filter keeps exactly the present values, under their keys |
| Candidates.PresentDistinct | ai_normalizer.py:169 | the filter keeps the keys distinct |
| Candidates.Entries | ai_normalizer.py:129-140 | definition: the entries of the dict display; `EntriesGet` and `EntriesOther` state what they assign |
| Candidates.Conditional | ai_normalizer.py:145-167 | the conditional assignments are the present values, under their keys |
| Candidates.DistinctTail | ai_normalizer.py:129-167 | the rest of a list of distinct keys is distinct and lacks the first key |
| Candidates.EntriesGet | ai_normalizer.py:129-140 | after the display each of its keys holds its value |
| Candidates.EntriesOther | ai_normalizer.py:129-140 | the display leaves every other key alone |
| Candidates.ConditionalGet | ai_normalizer.py:145-167 | after `if v: candidates[k] = v`, `k` holds `v` when present and what it held otherwise |
| Candidates.ConditionalOther | ai_normalizer.py:145-167 | the conditional assignments leave every other key alone |
| Candidates.StrValue | ai_normalizer.py:130 | definition: a found string as a JSON string, `None` as `None` |
| Candidates.RuleValues | ai_normalizer.py:129-167 | definition: every rule's result in assignment order; `RuleHitsGet` states where they end up |
| Candidates.RuleValue | ai_normalizer.py:130-167 | definition: what one rule yields: `find_val` as a JSON string, `find_weight` as a number, the packaging list (`RuleValueLeaf`) |
| Candidates.Assigned | ai_normalizer.py:129-167 | definition: the dict display over the first keys, then the `if v:` assignments of the rest (`AssignedGet`, `AssignedOther`, `AssignedDistinct`) |
| Candidates.CandidatesOf | ai_normalizer.py:129-167 | definition: `candidates` just before the filter, the ten display keys and the two weights unconditional, the last four conditional |
| Candidates.HitsOf | ai_normalizer.py:169 | definition: the `is not None` filter of `candidates` (`HitsOfGet`, `HitsOfEntries`) |
| Candidates.RuleHits | ai_normalizer.py:106-169 | definition: what `extract_candidates_rules` returns for the text (`RuleHitsShape`, `RuleHitsGet`) |
| Candidates.CandidateKeysDistinct | ai_normalizer.py:129-167 | the sixteen keys the function assigns are different from each other |
| Candidates.CandidateKeysAreTargets | ai_normalizer.py:130-167 | every key the function assigns is a target key |
| Candidates.AssignedDistinct | ai_normalizer.py:129-167 | display plus conditional assignments give distinct keys |
| Candidates.AssignedGet | ai_normalizer.py:129-167 | each key holds its value, past the display only when present |
| Candidates.AssignedOther | ai_normalizer.py:129-167 | no other key is present |
| Candidates.HitsOfGet | ai_normalizer.py:129-169 | the result holds each rule's result under its key when present, nothing under any other key, and has distinct keys |
| Candidates.HitsOfEntries | ai_normalizer.py:129-169 | every entry of the result is some rule's result under that rule's key |
| Candidates.RuleValueLeaf | ai_normalizer.py:129-167 | every result is a string, a number or a non-empty list of strings, never a dict or null; a label rule yields a field-value string and a weight rule a number |
| Candidates.RuleValuesLeaves | ai_normalizer.py:129-167 | every rule result is such a leaf |
| Candidates.RuleHitsShape | ai_normalizer.py:106-169 | the returned dict has distinct target keys, each holding a leaf and never `None` |
| Candidates.RuleHitsGet | ai_normalizer.py:106-169 | each key holds its rule's result when that rule found something, and is absent otherwise |
| Paths.SetPath | ai_normalizer.py:231-238 | definition: `merge_dict_path` on values: the last key set to the value, every key before it set to the updated dict below (`MergeDictPath`, `SetPathLookup`, `SetPathOther`, `SetPathReplaces`) |
| Paths.IsDictAt | ai_normalizer.py:235 | definition: the key is present and holds a dict |
| Paths.ChildDict | ai_normalizer.py:235-237 | definition: the cursor step of lines 235-237, the dict under the key or a fresh `{}`; `SetPathReplaces` states the replacement |
| Paths.MergeDictPath | ai_normalizer.py:231-238 | the loop down the path and the writes back give the dict with the value written at the split path |
| Paths.SetPathLookup | ai_normalizer.py:231-238 | after `merge_dict_path(out, k, v)`, looking up the path of `k` gives `v` |
| Paths.SetPathOther | ai_normalizer.py:231-238 | a path that leaves the written one keeps its value |
| Paths.SetPathReplaces | ai_normalizer.py:235-236 | a missing or non-dict value on the way is replaced by a dict holding only the rest of the path |
| Paths.SetPathDistinct | ai_normalizer.py:231-238 | the write keeps the keys distinct |
| Paths.JoinPath | ai_normalizer.py:249 | definition: `f"{prefix}.{k}" if prefix else k` |
| Paths.Flatten | ai_normalizer.py:245-254 | definition: `flatten(d, prefix)`, `{}` for a non-dict (`FlattenDict`, `FlattenGet`, `FlattenDistinct`) |
| Paths.FlattenFields | ai_normalizer.py:248-253 | definition: the loop of `flatten` as a fold of `update` and single writes (`FlattenFieldsGet`) |
| Paths.Leaves | ai_normalizer.py:245-254 | definition: the independent reference for `flatten`, the list of every path and non-dict value in depth-first order, repeats kept (`FlattenGet`) |
| Paths.FieldLeaves | ai_normalizer.py:248-253 | definition: the same for a dict's entries |
| Paths.FlattenDict | ai_normalizer.py:245-254 | `flatten`'s loop and recursion compute the flattened dict |
| Paths.LastValue | ai_normalizer.py:251-253 | the last value under a key is `None` exactly when the key is absent |
| Paths.LastValueAppend | ai_normalizer.py:251-253 | the last value of `a + b` is that of `b`, else that of `a` |
| Paths.AssignGetLast | ai_normalizer.py:251 | after `out.update(es)`, a key holds the last value assigned to it, or what it held before |
| Paths.LastValueDistinct | ai_normalizer.py:251 | in a dict the first and last values under a key are the same |
| Paths.LastAt | ai_normalizer.py:251 | in a dict the last value under an entry's key is the entry's value |
| Paths.FlattenDistinct | ai_normalizer.py:245-254 | `flatten`'s result has distinct keys |
| Paths.FlattenFieldsDistinct | ai_normalizer.py:248-253 | the same after each step of the loop |
| Paths.FlattenGet | ai_normalizer.py:245-254 | every path of `flatten(d, prefix)` holds the last leaf with that path in depth-first order; a path without a leaf is absent |
| Paths.FlattenFieldsGet | ai_normalizer.py:248-253 | the same for the loop over a dict's entries |
| Paths.BuildPartial | ai_normalizer.py:269-271 | definition: `partial` after the `merge_dict_path` loop over the hits (`Scoring.MergeHits`, `BuildPartialLookup`, `FlattenBuildPartial`) |
| Paths.SectionKeySplit | ai_normalizer.py:232 | a key with one dot after a non-empty section splits into section and field |
| Paths.DistinctPrefix | ai_normalizer.py:270 | the hits before the last have distinct keys and lack the last key |
| Paths.LeafFieldsSet | ai_normalizer.py:238 | writing a dotless key with a non-dict value into leaf fields keeps them leaf fields |
| Paths.TwoLevelSetPath | ai_normalizer.py:270-271 | writing a section key with a non-dict value keeps the dict a dict of sections of leaf fields |
| Paths.ChildLeafFields | ai_normalizer.py:235-237 | the dict under a key of a two-level dict holds leaf fields |
| Paths.TwoLevelSet | ai_normalizer.py:238 | writing a section keeps the dict two-level |
| Paths.BuildPartialTwoLevel | ai_normalizer.py:269-271 | the dict built from section-key hits is two-level |
| Paths.SectionKeysDiverge | ai_normalizer.py:232 | two different section keys differ in their section or their field |
| Paths.BuildPartialLookup | ai_normalizer.py:269-271 | every hit, and nothing else, can be looked up along its split key in the built dict |
| Paths.LookupSectionKey | ai_normalizer.py:231-237 | looking a section key up goes through its section's dict |
| Paths.SectionLeaves | ai_normalizer.py:245-254 | the leaves of one section are its fields under `section.field` |
| Paths.TwoLevelInit | ai_normalizer.py:245-254 | the entries of a two-level dict before its last are two-level and lack its last key |
| Paths.SectionValueSnoc | ai_normalizer.py:245-254 | the last section of a two-level dict decides its own keys |
| Paths.FieldLeavesSnoc | ai_normalizer.py:245-254 | the leaves of a dict ending in a section are those before it, then the section's |
| Paths.TwoLevelLeaves | ai_normalizer.py:245-254 | the leaves of a two-level dict are its section fields under their `section.field` keys |
| Paths.FlattenBuildPartial | ai_normalizer.py:269-285 | `flatten` of the dict built from two-part keys with non-dict values gives exactly those key-value pairs back |
| Merge.MergeInto | ai_normalizer.py:275-282 | definition: `deep_merge(dst, src)` on values, `Failure` where Python raises (`DeepMerge`, `MergeFails`, `MergeLeaf`, `MergeUntouched`) |
| Merge.MergeValue | ai_normalizer.py:277-279 | definition: the recursive call on the value under one key: a fresh `{}` when missing, the dict there, an unchanged non-dict for an empty `src`, else `TypeError` |
| Merge.Conflict | ai_normalizer.py:276-279 | definition: some dict value of `src` meets a non-dict under its key in `dst`, with a non-empty dict to merge, at any depth (`MergeFails`) |
| Merge.ConflictAt | ai_normalizer.py:277-279 | definition: the same for the value under one key |
| Merge.DeepMerge | ai_normalizer.py:275-282 | `deep_merge`'s loop and recursion compute the merge, failing where Python raises |
| Merge.DeepMergeValue | ai_normalizer.py:277-279 | merging into the value under a key: a fresh `{}` when it is missing, the dict there when it is one, a `TypeError` on a non-dict unless `src` is empty |
| Merge.WellFormedTail | ai_normalizer.py:276 | the rest of a well-formed dict is well formed and lacks the first key |
| Merge.ConflictCons | ai_normalizer.py:276-279 | a conflict lies in the first entry or in the rest |
| Merge.ConflictFrame | ai_normalizer.py:276-279 | whether there is a conflict depends only on the values under `src`'s keys |
| Merge.MergeFails | ai_normalizer.py:275-282 | merging fails exactly when it meets a non-empty dict to merge into a value that is not a dict |
| Merge.MergeValueFails | ai_normalizer.py:277-279 | the same for the value under one key |
| Merge.MergeKeepsOther | ai_normalizer.py:276-281 | a key that `src` does not hold keeps its value |
| Merge.MergeIntoFresh | ai_normalizer.py:276-281 | merging into a dict without any of `src`'s keys appends a copy of `src`; merging into `{}` gives `src` back |
| Merge.MergeHeadFresh | ai_normalizer.py:278-281 | the first entry of `src`, under a new key, is appended |
| Merge.LookupFirst | ai_normalizer.py:276 | looking a path up starts at the value under its first key |
| Merge.MergeLeaf | ai_normalizer.py:275-282 | every non-dict value of `src` ends up at its path |
| Merge.MergeValueLeaf | ai_normalizer.py:277-279 | the same inside the value under one key |
| Merge.MergeUntouched | ai_normalizer.py:275-282 | every path of `dst` that `src` does not reach keeps its value |
| Merge.MergeValueUntouched | ai_normalizer.py:277-279 | the same inside the value under one key |
| Scoring.ConfidenceValue | ai_normalizer.py:272 | definition: 0.95 for a rule hit and 0.75 for a filled key, as exact decimals |
| Scoring.ConfidenceJson | ai_normalizer.py:289 | definition: the confidence map as the JSON dict stored under `_confidence`; `ConfidenceJsonGet` states its contents |
| Scoring.ConfidenceJsonGet | ai_normalizer.py:289 | the JSON dict holds each key's confidence as its number, and nothing else |
| Scoring.InitialConfidence | ai_normalizer.py:272 | definition: `{k: 0.95 for k in rule_hits.keys()}`; `InitialConfidenceGet` states its contents |
| Scoring.InitialConfidenceGet | ai_normalizer.py:272 | every rule hit, and nothing else, starts with 0.95 |
| Scoring.MergeHits | ai_normalizer.py:269-271 | the loop of `merge_dict_path` calls builds the dict from the hits, one after the other |
| Scoring.FillConfidence | ai_normalizer.py:286-288 | the loop over the flattened keys gives 0.75 to each target key without a confidence |
| Scoring.FillFromGet | ai_normalizer.py:286-288 | the fill never changes an existing confidence and gives 0.75 to exactly the target keys among the flattened keys that had none |
| Scoring.FillFrom | ai_normalizer.py:286-288 | definition: the fill loop on values (`FillConfidence`, `FillFromGet`) |
| Scoring.Truthy | ai_normalizer.py:283 | definition: Python truthiness of a JSON value: `null`, `false`, zero, `""`, `[]` and `{}` are falsy |
| Scoring.SourceDict | ai_normalizer.py:283 | `ai_resp or {}` is `{}` for a falsy answer, the answer itself for a dict, and fails for any other truthy value |
| Scoring.Merged | ai_normalizer.py:269-283 | definition: `partial` after the hits are written and the answer merged in (`ScoredFails`) |
| Scoring.ConfidenceOf | ai_normalizer.py:272-288 | definition: the confidence map of `main`: 0.95 for the hits, then the fill over the flattened keys (`ConfidenceOfGet`) |
| Scoring.ValidateAndScore | ai_normalizer.py:240-243 | `d.pop("_confidence", {})` returns the value under `_confidence`, or `{}`, and leaves every other key as it was |
| Scoring.Scored | ai_normalizer.py:269-291 | definition: the merge and confidence part of `main` on values (`MergeAndScore`, `ScoredConfidence`, `ScoredShape`, `ScoredFails`) |
| Scoring.MergeAndScore | ai_normalizer.py:269-291 | the merge and confidence part of `main`, step by step, gives the scored pair, or the error Python raises |
| Scoring.ConfidenceOfGet | ai_normalizer.py:272-288 | every rule hit has confidence 0.95 whatever the model answered; every other flattened target key has 0.75; no other key has one |
| Scoring.ConfidenceKeysAreTargets | ai_normalizer.py:286-288 | with rule hits on target keys, every key with a confidence is a target key |
| Scoring.ScoredShape | ai_normalizer.py:289-291 | the confidence map popped is the one stored; the dict handed on no longer holds it; every other key is the merged value |
| Scoring.ScoredConfidence | ai_normalizer.py:272-291 | the confidence map that comes out: 0.95 for each rule hit, 0.75 for each other flattened target key, nothing else |
| Scoring.ScoredFails | ai_normalizer.py:275-283 | the part fails exactly when the model's answer is truthy and not a dict, or merging it meets a non-empty dict to merge into a non-dict |
| Scoring.RuleHitsAreSectionHits | ai_normalizer.py:267-271 | the rule hits are distinct section keys holding non-dict values |
| Scoring.NoAnswerOnlyHits | ai_normalizer.py:269-288 | without an answer from the model, the hits flatten back unchanged, so exactly the hits have confidence 0.95 |
| Scoring.RuleHitsOnly | ai_normalizer.py:266-288 | the same for the rule hits of any text |

## Left out

- `llm_fill_missing` (ai_normalizer.py:172-218) calls OpenAI, driven by an
  environment variable. Its answer is the parameter `aiResp`, an arbitrary
  JSON value.
- `main`'s command line, its file reads and writes, `json.load`,
  `json.dump` and `print` (ai_normalizer.py:256-298) are I/O. The model
  starts from the parsed layout tree and ends with the pair that
  `validate_and_score` returns.
- `DocSchema(**d)` and `model.dict()` (ai_normalizer.py:76-84, 242, 292)
  are pydantic's construction and coercion, a foreign library. Only the
  `_confidence` pop is modelled. `_date_fmt` is modelled as the function it
  is, but its call from the validator is not.
- `app/main.py` is not part of this model. It is HTTP calls, polling,
  downloads and ZIP extraction.
- The `adobe_json` parameter of `extract_candidates_rules` is never read
  there, and is not modelled.
- Python's `re` engine is written out for the program's fixed patterns
  only. Within those:
  - `\d` is ASCII digits;
  - IGNORECASE folds ASCII letters only;
  - `\s` is the set of characters `str.isspace()` accepts, which Python's
    `\s` also matches.
- Python floats are exact decimals. Rounding and the float formatting of
  `json.dump` are not modelled. Nor are the exponent and `inf`/`nan`
  spellings of `float()`: the numerals that reach it hold only digits and
  dots.
- In-place mutation and aliasing are modelled on values. `merge_dict_path`
  and `deep_merge` mutate the dicts they are given. Here they return the
  updated dict instead, and `MergeDictPath` rebuilds the path bottom up.
- Python's `TypeError` and `AttributeError` are modelled as `Failure`,
  without their message.
- Merge.MergeFails: requires `src` to be well formed, a dict whose keys
  are distinct at every level. Every dict that `json.load` returns is. With
  repeated keys, the conflict it states would look at a key's first entry
  only.
- Scoring.ScoredFails: requires the model's answer to be well formed, for
  the same reason.
- Paths.FlattenBuildPartial: requires the hits to be distinct
  `section.field` keys with non-dict values. That is the shape the rule
  pass produces (`Scoring.RuleHitsAreSectionHits`), and the round trip does
  not hold for keys that are prefixes of one another.
- Scoring.NoAnswerOnlyHits: requires the same of the hits.
- Three behaviours of the code are modelled as written:
  - a label at the very end of the text (`"Shipment No:"`) makes `find_val`
    return `":"`;
  - a number written with a decimal point (`"12.5 kg"`) has its dot dropped
    and reads as 125;
  - a key that the model's answer overrides keeps the confidence 0.95 of
    its rule hit.
