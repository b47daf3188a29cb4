/**
 * The nested-dict path operations of the normaliser: `merge_dict_path`,
 * which writes a value at a dotted path, creating or replacing the dicts on
 * the way, and `flatten`, which turns nested dicts back into one dict from
 * dotted paths to leaf values. Dicts are values here: the in-place update
 * of `merge_dict_path` returns the updated dict.
 */
module Paths {
  import opened Wrappers
  import opened Text
  import opened Json
  import opened Schema

  // ---------- merge_dict_path ----------

  /** The dict the cursor moves into under `k`: the one stored there, or the
      fresh `{}` that replaces a missing or non-dict value. */
  function ChildDict(d: Dict<Json>, k: string): (r: Dict<Json>)
    ensures IsDictAt(d, k) ==> r == Get(d, k).value.fields
    ensures !IsDictAt(d, k) ==> r == []
  {
    if IsDictAt(d, k) then Get(d, k).value.fields else []
  }

  /** `k in d and isinstance(d[k], dict)`. */
  predicate IsDictAt(d: Dict<Json>, k: string)
  {
    Get(d, k).Some? && Get(d, k).value.JObj?
  }

  /** The dict after writing `v` at `path`: the last key is set in the dict
      the walk ends in, and every dict on the way is written back under its
      key. */
  function SetPath(d: Dict<Json>, path: seq<string>, v: Json): Dict<Json>
    requires path != []
    decreases |path|
  {
    if |path| == 1 then Set(d, path[0], v)
    else Set(d, path[0], JObj(SetPath(ChildDict(d, path[0]), path[1..], v)))
  }

  /** `merge_dict_path(out, dotted_key, value)`: split the key at every dot,
      walk down the dicts of all parts but the last (collecting them on the
      way), then write the value and every dict back, bottom up. */
  method MergeDictPath(out: Dict<Json>, dottedKey: string, value: Json) returns (r: Dict<Json>)
    ensures r == SetPath(out, Split(dottedKey, '.'), value)
  {
    var parts := Split(dottedKey, '.');
    var n := |parts| - 1;
    // chain[i] is the dict the cursor is at after i steps
    var chain := [out];
    var i := 0;
    while i < n
      invariant 0 <= i <= n && |chain| == i + 1 && chain[0] == out
      invariant forall j :: 0 <= j < i ==> chain[j + 1] == ChildDict(chain[j], parts[j])
    {
      chain := chain + [ChildDict(chain[i], parts[i])];
      i := i + 1;
    }
    r := Set(chain[n], parts[n], value);
    assert parts[n..] == [parts[n]];
    while i > 0
      invariant 0 <= i <= n
      invariant r == SetPath(chain[i], parts[i..], value)
    {
      i := i - 1;
      assert parts[i..][1..] == parts[i + 1..];
      r := Set(chain[i], parts[i], JObj(r));
    }
  }

  /** Looking the path up after writing it gives the value. */
  lemma {:induction false} SetPathLookup(d: Dict<Json>, path: seq<string>, v: Json)
    requires path != []
    ensures LookupPath(JObj(SetPath(d, path, v)), path) == Some(v)
    decreases |path|
  {
    if |path| > 1 {
      SetPathLookup(ChildDict(d, path[0]), path[1..], v);
    }
  }

  /** `q` leaves `path` at position `i`: they agree before it and differ there. */
  predicate DivergesAt(q: seq<string>, path: seq<string>, i: nat)
  {
    i < |q| && i < |path| && q[..i] == path[..i] && q[i] != path[i]
  }

  /** A path that leaves the written one has the same value as before, and
      in particular a missing key stays missing. */
  lemma {:induction false} SetPathOther(d: Dict<Json>, path: seq<string>, v: Json, q: seq<string>, i: nat)
    requires path != [] && DivergesAt(q, path, i)
    ensures LookupPath(JObj(SetPath(d, path, v)), q) == LookupPath(JObj(d), q)
    decreases |path|
  {
    if i > 0 {
      assert q[0] == q[..i][0] && path[0] == path[..i][0];
      assert DivergesAt(q[1..], path[1..], i - 1) by {
        assert q[1..][..i - 1] == q[..i][1..] && path[1..][..i - 1] == path[..i][1..];
      }
      var child := ChildDict(d, path[0]);
      SetPathOther(child, path[1..], v, q[1..], i - 1);
    }
  }

  /** A missing or non-dict value on the way is replaced by a dict holding
      only the rest of the path. */
  lemma SetPathReplaces(d: Dict<Json>, path: seq<string>, v: Json)
    requires |path| > 1 && !IsDictAt(d, path[0])
    ensures Get(SetPath(d, path, v), path[0]) == Some(JObj(SetPath([], path[1..], v)))
    ensures Keys(SetPath([], path[1..], v)) == [path[1]]
  {
    var rest := path[1..];
    if |rest| == 1 {
      assert Keys(Set([], rest[0], v)) == [rest[0]];
    } else {
      assert Keys(Set([], rest[0], JObj(SetPath([], rest[1..], v)))) == [rest[0]];
    }
  }

  /** Writing a path keeps the keys distinct at every level it touches. */
  lemma {:induction false} SetPathDistinct(d: Dict<Json>, path: seq<string>, v: Json)
    requires path != [] && DistinctKeys(d)
    ensures DistinctKeys(SetPath(d, path, v))
    decreases |path|
  {
    if |path| == 1 {
      SetDistinct(d, path[0], v);
    } else {
      SetDistinct(d, path[0], JObj(SetPath(ChildDict(d, path[0]), path[1..], v)));
    }
  }

  // ---------- flatten ----------

  /** `f"{prefix}.{k}" if prefix else k`. */
  function JoinPath(prefix: string, k: string): string
  {
    if prefix == "" then k else prefix + "." + k
  }

  /** `flatten(d, prefix)`: a non-dict gives `{}`; a dict is walked entry by
      entry, a nested dict's flattening is merged in with `update` and any
      other value is stored under its path. */
  function Flatten(d: Json, prefix: string): Dict<Json>
    decreases d, 1
  {
    match d
    case JObj(fs) => FlattenFields(fs, prefix)
    case _ => []
  }

  /** What `out` holds after the loop over the entries `fs`. */
  function FlattenFields(fs: Dict<Json>, prefix: string): Dict<Json>
    decreases fs, 0
  {
    if fs == [] then []
    else
      var out := FlattenFields(fs[..|fs| - 1], prefix);
      var e := fs[|fs| - 1];
      var path := JoinPath(prefix, e.key);
      if e.value.JObj? then Assign(out, Flatten(e.value, path)) else Set(out, path, e.value)
  }

  /** `flatten`, with its loop, and recursion into nested dicts. */
  method FlattenDict(d: Json, prefix: string) returns (out: Dict<Json>)
    ensures out == Flatten(d, prefix)
    decreases d
  {
    out := [];
    if d.JObj? {
      var fs := d.fields;
      var i := 0;
      while i < |fs|
        invariant 0 <= i <= |fs|
        invariant out == FlattenFields(fs[..i], prefix)
      {
        var k := fs[i].key;
        var v := fs[i].value;
        var path := JoinPath(prefix, k);
        assert fs[..i + 1][..i] == fs[..i] && fs[..i + 1][i] == fs[i];
        if v.JObj? {
          var sub := FlattenDict(v, path);
          out := Assign(out, sub);
        } else {
          out := Set(out, path, v);
        }
        i := i + 1;
      }
      assert fs[..|fs|] == fs;
    }
  }

  /** The leaves of a value in depth-first order, each under its path: every
      non-dict value inside the dicts, lists included as they are. */
  function Leaves(d: Json, prefix: string): Dict<Json>
    decreases d, 1
  {
    match d
    case JObj(fs) => FieldLeaves(fs, prefix)
    case _ => []
  }

  function FieldLeaves(fs: Dict<Json>, prefix: string): Dict<Json>
    decreases fs, 0
  {
    if fs == [] then []
    else
      var e := fs[|fs| - 1];
      var path := JoinPath(prefix, e.key);
      FieldLeaves(fs[..|fs| - 1], prefix) + (if e.value.JObj? then Leaves(e.value, path) else [Entry(path, e.value)])
  }

  /** The value of the last entry with key `k`. */
  function LastValue<V>(es: seq<Entry<V>>, k: string): (r: Option<V>)
    ensures r.None? <==> k !in Keys(es)
  {
    if es == [] then None
    else if es[|es| - 1].key == k then Some(es[|es| - 1].value)
    else
      KeysInit(es);
      LastValue(es[..|es| - 1], k)
  }

  function OrElse<V>(a: Option<V>, b: Option<V>): Option<V>
  {
    if a.Some? then a else b
  }

  lemma {:induction false} LastValueAppend<V>(a: seq<Entry<V>>, b: seq<Entry<V>>, k: string)
    ensures LastValue(a + b, k) == OrElse(LastValue(b, k), LastValue(a, k))
    decreases |b|
  {
    if b == [] {
      assert a + b == a;
    } else {
      var b' := b[..|b| - 1];
      assert (a + b)[..|a + b| - 1] == a + b';
      LastValueAppend(a, b', k);
    }
  }

  /** After assigning the entries, `k` holds the last value assigned to it,
      or what it held before. */
  lemma {:induction false} AssignGetLast<V>(d: Dict<V>, es: seq<Entry<V>>, k: string)
    ensures Get(Assign(d, es), k) == OrElse(LastValue(es, k), Get(d, k))
    decreases |es|
  {
    if es != [] {
      var d' := Set(d, es[0].key, es[0].value);
      AssignGetLast(d', es[1..], k);
      assert es == [es[0]] + es[1..];
      LastValueAppend([es[0]], es[1..], k);
      assert [es[0]][..0] == [];
    }
  }

  /** In a dict the first and the last entry with a key are the same. */
  lemma {:induction false} LastValueDistinct<V>(d: Dict<V>, k: string)
    requires DistinctKeys(d)
    ensures LastValue(d, k) == Get(d, k)
  {
    if k in Keys(d) {
      var i :| 0 <= i < |d| && d[i].key == k;
      GetAt(d, i);
      LastAt(d, i);
    }
  }

  lemma {:induction false} LastAt<V>(d: Dict<V>, i: nat)
    requires DistinctKeys(d) && i < |d|
    ensures LastValue(d, d[i].key) == Some(d[i].value)
    decreases |d|
  {
    if i < |d| - 1 {
      var d' := d[..|d| - 1];
      assert d'[i] == d[i];
      LastAt(d', i);
    }
  }

  /** `flatten`'s result has distinct keys. */
  lemma {:induction false} FlattenDistinct(d: Json, prefix: string)
    ensures DistinctKeys(Flatten(d, prefix))
    decreases d, 1
  {
    if d.JObj? {
      FlattenFieldsDistinct(d.fields, prefix);
    }
  }

  lemma {:induction false} FlattenFieldsDistinct(fs: Dict<Json>, prefix: string)
    ensures DistinctKeys(FlattenFields(fs, prefix))
    decreases fs, 0
  {
    if fs != [] {
      var out := FlattenFields(fs[..|fs| - 1], prefix);
      var e := fs[|fs| - 1];
      FlattenFieldsDistinct(fs[..|fs| - 1], prefix);
      if e.value.JObj? {
        AssignDistinct(out, Flatten(e.value, JoinPath(prefix, e.key)));
      } else {
        SetDistinct(out, JoinPath(prefix, e.key), e.value);
      }
    }
  }

  /** Every path of `flatten`'s result holds the last leaf, in depth-first
      order, with that path; a path with no leaf is absent. */
  lemma {:induction false} FlattenGet(d: Json, prefix: string, k: string)
    ensures Get(Flatten(d, prefix), k) == LastValue(Leaves(d, prefix), k)
    decreases d, 1
  {
    if d.JObj? {
      FlattenFieldsGet(d.fields, prefix, k);
    }
  }

  lemma {:induction false} FlattenFieldsGet(fs: Dict<Json>, prefix: string, k: string)
    ensures Get(FlattenFields(fs, prefix), k) == LastValue(FieldLeaves(fs, prefix), k)
    decreases fs, 0
  {
    if fs != [] {
      var init := fs[..|fs| - 1];
      var e := fs[|fs| - 1];
      var path := JoinPath(prefix, e.key);
      var out := FlattenFields(init, prefix);
      FlattenFieldsGet(init, prefix, k);
      var last := if e.value.JObj? then Leaves(e.value, path) else [Entry(path, e.value)];
      LastValueAppend(FieldLeaves(init, prefix), last, k);
      if e.value.JObj? {
        var sub := Flatten(e.value, path);
        AssignGetLast(out, sub, k);
        FlattenDistinct(e.value, path);
        LastValueDistinct(sub, k);
        FlattenGet(e.value, path, k);
      } else {
        assert [Entry(path, e.value)][..0] == [];
      }
    }
  }

  // ---------- the round trip of the rule hits ----------

  /** The dict `main` builds from the rule hits with `merge_dict_path`, one
      hit after the other. */
  function BuildPartial(hits: Dict<Json>): Dict<Json>
  {
    if hits == [] then []
    else
      var e := hits[|hits| - 1];
      SetPath(BuildPartial(hits[..|hits| - 1]), Split(e.key, '.'), e.value)
  }

  /** Hits that the two-level round trip applies to: distinct section keys
      holding non-dict values. */
  predicate SectionHits(hits: Dict<Json>)
  {
    DistinctKeys(hits) && forall i :: 0 <= i < |hits| ==> IsSectionKey(hits[i].key) && !hits[i].value.JObj?
  }

  /** The fields of one section: distinct keys without a dot, holding
      non-dict values. */
  predicate LeafFields(fs: Dict<Json>)
  {
    DistinctKeys(fs) && forall i :: 0 <= i < |fs| ==> '.' !in fs[i].key && !fs[i].value.JObj?
  }

  predicate SectionEntry(e: Entry<Json>)
  {
    e.key != "" && '.' !in e.key && e.value.JObj? && LeafFields(e.value.fields)
  }

  /** A dict of sections, each a dict of leaf fields. */
  predicate TwoLevel(p: Dict<Json>)
  {
    DistinctKeys(p) && forall i :: 0 <= i < |p| ==> SectionEntry(p[i])
  }

  /** A key with one dot after a non-empty section is `section.field`. */
  lemma SectionKeySplit(k: string)
    requires IsSectionKey(k)
    ensures |Split(k, '.')| == 2 && k == Key(Split(k, '.')[0], Split(k, '.')[1])
  {
    var parts := Split(k, '.');
    SplitCount(k, '.');
    JoinSplit(k, '.');
    assert Join(parts, ".") == parts[0] + "." + Join(parts[1..], ".");
  }

  lemma DistinctPrefix<V>(d: Dict<V>)
    requires d != [] && DistinctKeys(d)
    ensures DistinctKeys(d[..|d| - 1]) && d[|d| - 1].key !in Keys(d[..|d| - 1])
  {
    assert forall i :: 0 <= i < |d| - 1 ==> d[..|d| - 1][i] == d[i];
  }

  lemma LeafFieldsSet(fs: Dict<Json>, f: string, v: Json)
    requires LeafFields(fs) && '.' !in f && !v.JObj?
    ensures LeafFields(Set(fs, f, v))
  {
    SetDistinct(fs, f, v);
    SetEntries(fs, f, v);
  }

  /** Writing a section key keeps the dict two-level. */
  lemma TwoLevelSetPath(p: Dict<Json>, k: string, v: Json)
    requires TwoLevel(p) && IsSectionKey(k) && !v.JObj?
    ensures TwoLevel(SetPath(p, Split(k, '.'), v))
  {
    var parts := Split(k, '.');
    SectionKeySplit(k);
    var s, f := parts[0], parts[1];
    var child := ChildDict(p, s);
    assert parts[1..] == [f];
    ChildLeafFields(p, s);
    LeafFieldsSet(child, f, v);
    var sec := JObj(Set(child, f, v));
    assert SetPath(p, parts, v) == Set(p, s, sec);
    TwoLevelSet(p, s, sec);
  }

  /** The dict under a key of a two-level dict holds leaf fields. */
  lemma ChildLeafFields(p: Dict<Json>, s: string)
    requires TwoLevel(p)
    ensures LeafFields(ChildDict(p, s))
  {
    if IsDictAt(p, s) {
      var i :| 0 <= i < |p| && p[i] == Entry(s, Get(p, s).value);
      assert SectionEntry(p[i]);
    }
  }

  lemma TwoLevelSet(p: Dict<Json>, s: string, sec: Json)
    requires TwoLevel(p) && SectionEntry(Entry(s, sec))
    ensures TwoLevel(Set(p, s, sec))
  {
    SetDistinct(p, s, sec);
    SetEntries(p, s, sec);
  }

  lemma {:induction false} BuildPartialTwoLevel(hits: Dict<Json>)
    requires SectionHits(hits)
    ensures TwoLevel(BuildPartial(hits))
    decreases |hits|
  {
    if hits != [] {
      var init := hits[..|hits| - 1];
      var e := hits[|hits| - 1];
      DistinctPrefix(hits);
      assert forall i :: 0 <= i < |init| ==> init[i] == hits[i];
      BuildPartialTwoLevel(init);
      TwoLevelSetPath(BuildPartial(init), e.key, e.value);
    }
  }

  /** Two section keys that differ differ in their section or their field. */
  lemma SectionKeysDiverge(k: string, k': string)
    requires IsSectionKey(k) && IsSectionKey(k') && k != k'
    ensures DivergesAt(Split(k, '.'), Split(k', '.'), if Split(k, '.')[0] != Split(k', '.')[0] then 0 else 1)
  {
    SectionKeySplit(k);
    SectionKeySplit(k');
    var q, r := Split(k, '.'), Split(k', '.');
    assert q[..1] == [q[0]] && r[..1] == [r[0]];
  }

  /** Every hit can be looked up along its split key in the built dict, and
      no other section key can. */
  lemma {:induction false} BuildPartialLookup(hits: Dict<Json>, k: string)
    requires SectionHits(hits) && IsSectionKey(k)
    ensures LookupPath(JObj(BuildPartial(hits)), Split(k, '.')) == Get(hits, k)
    decreases |hits|
  {
    var parts := Split(k, '.');
    SectionKeySplit(k);
    if hits == [] {
      assert parts[1..] == [parts[1]];
    } else {
      var init := hits[..|hits| - 1];
      var e := hits[|hits| - 1];
      DistinctPrefix(hits);
      assert forall i :: 0 <= i < |init| ==> init[i] == hits[i];
      GetSnoc(hits, k);
      if e.key == k {
        SetPathLookup(BuildPartial(init), parts, e.value);
      } else {
        BuildPartialLookup(init, k);
        SectionKeysDiverge(k, e.key);
        var i := if parts[0] != Split(e.key, '.')[0] then 0 else 1;
        SetPathOther(BuildPartial(init), Split(e.key, '.'), e.value, parts, i);
      }
    }
  }

  /** The section and the field of a `section.field` key. */
  function SectionOf(k: string): string
  {
    Split(k, '.')[0]
  }

  function FieldOf(k: string): string
  {
    var parts := Split(k, '.');
    if |parts| > 1 then parts[1] else ""
  }

  /** Looking a section key up in a dict goes through its section's dict. */
  lemma LookupSectionKey(p: Dict<Json>, k: string)
    requires IsSectionKey(k)
    ensures LookupPath(JObj(p), Split(k, '.')) ==
      if IsDictAt(p, SectionOf(k)) then Get(ChildDict(p, SectionOf(k)), FieldOf(k)) else None
  {
    var parts := Split(k, '.');
    SectionKeySplit(k);
    var rest := parts[1..];
    assert rest == [FieldOf(k)] && rest[1..] == [];
    match Get(p, SectionOf(k))
    case None =>
    case Some(c) =>
      assert LookupPath(JObj(p), parts) == LookupPath(c, rest);
      if c.JObj? {
        match Get(c.fields, FieldOf(k))
        case None =>
        case Some(leaf) =>
          assert LookupPath(c, rest) == LookupPath(leaf, []);
      }
  }

  /** The leaves of one section are its fields under `section.field`. */
  lemma {:induction false} SectionLeaves(fs: Dict<Json>, s: string, k: string)
    requires LeafFields(fs) && s != "" && '.' !in s
    ensures LastValue(FieldLeaves(fs, s), k) ==
      if IsSectionKey(k) && SectionOf(k) == s then Get(fs, FieldOf(k)) else None
    decreases |fs|
  {
    if fs != [] {
      var init := fs[..|fs| - 1];
      var e := fs[|fs| - 1];
      DistinctPrefix(fs);
      assert LeafFields(init) by {
        assert forall i :: 0 <= i < |init| ==> init[i] == fs[i];
      }
      SectionLeaves(init, s, k);
      var leaf := Entry(JoinPath(s, e.key), e.value);
      assert JoinPath(s, e.key) == Key(s, e.key);
      LastValueAppend(FieldLeaves(init, s), [leaf], k);
      assert [leaf][..0] == [];
      GetSnoc(fs, FieldOf(k));
      if Key(s, e.key) == k {
        KeyParts(s, e.key);
      } else if IsSectionKey(k) && SectionOf(k) == s {
        SectionKeySplit(k);
        assert FieldOf(k) != e.key;
      }
    }
  }

  /** What a section key holds in a two-level dict. */
  function SectionValue(p: Dict<Json>, k: string): Option<Json>
  {
    if IsSectionKey(k) && IsDictAt(p, SectionOf(k)) then Get(ChildDict(p, SectionOf(k)), FieldOf(k)) else None
  }

  lemma TwoLevelInit(p: Dict<Json>)
    requires TwoLevel(p) && p != []
    ensures TwoLevel(p[..|p| - 1]) && SectionEntry(p[|p| - 1]) && p[|p| - 1].key !in Keys(p[..|p| - 1])
  {
    DistinctPrefix(p);
    assert forall i :: 0 <= i < |p| - 1 ==> p[..|p| - 1][i] == p[i];
  }

  /** The last section of a two-level dict decides its own keys. */
  lemma SectionValueSnoc(p: Dict<Json>, k: string)
    requires TwoLevel(p) && p != []
    ensures var e := p[|p| - 1];
            SectionValue(p, k) ==
              OrElse(if IsSectionKey(k) && SectionOf(k) == e.key then Get(e.value.fields, FieldOf(k)) else None,
                     SectionValue(p[..|p| - 1], k))
  {
    var init := p[..|p| - 1];
    var e := p[|p| - 1];
    TwoLevelInit(p);
    if IsSectionKey(k) {
      var sec := SectionOf(k);
      GetSnoc(p, sec);
      if sec == e.key {
        assert Get(p, sec) == Some(e.value);
        assert Get(init, sec) == None;
      } else {
        assert Get(p, sec) == Get(init, sec);
      }
    }
  }

  /** The leaves of a dict whose last value is a section. */
  lemma FieldLeavesSnoc(p: Dict<Json>, k: string)
    requires TwoLevel(p) && p != []
    ensures var e := p[|p| - 1];
            LastValue(FieldLeaves(p, ""), k) ==
              OrElse(LastValue(FieldLeaves(e.value.fields, e.key), k), LastValue(FieldLeaves(p[..|p| - 1], ""), k))
  {
    var init := p[..|p| - 1];
    var e := p[|p| - 1];
    TwoLevelInit(p);
    assert JoinPath("", e.key) == e.key;
    assert FieldLeaves(p, "") == FieldLeaves(init, "") + Leaves(e.value, e.key);
    LastValueAppend(FieldLeaves(init, ""), Leaves(e.value, e.key), k);
  }

  /** The leaves of a two-level dict are its section fields, each under its
      `section.field` key. */
  lemma {:induction false} TwoLevelLeaves(p: Dict<Json>, k: string)
    requires TwoLevel(p)
    ensures LastValue(FieldLeaves(p, ""), k) == SectionValue(p, k)
    decreases |p|
  {
    if p != [] {
      var e := p[|p| - 1];
      TwoLevelInit(p);
      TwoLevelLeaves(p[..|p| - 1], k);
      FieldLeavesSnoc(p, k);
      SectionValueSnoc(p, k);
      SectionLeaves(e.value.fields, e.key, k);
    }
  }

  /** `flatten` of the dict built from the rule hits gives the hits back:
      every hit under its key, and nothing else. */
  lemma FlattenBuildPartial(hits: Dict<Json>, k: string)
    requires SectionHits(hits)
    ensures Get(Flatten(JObj(BuildPartial(hits)), ""), k) == Get(hits, k)
  {
    var p := BuildPartial(hits);
    BuildPartialTwoLevel(hits);
    FlattenGet(JObj(p), "", k);
    TwoLevelLeaves(p, k);
    if IsSectionKey(k) {
      BuildPartialLookup(hits, k);
      LookupSectionKey(p, k);
    } else {
      assert k !in Keys(hits) by {
        assert forall i :: 0 <= i < |hits| ==> IsSectionKey(hits[i].key);
      }
    }
  }
}
