/**
 * JSON values as Python's `json.load` produces them, and the Python `dict`
 * operations the normaliser performs on them. A dict is an ordered list of
 * entries (Python dicts keep insertion order); `Get`, `Set` and `Remove` are
 * `d.get(k)`, `d[k] = v` and `d.pop(k)` on it.
 */
module Json {
  import opened Wrappers

  /** One key-value pair of a dict. */
  datatype Entry<V> = Entry(key: string, value: V)

  type Dict<V> = seq<Entry<V>>

  /** A JSON value. A number is `mantissa / 10^scale`. */
  datatype Json =
    | JNull
    | JBool(b: bool)
    | JNum(mantissa: int, scale: nat)
    | JStr(s: string)
    | JList(items: seq<Json>)
    | JObj(fields: Dict<Json>)

  function Keys<V>(d: Dict<V>): (ks: seq<string>)
    ensures |ks| == |d|
    ensures forall i :: 0 <= i < |d| ==> ks[i] == d[i].key
  {
    if d == [] then [] else [d[0].key] + Keys(d[1..])
  }

  /** No key occurs twice: what every Python dict satisfies. */
  predicate DistinctKeys<V>(d: Dict<V>)
  {
    forall i, j :: 0 <= i < j < |d| ==> d[i].key != d[j].key
  }

  /** `d.get(k)`: the value of the first entry with key `k`. */
  function Get<V>(d: Dict<V>, k: string): (r: Option<V>)
    ensures r.None? <==> k !in Keys(d)
    ensures r.Some? ==> exists i :: 0 <= i < |d| && d[i] == Entry(k, r.value)
  {
    if d == [] then None
    else if d[0].key == k then Some(d[0].value)
    else Get(d[1..], k)
  }

  /** In a dict with distinct keys, `Get` finds the one entry with that key. */
  lemma GetAt<V>(d: Dict<V>, i: nat)
    requires DistinctKeys(d) && i < |d|
    ensures Get(d, d[i].key) == Some(d[i].value)
  {
    if i > 0 {
      assert d[1..][i - 1] == d[i];
      GetAt(d[1..], i - 1);
    }
  }

  /** `d[k] = v`: overwrites the value of an existing key where it stands,
      or appends a new entry. */
  function Set<V>(d: Dict<V>, k: string, v: V): (r: Dict<V>)
    ensures Get(r, k) == Some(v)
    ensures forall k' :: k' != k ==> Get(r, k') == Get(d, k')
  {
    if d == [] then [Entry(k, v)]
    else if d[0].key == k then [Entry(k, v)] + d[1..]
    else [d[0]] + Set(d[1..], k, v)
  }

  /** `d[k] = v` keeps the order of the keys and appends a new key at the end. */
  lemma SetKeys<V>(d: Dict<V>, k: string, v: V)
    ensures Keys(Set(d, k, v)) == if k in Keys(d) then Keys(d) else Keys(d) + [k]
  {
    if k in Keys(d) {
      SetKeysExisting(d, k, v);
    } else {
      SetAppends(d, k, v);
      KeysSnoc(d, Entry(k, v));
    }
  }

  lemma {:induction false} SetKeysExisting<V>(d: Dict<V>, k: string, v: V)
    requires k in Keys(d)
    ensures Keys(Set(d, k, v)) == Keys(d)
  {
    KeysCons(d);
    if d[0].key == k {
      KeysCons(Set(d, k, v));
    } else {
      SetKeysExisting(d[1..], k, v);
      SetCons(d, k, v);
      KeysCons(Set(d, k, v));
      assert Set(d, k, v)[1..] == Set(d[1..], k, v);
    }
  }

  lemma KeysSnoc<V>(d: Dict<V>, e: Entry<V>)
    ensures Keys(d + [e]) == Keys(d) + [e.key]
  {
    assert forall i :: 0 <= i < |d + [e]| ==> Keys(d + [e])[i] == (d + [e])[i].key;
  }

  lemma KeysInit<V>(d: Dict<V>)
    requires d != []
    ensures Keys(d) == Keys(d[..|d| - 1]) + [d[|d| - 1].key]
  {
    var init, e := d[..|d| - 1], d[|d| - 1];
    assert init + [e] == d;
    KeysSnoc(init, e);
  }

  lemma KeysCons<V>(d: Dict<V>)
    requires d != []
    ensures Keys(d) == [d[0].key] + Keys(d[1..])
  {
  }

  /** Every entry after `d[k] = v` was in `d` or is the new one. */
  lemma {:induction false} SetEntries<V>(d: Dict<V>, k: string, v: V)
    ensures forall i :: 0 <= i < |Set(d, k, v)| ==> Set(d, k, v)[i] in d || Set(d, k, v)[i] == Entry(k, v)
  {
    if d != [] && d[0].key != k {
      SetEntries(d[1..], k, v);
      var r := Set(d, k, v);
      assert forall i :: 1 <= i < |r| ==> r[i] == Set(d[1..], k, v)[i - 1];
      assert forall e :: e in d[1..] ==> e in d;
    }
  }

  /** The first entry with key `k` in a dict with one more entry at the end. */
  lemma {:induction false} GetSnoc<V>(d: Dict<V>, k: string)
    requires d != []
    ensures Get(d, k) == if k in Keys(d[..|d| - 1]) then Get(d[..|d| - 1], k)
                         else if d[|d| - 1].key == k then Some(d[|d| - 1].value) else None
  {
    if |d| > 1 {
      var init := d[..|d| - 1];
      assert d[1..][..|d[1..]| - 1] == init[1..];
      assert Keys(init) == [d[0].key] + Keys(init[1..]);
      GetSnoc(d[1..], k);
    }
  }

  /** `d[k] = v` for a new key appends the entry. */
  lemma SetAppends<V>(d: Dict<V>, k: string, v: V)
    requires k !in Keys(d)
    ensures Set(d, k, v) == d + [Entry(k, v)]
  {
    SetAppendsAt(d, k, v);
  }

  lemma {:induction false} SetAppendsAt<V>(d: Dict<V>, k: string, v: V)
    requires forall i :: 0 <= i < |d| ==> d[i].key != k
    ensures Set(d, k, v) == d + [Entry(k, v)]
  {
    if d != [] {
      var tail := d[1..];
      assert forall i :: 0 <= i < |tail| ==> tail[i] == d[i + 1];
      SetAppendsAt(tail, k, v);
      assert d[0].key != k;
      SetCons(d, k, v);
      ConsSnoc(d, Entry(k, v));
    }
  }

  /** `d[k] = v` past a first entry with another key. */
  lemma SetCons<V>(d: Dict<V>, k: string, v: V)
    requires d != [] && d[0].key != k
    ensures Set(d, k, v) == [d[0]] + Set(d[1..], k, v)
  {
  }

  lemma ConsSnoc<T>(s: seq<T>, x: T)
    requires s != []
    ensures s + [x] == [s[0]] + (s[1..] + [x])
  {
    assert s == [s[0]] + s[1..];
  }

  /** `d[k] = v` keeps the keys distinct. */
  lemma SetDistinct<V>(d: Dict<V>, k: string, v: V)
    requires DistinctKeys(d)
    ensures DistinctKeys(Set(d, k, v))
  {
    SetKeys(d, k, v);
    var r := Set(d, k, v);
    assert forall i :: 0 <= i < |r| ==> Keys(r)[i] == r[i].key;
    assert forall i :: 0 <= i < |d| ==> Keys(d)[i] == d[i].key;
  }

  /** Writing back the value a key already has changes nothing. */
  lemma {:induction false} SetSame<V>(d: Dict<V>, k: string)
    requires k in Keys(d)
    ensures Set(d, k, Get(d, k).value) == d
  {
    if d[0].key != k {
      assert Keys(d) == [d[0].key] + Keys(d[1..]);
      SetSame(d[1..], k);
    }
  }

  /** `d.pop(k)` on the dict: every entry with key `k` is dropped. */
  function Remove<V>(d: Dict<V>, k: string): (r: Dict<V>)
    ensures Get(r, k) == None
    ensures forall k' :: k' != k ==> Get(r, k') == Get(d, k')
    ensures k !in Keys(d) ==> r == d
  {
    if d == [] then []
    else if d[0].key == k then Remove(d[1..], k)
    else [d[0]] + Remove(d[1..], k)
  }

  /** Assigning each entry in turn: `d[k] = v` for every `(k, v)`, as a dict
      display, a run of assignments and `d.update(es)` do. */
  function Assign<V>(d: Dict<V>, es: seq<Entry<V>>): Dict<V>
    decreases |es|
  {
    if es == [] then d else Assign(Set(d, es[0].key, es[0].value), es[1..])
  }

  lemma {:induction false} AssignAppend<V>(d: Dict<V>, a: seq<Entry<V>>, b: seq<Entry<V>>)
    ensures Assign(d, a + b) == Assign(Assign(d, a), b)
    decreases |a|
  {
    if a == [] {
      assert a + b == b;
    } else {
      assert (a + b)[0] == a[0] && (a + b)[1..] == a[1..] + b;
      AssignAppend(Set(d, a[0].key, a[0].value), a[1..], b);
    }
  }

  lemma AssignOne<V>(d: Dict<V>, e: Entry<V>)
    ensures Assign(d, [e]) == Set(d, e.key, e.value)
  {
    assert [e][1..] == [];
  }

  /** Assignments keep the keys distinct. */
  lemma {:induction false} AssignDistinct<V>(d: Dict<V>, es: seq<Entry<V>>)
    requires DistinctKeys(d)
    ensures DistinctKeys(Assign(d, es))
    decreases |es|
  {
    if es != [] {
      SetDistinct(d, es[0].key, es[0].value);
      AssignDistinct(Set(d, es[0].key, es[0].value), es[1..]);
    }
  }

  /** Every key after the assignments was there before or was assigned. */
  lemma {:induction false} AssignKeys<V>(d: Dict<V>, es: seq<Entry<V>>, k: string)
    requires k in Keys(Assign(d, es))
    ensures k in Keys(d) || exists i :: 0 <= i < |es| && es[i].key == k
    decreases |es|
  {
    if es != [] {
      var d' := Set(d, es[0].key, es[0].value);
      AssignKeys(d', es[1..], k);
      if k in Keys(d') && k != es[0].key {
        assert Get(d', k) == Get(d, k);
      }
      if exists i :: 0 <= i < |es[1..]| && es[1..][i].key == k {
        var i :| 0 <= i < |es[1..]| && es[1..][i].key == k;
        assert es[i + 1].key == k;
      }
    }
  }

  /** When every entry with key `k` carries `v`, the assignments leave `v`
      under `k` if there is such an entry, and the old value otherwise. */
  lemma {:induction false} AssignGetAll<V>(d: Dict<V>, es: seq<Entry<V>>, k: string, v: V)
    requires forall i :: 0 <= i < |es| && es[i].key == k ==> es[i].value == v
    ensures Get(Assign(d, es), k) == if k in Keys(es) then Some(v) else Get(d, k)
    decreases |es|
  {
    if es != [] {
      assert forall i :: 0 <= i < |es[1..]| ==> es[1..][i] == es[i + 1];
      AssignGetAll(Set(d, es[0].key, es[0].value), es[1..], k, v);
      assert Keys(es) == [es[0].key] + Keys(es[1..]);
    }
  }

  /** Every dict inside the value has distinct keys: holds of anything `json.load` returns. */
  predicate WellFormed(j: Json)
    decreases j, 1
  {
    match j
    case JObj(fs) => DistinctKeys(fs) && FieldsWellFormed(fs)
    case JList(xs) => ItemsWellFormed(xs)
    case _ => true
  }

  predicate FieldsWellFormed(fs: Dict<Json>)
    decreases fs, 0
  {
    fs == [] || (WellFormed(fs[0].value) && FieldsWellFormed(fs[1..]))
  }

  predicate ItemsWellFormed(xs: seq<Json>)
    decreases xs, 0
  {
    xs == [] || (WellFormed(xs[0]) && ItemsWellFormed(xs[1..]))
  }

  lemma {:induction false} FieldWellFormed(fs: Dict<Json>, k: string)
    requires FieldsWellFormed(fs) && k in Keys(fs)
    ensures WellFormed(Get(fs, k).value)
  {
    if fs[0].key != k {
      FieldWellFormed(fs[1..], k);
    }
  }

  /** Looking a path of keys up through nested dicts; `None` as soon as a key
      is missing or a value on the way is not a dict. */
  function LookupPath(j: Json, path: seq<string>): Option<Json>
    decreases |path|
  {
    if path == [] then Some(j)
    else match j
      case JObj(fs) =>
        (match Get(fs, path[0])
         case Some(child) => LookupPath(child, path[1..])
         case None => None)
      case _ => None
  }
}
