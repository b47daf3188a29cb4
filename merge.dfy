/**
 * `deep_merge(dst, src)` from `main`: every entry of `src` is written into
 * `dst`; a nested dict is merged into the dict already there (a fresh `{}`
 * when the key is missing), and any other value overwrites. Merging a
 * non-empty dict into a value that is not a dict makes Python raise a
 * `TypeError` (indexing or assigning on a string, a number, a list or
 * `None`), which is the `Failure` here.
 */
module Merge {
  import opened Wrappers
  import opened Json

  datatype MergeError = TypeError

  /** The dict after merging the entries of `src` into `dst`, in order. */
  function MergeInto(dst: Dict<Json>, src: Dict<Json>): Result<Dict<Json>, MergeError>
    decreases src, 0
  {
    if src == [] then Success(dst)
    else
      var e := src[0];
      if e.value.JObj? then
        match MergeValue(Get(dst, e.key), e.value.fields)
        case Failure(err) => Failure(err)
        case Success(t) => MergeInto(Set(dst, e.key, t), src[1..])
      else MergeInto(Set(dst, e.key, e.value), src[1..])
  }

  /** The value under a key after `if kk not in dst: dst[kk] = {}` and
      `deep_merge(dst[kk], vv)`. On a value that is not a dict, the loop of
      `deep_merge` fails on the first entry of `vv` and does nothing when
      `vv` is empty. */
  function MergeValue(target: Option<Json>, src: Dict<Json>): Result<Json, MergeError>
    decreases src, 1
  {
    match target
    case None =>
      (match MergeInto([], src)
       case Failure(err) => Failure(err)
       case Success(fs) => Success(JObj(fs)))
    case Some(t) =>
      if t.JObj? then
        (match MergeInto(t.fields, src)
         case Failure(err) => Failure(err)
         case Success(fs) => Success(JObj(fs)))
      else if src == [] then Success(t)
      else Failure(TypeError)
  }

  /** `deep_merge`, with its loop over `src` and its recursion into nested
      dicts. */
  method DeepMerge(dst: Dict<Json>, src: Dict<Json>) returns (r: Result<Dict<Json>, MergeError>)
    ensures r == MergeInto(dst, src)
    decreases src, 0
  {
    var cur := dst;
    var i := 0;
    while i < |src|
      invariant 0 <= i <= |src|
      invariant MergeInto(cur, src[i..]) == MergeInto(dst, src)
    {
      var kk := src[i].key;
      var vv := src[i].value;
      assert src[i..][0] == src[i] && src[i..][1..] == src[i + 1..];
      if vv.JObj? {
        var sub := DeepMergeValue(Get(cur, kk), vv.fields);
        if sub.Failure? {
          return Failure(sub.error);
        }
        cur := Set(cur, kk, sub.value);
      } else {
        cur := Set(cur, kk, vv);
      }
      i := i + 1;
    }
    r := Success(cur);
  }

  method DeepMergeValue(target: Option<Json>, src: Dict<Json>) returns (r: Result<Json, MergeError>)
    ensures r == MergeValue(target, src)
    decreases src, 1
  {
    if target.None? || target.value.JObj? {
      var fs := if target.None? then [] else target.value.fields;
      var m := DeepMerge(fs, src);
      if m.Failure? {
        return Failure(m.error);
      }
      return Success(JObj(m.value));
    } else if src == [] {
      return Success(target.value);
    } else {
      return Failure(TypeError);
    }
  }

  /** Whether merging `src` into `dst` meets a non-empty dict to merge into
      a value that is not a dict. */
  predicate Conflict(dst: Dict<Json>, src: Dict<Json>)
    decreases src, 0
  {
    exists i :: 0 <= i < |src| && src[i].value.JObj? && ConflictAt(Get(dst, src[i].key), src[i].value.fields)
  }

  predicate ConflictAt(target: Option<Json>, src: Dict<Json>)
    decreases src, 1
  {
    match target
    case None => Conflict([], src)
    case Some(t) => if t.JObj? then Conflict(t.fields, src) else src != []
  }

  /** One entry fewer to merge: the tail of a well-formed dict is
      well-formed and does not hold the head's key. */
  lemma WellFormedTail(src: Dict<Json>)
    requires src != [] && WellFormed(JObj(src))
    ensures WellFormed(JObj(src[1..])) && WellFormed(src[0].value) && src[0].key !in Keys(src[1..])
  {
    assert forall i :: 0 <= i < |src[1..]| ==> src[1..][i] == src[i + 1];
  }

  lemma ConflictCons(dst: Dict<Json>, src: Dict<Json>)
    requires src != []
    ensures Conflict(dst, src) ==
      ((src[0].value.JObj? && ConflictAt(Get(dst, src[0].key), src[0].value.fields)) || Conflict(dst, src[1..]))
  {
    if Conflict(dst, src[1..]) {
      var i :| 0 <= i < |src[1..]| && src[1..][i].value.JObj? && ConflictAt(Get(dst, src[1..][i].key), src[1..][i].value.fields);
      assert src[i + 1] == src[1..][i];
    }
    if Conflict(dst, src) {
      var i :| 0 <= i < |src| && src[i].value.JObj? && ConflictAt(Get(dst, src[i].key), src[i].value.fields);
      if i > 0 {
        assert src[1..][i - 1] == src[i];
      }
    }
  }

  /** Whether there is a conflict depends on the keys of `src` only. */
  lemma ConflictFrame(d: Dict<Json>, d': Dict<Json>, src: Dict<Json>)
    requires forall i :: 0 <= i < |src| ==> Get(d, src[i].key) == Get(d', src[i].key)
    ensures Conflict(d, src) == Conflict(d', src)
  {
  }

  /** Merging fails exactly when it meets a non-empty dict to merge into a
      value that is not a dict. */
  lemma {:induction false} MergeFails(dst: Dict<Json>, src: Dict<Json>)
    requires WellFormed(JObj(src))
    ensures MergeInto(dst, src).Failure? <==> Conflict(dst, src)
    decreases src, 0
  {
    if src != [] {
      var e := src[0];
      var rest := src[1..];
      WellFormedTail(src);
      ConflictCons(dst, src);
      var t := e.value;
      if e.value.JObj? {
        MergeValueFails(Get(dst, e.key), e.value.fields);
        if MergeValue(Get(dst, e.key), e.value.fields).Success? {
          t := MergeValue(Get(dst, e.key), e.value.fields).value;
        }
      }
      if !(e.value.JObj? && MergeValue(Get(dst, e.key), e.value.fields).Failure?) {
        var dst1 := Set(dst, e.key, t);
        MergeFails(dst1, rest);
        assert forall i :: 0 <= i < |rest| ==> rest[i].key != e.key;
        ConflictFrame(dst1, dst, rest);
      }
    }
  }

  lemma {:induction false} MergeValueFails(target: Option<Json>, src: Dict<Json>)
    requires WellFormed(JObj(src))
    ensures MergeValue(target, src).Failure? <==> ConflictAt(target, src)
    decreases src, 1
  {
    match target
    case None => MergeFails([], src);
    case Some(t) =>
      if t.JObj? {
        MergeFails(t.fields, src);
      }
  }

  /** A key that `src` does not hold keeps its value. */
  lemma {:induction false} MergeKeepsOther(dst: Dict<Json>, src: Dict<Json>, k: string)
    requires MergeInto(dst, src).Success? && k !in Keys(src)
    ensures Get(MergeInto(dst, src).value, k) == Get(dst, k)
    decreases src
  {
    if src != [] {
      var e := src[0];
      assert Keys(src) == [e.key] + Keys(src[1..]);
      var t := if e.value.JObj? then MergeValue(Get(dst, e.key), e.value.fields).value else e.value;
      MergeKeepsOther(Set(dst, e.key, t), src[1..], k);
    }
  }

  /** Merging into a dict that holds none of the keys of `src` appends a
      copy of `src`; in particular merging into `{}` gives `src` back. */
  lemma {:induction false} MergeIntoFresh(dst: Dict<Json>, src: Dict<Json>)
    requires WellFormed(JObj(src)) && forall i :: 0 <= i < |src| ==> src[i].key !in Keys(dst)
    ensures MergeInto(dst, src) == Success(dst + src)
    decreases src, 0
  {
    if src == [] {
      assert dst + src == dst;
    } else {
      var e := src[0];
      var rest := src[1..];
      WellFormedTail(src);
      if e.value.JObj? {
        MergeIntoFresh([], e.value.fields);
        assert [] + e.value.fields == e.value.fields;
      }
      MergeHeadFresh(dst, src);
      KeysSnoc(dst, e);
      assert forall i :: 0 <= i < |rest| ==> rest[i] == src[i + 1];
      MergeIntoFresh(dst + [e], rest);
      ConsAppend(dst, src);
    }
  }

  lemma ConsAppend<T>(a: seq<T>, b: seq<T>)
    requires b != []
    ensures (a + [b[0]]) + b[1..] == a + b
  {
    assert b == [b[0]] + b[1..];
  }

  /** The first step of merging into a dict without the first key. */
  lemma MergeHeadFresh(dst: Dict<Json>, src: Dict<Json>)
    requires src != [] && src[0].key !in Keys(dst)
    requires src[0].value.JObj? ==> MergeInto([], src[0].value.fields) == Success(src[0].value.fields)
    ensures MergeInto(dst, src) == MergeInto(dst + [src[0]], src[1..])
  {
    var e := src[0];
    SetAppends(dst, e.key, e.value);
    assert Get(dst, e.key) == None;
  }

  /** Looking a path up starts at the value under its first key. */
  lemma LookupFirst(d: Dict<Json>, d': Dict<Json>, q: seq<string>)
    requires q != [] && Get(d, q[0]) == Get(d', q[0])
    ensures LookupPath(JObj(d), q) == LookupPath(JObj(d'), q)
  {
  }

  /** Every non-dict value of `src` ends up at its path. */
  lemma {:induction false} MergeLeaf(dst: Dict<Json>, src: Dict<Json>, q: seq<string>, v: Json)
    requires WellFormed(JObj(src)) && MergeInto(dst, src).Success?
    requires q != [] && LookupPath(JObj(src), q) == Some(v) && !v.JObj?
    ensures LookupPath(JObj(MergeInto(dst, src).value), q) == Some(v)
    decreases src, 0
  {
    var e := src[0];
    var rest := src[1..];
    WellFormedTail(src);
    var t := if e.value.JObj? then MergeValue(Get(dst, e.key), e.value.fields).value else e.value;
    var dst1 := Set(dst, e.key, t);
    if e.key != q[0] {
      LookupFirst(src, rest, q);
      MergeLeaf(dst1, rest, q, v);
    } else {
      MergeKeepsOther(dst1, rest, q[0]);
      var r := MergeInto(dst, src).value;
      assert LookupPath(JObj(r), q) == LookupPath(t, q[1..]);
      assert LookupPath(JObj(src), q) == LookupPath(e.value, q[1..]);
      if |q| > 1 {
        MergeValueLeaf(Get(dst, e.key), e.value.fields, q[1..], v);
      }
    }
  }

  lemma {:induction false} MergeValueLeaf(target: Option<Json>, src: Dict<Json>, q: seq<string>, v: Json)
    requires WellFormed(JObj(src)) && MergeValue(target, src).Success?
    requires q != [] && LookupPath(JObj(src), q) == Some(v) && !v.JObj?
    ensures LookupPath(MergeValue(target, src).value, q) == Some(v)
    decreases src, 1
  {
    match target
    case None => MergeLeaf([], src, q, v);
    case Some(t) =>
      if t.JObj? {
        MergeLeaf(t.fields, src, q, v);
      }
  }

  /** `q` leaves the tree of `src` at a dict that does not hold its next key. */
  predicate OutsideSrc(src: Dict<Json>, q: seq<string>)
    decreases |q|
  {
    q != [] &&
    (q[0] !in Keys(src) || (Get(src, q[0]).value.JObj? && OutsideSrc(Get(src, q[0]).value.fields, q[1..])))
  }

  /** Paths of `dst` that `src` does not reach keep their value. */
  lemma {:induction false} MergeUntouched(dst: Dict<Json>, src: Dict<Json>, q: seq<string>)
    requires WellFormed(JObj(src)) && MergeInto(dst, src).Success? && OutsideSrc(src, q)
    ensures LookupPath(JObj(MergeInto(dst, src).value), q) == LookupPath(JObj(dst), q)
    decreases src, 0
  {
    if src != [] {
      var e := src[0];
      var rest := src[1..];
      WellFormedTail(src);
      var t := if e.value.JObj? then MergeValue(Get(dst, e.key), e.value.fields).value else e.value;
      var dst1 := Set(dst, e.key, t);
      assert Keys(src) == [e.key] + Keys(rest);
      if e.key != q[0] {
        assert Get(src, q[0]) == Get(rest, q[0]);
        MergeUntouched(dst1, rest, q);
        LookupFirst(dst1, dst, q);
      } else {
        MergeKeepsOther(dst1, rest, q[0]);
        var r := MergeInto(dst, src).value;
        assert LookupPath(JObj(r), q) == LookupPath(t, q[1..]);
        MergeValueUntouched(Get(dst, e.key), e.value.fields, q[1..]);
      }
    }
  }

  lemma {:induction false} MergeValueUntouched(target: Option<Json>, src: Dict<Json>, q: seq<string>)
    requires WellFormed(JObj(src)) && MergeValue(target, src).Success? && OutsideSrc(src, q)
    ensures LookupPath(MergeValue(target, src).value, q) ==
      if target.Some? then LookupPath(target.value, q) else None
    decreases src, 1
  {
    match target
    case None =>
      MergeUntouched([], src, q);
    case Some(t) =>
      if t.JObj? {
        MergeUntouched(t.fields, src, q);
      }
  }
}
