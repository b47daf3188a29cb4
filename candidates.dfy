/**
 * `extract_candidates_rules`: every rule's result under its dotted target
 * key, in the order the function assigns them, with the absent results
 * filtered out at the end.
 */
module Candidates {
  import opened Wrappers
  import opened Text
  import opened Json
  import opened Schema
  import opened Rules
  import opened Weights
  import opened Packaging

  // ---------- the labels of each rule ----------

  const ShipmentNoLabels: seq<string> := ["Shipment No", "Shipment Number", "Shipment#"]
  const OrderNoLabels: seq<string> := ["Order No", "Order Number", "Ord. Nr"]
  const CustomerPoLabels: seq<string> := ["Customer PO", "Customer Order", "PO Number"]
  const DeliveryNoLabels: seq<string> := ["Delivery No", "Delivery Number"]
  const CustomerNoLabels: seq<string> := ["Customer No", "Customer Number", "Customer ID"]
  const LoadingDateLabels: seq<string> := ["Loading Date", "Load Date"]
  const DeliveryDateLabels: seq<string> := ["Scheduled Delivery Date", "Delivery Date", "ETA"]
  const IncotermsLabels: seq<string> := ["Incoterms", "Incoterm"]
  const ForwardingLabels: seq<string> := ["Way of Forwarding", "Mode of Transport"]
  const BlTypeLabels: seq<string> := ["B/L Type", "Bill of Lading Type"]
  const NetWeightPatterns: seq<string> := ["Net Weight", "Net Wt"]
  const GrossWeightPatterns: seq<string> := ["Gross Weight", "Gross Wt"]
  const DescriptionLabels: seq<string> := ["Cargo Description", "Description of Goods", "Commodity"]
  const MarksLabels: seq<string> := ["Marks", "Marks & Numbers", "Shipping Marks"]
  const LabellingLabels: seq<string> := ["Labelling", "Labeling", "Labels"]

  // ---------- building the dict ----------

  /** `{k: v for k, v in candidates.items() if v is not None}`. */
  function Present<V>(d: Dict<Option<V>>): (r: Dict<V>)
    ensures forall i :: 0 <= i < |r| ==> Entry(r[i].key, Some(r[i].value)) in d
  {
    if d == [] then []
    else
      var rest := Present(d[1..]);
      assert forall e :: e in d[1..] ==> e in d;
      if d[0].value.Some? then [Entry(d[0].key, d[0].value.value)] + rest else rest
  }

  /** The filter keeps exactly the present values, under their keys. */
  lemma {:induction false} PresentGet<V>(d: Dict<Option<V>>, k: string)
    requires DistinctKeys(d)
    ensures Get(Present(d), k) == if Get(d, k).Some? then Get(d, k).value else None
  {
    if d != [] {
      var tail := d[1..];
      assert DistinctKeys(tail) by {
        assert forall i :: 0 <= i < |tail| ==> tail[i] == d[i + 1];
      }
      PresentGet(tail, k);
      var rest := Present(tail);
      if d[0].key == k {
        assert Get(d, k) == Some(d[0].value);
        if d[0].value.None? {
          assert Present(d) == rest;
          assert k !in Keys(tail) by {
            forall i | 0 <= i < |tail|
              ensures Keys(tail)[i] != k
            {
              assert tail[i] == d[i + 1];
            }
          }
        }
      } else {
        assert Get(d, k) == Get(tail, k);
      }
    }
  }

  /** The filter keeps the keys distinct. */
  lemma {:induction false} PresentDistinct<V>(d: Dict<Option<V>>)
    requires DistinctKeys(d)
    ensures DistinctKeys(Present(d))
  {
    if d != [] {
      assert DistinctKeys(d[1..]) by {
        assert forall i :: 0 <= i < |d[1..]| ==> d[1..][i] == d[i + 1];
      }
      PresentDistinct(d[1..]);
      var rest := Present(d[1..]);
      forall i | 0 <= i < |rest|
        ensures rest[i].key != d[0].key
      {
        assert Entry(rest[i].key, Some(rest[i].value)) in d[1..];
      }
    }
  }

  /** The entries of a dict display `{keys[0]: vals[0], ...}`. */
  function Entries<V>(keys: seq<string>, vals: seq<V>): (r: seq<Entry<V>>)
    requires |keys| == |vals|
    ensures |r| == |keys| && forall i :: 0 <= i < |keys| ==> r[i] == Entry(keys[i], vals[i])
  {
    seq(|keys|, i requires 0 <= i < |keys| => Entry(keys[i], vals[i]))
  }

  /** Assignments made only when the value is present (`if desc: ...`). */
  function Conditional<V>(keys: seq<string>, vals: seq<Option<V>>): (r: seq<Entry<Option<V>>>)
    requires |keys| == |vals|
    ensures forall e :: e in r ==> exists i :: 0 <= i < |keys| && e == Entry(keys[i], vals[i]) && vals[i].Some?
  {
    if keys == [] then []
    else
      var rest := Conditional(keys[1..], vals[1..]);
      assert forall i :: 1 <= i < |keys| ==> keys[i] == keys[1..][i - 1] && vals[i] == vals[1..][i - 1];
      (if vals[0].Some? then [Entry(keys[0], vals[0])] else []) + rest
  }

  /** No key occurs twice in a list of keys. */
  predicate Distinct(keys: seq<string>)
  {
    forall i, j :: 0 <= i < j < |keys| ==> keys[i] != keys[j]
  }

  lemma DistinctTail(keys: seq<string>)
    requires keys != [] && Distinct(keys)
    ensures Distinct(keys[1..]) && keys[0] !in keys[1..]
  {
    assert forall i :: 0 <= i < |keys[1..]| ==> keys[1..][i] == keys[i + 1];
  }

  /** After the display, each of its keys holds its value. */
  lemma {:induction false} EntriesGet<V>(d: Dict<V>, keys: seq<string>, vals: seq<V>, m: nat)
    requires |keys| == |vals| && Distinct(keys) && m < |keys|
    ensures Get(Assign(d, Entries(keys, vals)), keys[m]) == Some(vals[m])
    decreases |keys|
  {
    var es := Entries(keys, vals);
    var d' := Set(d, keys[0], vals[0]);
    assert es[1..] == Entries(keys[1..], vals[1..]);
    DistinctTail(keys);
    if m == 0 {
      EntriesOther(d', keys[1..], vals[1..], keys[0]);
    } else {
      assert keys[1..][m - 1] == keys[m] && vals[1..][m - 1] == vals[m];
      EntriesGet(d', keys[1..], vals[1..], m - 1);
    }
  }

  /** The display leaves every other key alone. */
  lemma {:induction false} EntriesOther<V>(d: Dict<V>, keys: seq<string>, vals: seq<V>, k: string)
    requires |keys| == |vals| && k !in keys
    ensures Get(Assign(d, Entries(keys, vals)), k) == Get(d, k)
    decreases |keys|
  {
    if keys != [] {
      var es := Entries(keys, vals);
      assert es[1..] == Entries(keys[1..], vals[1..]);
      assert k !in keys[1..];
      EntriesOther(Set(d, keys[0], vals[0]), keys[1..], vals[1..], k);
    }
  }

  /** After the conditional assignments, a key holds its value when that is
      present, and what it held before otherwise. */
  lemma {:induction false} ConditionalGet<V>(d: Dict<Option<V>>, keys: seq<string>, vals: seq<Option<V>>, m: nat)
    requires |keys| == |vals| && Distinct(keys) && m < |keys|
    ensures Get(Assign(d, Conditional(keys, vals)), keys[m]) == if vals[m].Some? then Some(vals[m]) else Get(d, keys[m])
    decreases |keys|
  {
    var head := if vals[0].Some? then [Entry(keys[0], vals[0])] else [];
    var rest := Conditional(keys[1..], vals[1..]);
    AssignAppend(d, head, rest);
    var d' := Assign(d, head);
    if vals[0].Some? {
      AssignOne(d, Entry(keys[0], vals[0]));
    }
    DistinctTail(keys);
    if m == 0 {
      ConditionalOther(d', keys[1..], vals[1..], keys[0]);
    } else {
      assert keys[1..][m - 1] == keys[m] && vals[1..][m - 1] == vals[m];
      ConditionalGet(d', keys[1..], vals[1..], m - 1);
    }
  }

  /** The conditional assignments leave every other key alone. */
  lemma {:induction false} ConditionalOther<V>(d: Dict<Option<V>>, keys: seq<string>, vals: seq<Option<V>>, k: string)
    requires |keys| == |vals| && k !in keys
    ensures Get(Assign(d, Conditional(keys, vals)), k) == Get(d, k)
    decreases |keys|
  {
    if keys != [] {
      var head := if vals[0].Some? then [Entry(keys[0], vals[0])] else [];
      AssignAppend(d, head, Conditional(keys[1..], vals[1..]));
      if vals[0].Some? {
        AssignOne(d, Entry(keys[0], vals[0]));
      }
      assert k !in keys[1..];
      ConditionalOther(Assign(d, head), keys[1..], vals[1..], k);
    }
  }

  // ---------- the candidates ----------

  function StrValue(v: Option<string>): (r: Option<Json>)
    ensures r.Some? <==> v.Some?
    ensures r.Some? ==> r.value == JStr(v.value)
  {
    match v
    case None => None
    case Some(s) => Some(JStr(s))
  }

  /** The target key of every rule, in the order `extract_candidates_rules`
      assigns them: the ten keys of the dict display, the two weights, then
      the four keys assigned only when their rule found something. */
  const CandidateKeys: seq<string> :=
    [ Key("refs", "shipment_no"), Key("refs", "order_no_internal"), Key("refs", "customer_po"),
      Key("refs", "delivery_no"), Key("refs", "customer_no"), Key("refs", "loading_date"),
      Key("refs", "scheduled_delivery_date"), Key("shipping", "incoterms"),
      Key("shipping", "way_of_forwarding"), Key("bl", "type"),
      Key("cargo", "net_kg"), Key("cargo", "gross_kg"),
      Key("cargo", "description"), Key("cargo", "packaging"), Key("marks", "carton_marks"),
      Key("marks", "labelling") ]

  /** How many of them are assigned unconditionally. */
  const Unconditional: nat := 12

  /** The three kinds of rule: a labelled field (`find_val`), a weight
      (`find_weight`) and the packaging block. */
  datatype Rule = Field(labels: seq<string>) | Weight(patterns: seq<string>) | PackagingBlock

  /** The rule of every key, in the order of `CandidateKeys`. */
  const CandidateRules: seq<Rule> :=
    [ Field(ShipmentNoLabels), Field(OrderNoLabels), Field(CustomerPoLabels), Field(DeliveryNoLabels),
      Field(CustomerNoLabels), Field(LoadingDateLabels), Field(DeliveryDateLabels),
      Field(IncotermsLabels), Field(ForwardingLabels), Field(BlTypeLabels),
      Weight(NetWeightPatterns), Weight(GrossWeightPatterns),
      Field(DescriptionLabels), PackagingBlock, Field(MarksLabels), Field(LabellingLabels) ]

  /** What one rule finds in the text. */
  function RuleValue(text: string, rule: Rule): (r: Option<Json>)
  {
    match rule
    case Field(labels) => StrValue(FindVal(text, labels))
    case Weight(patterns) => FindWeight(text, patterns)
    case PackagingBlock => PackagingValue(text)
  }

  /** What every rule found, in the order of `CandidateKeys`. */
  function RuleValues(text: string): (r: seq<Option<Json>>)
    ensures |r| == |CandidateKeys|
    ensures forall j :: 0 <= j < |CandidateKeys| ==> r[j] == RuleValue(text, CandidateRules[j])
  {
    seq(|CandidateRules|, j requires 0 <= j < |CandidateRules| => RuleValue(text, CandidateRules[j]))
  }

  /** The dict display over the first `u` keys, then the conditional
      assignments of the others. */
  function Assigned<V>(keys: seq<string>, u: nat, vals: seq<Option<V>>): Dict<Option<V>>
    requires |vals| == |keys| && u <= |keys|
  {
    var display := Assign([], Entries(keys[..u], vals[..u]));
    Assign(display, Conditional(keys[u..], vals[u..]))
  }

  /** `candidates` just before the final filter, for the rule results `vals`. */
  function CandidatesOf(vals: seq<Option<Json>>): Dict<Option<Json>>
    requires |vals| == |CandidateKeys|
  {
    Assigned(CandidateKeys, Unconditional, vals)
  }

  /** The filtered dict, for the rule results `vals`. */
  function HitsOf(vals: seq<Option<Json>>): Dict<Json>
    requires |vals| == |CandidateKeys|
  {
    Present(CandidatesOf(vals))
  }

  /** What `extract_candidates_rules` returns. */
  function RuleHits(text: string): Dict<Json>
  {
    HitsOf(RuleValues(text))
  }

  /** A proof device, not part of the program: a short fingerprint of a key,
      its length and two of its characters. Distinct fingerprints give
      distinct keys far more cheaply than comparing the sixteen strings pair
      by pair. */
  function Fingerprint(k: string): (int, char, char)
  {
    if |k| >= 7 then (|k|, k[6], k[|k| - 2]) else (|k|, ' ', ' ')
  }

  function Fingerprints(keys: seq<string>): (r: seq<(int, char, char)>)
    ensures |r| == |keys| && forall i :: 0 <= i < |keys| ==> r[i] == Fingerprint(keys[i])
  {
    seq(|keys|, i requires 0 <= i < |keys| => Fingerprint(keys[i]))
  }

  const KeyFingerprints: seq<(int, char, char)> :=
    [(16, 'h', 'n'), (22, 'r', 'a'), (16, 'u', 'p'), (16, 'e', 'n'), (16, 'u', 'n'), (17, 'o', 't'),
     (28, 'c', 't'), (18, 'n', 'm'), (26, 'n', 'n'), (7, 'e', 'p'), (12, 'n', 'k'), (14, 'g', 'k'),
     (17, 'd', 'o'), (15, 'p', 'n'), (18, 'c', 'k'), (15, 'l', 'n')]

  lemma FingerprintsOfCandidateKeys()
    ensures Fingerprints(CandidateKeys) == KeyFingerprints
  {
  }

  lemma KeyFingerprintsDistinct()
    ensures forall i, j :: 0 <= i < j < |KeyFingerprints| ==> KeyFingerprints[i] != KeyFingerprints[j]
  {
  }

  /** The sixteen target keys are different from each other: already their
      fingerprints are. */
  lemma CandidateKeysDistinct()
    ensures Distinct(CandidateKeys)
  {
    FingerprintsOfCandidateKeys();
    KeyFingerprintsDistinct();
    var f := Fingerprints(CandidateKeys);
    assert forall i, j :: 0 <= i < j < |CandidateKeys| ==> f[i] != f[j];
  }

  /** Every candidate key is a target key. */
  lemma CandidateKeysAreTargets()
    ensures forall i :: 0 <= i < |CandidateKeys| ==> CandidateKeys[i] in TargetKeys
  {
    assert RefsFields[0] == "shipment_no" && RefsFields[1] == "order_no_internal" && RefsFields[2] == "customer_po";
    assert RefsFields[3] == "delivery_no" && RefsFields[4] == "customer_no" && RefsFields[5] == "loading_date";
    assert RefsFields[6] == "scheduled_delivery_date";
    assert ShippingFields[1] == "incoterms" && ShippingFields[2] == "way_of_forwarding" && BlFields[0] == "type";
    assert CargoFields[0] == "description" && CargoFields[1] == "packaging";
    assert CargoFields[2] == "net_kg" && CargoFields[3] == "gross_kg";
    assert MarksFields[0] == "carton_marks" && MarksFields[1] == "labelling";
  }

  lemma AssignedDistinct<V>(keys: seq<string>, u: nat, vals: seq<Option<V>>)
    requires |vals| == |keys| && u <= |keys|
    ensures DistinctKeys(Assigned(keys, u, vals))
  {
    var display := Assign([], Entries(keys[..u], vals[..u]));
    AssignDistinct([], Entries(keys[..u], vals[..u]));
    AssignDistinct(display, Conditional(keys[u..], vals[u..]));
  }

  /** Each key holds its value (one past `u` only when it is present). */
  lemma AssignedGet<V>(keys: seq<string>, u: nat, vals: seq<Option<V>>, j: nat)
    requires |vals| == |keys| && u <= |keys| && Distinct(keys) && j < |keys|
    ensures Get(Assigned(keys, u, vals), keys[j]) ==
      if j < u || vals[j].Some? then Some(vals[j]) else None
  {
    var k := keys[j];
    var ks1, ks2 := keys[..u], keys[u..];
    var vs1, vs2 := vals[..u], vals[u..];
    assert forall i :: 0 <= i < |ks2| ==> ks2[i] == keys[u + i];
    assert Distinct(ks1) && Distinct(ks2);
    var display := Assign([], Entries(ks1, vs1));
    if j < u {
      EntriesGet([], ks1, vs1, j);
      ConditionalOther(display, ks2, vs2, k);
    } else {
      assert ks2[j - u] == k && vs2[j - u] == vals[j];
      ConditionalGet(display, ks2, vs2, j - u);
      EntriesOther([], ks1, vs1, k);
    }
  }

  /** No other key is present. */
  lemma AssignedOther<V>(keys: seq<string>, u: nat, vals: seq<Option<V>>, k: string)
    requires |vals| == |keys| && u <= |keys| && k !in keys
    ensures Get(Assigned(keys, u, vals), k) == None
  {
    var ks1, ks2 := keys[..u], keys[u..];
    assert k !in ks1 && k !in ks2;
    var display := Assign([], Entries(ks1, vals[..u]));
    EntriesOther([], ks1, vals[..u], k);
    ConditionalOther(display, ks2, vals[u..], k);
  }

  /** The result holds each rule's result under its key, when present, and
      nothing under any other key; its keys are distinct. */
  lemma HitsOfGet(vals: seq<Option<Json>>, k: string)
    requires |vals| == |CandidateKeys|
    ensures DistinctKeys(HitsOf(vals))
    ensures forall j :: 0 <= j < |CandidateKeys| && CandidateKeys[j] == k ==> Get(HitsOf(vals), k) == vals[j]
    ensures k !in CandidateKeys ==> Get(HitsOf(vals), k) == None
  {
    AssignedDistinct(CandidateKeys, Unconditional, vals);
    PresentDistinct(CandidatesOf(vals));
    PresentGet(CandidatesOf(vals), k);
    if k in CandidateKeys {
      CandidateKeysDistinct();
      forall j | 0 <= j < |CandidateKeys| && CandidateKeys[j] == k
        ensures Get(HitsOf(vals), k) == vals[j]
      {
        AssignedGet(CandidateKeys, Unconditional, vals, j);
      }
    } else {
      AssignedOther(CandidateKeys, Unconditional, vals, k);
    }
  }

  /** Every entry of the result is the result of one rule, under that
      rule's key. */
  lemma HitsOfEntries(vals: seq<Option<Json>>)
    requires |vals| == |CandidateKeys|
    ensures forall i :: 0 <= i < |HitsOf(vals)| ==>
              exists j :: 0 <= j < |CandidateKeys| && CandidateKeys[j] == HitsOf(vals)[i].key
                          && vals[j] == Some(HitsOf(vals)[i].value)
  {
    var h := HitsOf(vals);
    forall i | 0 <= i < |h|
      ensures exists j :: 0 <= j < |CandidateKeys| && CandidateKeys[j] == h[i].key && vals[j] == Some(h[i].value)
    {
      HitsOfGet(vals, h[i].key);
      GetAt(h, i);
      var j :| 0 <= j < |CandidateKeys| && CandidateKeys[j] == h[i].key;
      assert vals[j] == Some(h[i].value);
    }
  }

  /** A value the rules produce: a string, a number or a non-empty list of
      strings, never a dict and never null. */
  predicate IsLeaf(v: Json)
  {
    v.JStr? || v.JNum? || (v.JList? && v.items != [] && forall i :: 0 <= i < |v.items| ==> v.items[i].JStr?)
  }

  /** A string rule yields a field value, a weight rule a number, the
      packaging rule a non-empty list of strings. */
  lemma RuleValueLeaf(text: string, rule: Rule)
    ensures RuleValue(text, rule).Some? ==> IsLeaf(RuleValue(text, rule).value)
    ensures rule.Field? && RuleValue(text, rule).Some? ==> RuleValue(text, rule).value.JStr? && IsFieldValue(RuleValue(text, rule).value.s)
    ensures rule.Weight? && RuleValue(text, rule).Some? ==> RuleValue(text, rule).value.JNum?
  {
  }

  lemma RuleValuesLeaves(text: string)
    ensures forall j :: 0 <= j < |CandidateKeys| && RuleValues(text)[j].Some? ==> IsLeaf(RuleValues(text)[j].value)
  {
    forall j | 0 <= j < |CandidateKeys| && RuleValues(text)[j].Some?
      ensures IsLeaf(RuleValues(text)[j].value)
    {
      RuleValueLeaf(text, CandidateRules[j]);
    }
  }

  /** `extract_candidates_rules` returns a dict with distinct target keys,
      each holding a leaf value. */
  lemma RuleHitsShape(text: string)
    ensures DistinctKeys(RuleHits(text))
    ensures forall i :: 0 <= i < |RuleHits(text)| ==> RuleHits(text)[i].key in TargetKeys
    ensures forall i :: 0 <= i < |RuleHits(text)| ==> IsLeaf(RuleHits(text)[i].value)
  {
    var vals := RuleValues(text);
    HitsOfGet(vals, "");
    HitsOfEntries(vals);
    RuleValuesLeaves(text);
    CandidateKeysAreTargets();
  }

  /** `extract_candidates_rules` keeps each rule's result under its key when
      the rule found something, and no other key. */
  lemma RuleHitsGet(text: string, j: nat)
    requires j < |CandidateKeys|
    ensures Get(RuleHits(text), CandidateKeys[j]) == RuleValues(text)[j]
  {
    HitsOfGet(RuleValues(text), CandidateKeys[j]);
  }
}
