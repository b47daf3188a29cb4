/**
 * The merge and confidence steps of `main`: the rule hits are written into
 * a nested dict with `merge_dict_path` and get confidence 0.95; the answer
 * of the language model is merged in with `deep_merge`; every flattened
 * target key without a confidence then gets 0.75; the confidence map is
 * stored under `_confidence` and popped again by `validate_and_score`.
 */
module Scoring {
  import opened Wrappers
  import opened Json
  import opened Schema
  import opened Paths
  import opened Merge
  import opened Candidates

  /** The two confidences the program gives: 0.95 for a rule hit and 0.75
      for a target key filled in afterwards. */
  datatype Confidence = RuleHit | Filled

  /** A confidence as the JSON number it is written as. */
  function ConfidenceValue(c: Confidence): (r: Json)
    ensures r.JNum? && r.scale == 2
    ensures r.mantissa == if c == RuleHit then 95 else 75
  {
    match c
    case RuleHit => JNum(95, 2)
    case Filled => JNum(75, 2)
  }

  /** The confidence map as a JSON dict. */
  function ConfidenceJson(conf: Dict<Confidence>): (r: Dict<Json>)
    ensures |r| == |conf| && forall i :: 0 <= i < |conf| ==> r[i] == Entry(conf[i].key, ConfidenceValue(conf[i].value))
  {
    seq(|conf|, i requires 0 <= i < |conf| => Entry(conf[i].key, ConfidenceValue(conf[i].value)))
  }

  /** Looking a key up in the JSON form of the map. */
  lemma {:induction false} ConfidenceJsonGet(conf: Dict<Confidence>, k: string)
    ensures Get(ConfidenceJson(conf), k) == if Get(conf, k).Some? then Some(ConfidenceValue(Get(conf, k).value)) else None
  {
    if conf != [] {
      ConfidenceJsonGet(conf[1..], k);
      assert ConfidenceJson(conf)[1..] == ConfidenceJson(conf[1..]);
    }
  }

  /** `{k: 0.95 for k in rule_hits.keys()}`. */
  function InitialConfidence(hits: Dict<Json>): (r: Dict<Confidence>)
    ensures |r| == |hits| && forall i :: 0 <= i < |hits| ==> r[i] == Entry(hits[i].key, RuleHit)
  {
    seq(|hits|, i requires 0 <= i < |hits| => Entry(hits[i].key, RuleHit))
  }

  /** Every rule hit, and nothing else, starts with confidence 0.95. */
  lemma InitialConfidenceGet(hits: Dict<Json>, k: string)
    ensures Get(InitialConfidence(hits), k) == if k in Keys(hits) then Some(RuleHit) else None
  {
    var conf := InitialConfidence(hits);
    assert Keys(conf) == Keys(hits);
  }

  /** The loop over `rule_hits.items()` that calls `merge_dict_path`. */
  method MergeHits(hits: Dict<Json>) returns (partial: Dict<Json>)
    ensures partial == BuildPartial(hits)
  {
    partial := [];
    var i := 0;
    while i < |hits|
      invariant 0 <= i <= |hits|
      invariant partial == BuildPartial(hits[..i])
    {
      assert hits[..i + 1][..i] == hits[..i] && hits[..i + 1][i] == hits[i];
      partial := MergeDictPath(partial, hits[i].key, hits[i].value);
      i := i + 1;
    }
    assert hits[..|hits|] == hits;
  }

  /** The confidence map after the loop over `keys`: a target key without a
      confidence gets 0.75. */
  function FillFrom(conf: Dict<Confidence>, keys: seq<string>): Dict<Confidence>
    decreases |keys|
  {
    if keys == [] then conf
    else
      var k := keys[0];
      FillFrom(if k !in Keys(conf) && k in TargetKeys then Set(conf, k, Filled) else conf, keys[1..])
  }

  /** `for k in flat: if k not in conf and k in TARGET_KEYS: conf[k] = 0.75`. */
  method FillConfidence(conf: Dict<Confidence>, keys: seq<string>) returns (r: Dict<Confidence>)
    ensures r == FillFrom(conf, keys)
  {
    r := conf;
    var i := 0;
    while i < |keys|
      invariant 0 <= i <= |keys|
      invariant FillFrom(r, keys[i..]) == FillFrom(conf, keys)
    {
      var k := keys[i];
      assert keys[i..][0] == k && keys[i..][1..] == keys[i + 1..];
      if k !in Keys(r) && k in TargetKeys {
        r := Set(r, k, Filled);
      }
      i := i + 1;
    }
  }

  /** The fill never changes a confidence that is there, and gives 0.75 to
      exactly the target keys of `keys` that had none. */
  lemma {:induction false} FillFromGet(conf: Dict<Confidence>, keys: seq<string>, k: string)
    ensures Get(FillFrom(conf, keys), k) ==
      if Get(conf, k).Some? then Get(conf, k)
      else if k in keys && k in TargetKeys then Some(Filled)
      else None
    decreases |keys|
  {
    if keys != [] {
      var k0 := keys[0];
      var conf' := if k0 !in Keys(conf) && k0 in TargetKeys then Set(conf, k0, Filled) else conf;
      FillFromGet(conf', keys[1..], k);
      assert k in keys <==> k == k0 || k in keys[1..];
    }
  }

  datatype ScoreError =
    | NotADict            // `(ai_resp or {}).items()` on a value that is not a dict
    | MergeFailed(err: MergeError)

  /** Python's truth value of a JSON value. */
  predicate Truthy(j: Json)
  {
    match j
    case JNull => false
    case JBool(b) => b
    case JNum(m, _) => m != 0
    case JStr(s) => s != ""
    case JList(xs) => xs != []
    case JObj(fs) => fs != []
  }

  /** `ai_resp or {}` as the dict that `deep_merge` iterates over. */
  function SourceDict(aiResp: Json): (r: Result<Dict<Json>, ScoreError>)
    ensures r.Failure? <==> Truthy(aiResp) && !aiResp.JObj?
    ensures r.Success? && aiResp.JObj? ==> r.value == aiResp.fields
    ensures r.Success? && !aiResp.JObj? ==> r.value == []
  {
    if !Truthy(aiResp) then Success([])
    else if aiResp.JObj? then Success(aiResp.fields)
    else Failure(NotADict)
  }

  /** `partial` after `partial = deep_merge(partial, ai_resp or {})`. */
  function Merged(hits: Dict<Json>, aiResp: Json): Result<Dict<Json>, ScoreError>
  {
    match SourceDict(aiResp)
    case Failure(e) => Failure(e)
    case Success(src) =>
      match MergeInto(BuildPartial(hits), src)
      case Failure(e) => Failure(MergeFailed(e))
      case Success(m) => Success(m)
  }

  /** `conf` after the fill over the keys of `flatten(partial)`. */
  function ConfidenceOf(hits: Dict<Json>, merged: Dict<Json>): Dict<Confidence>
  {
    FillFrom(InitialConfidence(hits), Keys(Flatten(JObj(merged), "")))
  }

  /** `validate_and_score` without the schema model: `d.pop("_confidence", {})`
      and the rest of the dict. */
  function ValidateAndScore(d: Dict<Json>): (r: (Dict<Json>, Json))
    ensures Get(r.0, "_confidence") == None
    ensures forall k :: k != "_confidence" ==> Get(r.0, k) == Get(d, k)
    ensures r.1 == if Get(d, "_confidence").Some? then Get(d, "_confidence").value else JObj([])
  {
    (Remove(d, "_confidence"), match Get(d, "_confidence") case Some(c) => c case None => JObj([]))
  }

  /** What `main` hands on: the dict for the schema model and the
      confidence map. */
  function Scored(hits: Dict<Json>, aiResp: Json): Result<(Dict<Json>, Json), ScoreError>
  {
    match Merged(hits, aiResp)
    case Failure(e) => Failure(e)
    case Success(m) =>
      Success(ValidateAndScore(Set(m, "_confidence", JObj(ConfidenceJson(ConfidenceOf(hits, m))))))
  }

  /** The merge and confidence part of `main`, step by step. */
  method MergeAndScore(hits: Dict<Json>, aiResp: Json) returns (r: Result<(Dict<Json>, Json), ScoreError>)
    ensures r == Scored(hits, aiResp)
  {
    var partial := MergeHits(hits);
    var conf := InitialConfidence(hits);
    var src: Dict<Json>;
    if !Truthy(aiResp) {
      src := [];
    } else if aiResp.JObj? {
      src := aiResp.fields;
    } else {
      return Failure(NotADict);
    }
    var merged := DeepMerge(partial, src);
    if merged.Failure? {
      return Failure(MergeFailed(merged.error));
    }
    partial := merged.value;
    var flat := FlattenDict(JObj(partial), "");
    conf := FillConfidence(conf, Keys(flat));
    partial := Set(partial, "_confidence", JObj(ConfidenceJson(conf)));
    var model := Remove(partial, "_confidence");
    var confmap := if Get(partial, "_confidence").Some? then Get(partial, "_confidence").value else JObj([]);
    r := Success((model, confmap));
  }

  /** Every rule hit has confidence 0.95, whatever the model answered, every
      other flattened target key 0.75, and no other key has one. */
  lemma ConfidenceOfGet(hits: Dict<Json>, merged: Dict<Json>, k: string)
    ensures Get(ConfidenceOf(hits, merged), k) ==
      if k in Keys(hits) then Some(RuleHit)
      else if k in Keys(Flatten(JObj(merged), "")) && k in TargetKeys then Some(Filled)
      else None
  {
    InitialConfidenceGet(hits, k);
    FillFromGet(InitialConfidence(hits), Keys(Flatten(JObj(merged), "")), k);
  }

  /** With rule hits on target keys only, every key with a confidence is a
      target key. */
  lemma ConfidenceKeysAreTargets(hits: Dict<Json>, merged: Dict<Json>)
    requires forall i :: 0 <= i < |hits| ==> hits[i].key in TargetKeys
    ensures forall i :: 0 <= i < |ConfidenceOf(hits, merged)| ==> ConfidenceOf(hits, merged)[i].key in TargetKeys
  {
    var conf := ConfidenceOf(hits, merged);
    forall i | 0 <= i < |conf|
      ensures conf[i].key in TargetKeys
    {
      var k := conf[i].key;
      assert k in Keys(conf);
      ConfidenceOfGet(hits, merged, k);
    }
  }

  /** The confidence map that comes out is the one put in, the dict handed
      on no longer holds it, and every other key is the merged value. */
  lemma ScoredShape(hits: Dict<Json>, aiResp: Json)
    requires Scored(hits, aiResp).Success?
    ensures var m := Merged(hits, aiResp).value;
            var (model, confmap) := Scored(hits, aiResp).value;
            confmap == JObj(ConfidenceJson(ConfidenceOf(hits, m))) &&
            Get(model, "_confidence") == None &&
            forall k :: k != "_confidence" ==> Get(model, k) == Get(m, k)
  {
  }

  /** The confidence map `main` writes out: 0.95 for every rule hit, 0.75
      for every other target key of the flattened merge, nothing else. */
  lemma ScoredConfidence(hits: Dict<Json>, aiResp: Json, k: string)
    requires Scored(hits, aiResp).Success?
    ensures var m := Merged(hits, aiResp).value;
            var confmap := Scored(hits, aiResp).value.1;
            confmap.JObj? &&
            Get(confmap.fields, k) ==
              if k in Keys(hits) then Some(JNum(95, 2))
              else if k in Keys(Flatten(JObj(m), "")) && k in TargetKeys then Some(JNum(75, 2))
              else None
  {
    var m := Merged(hits, aiResp).value;
    ScoredShape(hits, aiResp);
    ConfidenceJsonGet(ConfidenceOf(hits, m), k);
    ConfidenceOfGet(hits, m, k);
  }

  /** The whole part fails exactly when the model's answer is a truthy
      value that is not a dict, or merging it meets a non-empty dict to
      merge into a value that is not a dict. */
  lemma ScoredFails(hits: Dict<Json>, aiResp: Json)
    requires WellFormed(aiResp)
    ensures Scored(hits, aiResp).Failure? <==>
      (Truthy(aiResp) && !aiResp.JObj?) || (aiResp.JObj? && Conflict(BuildPartial(hits), aiResp.fields))
  {
    match SourceDict(aiResp)
    case Failure(_) =>
    case Success(src) =>
      assert WellFormed(JObj(src));
      MergeFails(BuildPartial(hits), src);
  }

  /** The rule hits of a text are distinct section keys holding leaves. */
  lemma RuleHitsAreSectionHits(text: string)
    ensures SectionHits(RuleHits(text))
  {
    RuleHitsShape(text);
    TargetKeysShape();
  }

  /** Without an answer from the model, the hits are flattened back
      unchanged, so each of them, and nothing else, has confidence 0.95. */
  lemma NoAnswerOnlyHits(hits: Dict<Json>, k: string)
    requires SectionHits(hits)
    ensures Merged(hits, JNull) == Success(BuildPartial(hits))
    ensures Get(ConfidenceOf(hits, BuildPartial(hits)), k) == if k in Keys(hits) then Some(RuleHit) else None
  {
    ConfidenceOfGet(hits, BuildPartial(hits), k);
    FlattenBuildPartial(hits, k);
  }

  /** The same for the rule hits of a text. */
  lemma RuleHitsOnly(text: string, k: string)
    ensures Merged(RuleHits(text), JNull) == Success(BuildPartial(RuleHits(text)))
    ensures Get(ConfidenceOf(RuleHits(text), BuildPartial(RuleHits(text))), k) ==
      if k in Keys(RuleHits(text)) then Some(RuleHit) else None
  {
    RuleHitsAreSectionHits(text);
    NoAnswerOnlyHits(RuleHits(text), k);
  }
}
