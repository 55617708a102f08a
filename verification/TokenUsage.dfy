/** JSON values as the runner reads them, and the token usage it extracts from an API reply. */
module TokenUsage {
  import opened Wrappers

  /** The object keys the tools look up; any other key is kept as text. */
  datatype Name =
    | PromptTokensKey | CompletionTokensKey | TotalTokensKey | ReasoningTokensKey | CachedPromptTokensKey
    | InputTokensKey | OutputTokensKey | CachedTokensKey
    | PromptDetailsKey | InputDetailsKey | CompletionDetailsKey | OutputDetailsKey
    | ReturnCodeKey | PassedKey | CompileKey | MapSetupKey | LoadKey
    | SuccessLogChecksKey | SourceSemanticsKey | FunctionalKey | MapUpdatesKey
    | OtherKey(text: string)

  /** `JOther` stands for strings and for numbers that are not integers. */
  datatype Json =
    | JNull
    | JBool(flag: bool)
    | JInt(number: int)
    | JOther
    | JList(items: seq<Json>)
    | JObject(fields: map<Name, Json>)
  {
    /** dict.get: absent keys, and everything in what is not an object, read as null. */
    function Get(key: Name): Json {
      if JObject? && key in fields then fields[key] else JNull
    }
  }

  datatype Field = PromptTokens | CompletionTokens | TotalTokens | ReasoningTokens | CachedPromptTokens

  const FIELDS: seq<Field> := [PromptTokens, CompletionTokens, TotalTokens, ReasoningTokens, CachedPromptTokens]

  function KeyOf(field: Field): Name {
    match field
    case PromptTokens => PromptTokensKey
    case CompletionTokens => CompletionTokensKey
    case TotalTokens => TotalTokensKey
    case ReasoningTokens => ReasoningTokensKey
    case CachedPromptTokens => CachedPromptTokensKey
  }

  /** The non-negative integer at the end of a path of keys; booleans are not integers here. */
  function NestedInt(value: Json, path: seq<Name>): Option<nat>
    decreases |path|
  {
    if path == [] then
      if value.JInt? && value.number >= 0 then Some(value.number) else None
    else if !value.JObject? then None
    else NestedInt(value.Get(path[0]), path[1..])
  }

  function FirstReportedInt(value: Json, paths: seq<seq<Name>>): Option<nat> {
    if paths == [] then None
    else
      var r := NestedInt(value, paths[0]);
      if r.Some? then r else FirstReportedInt(value, paths[1..])
  }

  /** Where each field may be found in the usage object of an API. */
  function PathsOf(field: Field): seq<seq<Name>> {
    match field
    case PromptTokens => [[PromptTokensKey], [InputTokensKey]]
    case CompletionTokens => [[CompletionTokensKey], [OutputTokensKey]]
    case TotalTokens => [[TotalTokensKey]]
    case ReasoningTokens =>
      [[CompletionDetailsKey, ReasoningTokensKey],
       [OutputDetailsKey, ReasoningTokensKey],
       [ReasoningTokensKey]]
    case CachedPromptTokens => [[PromptDetailsKey, CachedTokensKey], [InputDetailsKey, CachedTokensKey]]
  }

  function Number(value: Option<nat>): Json {
    if value.Some? then JInt(value.value) else JNull
  }

  function Reported(raw: Json, field: Field): Option<nat> {
    FirstReportedInt(raw, PathsOf(field))
  }

  /** The normalized usage object, or null when the API reports nothing usable. */
  function NormalizeTokenUsage(raw: Json): Json {
    if !raw.JObject? || forall f :: f in FIELDS ==> Reported(raw, f).None? then JNull
    else
      JObject(map[
        KeyOf(PromptTokens) := Number(Reported(raw, PromptTokens)),
        KeyOf(CompletionTokens) := Number(Reported(raw, CompletionTokens)),
        KeyOf(TotalTokens) := Number(Reported(raw, TotalTokens)),
        KeyOf(ReasoningTokens) := Number(Reported(raw, ReasoningTokens)),
        KeyOf(CachedPromptTokens) := Number(Reported(raw, CachedPromptTokens))])
  }

  /** What the auditor demands of one field of a recorded usage object. */
  predicate WellFormedField(usage: Json, field: Field)
    requires usage.JObject?
  {
    KeyOf(field) in usage.fields
    && (usage.Get(KeyOf(field)) == JNull ||
        (usage.Get(KeyOf(field)).JInt? && usage.Get(KeyOf(field)).number >= 0))
  }

  /** Path `i` is the first that leads to a usable integer, which is `n`. */
  ghost predicate FirstUsable(value: Json, paths: seq<seq<Name>>, i: int, n: nat) {
    && 0 <= i < |paths| && NestedInt(value, paths[i]) == Some(n)
    && forall j :: 0 <= j < i ==> NestedInt(value, paths[j]).None?
  }

  lemma {:induction false} FirstReportedIs(value: Json, paths: seq<seq<Name>>, n: nat)
    ensures FirstReportedInt(value, paths) == Some(n) <==> exists i :: FirstUsable(value, paths, i, n)
    ensures FirstReportedInt(value, paths) == None <==>
      forall i :: 0 <= i < |paths| ==> NestedInt(value, paths[i]).None?
  {
    if paths != [] {
      FirstReportedIs(value, paths[1..], n);
      if NestedInt(value, paths[0]).Some? {
        if NestedInt(value, paths[0]).value == n { assert FirstUsable(value, paths, 0, n); }
      } else {
        if i :| FirstUsable(value, paths[1..], i, n) {
          forall j | 0 <= j < i + 1 ensures NestedInt(value, paths[j]).None? {
            if j > 0 { assert paths[1..][j - 1] == paths[j]; }
          }
          assert FirstUsable(value, paths, i + 1, n);
        }
        if i :| FirstUsable(value, paths, i, n) {
          forall j | 0 <= j < i - 1 ensures NestedInt(value, paths[1..][j]).None? {
            assert paths[1..][j] == paths[j + 1];
          }
          assert FirstUsable(value, paths[1..], i - 1, n);
        }
        assert forall i :: 1 <= i < |paths| ==> paths[i] == paths[1..][i - 1];
      }
    }
  }

  /** A field of a normalized object passes the audit.  It holds the integer of the first path at which
      the API reports a usable one, and null iff there is no such path. */
  lemma NormalizedFields(raw: Json, field: Field, n: nat)
    requires NormalizeTokenUsage(raw).JObject?
    ensures WellFormedField(NormalizeTokenUsage(raw), field)
    ensures NormalizeTokenUsage(raw).Get(KeyOf(field)) == JInt(n) <==>
      exists i :: FirstUsable(raw, PathsOf(field), i, n)
    ensures NormalizeTokenUsage(raw).Get(KeyOf(field)) == JNull <==>
      forall i :: 0 <= i < |PathsOf(field)| ==> NestedInt(raw, PathsOf(field)[i]).None?
  {
    FieldIsReported(raw, field);
    FirstReportedIs(raw, PathsOf(field), n);
  }

  lemma FieldIsReported(raw: Json, field: Field)
    requires NormalizeTokenUsage(raw).JObject?
    ensures WellFormedField(NormalizeTokenUsage(raw), field)
    ensures NormalizeTokenUsage(raw).Get(KeyOf(field)) == Number(Reported(raw, field))
  {
  }

  /** A non-negative integer. */
  predicate IsCount(value: Json) { value.JInt? && value.number >= 0 }

  /** The first of the values that is a count, null if none is. */
  function FirstCount(values: seq<Json>): Json {
    if values == [] then JNull else if IsCount(values[0]) then values[0] else FirstCount(values[1..])
  }

  function CountAt(value: Json): Option<nat> { if IsCount(value) then Some(value.number) else None }

  lemma OneKey(raw: Json, key: Name)
    requires raw.JObject?
    ensures NestedInt(raw, [key]) == CountAt(raw.Get(key))
  {
    assert [key][1..] == [];
  }

  lemma TwoKeys(raw: Json, outer: Name, inner: Name)
    requires raw.JObject?
    ensures NestedInt(raw, [outer, inner]) == CountAt(raw.Get(outer).Get(inner))
  {
    assert [outer, inner][1..] == [inner];
    if raw.Get(outer).JObject? { OneKey(raw.Get(outer), inner); }
  }

  lemma FirstStep(raw: Json, p: seq<Name>, paths: seq<seq<Name>>, x: Json, values: seq<Json>)
    requires NestedInt(raw, p) == CountAt(x) && Number(FirstReportedInt(raw, paths)) == FirstCount(values)
    ensures Number(FirstReportedInt(raw, [p] + paths)) == FirstCount([x] + values)
  {
    assert ([p] + paths)[1..] == paths && ([x] + values)[1..] == values;
  }

  lemma FirstOfOne(raw: Json, p: seq<Name>, x: Json)
    requires NestedInt(raw, p) == CountAt(x)
    ensures Number(FirstReportedInt(raw, [p])) == FirstCount([x])
  {
    FirstStep(raw, p, [], x, []);
    assert [p] + [] == [p] && [x] + [] == [x];
  }

  lemma FirstOfTwo(raw: Json, p: seq<Name>, q: seq<Name>, x: Json, y: Json)
    requires NestedInt(raw, p) == CountAt(x) && NestedInt(raw, q) == CountAt(y)
    ensures Number(FirstReportedInt(raw, [p, q])) == FirstCount([x, y])
  {
    FirstOfOne(raw, q, y);
    FirstStep(raw, p, [q], x, [y]);
    assert [p] + [q] == [p, q] && [x] + [y] == [x, y];
  }

  lemma OneOrTwoKeys(raw: Json, field: Field, a: Name, b: Name)
    requires NormalizeTokenUsage(raw).JObject? && PathsOf(field) == [[a], [b]]
    ensures NormalizeTokenUsage(raw).Get(KeyOf(field)) == FirstCount([raw.Get(a), raw.Get(b)])
  {
    FieldIsReported(raw, field);
    OneKey(raw, a);
    OneKey(raw, b);
    FirstOfTwo(raw, [a], [b], raw.Get(a), raw.Get(b));
  }

  lemma TotalKey(raw: Json)
    requires NormalizeTokenUsage(raw).JObject?
    ensures NormalizeTokenUsage(raw).Get(TotalTokensKey) == FirstCount([raw.Get(TotalTokensKey)])
  {
    FieldIsReported(raw, TotalTokens);
    OneKey(raw, TotalTokensKey);
    FirstOfOne(raw, [TotalTokensKey], raw.Get(TotalTokensKey));
  }

  lemma CachedKeys(raw: Json)
    requires NormalizeTokenUsage(raw).JObject?
    ensures NormalizeTokenUsage(raw).Get(CachedPromptTokensKey) == FirstCount(
              [raw.Get(PromptDetailsKey).Get(CachedTokensKey), raw.Get(InputDetailsKey).Get(CachedTokensKey)])
  {
    FieldIsReported(raw, CachedPromptTokens);
    TwoKeys(raw, PromptDetailsKey, CachedTokensKey);
    TwoKeys(raw, InputDetailsKey, CachedTokensKey);
    FirstOfTwo(raw, [PromptDetailsKey, CachedTokensKey], [InputDetailsKey, CachedTokensKey],
               raw.Get(PromptDetailsKey).Get(CachedTokensKey), raw.Get(InputDetailsKey).Get(CachedTokensKey));
  }

  lemma ReasoningKeys(raw: Json)
    requires NormalizeTokenUsage(raw).JObject?
    ensures NormalizeTokenUsage(raw).Get(ReasoningTokensKey) == FirstCount(
              [raw.Get(CompletionDetailsKey).Get(ReasoningTokensKey),
               raw.Get(OutputDetailsKey).Get(ReasoningTokensKey), raw.Get(ReasoningTokensKey)])
  {
    FieldIsReported(raw, ReasoningTokens);
    TwoKeys(raw, CompletionDetailsKey, ReasoningTokensKey);
    TwoKeys(raw, OutputDetailsKey, ReasoningTokensKey);
    OneKey(raw, ReasoningTokensKey);
    var p, q, r :=
      [CompletionDetailsKey, ReasoningTokensKey], [OutputDetailsKey, ReasoningTokensKey], [ReasoningTokensKey];
    var x, y, z := raw.Get(CompletionDetailsKey).Get(ReasoningTokensKey),
                   raw.Get(OutputDetailsKey).Get(ReasoningTokensKey), raw.Get(ReasoningTokensKey);
    FirstOfTwo(raw, q, r, y, z);
    FirstStep(raw, p, [q, r], x, [y, z]);
    assert [p] + [q, r] == [p, q, r] && [x] + [y, z] == [x, y, z];
  }

  /** Which keys of the reply each field is read from, and in which order. */
  lemma FieldsOfReply(raw: Json)
    requires NormalizeTokenUsage(raw).JObject?
    ensures var n := NormalizeTokenUsage(raw);
      && n.Get(PromptTokensKey) == FirstCount([raw.Get(PromptTokensKey), raw.Get(InputTokensKey)])
      && n.Get(CompletionTokensKey) == FirstCount([raw.Get(CompletionTokensKey), raw.Get(OutputTokensKey)])
      && n.Get(TotalTokensKey) == FirstCount([raw.Get(TotalTokensKey)])
      && n.Get(ReasoningTokensKey) == FirstCount(
           [raw.Get(CompletionDetailsKey).Get(ReasoningTokensKey), raw.Get(OutputDetailsKey).Get(ReasoningTokensKey),
            raw.Get(ReasoningTokensKey)])
      && n.Get(CachedPromptTokensKey) == FirstCount(
           [raw.Get(PromptDetailsKey).Get(CachedTokensKey), raw.Get(InputDetailsKey).Get(CachedTokensKey)])
  {
    OneOrTwoKeys(raw, PromptTokens, PromptTokensKey, InputTokensKey);
    OneOrTwoKeys(raw, CompletionTokens, CompletionTokensKey, OutputTokensKey);
    TotalKey(raw);
    ReasoningKeys(raw);
    CachedKeys(raw);
  }

  /** There is no normalized object iff the API reports no usable integer at any path of any field. */
  lemma NormalizedIsNullIff(raw: Json)
    ensures NormalizeTokenUsage(raw) == JNull <==>
      !raw.JObject? ||
      forall f, i :: f in FIELDS && 0 <= i < |PathsOf(f)| ==> NestedInt(raw, PathsOf(f)[i]).None?
  {
    forall f | f in FIELDS
      ensures Reported(raw, f).None? <==> forall i :: 0 <= i < |PathsOf(f)| ==> NestedInt(raw, PathsOf(f)[i]).None?
    {
      FirstReportedIs(raw, PathsOf(f), 0);
    }
  }

  /** The recorded copy of the API usage normalizes like the original. */
  lemma NormalizeKeepsNormalized(raw: Json)
    ensures NormalizeTokenUsage(if raw.JObject? then raw else JNull) == NormalizeTokenUsage(raw)
  {
  }
}
