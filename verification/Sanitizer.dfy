/** The evidence sanitiser: a bounded, secret-free copy of a JSON-like tree. */
module Sanitizer {
  import opened Core
  import opened EvidenceKeys

  const MAX_STRING: nat := 400
  const MAX_LIST: nat := 12
  const MAX_DEPTH: nat := 3

  const TOO_DEEP := "[omitted: nested too deep]"
  const NOT_SERIALISABLE := "[omitted: not serialisable]"
  const PLACEHOLDER := "[omitted: instruction-like text]"

  /** A string list is a list type of its own; any other value type is judged by its JSON form, if it has one. */
  datatype Json =
    | Null
    | Bool(b: bool)
    | Number(n: int)
    | Str(s: string)
    | Obj(fields: map<string, Json>)
    | Arr(items: seq<Json>)
    | Strings(ss: seq<string>)
    | Other(json: Option<Json>)

  /** The text matcher for instructions, whatever its patterns. */
  type Matcher = string -> bool

  function Neutralized(fires: Matcher, s: string): string {
    if fires(s) then PLACEHOLDER else s
  }

  function Truncated(s: string): string {
    if |s| <= MAX_STRING then s else s[..MAX_STRING] + ['\U{2026}']
  }

  function Clean(fires: Matcher, s: string): string {
    Truncated(Neutralized(fires, s))
  }

  function Shorter(n: nat): nat {
    if n > MAX_LIST then MAX_LIST else n
  }

  function CleanList(fires: Matcher, ss: seq<string>): seq<Json> {
    seq(Shorter(|ss|), i requires 0 <= i < |ss| => Str(Clean(fires, ss[i])))
  }

  /** What is left of the fields of an object whose values lie at `depth`. */
  function Fields(fires: Matcher, v: Json, depth: nat): map<string, Json>
    requires v.Obj?
    decreases v, 0
  {
    map k | k in v.fields && k in Kept(v.fields.Keys) :: Sanitized(fires, v.fields[k], depth)
  }

  function Sanitized(fires: Matcher, v: Json, depth: nat): Json
    decreases v, 1
  {
    match v
    case Null => v
    case Bool(_) => v
    case Number(_) => v
    case Str(s) => Str(Clean(fires, s))
    case Obj(_) => if depth >= MAX_DEPTH then Str(TOO_DEEP) else Obj(Fields(fires, v, depth + 1))
    case Arr(items) =>
      if depth >= MAX_DEPTH then Str(TOO_DEEP)
      else Arr(seq(Shorter(|items|), i requires 0 <= i < |items| => Sanitized(fires, items[i], depth + 1)))
    case Strings(ss) => Arr(CleanList(fires, ss))
    case Other(None) => Str(NOT_SERIALISABLE)
    case Other(Some(json)) => Sanitized(fires, json, depth)
  }

  function Evidence(fires: Matcher, fields: map<string, Json>): map<string, Json> {
    Fields(fires, Obj(fields), 1)
  }

  // ---- the recursive methods ----

  method SanitizeEvidence(fires: Matcher, fields: map<string, Json>) returns (out: map<string, Json>)
    ensures out == Evidence(fires, fields)
  {
    out := SanitizeMap(fires, Obj(fields), 1);
  }

  method SanitizeMap(fires: Matcher, v: Json, depth: nat) returns (out: map<string, Json>)
    requires v.Obj?
    ensures out == Fields(fires, v, depth)
    decreases v, 0
  {
    hide Kept, Sanitized;
    var fields := v.fields;
    KeptAreTheSmallest(fields.Keys);
    var ks := SelectKeys(fields.Keys);
    out := map[];
    for i := 0 to |ks|
      invariant out.Keys == Elements(ks[..i])
      invariant forall k :: k in out ==> k in fields && out[k] == Sanitized(fires, fields[k], depth)
    {
      var k := ks[i];
      assert k in Elements(ks);
      var x := SanitizeValue(fires, fields[k], depth);
      assert ks[..i + 1] == ks[..i] + [k];
      out := out[k := x];
    }
    assert ks[..|ks|] == ks;
    assert forall k :: k in out <==> k in Kept(fields.Keys);
  }

  method SanitizeValue(fires: Matcher, v: Json, depth: nat) returns (out: Json)
    ensures out == Sanitized(fires, v, depth)
    decreases v, 1
  {
    hide Fields, Kept;
    match v
    case Str(s) =>
      out := Str(Truncated(Neutralized(fires, s)));
    case Obj(_) =>
      if depth >= MAX_DEPTH {
        return Str(TOO_DEEP);
      }
      var fields := SanitizeMap(fires, v, depth + 1);
      out := Obj(fields);
    case Arr(items) =>
      if depth >= MAX_DEPTH {
        return Str(TOO_DEEP);
      }
      var n := if |items| > MAX_LIST then MAX_LIST else |items|;
      var list := [];
      for i := 0 to n
        invariant |list| == i && forall j :: 0 <= j < i ==> list[j] == Sanitized(fires, items[j], depth + 1)
      {
        var x := SanitizeValue(fires, items[i], depth + 1);
        list := list + [x];
      }
      out := Arr(list);
    case Strings(ss) =>
      var n := if |ss| > MAX_LIST then MAX_LIST else |ss|;
      var list := [];
      for i := 0 to n
        invariant |list| == i && forall j :: 0 <= j < i ==> list[j] == Str(Clean(fires, ss[j]))
      {
        list := list + [Str(Truncated(Neutralized(fires, ss[i])))];
      }
      out := Arr(list);
    case Other(None) =>
      out := Str(NOT_SERIALISABLE);
    case Other(Some(json)) =>
      out := SanitizeValue(fires, json, depth);
    case _ =>
      out := v;
  }

  // ---- bounds ----

  predicate ShortStr(v: Json) {
    v.Str? && |v.s| <= MAX_STRING + 1
  }

  /** What may come out at a depth: short strings, small containers of such values above the depth limit, no
      secret-like key anywhere; at the limit only scalars, and string lists, which never nest. */
  predicate Bounded(v: Json, depth: nat) {
    match v
    case Null => true
    case Bool(_) => true
    case Number(_) => true
    case Str(s) => |s| <= MAX_STRING + 1
    case Obj(fields) =>
      && depth < MAX_DEPTH
      && |fields| <= MAX_KEYS
      && (forall k :: k in fields ==> !IsSecretKey(k))
      && (forall k :: k in fields ==> Bounded(fields[k], depth + 1))
    case Arr(items) =>
      && |items| <= MAX_LIST
      && if depth < MAX_DEPTH then forall i :: 0 <= i < |items| ==> Bounded(items[i], depth + 1)
         else forall i :: 0 <= i < |items| ==> ShortStr(items[i])
    case Strings(_) => false
    case Other(_) => false
  }

  lemma CleanIsShort(fires: Matcher, s: string)
    ensures |Clean(fires, s)| <= MAX_STRING + 1
  {
  }

  /** For every input tree whatever, of any depth and width. */
  lemma {:induction false} SanitizedIsBounded(fires: Matcher, v: Json, depth: nat)
    ensures Bounded(Sanitized(fires, v, depth), depth)
    decreases v, 1
  {
    hide Kept, IsSecretKey, Fields, Clean;
    match v
    case Str(s) =>
      CleanIsShort(fires, s);
    case Strings(ss) =>
      forall i | 0 <= i < |ss| ensures |Clean(fires, ss[i])| <= MAX_STRING + 1 {
        CleanIsShort(fires, ss[i]);
      }
    case Obj(_) =>
      if depth < MAX_DEPTH {
        FieldsAreBounded(fires, v, depth + 1);
      }
    case Arr(items) =>
      forall i | 0 <= i < |items| ensures Bounded(Sanitized(fires, items[i], depth + 1), depth + 1) {
        SanitizedIsBounded(fires, items[i], depth + 1);
      }
    case Other(Some(json)) =>
      SanitizedIsBounded(fires, json, depth);
    case _ =>
  }

  lemma {:induction false} FieldsAreBounded(fires: Matcher, v: Json, depth: nat)
    requires v.Obj?
    ensures var out := Fields(fires, v, depth);
      && out.Keys == Kept(v.fields.Keys)
      && |out| <= MAX_KEYS
      && (forall k :: k in out ==> !IsSecretKey(k))
      && (forall k :: k in out ==> Bounded(out[k], depth))
    decreases v, 0
  {
    hide Kept, Sanitized, Bounded;
    KeptAreTheSmallest(v.fields.Keys);
    var out := Fields(fires, v, depth);
    assert out.Keys == Kept(v.fields.Keys);
    forall k | k in out ensures Bounded(out[k], depth) {
      SanitizedIsBounded(fires, v.fields[k], depth);
    }
  }

  /** Number of values, not counting containers that hold others; a list at the depth limit counts as one. */
  ghost function Leaves(v: Json, depth: nat): nat
    decreases v, 1, 0
  {
    match v
    case Obj(fields) => if fields == map[] then 1 else FieldLeaves(v, fields.Keys, depth)
    case Arr(items) => if items == [] || depth >= MAX_DEPTH then 1 else ItemLeaves(v, |items|, depth)
    case _ => 1
  }

  ghost function FieldLeaves(v: Json, keys: set<string>, depth: nat): nat
    requires v.Obj? && keys <= v.fields.Keys
    decreases v, 0, |keys|
  {
    if keys == {} then 0
    else
      var k :| k in keys;
      Leaves(v.fields[k], depth + 1) + FieldLeaves(v, keys - {k}, depth)
  }

  ghost function ItemLeaves(v: Json, n: nat, depth: nat): nat
    requires v.Arr? && n <= |v.items|
    decreases v, 0, n
  {
    if n == 0 then 0 else ItemLeaves(v, n - 1, depth) + Leaves(v.items[n - 1], depth + 1)
  }

  /** The most leaves a bounded value at this depth can have. */
  function Capacity(depth: nat): nat {
    if depth >= 3 then 1 else if depth == 2 then 24 else if depth == 1 then 576 else 13824
  }

  lemma {:induction false} LeavesFit(v: Json, depth: nat)
    requires Bounded(v, depth)
    ensures Leaves(v, depth) <= Capacity(depth)
    decreases v, 1, 0
  {
    match v
    case Obj(fields) =>
      if fields != map[] {
        assert |fields.Keys| == |fields|;
        FieldLeavesFit(v, fields.Keys, depth);
      }
    case Arr(items) =>
      if items != [] && depth < MAX_DEPTH {
        ItemLeavesFit(v, |items|, depth);
      }
    case _ =>
  }

  lemma {:induction false} FieldLeavesFit(v: Json, keys: set<string>, depth: nat)
    requires v.Obj? && keys <= v.fields.Keys && Bounded(v, depth)
    ensures FieldLeaves(v, keys, depth) <= |keys| * Capacity(depth + 1)
    decreases v, 0, |keys|
  {
    hide Bounded, Capacity, Leaves;
    if keys != {} {
      var k :| k in keys && FieldLeaves(v, keys, depth) == Leaves(v.fields[k], depth + 1)
          + FieldLeaves(v, keys - {k}, depth);
      FieldIsBounded(v, k, depth);
      LeavesFit(v.fields[k], depth + 1);
      FieldLeavesFit(v, keys - {k}, depth);
      assert |keys| == |keys - {k}| + 1;
      OneMoreTimes(|keys - {k}|, Capacity(depth + 1));
    }
  }

  lemma FieldIsBounded(v: Json, k: string, depth: nat)
    requires v.Obj? && k in v.fields && Bounded(v, depth)
    ensures Bounded(v.fields[k], depth + 1)
  {
  }

  lemma OneMoreTimes(n: nat, capacity: nat)
    ensures (n + 1) * capacity == n * capacity + capacity
  {
  }

  lemma {:induction false} ItemLeavesFit(v: Json, n: nat, depth: nat)
    requires v.Arr? && n <= |v.items| && Bounded(v, depth) && depth < MAX_DEPTH
    ensures ItemLeaves(v, n, depth) <= n * Capacity(depth + 1)
    decreases v, 0, n
  {
    if n > 0 {
      LeavesFit(v.items[n - 1], depth + 1);
      ItemLeavesFit(v, n - 1, depth);
    }
  }

  /** Whatever evidence goes in, at most 24^3 values come out. */
  lemma EvidenceIsBounded(fires: Matcher, fields: map<string, Json>)
    ensures var out := Evidence(fires, fields);
      && Bounded(Obj(out), 0)
      && out.Keys == Kept(fields.Keys)
      && Leaves(Obj(out), 0) <= 24 * 24 * 24
  {
    FieldsAreBounded(fires, Obj(fields), 1);
    LeavesFit(Obj(Evidence(fires, fields)), 0);
  }

  // ---- sanitising twice ----

  /** A tree as a JSON decoder produces it. */
  predicate JsonShaped(v: Json) {
    match v
    case Obj(fields) => forall k :: k in fields ==> JsonShaped(fields[k])
    case Arr(items) => forall i :: 0 <= i < |items| ==> JsonShaped(items[i])
    case Strings(_) => false
    case Other(_) => false
    case _ => true
  }

  /** The matcher does not change its mind about a text because it was cut, nor fire on the depth marker. */
  ghost predicate SteadyMatcher(fires: Matcher) {
    && (forall s: string :: |s| > MAX_STRING && !fires(s) ==> !fires(Truncated(s)))
    && !fires(TOO_DEEP)
  }

  lemma CleanTwice(fires: Matcher, s: string)
    requires SteadyMatcher(fires)
    ensures Clean(fires, Clean(fires, s)) == Clean(fires, s)
    ensures Clean(fires, TOO_DEEP) == TOO_DEEP
  {
    if !fires(s) && |s| > MAX_STRING {
      assert Truncated(Truncated(s)) == Truncated(s);
    }
  }

  /** In a place that survives the first pass: a list of strings at the depth limit, or a value without a JSON form
      if the matcher fires on the marker for it. */
  predicate Unstable(fires: Matcher, v: Json, depth: nat)
    decreases v, 1
  {
    match v
    case Strings(_) => depth >= MAX_DEPTH
    case Obj(_) => depth < MAX_DEPTH && UnstableWithin(fires, v, depth + 1)
    case Arr(items) =>
      depth < MAX_DEPTH && exists i :: 0 <= i < Shorter(|items|) && Unstable(fires, items[i], depth + 1)
    case Other(None) => fires(NOT_SERIALISABLE)
    case Other(Some(json)) => Unstable(fires, json, depth)
    case _ => false
  }

  predicate UnstableWithin(fires: Matcher, v: Json, depth: nat)
    requires v.Obj?
    decreases v, 0
  {
    exists k :: k in Kept(v.fields.Keys) && k in v.fields && Unstable(fires, v.fields[k], depth)
  }

  lemma {:induction false} TwiceExactly(fires: Matcher, v: Json, depth: nat)
    requires SteadyMatcher(fires)
    ensures Sanitized(fires, Sanitized(fires, v, depth), depth) == Sanitized(fires, v, depth)
        <==> !Unstable(fires, v, depth)
    decreases v, 1
  {
    hide Kept, Clean, Fields, UnstableWithin, SteadyMatcher;
    CleanTwice(fires, "");
    match v
    case Str(s) =>
      CleanTwice(fires, s);
    case Obj(_) =>
      if depth < MAX_DEPTH {
        FieldsTwiceExactly(fires, v, depth + 1);
      }
    case Arr(items) =>
      if depth < MAX_DEPTH {
        forall i | 0 <= i < |items|
          ensures Sanitized(fires, Sanitized(fires, items[i], depth + 1), depth + 1)
              == Sanitized(fires, items[i], depth + 1)
            <==> !Unstable(fires, items[i], depth + 1)
        {
          TwiceExactly(fires, items[i], depth + 1);
        }
        ListTwiceExactly(fires, items, depth);
      }
    case Strings(ss) =>
      StringsTwice(fires, ss, depth);
    case Other(None) =>
      UnserialisableTwice(fires);
    case Other(Some(json)) =>
      TwiceExactly(fires, json, depth);
    case _ =>
  }

  lemma UnserialisableTwice(fires: Matcher)
    ensures Clean(fires, NOT_SERIALISABLE) == NOT_SERIALISABLE <==> !fires(NOT_SERIALISABLE)
  {
    assert |PLACEHOLDER| != |NOT_SERIALISABLE|;
  }

  lemma StringsTwice(fires: Matcher, ss: seq<string>, depth: nat)
    requires SteadyMatcher(fires)
    ensures Sanitized(fires, Sanitized(fires, Strings(ss), depth), depth) == Sanitized(fires, Strings(ss), depth)
      <==> depth < MAX_DEPTH
  {
    hide Clean, SteadyMatcher;
    var once := Sanitized(fires, Strings(ss), depth);
    if depth < MAX_DEPTH {
      var twice := Sanitized(fires, once, depth);
      forall i | 0 <= i < |once.items| ensures twice.items[i] == once.items[i] {
        CleanTwice(fires, ss[i]);
        assert once.items[i] == Str(Clean(fires, ss[i]));
        assert twice.items[i] == Sanitized(fires, once.items[i], depth + 1);
      }
      assert twice.items == once.items;
    }
  }

  lemma ListTwiceExactly(fires: Matcher, items: seq<Json>, depth: nat)
    requires depth < MAX_DEPTH
    requires forall i :: 0 <= i < |items| ==>
      (Sanitized(fires, Sanitized(fires, items[i], depth + 1), depth + 1) == Sanitized(fires, items[i], depth + 1)
       <==> !Unstable(fires, items[i], depth + 1))
    ensures Sanitized(fires, Sanitized(fires, Arr(items), depth), depth) == Sanitized(fires, Arr(items), depth)
      <==> !Unstable(fires, Arr(items), depth)
  {
    var once := Sanitized(fires, Arr(items), depth);
    var twice := Sanitized(fires, once, depth);
    assert |twice.items| == |once.items| == Shorter(|items|);
    forall i | 0 <= i < |once.items|
      ensures twice.items[i] == once.items[i] <==> !Unstable(fires, items[i], depth + 1)
    {
      assert once.items[i] == Sanitized(fires, items[i], depth + 1);
    }
    assert twice.items == once.items <==> forall i :: 0 <= i < |once.items| ==> twice.items[i] == once.items[i];
  }

  lemma {:induction false} FieldsTwiceExactly(fires: Matcher, v: Json, depth: nat)
    requires v.Obj? && SteadyMatcher(fires)
    ensures Fields(fires, Obj(Fields(fires, v, depth)), depth) == Fields(fires, v, depth)
        <==> !UnstableWithin(fires, v, depth)
    decreases v, 0
  {
    hide Kept, Sanitized, Unstable, SteadyMatcher;
    KeptAreTheSmallest(v.fields.Keys);
    KeptAgain(v.fields.Keys);
    var once := Fields(fires, v, depth);
    var twice := Fields(fires, Obj(once), depth);
    assert once.Keys == Kept(v.fields.Keys);
    assert twice.Keys == Kept(once.Keys);
    forall k | k in once ensures twice[k] == once[k] <==> !Unstable(fires, v.fields[k], depth) {
      TwiceExactly(fires, v.fields[k], depth);
    }
    assert twice == once <==> forall k :: k in once ==> twice[k] == once[k];
  }

  /** Sanitising this evidence twice is the same as sanitising it once. */
  predicate Idempotent(fires: Matcher, fields: map<string, Json>) {
    Evidence(fires, Evidence(fires, fields)) == Evidence(fires, fields)
  }

  /** For every evidence whatever and every steady matcher, sanitising twice equals sanitising once exactly when no
      list of strings survives at the depth limit and the matcher leaves the markers in it alone. */
  lemma StableExactly(fires: Matcher, fields: map<string, Json>)
    requires SteadyMatcher(fires)
    ensures Idempotent(fires, fields)
      <==> !exists k :: k in Kept(fields.Keys) && k in fields && Unstable(fires, fields[k], 1)
  {
    hide Kept, Fields, Unstable, SteadyMatcher;
    FieldsTwiceExactly(fires, Obj(fields), 1);
  }

  lemma {:induction false} JsonIsStable(fires: Matcher, v: Json, depth: nat)
    requires JsonShaped(v)
    ensures !Unstable(fires, v, depth)
    decreases v, 1
  {
    match v
    case Obj(fields) =>
      forall k | k in fields ensures !Unstable(fires, fields[k], depth + 1) {
        JsonIsStable(fires, fields[k], depth + 1);
      }
    case Arr(items) =>
      forall i | 0 <= i < |items| ensures !Unstable(fires, items[i], depth + 1) {
        JsonIsStable(fires, items[i], depth + 1);
      }
    case _ =>
  }

  lemma SanitizedTwice(fires: Matcher, v: Json, depth: nat)
    requires JsonShaped(v) && SteadyMatcher(fires)
    ensures Sanitized(fires, Sanitized(fires, v, depth), depth) == Sanitized(fires, v, depth)
  {
    TwiceExactly(fires, v, depth);
    JsonIsStable(fires, v, depth);
  }

  // ---- exactly when ----

  lemma KeptSingle(k: string)
    requires |k| < 5
    ensures Kept({k}) == {k}
  {
    hide Kept, Surviving;
    MarkersAreLonger();
    assert !IsSecretKey(k);
    SurvivingSingle(k);
  }

  lemma SurvivingSingle(k: string)
    requires !IsSecretKey(k)
    ensures Kept({k}) == {k}
  {
    hide IsSecretKey;
    KeptAreTheSmallest({k});
    assert Surviving({k}) == {k};
    assert Kept({k}) <= {k};
    SubsetOfOne(Kept({k}), k);
  }

  lemma SubsetOfOne(a: set<string>, k: string)
    requires a <= {k} && |a| == 1
    ensures a == {k}
  {
    var x :| x in a;
    assert x == k;
  }

  lemma MarkersAreLonger()
    ensures forall i :: 0 <= i < |SECRET_MARKERS| ==> |SECRET_MARKERS[i]| >= 5
  {
  }

  function Single(v: Json): map<string, Json> {
    map["a" := v]
  }

  lemma FieldsOfSingle(fires: Matcher, v: Json, depth: nat)
    ensures Fields(fires, Obj(Single(v)), depth) == Single(Sanitized(fires, v, depth))
  {
    hide Kept, Sanitized;
    KeptSingle("a");
    assert Single(v).Keys == {"a"};
  }

  function Nested(): map<string, Json> {
    Single(Obj(Single(Obj(Single(Obj(map[]))))))
  }

  /** A map nested four deep comes out with the marker in it. */
  lemma EvidenceOfNested(fires: Matcher)
    ensures Evidence(fires, Nested()) == Single(Obj(Single(Obj(Single(Str(TOO_DEEP))))))
    ensures Evidence(fires, Evidence(fires, Nested())) == Single(Obj(Single(Obj(Single(Str(Clean(fires, TOO_DEEP)))))))
  {
    hide Fields, Clean;
    FieldsOfSingle(fires, Obj(map[]), 3);
    FieldsOfSingle(fires, Obj(Single(Obj(map[]))), 2);
    FieldsOfSingle(fires, Obj(Single(Obj(Single(Obj(map[]))))), 1);
    FieldsOfSingle(fires, Str(TOO_DEEP), 3);
    FieldsOfSingle(fires, Obj(Single(Str(TOO_DEEP))), 2);
    FieldsOfSingle(fires, Obj(Single(Obj(Single(Str(TOO_DEEP))))), 1);
  }

  /** On JSON-shaped evidence, sanitising twice is the same as sanitising once exactly for matchers that neither
      fire on the depth marker nor on a cut text they did not fire on before the cut. */
  lemma IdempotentExactly(fires: Matcher)
    ensures (forall fields :: JsonShaped(Obj(fields)) ==> Idempotent(fires, fields))
       <==> SteadyMatcher(fires)
  {
    if SteadyMatcher(fires) {
      forall fields | JsonShaped(Obj(fields)) ensures Idempotent(fires, fields) {
        StableExactly(fires, fields);
        forall k | k in fields ensures !Unstable(fires, fields[k], 1) {
          JsonIsStable(fires, fields[k], 1);
        }
      }
    }
    if forall fields :: JsonShaped(Obj(fields)) ==> Idempotent(fires, fields) {
      forall s: string | |s| > MAX_STRING && !fires(s) ensures !fires(Truncated(s)) {
        CutOnlyFires(fires, s);
      }
      EvidenceOfNested(fires);
      NestedIsJson();
      MarkerStays(fires);
    }
  }

  lemma NestedIsJson()
    ensures JsonShaped(Obj(Nested()))
  {
    assert JsonShaped(Obj(map[]));
    assert JsonShaped(Obj(Single(Obj(map[]))));
    assert JsonShaped(Obj(Single(Obj(Single(Obj(map[]))))));
  }

  lemma MarkerStays(fires: Matcher)
    requires Idempotent(fires, Nested())
    ensures !fires(TOO_DEEP)
  {
    EvidenceOfNested(fires);
    var marker := Single(Str(Clean(fires, TOO_DEEP)));
    var inner := Single(Obj(marker));
    assert Single(Obj(inner))["a"].fields["a"].fields["a"].s == Clean(fires, TOO_DEEP);
    assert Evidence(fires, Nested())["a"].fields["a"].fields["a"].s == TOO_DEEP;
    assert |PLACEHOLDER| != |TOO_DEEP|;
  }

  lemma CutOnlyFires(fires: Matcher, s: string)
    requires |s| > MAX_STRING && !fires(s)
    requires forall fields :: JsonShaped(Obj(fields)) ==> Idempotent(fires, fields)
    ensures !fires(Truncated(s))
  {
    var fields := Single(Str(s));
    assert JsonShaped(Obj(fields));
    FieldsOfSingle(fires, Str(s), 1);
    FieldsOfSingle(fires, Str(Clean(fires, s)), 1);
    assert Evidence(fires, fields)["a"].s == Truncated(s);
    assert Evidence(fires, Evidence(fires, fields))["a"].s == Clean(fires, Truncated(s));
  }

  /** A string list below two maps is the exception: it survives once as a list at the depth limit, and is then
      taken for a list nested too deep. */
  lemma StringListsAreNotStable(fires: Matcher)
    ensures var fields := Single(Obj(Single(Obj(Single(Strings([]))))));
      Evidence(fires, Evidence(fires, fields)) != Evidence(fires, fields)
  {
    hide Fields, Clean;
    FieldsOfSingle(fires, Strings([]), 3);
    FieldsOfSingle(fires, Obj(Single(Strings([]))), 2);
    FieldsOfSingle(fires, Obj(Single(Obj(Single(Strings([]))))), 1);
    FieldsOfSingle(fires, Arr([]), 3);
    FieldsOfSingle(fires, Obj(Single(Arr([]))), 2);
    FieldsOfSingle(fires, Obj(Single(Obj(Single(Arr([]))))), 1);
    var once := Evidence(fires, Single(Obj(Single(Obj(Single(Strings([])))))));
    assert once["a"].fields["a"].fields["a"] == Arr([]);
    assert Evidence(fires, once)["a"].fields["a"].fields["a"] == Str(TOO_DEEP);
  }
}
