/** Where everything in sanitised evidence comes from, path by path. */
module Provenance {
  import opened Core
  import opened EvidenceKeys
  import opened Sanitizer

  datatype Hop = Field(k: string) | Item(i: nat)

  /** A value of another type is looked at through its JSON form. */
  function Form(v: Json): Json {
    match v
    case Other(Some(json)) => Form(json)
    case _ => v
  }

  /** The value at the end of a path. */
  function At(v: Json, path: seq<Hop>): Option<Json>
    decreases |path|
  {
    if path == [] then Some(Form(v))
    else
      match (Form(v), path[0])
      case (Obj(fields), Field(k)) => if k in fields then At(fields[k], path[1..]) else None
      case (Arr(items), Item(i)) => if i < |items| then At(items[i], path[1..]) else None
      case (Strings(ss), Item(i)) => if i < |ss| && |path| == 1 then Some(Str(ss[i])) else None
      case _ => None
  }

  /** What stands for `w` in the output, at a depth. */
  predicate StandsFor(fires: Matcher, w: Json, x: Json, depth: nat) {
    match w
    case Null => x == w
    case Bool(_) => x == w
    case Number(_) => x == w
    case Str(s) =>
      x == Str(if fires(s) then "[omitted: instruction-like text]" else if |s| <= 400 then s else s[..400] + "\U{2026}")
    case Obj(_) => if depth >= 3 then x == Str("[omitted: nested too deep]") else x.Obj?
    case Arr(_) => if depth >= 3 then x == Str("[omitted: nested too deep]") else x.Arr?
    case Strings(_) => x.Arr?
    case Other(_) => x == Str("[omitted: not serialisable]")
  }

  /** The paths that survive: through kept keys and the first twelve items, above the depth limit; into a list of
      strings at any depth that is reached. */
  predicate Survives(v: Json, path: seq<Hop>, depth: nat)
    decreases |path|
  {
    path == [] ||
    match (Form(v), path[0])
    case (Obj(fields), Field(k)) =>
      depth < 3 && k in fields && k in Kept(fields.Keys) && Survives(fields[k], path[1..], depth + 1)
    case (Arr(items), Item(i)) => depth < 3 && i < 12 && i < |items| && Survives(items[i], path[1..], depth + 1)
    case (Strings(ss), Item(i)) => i < 12 && i < |ss| && |path| == 1
    case _ => false
  }

  lemma {:induction false} FormSanitized(fires: Matcher, v: Json, depth: nat)
    ensures Sanitized(fires, v, depth) == Sanitized(fires, Form(v), depth)
    ensures Form(Sanitized(fires, v, depth)) == Sanitized(fires, v, depth)
    ensures Form(v).Other? ==> Form(v).json == None
    decreases v
  {
    match v
    case Other(Some(json)) => FormSanitized(fires, json, depth);
    case _ =>
  }

  lemma ShownHere(fires: Matcher, w: Json, depth: nat)
    requires w.Other? ==> w.json == None
    ensures StandsFor(fires, w, Sanitized(fires, w, depth), depth)
  {
    hide Fields, CleanList;
  }

  lemma TextShown(fires: Matcher, s: string, depth: nat)
    ensures StandsFor(fires, Str(s), Str(Clean(fires, s)), depth)
  {
  }

  lemma AtField(v: Json, path: seq<Hop>)
    requires path != [] && Form(v).Obj?
    ensures At(v, path) ==
      if path[0].Field? && path[0].k in Form(v).fields then At(Form(v).fields[path[0].k], path[1..]) else None
  {
  }

  lemma AtItem(v: Json, path: seq<Hop>)
    requires path != [] && Form(v).Arr?
    ensures At(v, path) ==
      if path[0].Item? && path[0].i < |Form(v).items| then At(Form(v).items[path[0].i], path[1..]) else None
  {
  }

  lemma AtText(v: Json, path: seq<Hop>)
    requires !Form(v).Obj? && !Form(v).Arr? && !Form(v).Strings?
    ensures At(v, path) == if path == [] then Some(Form(v)) else None
  {
  }

  lemma AtStrings(v: Json, path: seq<Hop>)
    requires path != [] && Form(v).Strings?
    ensures At(v, path) ==
      if path[0].Item? && path[0].i < |Form(v).ss| && |path| == 1 then Some(Str(Form(v).ss[path[0].i])) else None
  {
  }

  lemma StringsItem(fires: Matcher, ss: seq<string>, depth: nat, path: seq<Hop>)
    requires path != []
    ensures At(Sanitized(fires, Strings(ss), depth), path) ==
      if path[0].Item? && path[0].i < 12 && path[0].i < |ss| && |path| == 1 then Some(Str(Clean(fires, ss[path[0].i])))
      else None
  {
    hide Clean, At, Sanitized, CleanList, Form;
    CleanItems(fires, ss, depth);
    var out := Arr(CleanList(fires, ss));
    AtItem(out, path);
    if path[0].Item? && path[0].i < 12 && path[0].i < |ss| {
      TextIsItsForm(Clean(fires, ss[path[0].i]));
      AtText(Str(Clean(fires, ss[path[0].i])), path[1..]);
    }
  }

  lemma CleanItems(fires: Matcher, ss: seq<string>, depth: nat)
    ensures Sanitized(fires, Strings(ss), depth) == Arr(CleanList(fires, ss))
    ensures Form(Arr(CleanList(fires, ss))) == Arr(CleanList(fires, ss))
    ensures |CleanList(fires, ss)| == if |ss| < 12 then |ss| else 12
    ensures forall i :: 0 <= i < |CleanList(fires, ss)| ==> CleanList(fires, ss)[i] == Str(Clean(fires, ss[i]))
  {
    hide Clean;
  }

  lemma TextIsItsForm(s: string)
    ensures Form(Str(s)) == Str(s)
  {
  }

  /** For every input, every depth and every path: the path leads somewhere in the output exactly when it survives,
      it then leads somewhere in the input, and what stands there is what must stand for it. */
  lemma {:induction false} EveryPath(fires: Matcher, v: Json, depth: nat, path: seq<Hop>)
    ensures At(Sanitized(fires, v, depth), path).Some? <==> Survives(v, path, depth)
    ensures Survives(v, path, depth) ==>
      && At(v, path).Some?
      && StandsFor(fires, At(v, path).value, At(Sanitized(fires, v, depth), path).value, depth + |path|)
    decreases |path|
  {
    hide Kept, Clean, CleanList, StandsFor, At, Form, Fields;
    var w := Form(v);
    FormSanitized(fires, v, depth);
    if path == [] {
      AtHere(v);
      AtHere(Sanitized(fires, v, depth));
      ShownHere(fires, w, depth);
    } else if w.Obj? {
      AtField(v, path);
      ThroughField(fires, v, depth, path);
      if Survives(v, path, depth) {
        EveryPath(fires, w.fields[path[0].k], depth + 1, path[1..]);
      } else if depth < 3 && path[0].Field? && path[0].k in w.fields && path[0].k in Kept(w.fields.Keys) {
        EveryPath(fires, w.fields[path[0].k], depth + 1, path[1..]);
      }
    } else if w.Arr? {
      AtItem(v, path);
      ThroughItem(fires, v, depth, path);
      if depth < 3 && path[0].Item? && path[0].i < 12 && path[0].i < |w.items| {
        EveryPath(fires, w.items[path[0].i], depth + 1, path[1..]);
      }
    } else if w.Strings? {
      AtStrings(v, path);
      StringsItem(fires, w.ss, depth, path);
      if path[0].Item? && path[0].i < |w.ss| {
        TextShown(fires, w.ss[path[0].i], depth + 1);
      }
    } else {
      AtText(v, path);
      NothingBelow(fires, w, depth, path);
    }
  }

  lemma AtHere(v: Json)
    ensures At(v, []) == Some(Form(v))
  {
  }

  /** One hop into an object of the output. */
  lemma ThroughField(fires: Matcher, v: Json, depth: nat, path: seq<Hop>)
    requires path != [] && Form(v).Obj?
    ensures var fields := Form(v).fields;
      At(Sanitized(fires, v, depth), path) ==
        if depth < 3 && path[0].Field? && path[0].k in fields && path[0].k in Kept(fields.Keys) then
          At(Sanitized(fires, fields[path[0].k], depth + 1), path[1..])
        else None
  {
    hide At, Form, Kept;
    FormSanitized(fires, v, depth);
    var out := Sanitized(fires, v, depth);
    if depth < 3 {
      AtField(out, path);
    } else {
      AtText(out, path);
    }
  }

  lemma ThroughItem(fires: Matcher, v: Json, depth: nat, path: seq<Hop>)
    requires path != [] && Form(v).Arr?
    ensures var items := Form(v).items;
      At(Sanitized(fires, v, depth), path) ==
        if depth < 3 && path[0].Item? && path[0].i < 12 && path[0].i < |items| then
          At(Sanitized(fires, items[path[0].i], depth + 1), path[1..])
        else None
  {
    hide At, Form;
    FormSanitized(fires, v, depth);
    var out := Sanitized(fires, v, depth);
    if depth < 3 {
      AtItem(out, path);
    } else {
      AtText(out, path);
    }
  }

  lemma NothingBelow(fires: Matcher, w: Json, depth: nat, path: seq<Hop>)
    requires path != [] && !w.Obj? && !w.Arr? && !w.Strings? && (w.Other? ==> w.json == None)
    ensures At(Sanitized(fires, w, depth), path) == None
  {
    hide At, Clean;
    AtText(Sanitized(fires, w, depth), path);
  }

  /** The evidence of a finding, path by path. */
  lemma EvidenceExactly(fires: Matcher, fields: map<string, Json>, path: seq<Hop>)
    ensures At(Obj(Sanitizer.Evidence(fires, fields)), path).Some? <==> Survives(Obj(fields), path, 0)
    ensures Survives(Obj(fields), path, 0) ==>
      && At(Obj(fields), path).Some?
      && StandsFor(fires, At(Obj(fields), path).value, At(Obj(Sanitizer.Evidence(fires, fields)), path).value, |path|)
  {
    hide At, Survives, StandsFor, Kept;
    assert Sanitized(fires, Obj(fields), 0) == Obj(Sanitizer.Evidence(fires, fields));
    EveryPath(fires, Obj(fields), 0, path);
  }

  /** No text in sanitised evidence is made up: it is one of three markers, or a text at the same path of the evidence
      on which the matcher does not fire, as it is up to 400 characters and cut after them otherwise. */
  lemma NoTextIsMadeUp(fires: Matcher, fields: map<string, Json>, path: seq<Hop>, t: string)
    requires At(Obj(Sanitizer.Evidence(fires, fields)), path) == Some(Str(t))
    ensures
      || t == "[omitted: instruction-like text]"
      || t == "[omitted: nested too deep]"
      || t == "[omitted: not serialisable]"
      || exists s: string :: At(Obj(fields), path) == Some(Str(s)) && !fires(s)
           && t == if |s| <= 400 then s else s[..400] + "\U{2026}"
  {
    hide At, Survives, Sanitizer.Evidence, StandsFor;
    EvidenceExactly(fires, fields, path);
    var w := At(Obj(fields), path).value;
    TextStandsFor(fires, w, t, |path|);
    if w.Str? {
      assert At(Obj(fields), path) == Some(Str(w.s));
    }
  }

  lemma TextStandsFor(fires: Matcher, w: Json, t: string, depth: nat)
    requires StandsFor(fires, w, Str(t), depth)
    ensures
      || t == "[omitted: instruction-like text]"
      || t == "[omitted: nested too deep]"
      || t == "[omitted: not serialisable]"
      || (w.Str? && !fires(w.s) && t == if |w.s| <= 400 then w.s else w.s[..400] + "\U{2026}")
  {
  }

  /** No instruction gets through: where the matcher fires on a text that survives, the placeholder stands. */
  lemma InstructionsAreMasked(fires: Matcher, fields: map<string, Json>, path: seq<Hop>, s: string)
    requires At(Obj(fields), path) == Some(Str(s)) && fires(s) && Survives(Obj(fields), path, 0)
    ensures At(Obj(Sanitizer.Evidence(fires, fields)), path) == Some(Str("[omitted: instruction-like text]"))
  {
    hide At, Survives, Sanitizer.Evidence;
    EvidenceExactly(fires, fields, path);
  }
}
