/** The normalised finding every component exchanges, and the rules for accepting one. */
module Core {
  import opened Delimited

  datatype Option<+T> = None | Some(value: T)

  type Time = int

  datatype Severity = Critical | High | Medium | Low | Info | Unlisted(text: string)

  /** Higher is more urgent; a severity outside the list sorts below all of them. */
  function Rank(s: Severity): int {
    match s
    case Critical => 4
    case High => 3
    case Medium => 2
    case Low => 1
    case Info => 0
    case Unlisted(_) => -1
  }

  predicate KnownSeverity(s: Severity) {
    Rank(s) >= 0
  }

  /** Unset is the zero value a collector leaves behind. */
  datatype Status = Unset | Open | Acknowledged | Suppressed | Resolved

  const MAX_EVIDENCE_BYTES: nat := 64 * 1024

  /** Evidence as far as the engine looks at it: the size of its JSON form, None when it has no JSON form. */
  datatype Evidence =
    | NoEvidence
    | Blob(content: string, jsonBytes: Option<nat>)
    | NotSerialisableMarker
    | TruncatedMarker(originalBytes: nat)

  function CapEvidence(e: Evidence): Evidence {
    match e
    case Blob(_, None) => NotSerialisableMarker
    case Blob(_, Some(n)) => if n > MAX_EVIDENCE_BYTES then TruncatedMarker(n) else e
    case _ => e
  }

  /** Evidence is stored as it is up to 64 KiB of JSON; larger evidence, and evidence without a JSON form, is replaced
      by a marker. */
  lemma EvidenceIsCapped(e: Evidence)
    ensures CapEvidence(e) == e <==> (e.Blob? ==> e.jsonBytes.Some? && e.jsonBytes.value <= 65536)
    ensures e.Blob? && e.jsonBytes == None ==> CapEvidence(e) == NotSerialisableMarker
    ensures e.Blob? && e.jsonBytes.Some? && e.jsonBytes.value > 65536 ==>
      CapEvidence(e) == TruncatedMarker(e.jsonBytes.value)
  {
  }

  datatype Finding = Finding(
    fingerprint: string,
    target: string,
    check: string,
    title: string,
    severity: Severity,
    remediation: string,
    evidence: Evidence,
    id: string,
    moduleId: string,
    status: Status,
    groupId: Option<string>,
    firstSeen: Time,
    lastSeen: Time,
    resolvedAt: Option<Time>)

  datatype IngestError = EmptyFingerprint | EmptyTarget | EmptyCheck | EmptyTitle | EmptyRemediation | UnknownSeverity

  function ValidateForIngest(f: Finding): Option<IngestError> {
    if f.fingerprint == "" then Some(EmptyFingerprint)
    else if f.target == "" then Some(EmptyTarget)
    else if f.check == "" then Some(EmptyCheck)
    else if f.title == "" then Some(EmptyTitle)
    else if f.remediation == "" then Some(EmptyRemediation)
    else if !KnownSeverity(f.severity) then Some(UnknownSeverity)
    else None
  }

  predicate Accepted(f: Finding) {
    ValidateForIngest(f) == None
  }

  /** A finding is accepted when every required text is there and the severity is one of the five; the error of a
      rejected one names the first thing that is missing, in the order of the fields. */
  lemma AcceptedExactly(f: Finding)
    ensures Accepted(f) <==>
      && f.fingerprint != "" && f.target != "" && f.check != "" && f.title != "" && f.remediation != ""
      && f.severity in {Critical, High, Medium, Low, Info}
    ensures ValidateForIngest(f) == Some(EmptyFingerprint) <==> f.fingerprint == ""
    ensures ValidateForIngest(f) == Some(EmptyTarget) ==> f.target == ""
    ensures ValidateForIngest(f) == Some(EmptyCheck) ==> f.check == ""
    ensures ValidateForIngest(f) == Some(EmptyTitle) ==> f.title == ""
    ensures ValidateForIngest(f) == Some(EmptyRemediation) ==> f.remediation == ""
    ensures ValidateForIngest(f) == Some(UnknownSeverity) ==> f.severity.Unlisted?
  {
  }

  /** Critical is the most urgent severity, and one outside the list the least. */
  lemma RankOrders(s: string)
    ensures Rank(Critical) > Rank(High) > Rank(Medium) > Rank(Low) > Rank(Info) > Rank(Unlisted(s))
  {
  }

  /** A collector leaves the fields the core owns at their zero values. */
  predicate CoreFieldsZero(f: Finding) {
    f.id == "" && f.moduleId == "" && f.status == Unset && f.groupId == None && f.resolvedAt == None
  }

  datatype ModuleInfo = ModuleInfo(id: string, resolveAfter: int)

  function ResolveAfterOrDefault(resolveAfter: int): nat {
    if resolveAfter < 1 then 1 else resolveAfter
  }

  /** The text that is hashed into a fingerprint; the hash itself is taken to be injective. */
  function Fingerprint(moduleId: string, target: string, check: string, discriminator: string): string {
    Join(moduleId, '|', Join(target, '|', Join(check, '|', discriminator)))
  }

  /** Without '|' in module, target and check, a fingerprint identifies all four parts. */
  lemma FingerprintIdentifies(m: string, t: string, c: string, d: string, m': string, t': string, c': string,
                              d': string)
    requires '|' !in m + t + c && '|' !in m' + t' + c'
    ensures Fingerprint(m, t, c, d) == Fingerprint(m', t', c', d') <==> (m, t, c, d) == (m', t', c', d')
  {
    assert '|' !in m && '|' !in t && '|' !in c;
    assert '|' !in m' && '|' !in t' && '|' !in c';
    if Fingerprint(m, t, c, d) == Fingerprint(m', t', c', d') {
      JoinInjective(m, m', '|', Join(t, '|', Join(c, '|', d)), Join(t', '|', Join(c', '|', d')));
      JoinInjective(t, t', '|', Join(c, '|', d), Join(c', '|', d'));
      JoinInjective(c, c', '|', d, d');
    }
  }

  /** The same for arbitrary targets, when module, check and discriminator have no '|'. */
  lemma FingerprintIdentifiesAnyTarget(m: string, t: string, c: string, d: string,
                                       m': string, t': string, c': string, d': string)
    requires '|' !in m && '|' !in c && '|' !in d && '|' !in m' && '|' !in c' && '|' !in d'
    ensures Fingerprint(m, t, c, d) == Fingerprint(m', t', c', d') <==> (m, t, c, d) == (m', t', c', d')
  {
    if Fingerprint(m, t, c, d) == Fingerprint(m', t', c', d') {
      JoinInjective(m, m', '|', Join(t, '|', Join(c, '|', d)), Join(t', '|', Join(c', '|', d')));
      TargetFromTheRight(t, c, d);
      TargetFromTheRight(t', c', d');
      assert Join(t, '|', Join(c, '|', d))[|t| + 1..] == Join(c, '|', d);
      assert Join(t, '|', Join(c', '|', d'))[|t| + 1..] == Join(c', '|', d');
      JoinInjective(c, c', '|', d, d');
    }
  }

  lemma TargetFromTheRight(t: string, c: string, d: string)
    requires '|' !in c && '|' !in d
    ensures BeforeLast(BeforeLast(Join(t, '|', Join(c, '|', d)), '|'), '|') == t
  {
    assert Join(t, '|', Join(c, '|', d)) == Join(Join(t, '|', c), '|', d);
    TailStartsAfterLastSeparator(Join(t, '|', c), '|', d);
    TailStartsAfterLastSeparator(t, '|', c);
  }
}
