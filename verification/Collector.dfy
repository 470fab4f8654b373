/** The certificate collector: what the TLS library found out, graded into findings. */
module Collector {
  import opened Core
  import opened Delimited
  import opened Stores
  import opened Meaning
  import Reconcile

  const MODULE_ID := "certwatch"
  const INFO := ModuleInfo(MODULE_ID, 1)

  const EXPIRED := "tls.expired"
  const EXPIRY := "tls.expiry"
  const HOSTNAME_MISMATCH := "tls.hostname_mismatch"
  const INCOMPLETE_CHAIN := "tls.incomplete_chain"
  const UNTRUSTED_CHAIN := "tls.untrusted_chain"
  const WEAK_PROTOCOL := "tls.weak_protocol"
  const WEAK_CIPHER := "tls.weak_cipher"
  const WEAK_KEY := "tls.weak_key"
  const LEGACY_SIGNATURE := "tls.legacy_signature"
  const LEGACY_PROTOCOL := "tls.legacy_protocol"

  /** Times and durations are nanoseconds; a difference of times saturates at 64 bits. */
  const DAY: int := 24 * 60 * 60 * 1_000_000_000
  const MAX_DURATION: int := 0x7FFF_FFFF_FFFF_FFFF

  function Since(later: Time, earlier: Time): int
    requires earlier <= later
  {
    if later - earlier > MAX_DURATION then MAX_DURATION else later - earlier
  }

  datatype Target = Target(canonical: string, host: string, quotedHost: string)

  /** Names of cipher suites and signature algorithms. */
  type Name = s: string | '|' !in s

  datatype PublicKey = Rsa(bits: nat) | OtherKey

  /** The answers of the TLS library for one connection. */
  datatype Facts = Facts(
    notAfter: Time,
    hostIsAddress: bool,
    coversHost: bool,
    chainVerifies: bool,
    presented: nat,
    issuerIsSubject: bool,
    version: nat,
    insecureCipher: Option<Name>,
    key: PublicKey,
    legacySignature: Option<Name>,
    legacyAccepted: Option<nat>)

  /** The evidence attached to the finding of a check; the engine looks only at its size. */
  type Details = string -> Evidence

  const DIGITS := "0123456789abcdef"

  function Decimal(n: nat): string {
    if n < 10 then [DIGITS[n]] else Decimal(n / 10) + [DIGITS[n % 10]]
  }

  function Hex(n: nat, width: nat): string {
    if width == 0 && n == 0 then ""
    else Hex(n / 16, if width == 0 then 0 else width - 1) + [DIGITS[n % 16]]
  }

  const TLS10: nat := 0x0301
  const TLS11: nat := 0x0302
  const TLS12: nat := 0x0303
  const TLS13: nat := 0x0304

  function VersionName(v: nat): string {
    if v == TLS10 then "TLS 1.0"
    else if v == TLS11 then "TLS 1.1"
    else if v == TLS12 then "TLS 1.2"
    else if v == TLS13 then "TLS 1.3"
    else "unknown (0x" + Hex(v, 4) + ")"
  }

  function Graded(t: Target, check: string, discriminator: string, title: string, severity: Severity,
                  remediation: string, details: Details): Finding {
    Finding(Fingerprint(MODULE_ID, t.canonical, check, discriminator), t.canonical, check, title, severity,
            remediation, details(check), "", "", Unset, None, 0, 0, None)
  }

  lemma {:induction false} DecimalIsName(n: nat)
    ensures '|' !in Decimal(n)
  {
    if n >= 10 {
      DecimalIsName(n / 10);
    }
  }

  lemma {:induction false} HexIsName(n: nat, width: nat)
    ensures '|' !in Hex(n, width)
    decreases n, width
  {
    if width != 0 || n != 0 {
      HexIsName(n / 16, if width == 0 then 0 else width - 1);
    }
  }

  lemma VersionIsName(v: nat)
    ensures '|' !in VersionName(v)
  {
    HexIsName(v, 4);
  }

  // ---- the checks ----

  function CheckExpiry(t: Target, notAfter: Time, now: Time, details: Details): seq<Finding> {
    if now > notAfter then
      [Graded(t, EXPIRED, "", "Certificate EXPIRED " + Decimal(Since(now, notAfter) / DAY) + " day(s) ago", Critical,
              "Replace this certificate immediately", details)]
    else
      var daysLeft := Since(notAfter, now) / DAY;
      if daysLeft > 30 then []
      else
        [Graded(t, EXPIRY, "", "Certificate expires in " + Decimal(daysLeft) + " day(s)",
                if daysLeft <= 1 then Critical else if daysLeft <= 7 then High else Medium,
                "Renew the certificate before it expires", details)]
  }

  function CheckHostname(t: Target, facts: Facts, details: Details): seq<Finding> {
    if facts.hostIsAddress || facts.coversHost then []
    else [Graded(t, HOSTNAME_MISMATCH, "", "Certificate does not cover " + t.quotedHost, High,
                 "Reissue the certificate with this hostname", details)]
  }

  function CheckChain(t: Target, facts: Facts, details: Details): seq<Finding> {
    var selfSigned := facts.presented == 1 && facts.issuerIsSubject;
    if facts.chainVerifies then []
    else if !selfSigned && facts.presented == 1 then
      [Graded(t, INCOMPLETE_CHAIN, "", "Server sends no intermediate certificates", Medium,
              "Configure the server to send the full chain", details)]
    else
      [Graded(t, UNTRUSTED_CHAIN, "",
              if selfSigned then "Certificate is self-signed" else "Certificate chain is not trusted", High,
              "Install a certificate from a trusted CA", details)]
  }

  function CheckProtocol(t: Target, facts: Facts, details: Details): seq<Finding> {
    if facts.version >= TLS12 then []
    else
      var v := VersionName(facts.version);
      [Graded(t, WEAK_PROTOCOL, v, "Connection negotiated obsolete " + v, High,
              "Disable TLS 1.0/1.1 on this service", details)]
  }

  function CheckCipher(t: Target, facts: Facts, details: Details): seq<Finding> {
    match facts.insecureCipher
    case None => []
    case Some(name) => [Graded(t, WEAK_CIPHER, name, "Weak cipher suite negotiated: " + name, High,
                               "Remove this cipher suite from the server configuration", details)]
  }

  function CheckKeyStrength(t: Target, facts: Facts, details: Details): seq<Finding> {
    if facts.key.Rsa? && facts.key.bits < 2048 then
      var bits := Decimal(facts.key.bits);
      [Graded(t, WEAK_KEY, "rsa-" + bits, "RSA key too small: " + bits + " bits", High,
              "Reissue the certificate with an RSA key of at least 2048 bits", details)]
    else []
  }

  function CheckSignature(t: Target, facts: Facts, details: Details): seq<Finding> {
    match facts.legacySignature
    case None => []
    case Some(alg) => [Graded(t, LEGACY_SIGNATURE, alg, "Certificate signed with obsolete algorithm: " + alg, High,
                              "Reissue the certificate", details)]
  }

  function ProbeLegacy(t: Target, facts: Facts, details: Details): seq<Finding> {
    match facts.legacyAccepted
    case None => []
    case Some(v) => [Graded(t, LEGACY_PROTOCOL, "", "Server still accepts legacy " + VersionName(v), Medium,
                            "Raise the server's minimum TLS version to 1.2", details)]
  }

  /** Everything one scan reports, check after check. */
  function Collected(t: Target, facts: Facts, probe: bool, now: Time, details: Details): seq<Finding> {
    CheckExpiry(t, facts.notAfter, now, details) + CheckHostname(t, facts, details) + CheckChain(t, facts, details)
    + CheckProtocol(t, facts, details) + CheckCipher(t, facts, details) + CheckKeyStrength(t, facts, details)
    + CheckSignature(t, facts, details) + if probe then ProbeLegacy(t, facts, details) else []
  }

  // ---- what the engine relies on ----

  /** The target written inside a fingerprint. */
  function TargetOf(fp: string): string {
    var i := FirstSeparator(fp, '|');
    if i >= |fp| then "" else BeforeLast(BeforeLast(fp[i + 1..], '|'), '|')
  }

  function OwnerOf(k: Key): string {
    TargetOf(k.fingerprint)
  }

  lemma TargetOfFingerprint(m: string, t: string, c: string, d: string)
    requires '|' !in m && '|' !in c && '|' !in d
    ensures TargetOf(Fingerprint(m, t, c, d)) == t
  {
    var rest := Join(t, '|', Join(c, '|', d));
    HeadEndsAtFirstSeparator(m, '|', rest);
    TargetFromTheRight(t, c, d);
    assert Fingerprint(m, t, c, d)[|m| + 1..] == rest;
  }

  /** Which section a check belongs to. */
  function SectionOf(check: string): int {
    if check == EXPIRED || check == EXPIRY then 0
    else if check == HOSTNAME_MISMATCH then 1
    else if check == INCOMPLETE_CHAIN || check == UNTRUSTED_CHAIN then 2
    else if check == WEAK_PROTOCOL then 3
    else if check == WEAK_CIPHER then 4
    else if check == WEAK_KEY then 5
    else if check == LEGACY_SIGNATURE then 6
    else if check == LEGACY_PROTOCOL then 7
    else -1
  }

  ghost predicate WellFormed(t: Target, f: Finding) {
    && f.target == t.canonical && CoreFieldsZero(f) && '|' !in f.check
    && f.check != "" && f.title != "" && f.remediation != "" && KnownSeverity(f.severity)
    && exists d: Name :: f.fingerprint == Fingerprint(MODULE_ID, t.canonical, f.check, d)
  }

  lemma WellFormedIsAccepted(t: Target, f: Finding)
    requires WellFormed(t, f) && t.canonical != ""
    ensures Accepted(f)
  {
    var d: Name :| f.fingerprint == Fingerprint(MODULE_ID, t.canonical, f.check, d);
    assert f.fingerprint != "";
  }

  /** At most one finding, of a check that belongs to section `i`. */
  ghost predicate SectionOk(t: Target, section: seq<Finding>, i: int) {
    |section| <= 1 && forall f :: f in section ==> WellFormed(t, f) && SectionOf(f.check) == i
  }

  predicate ValidCheck(check: string, i: int) {
    check != "" && '|' !in check && SectionOf(check) == i
  }

  lemma CertificateChecksAreValid()
    ensures ValidCheck(EXPIRED, 0) && ValidCheck(EXPIRY, 0)
    ensures ValidCheck(HOSTNAME_MISMATCH, 1)
    ensures ValidCheck(INCOMPLETE_CHAIN, 2) && ValidCheck(UNTRUSTED_CHAIN, 2)
  {
  }

  lemma ConnectionChecksAreValid()
    ensures ValidCheck(WEAK_PROTOCOL, 3)
    ensures ValidCheck(WEAK_CIPHER, 4)
    ensures ValidCheck(WEAK_KEY, 5)
  {
  }

  lemma LegacyChecksAreValid()
    ensures ValidCheck(LEGACY_SIGNATURE, 6)
    ensures ValidCheck(LEGACY_PROTOCOL, 7)
  {
  }

  lemma ExpirySection(t: Target, notAfter: Time, now: Time, details: Details)
    ensures SectionOk(t, CheckExpiry(t, notAfter, now, details), 0)
  {
    hide SectionOf, Fingerprint, Decimal;
    CertificateChecksAreValid();
  }

  lemma HostnameSection(t: Target, facts: Facts, details: Details)
    ensures SectionOk(t, CheckHostname(t, facts, details), 1)
  {
    hide SectionOf, Fingerprint;
    CertificateChecksAreValid();
  }

  lemma ChainSection(t: Target, facts: Facts, details: Details)
    ensures SectionOk(t, CheckChain(t, facts, details), 2)
  {
    hide SectionOf, Fingerprint;
    CertificateChecksAreValid();
  }

  lemma ProtocolSection(t: Target, facts: Facts, details: Details)
    ensures SectionOk(t, CheckProtocol(t, facts, details), 3)
  {
    hide SectionOf, Fingerprint, VersionName;
    ConnectionChecksAreValid();
    VersionIsName(facts.version);
  }

  lemma CipherSection(t: Target, facts: Facts, details: Details)
    ensures SectionOk(t, CheckCipher(t, facts, details), 4)
  {
    hide SectionOf, Fingerprint;
    ConnectionChecksAreValid();
  }

  lemma KeySection(t: Target, facts: Facts, details: Details)
    ensures SectionOk(t, CheckKeyStrength(t, facts, details), 5)
  {
    hide SectionOf, Fingerprint, Decimal;
    ConnectionChecksAreValid();
    if facts.key.Rsa? {
      DecimalIsName(facts.key.bits);
    }
  }

  lemma SignatureSection(t: Target, facts: Facts, details: Details)
    ensures SectionOk(t, CheckSignature(t, facts, details), 6)
  {
    hide SectionOf, Fingerprint;
    LegacyChecksAreValid();
  }

  lemma ProbeSection(t: Target, facts: Facts, details: Details)
    ensures SectionOk(t, ProbeLegacy(t, facts, details), 7)
  {
    hide SectionOf, Fingerprint, VersionName;
    LegacyChecksAreValid();
  }

  // ---- the whole scan ----

  ghost predicate DistinctFingerprints(fs: seq<Finding>) {
    forall i, j :: 0 <= i < j < |fs| ==> fs[i].fingerprint != fs[j].fingerprint
  }

  /** Well formed findings of sections below `i`, no two with one fingerprint; `first` is all there is of section 0. */
  ghost predicate Good(t: Target, out: seq<Finding>, first: seq<Finding>, i: int) {
    && (forall f :: f in out ==> WellFormed(t, f) && SectionOf(f.check) < i)
    && (forall f :: f in out && SectionOf(f.check) == 0 ==> f in first)
    && (forall f :: f in first ==> f in out)
    && DistinctFingerprints(out)
  }

  lemma DifferentChecks(t: Target, f: Finding, g: Finding)
    requires WellFormed(t, f) && WellFormed(t, g) && f.check != g.check
    ensures f.fingerprint != g.fingerprint
  {
    hide Fingerprint;
    var d: Name :| f.fingerprint == Fingerprint(MODULE_ID, t.canonical, f.check, d);
    var d': Name :| g.fingerprint == Fingerprint(MODULE_ID, t.canonical, g.check, d');
    assert '|' !in MODULE_ID;
    FingerprintIdentifiesAnyTarget(MODULE_ID, t.canonical, f.check, d, MODULE_ID, t.canonical, g.check, d');
  }

  lemma AppendSection(t: Target, out: seq<Finding>, first: seq<Finding>, section: seq<Finding>, i: int)
    requires Good(t, out, first, i) && SectionOk(t, section, i) && i > 0
    ensures Good(t, out + section, first, i + 1)
  {
    hide WellFormed, SectionOf;
    if section != [] {
      assert section == [section[0]];
      forall f | f in out ensures f.fingerprint != section[0].fingerprint {
        assert f.check != section[0].check;
        DifferentChecks(t, f, section[0]);
      }
    }
  }

  lemma FirstSection(t: Target, first: seq<Finding>)
    requires SectionOk(t, first, 0)
    ensures Good(t, first, first, 1)
  {
  }

  lemma CollectedIsGood(t: Target, facts: Facts, probe: bool, now: Time, details: Details)
    ensures Good(t, Collected(t, facts, probe, now, details), CheckExpiry(t, facts.notAfter, now, details), 8)
  {
    hide CheckExpiry, CheckHostname, CheckChain, CheckProtocol, CheckCipher, CheckKeyStrength, CheckSignature,
      ProbeLegacy, SectionOk, Good;
    var first := CheckExpiry(t, facts.notAfter, now, details);
    ExpirySection(t, facts.notAfter, now, details);
    FirstSection(t, first);
    HostnameSection(t, facts, details);
    var out := first;
    AppendSection(t, out, first, CheckHostname(t, facts, details), 1);
    out := out + CheckHostname(t, facts, details);
    ChainSection(t, facts, details);
    AppendSection(t, out, first, CheckChain(t, facts, details), 2);
    out := out + CheckChain(t, facts, details);
    ProtocolSection(t, facts, details);
    AppendSection(t, out, first, CheckProtocol(t, facts, details), 3);
    out := out + CheckProtocol(t, facts, details);
    CipherSection(t, facts, details);
    AppendSection(t, out, first, CheckCipher(t, facts, details), 4);
    out := out + CheckCipher(t, facts, details);
    KeySection(t, facts, details);
    AppendSection(t, out, first, CheckKeyStrength(t, facts, details), 5);
    out := out + CheckKeyStrength(t, facts, details);
    SignatureSection(t, facts, details);
    AppendSection(t, out, first, CheckSignature(t, facts, details), 6);
    out := out + CheckSignature(t, facts, details);
    ProbeSection(t, facts, details);
    NoSection(t, 7);
    AppendSection(t, out, first, if probe then ProbeLegacy(t, facts, details) else [], 7);
  }

  lemma NoSection(t: Target, i: int)
    ensures SectionOk(t, [], i)
  {
  }

  /** Whatever the TLS library answers, a scan meets everything the engine relies on: nothing is rejected, every
      fingerprint belongs to the scanned target and occurs once, and the core's fields are untouched. */
  lemma CollectMeetsContract(t: Target, facts: Facts, probe: bool, now: Time, details: Details)
    requires t.canonical != ""
    ensures var fs := Collected(t, facts, probe, now, details);
      && (forall f :: f in fs ==> Accepted(f))
      && Reconcile.Rejections(fs) == []
      && CollectorOk(OwnerOf, INFO, t.canonical, fs)
  {
    hide Collected, CheckExpiry, SectionOf, Fingerprint, TargetOf, Accepted;
    var fs := Collected(t, facts, probe, now, details);
    CollectedIsGood(t, facts, probe, now, details);
    forall f | f in fs
      ensures Accepted(f) && f.target == t.canonical && OwnerOf(Key(MODULE_ID, f.fingerprint)) == t.canonical
          && CoreFieldsZero(f)
    {
      WellFormedIsAccepted(t, f);
      var d: Name :| f.fingerprint == Fingerprint(MODULE_ID, t.canonical, f.check, d);
      assert '|' !in MODULE_ID;
      TargetOfFingerprint(MODULE_ID, t.canonical, f.check, d);
    }
    NothingRejected(fs);
  }

  lemma {:induction false} NothingRejected(fs: seq<Finding>)
    requires forall f :: f in fs ==> Accepted(f)
    ensures Reconcile.Rejections(fs) == []
  {
    if fs != [] {
      NothingRejected(fs[..|fs| - 1]);
      assert fs[|fs| - 1] in fs;
    }
  }

  // ---- one scan ----

  /** A connection that fails is an error of the scan, not a finding. */
  method Collect(t: Target, dialled: Option<Facts>, probe: bool, now: Time, details: Details)
    returns (result: Option<seq<Finding>>)
    ensures result == match dialled case None => None case Some(facts) => Some(Collected(t, facts, probe, now, details))
    ensures result.Some? && t.canonical != "" ==>
      && CollectorOk(OwnerOf, INFO, t.canonical, result.value)
      && Reconcile.Rejections(result.value) == []
  {
    if dialled.None? {
      return None;
    }
    var facts := dialled.value;
    hide Accepted, TargetOf, CollectorOk, Reconcile.Rejections, CheckExpiry, CheckHostname, CheckChain, CheckProtocol,
      CheckCipher, CheckKeyStrength, CheckSignature, ProbeLegacy;
    var out := CheckExpiry(t, facts.notAfter, now, details);
    out := out + CheckHostname(t, facts, details);
    out := out + CheckChain(t, facts, details);
    out := out + CheckProtocol(t, facts, details);
    out := out + CheckCipher(t, facts, details);
    out := out + CheckKeyStrength(t, facts, details);
    out := out + CheckSignature(t, facts, details);
    if probe {
      out := out + ProbeLegacy(t, facts, details);
    } else {
      assert out + [] == out;
    }
    if t.canonical != "" {
      CollectMeetsContract(t, facts, probe, now, details);
    }
    return Some(out);
  }

  // ---- the countdown ----

  datatype Phase = Quiet | Counting | Over

  function PhaseRank(p: Phase): nat {
    match p case Quiet => 0 case Counting => 1 case Over => 2
  }

  /** Where a certificate is in its life: more than 30 whole days left, fewer, or past its end. */
  function PhaseAt(notAfter: Time, now: Time): Phase {
    if now > notAfter then Over else if notAfter - now < 31 * DAY then Counting else Quiet
  }

  function ExpirySeverity(notAfter: Time, now: Time): Severity {
    if notAfter - now < 2 * DAY then Critical else if notAfter - now < 8 * DAY then High else Medium
  }

  function ExpiryKey(t: Target): Key {
    Key(MODULE_ID, Fingerprint(MODULE_ID, t.canonical, EXPIRY, ""))
  }

  function ExpiredKey(t: Target): Key {
    Key(MODULE_ID, Fingerprint(MODULE_ID, t.canonical, EXPIRED, ""))
  }

  /** The expiry check in terms of time alone: it never reports both findings, and the severity steps are at
      eight days and two days before the end. */
  lemma ExpiryLadder(t: Target, notAfter: Time, now: Time, details: Details)
    ensures var fs := CheckExpiry(t, notAfter, now, details); var phase := PhaseAt(notAfter, now);
      && |fs| == (if phase == Quiet then 0 else 1)
      && (phase == Counting ==> fs[0].check == EXPIRY && fs[0].fingerprint == ExpiryKey(t).fingerprint)
      && (phase == Over ==> fs[0].check == EXPIRED && fs[0].fingerprint == ExpiredKey(t).fingerprint)
      && (phase != Quiet ==> fs[0].severity == ExpirySeverity(notAfter, now))
  {
    hide Decimal, Fingerprint;
  }
}
