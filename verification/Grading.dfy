/** What a scan of the certificate collector reports, check by check. */
module Grading {
  import opened Core
  import opened Delimited
  import opened Collector

  /** The verdict on a check: nothing, or one severity under one discriminator. */
  ghost predicate Verdict(t: Target, fs: seq<Finding>, check: string, verdict: Option<(Severity, string)>) {
    match verdict
    case None => forall f :: f in fs ==> f.check != check
    case Some((severity, discriminator)) =>
      && (exists f :: f in fs && f.check == check)
      && forall f :: f in fs && f.check == check ==>
           f.severity == severity
           && f.fingerprint == Fingerprint("certwatch", t.canonical, check, discriminator)
  }

  ghost predicate When(t: Target, fs: seq<Finding>, check: string, holds: bool, severity: Severity,
                       discriminator: string) {
    Verdict(t, fs, check, if holds then Some((severity, discriminator)) else None)
  }

  /** Every section of a scan is in it, and nothing else is. */
  lemma SectionsSeparate(t: Target, facts: Facts, probe: bool, now: Time, details: Details, f: Finding)
    ensures f in Collected(t, facts, probe, now, details) <==>
      || f in CheckExpiry(t, facts.notAfter, now, details) || f in CheckHostname(t, facts, details)
      || f in CheckChain(t, facts, details) || f in CheckProtocol(t, facts, details)
      || f in CheckCipher(t, facts, details) || f in CheckKeyStrength(t, facts, details)
      || f in CheckSignature(t, facts, details)
      || (probe && f in ProbeLegacy(t, facts, details))
  {
    hide CheckExpiry, CheckHostname, CheckChain, CheckProtocol, CheckCipher, CheckKeyStrength, CheckSignature,
      ProbeLegacy;
  }

  /** The part of a scan that can hold findings of a section's checks. */
  ghost function Section(t: Target, facts: Facts, probe: bool, now: Time, details: Details, i: int): seq<Finding> {
    if i == 0 then CheckExpiry(t, facts.notAfter, now, details)
    else if i == 1 then CheckHostname(t, facts, details)
    else if i == 2 then CheckChain(t, facts, details)
    else if i == 3 then CheckProtocol(t, facts, details)
    else if i == 4 then CheckCipher(t, facts, details)
    else if i == 5 then CheckKeyStrength(t, facts, details)
    else if i == 6 then CheckSignature(t, facts, details)
    else if i == 7 && probe then ProbeLegacy(t, facts, details)
    else []
  }

  lemma SectionsAreOk(t: Target, facts: Facts, probe: bool, now: Time, details: Details, i: int)
    ensures SectionOk(t, Section(t, facts, probe, now, details, i), i)
  {
    hide SectionOk, CheckExpiry, CheckHostname, CheckChain, CheckProtocol, CheckCipher, CheckKeyStrength,
      CheckSignature, ProbeLegacy;
    ExpirySection(t, facts.notAfter, now, details);
    HostnameSection(t, facts, details);
    ChainSection(t, facts, details);
    ProtocolSection(t, facts, details);
    CipherSection(t, facts, details);
    KeySection(t, facts, details);
    SignatureSection(t, facts, details);
    ProbeSection(t, facts, details);
    NoSection(t, i);
  }

  lemma InItsSection(t: Target, facts: Facts, probe: bool, now: Time, details: Details, f: Finding)
    ensures f in Collected(t, facts, probe, now, details)
      <==> f in Section(t, facts, probe, now, details, SectionOf(f.check))
  {
    hide CheckExpiry, CheckHostname, CheckChain, CheckProtocol, CheckCipher, CheckKeyStrength, CheckSignature,
      ProbeLegacy, WellFormed, SectionOf, Collected;
    SectionsSeparate(t, facts, probe, now, details, f);
    forall i ensures SectionOk(t, Section(t, facts, probe, now, details, i), i) {
      SectionsAreOk(t, facts, probe, now, details, i);
    }
    forall i | f in Section(t, facts, probe, now, details, i) ensures i == SectionOf(f.check) {
    }
    assert Section(t, facts, probe, now, details, 0) == CheckExpiry(t, facts.notAfter, now, details);
    assert Section(t, facts, probe, now, details, 1) == CheckHostname(t, facts, details);
    assert Section(t, facts, probe, now, details, 2) == CheckChain(t, facts, details);
    assert Section(t, facts, probe, now, details, 3) == CheckProtocol(t, facts, details);
    assert Section(t, facts, probe, now, details, 4) == CheckCipher(t, facts, details);
    assert Section(t, facts, probe, now, details, 5) == CheckKeyStrength(t, facts, details);
    assert Section(t, facts, probe, now, details, 6) == CheckSignature(t, facts, details);
    assert probe ==> Section(t, facts, probe, now, details, 7) == ProbeLegacy(t, facts, details);
  }

  /** So the verdict on a check is that of its section. */
  lemma VerdictOfSection(t: Target, facts: Facts, probe: bool, now: Time, details: Details, check: string, holds: bool,
                         severity: Severity, discriminator: string)
    requires When(t, Section(t, facts, probe, now, details, SectionOf(check)), check, holds, severity, discriminator)
    ensures When(t, Collected(t, facts, probe, now, details), check, holds, severity, discriminator)
  {
    hide Section, SectionOf, Collected, Fingerprint;
    forall f: Finding ensures f.check == check ==>
      (f in Collected(t, facts, probe, now, details) <==> f in Section(t, facts, probe, now, details, SectionOf(check)))
    {
      InItsSection(t, facts, probe, now, details, f);
    }
  }

  /** The certificate: its end, the name and the chain. */
  lemma CertificateGraded(t: Target, facts: Facts, probe: bool, now: Time, details: Details)
    ensures var fs := Collected(t, facts, probe, now, details);
      var left := facts.notAfter - now;
      var day := 86_400_000_000_000;
      && When(t, fs, "tls.expired", left < 0, Critical, "")
      && When(t, fs, "tls.expiry", 0 <= left < 31 * day,
              if left < 2 * day then Critical else if left < 8 * day then High else Medium, "")
      && When(t, fs, "tls.hostname_mismatch", !facts.hostIsAddress && !facts.coversHost, High, "")
      && When(t, fs, "tls.incomplete_chain", !facts.chainVerifies && facts.presented == 1 && !facts.issuerIsSubject,
              Medium, "")
      && When(t, fs, "tls.untrusted_chain", !facts.chainVerifies && (facts.presented != 1 || facts.issuerIsSubject),
              High, "")
  {
    CertificateChecksAreValid();
    ExpirySections(t, facts, now, details);
    NameSection(t, facts, details);
    ChainSections(t, facts, details);
    hide CheckExpiry, CheckHostname, CheckChain, When, SectionOf, Collected;
    var left := facts.notAfter - now;
    var day := 86_400_000_000_000;
    VerdictOfSection(t, facts, probe, now, details, EXPIRED, left < 0, Critical, "");
    VerdictOfSection(t, facts, probe, now, details, EXPIRY, 0 <= left < 31 * day,
                     if left < 2 * day then Critical else if left < 8 * day then High else Medium, "");
    VerdictOfSection(t, facts, probe, now, details, HOSTNAME_MISMATCH,
                     !facts.hostIsAddress && !facts.coversHost, High, "");
    VerdictOfSection(t, facts, probe, now, details, INCOMPLETE_CHAIN,
                     !facts.chainVerifies && facts.presented == 1 && !facts.issuerIsSubject, Medium, "");
    VerdictOfSection(t, facts, probe, now, details, UNTRUSTED_CHAIN,
                     !facts.chainVerifies && (facts.presented != 1 || facts.issuerIsSubject), High, "");
  }

  lemma ExpirySections(t: Target, facts: Facts, now: Time, details: Details)
    ensures var fs := CheckExpiry(t, facts.notAfter, now, details);
      var left := facts.notAfter - now;
      && When(t, fs, EXPIRED, left < 0, Critical, "")
      && When(t, fs, EXPIRY, 0 <= left < 31 * 86_400_000_000_000,
              if left < 2 * 86_400_000_000_000 then Critical
              else if left < 8 * 86_400_000_000_000 then High
              else Medium, "")
  {
    hide Decimal, Fingerprint;
    assert EXPIRED != EXPIRY;
    var fs := CheckExpiry(t, facts.notAfter, now, details);
    assert fs != [] ==> fs == [fs[0]];
  }

  lemma NameSection(t: Target, facts: Facts, details: Details)
    ensures When(t, CheckHostname(t, facts, details), HOSTNAME_MISMATCH,
                 !facts.hostIsAddress && !facts.coversHost, High, "")
  {
    hide Fingerprint;
    var fs := CheckHostname(t, facts, details);
    assert fs != [] ==> fs == [fs[0]];
  }

  lemma ChainSections(t: Target, facts: Facts, details: Details)
    ensures When(t, CheckChain(t, facts, details), INCOMPLETE_CHAIN,
                 !facts.chainVerifies && facts.presented == 1 && !facts.issuerIsSubject, Medium, "")
    ensures When(t, CheckChain(t, facts, details), UNTRUSTED_CHAIN,
                 !facts.chainVerifies && (facts.presented != 1 || facts.issuerIsSubject), High, "")
  {
    hide Fingerprint;
    assert |INCOMPLETE_CHAIN| != |UNTRUSTED_CHAIN|;
    var fs := CheckChain(t, facts, details);
    assert fs != [] ==> fs == [fs[0]];
  }

  /** The number that a decimal numeral denotes. */
  function Denotes(s: string): int {
    if s == "" then 0 else 10 * Denotes(s[..|s| - 1]) + (s[|s| - 1] as int - '0' as int)
  }

  lemma {:induction false} DecimalDenotes(n: nat)
    ensures forall c :: c in Decimal(n) ==> '0' <= c <= '9'
    ensures Denotes(Decimal(n)) == n
  {
    assert forall d :: 0 <= d < 10 ==> DIGITS[d] as int == '0' as int + d && '0' <= DIGITS[d] <= '9';
    if n < 10 {
      assert Decimal(n)[..0] == "";
    } else {
      DecimalDenotes(n / 10);
      assert Decimal(n)[..|Decimal(n)| - 1] == Decimal(n / 10);
    }
  }

  /** Whole days in a length of time. */
  predicate WholeDays(days: nat, time: int) {
    days * 86_400_000_000_000 <= time < (days + 1) * 86_400_000_000_000
  }

  lemma DaysOf(later: Time, earlier: Time)
    requires earlier <= later < earlier + 0x8000_0000_0000_0000
    ensures WholeDays(Since(later, earlier) / DAY, later - earlier)
  {
  }

  /** The titles name the whole days that are left, or that have passed; the clock and the certificate are within 292
      years of each other. */
  lemma TitlesCountDays(t: Target, notAfter: Time, now: Time, details: Details, f: Finding)
    requires -0x8000_0000_0000_0000 < notAfter - now < 0x8000_0000_0000_0000
    requires f in CheckExpiry(t, notAfter, now, details)
    ensures now > notAfter ==> exists days: nat ::
      WholeDays(days, now - notAfter) && f.title == "Certificate EXPIRED " + Decimal(days) + " day(s) ago"
    ensures now <= notAfter ==> exists days: nat ::
      WholeDays(days, notAfter - now) && f.title == "Certificate expires in " + Decimal(days) + " day(s)"
  {
    hide Decimal, Fingerprint, WholeDays, Since;
    if now > notAfter {
      DaysOf(now, notAfter);
      assert f.title == "Certificate EXPIRED " + Decimal(Since(now, notAfter) / DAY) + " day(s) ago";
    } else {
      DaysOf(notAfter, now);
      assert f.title == "Certificate expires in " + Decimal(Since(notAfter, now) / DAY) + " day(s)";
    }
  }

  function Named(name: Option<Name>): string {
    if name.Some? then name.value else ""
  }

  lemma SectionWording(t: Target, facts: Facts, probe: bool, now: Time, details: Details, f: Finding, i: int)
    requires f in Section(t, facts, probe, now, details, i)
    ensures f.evidence == details(f.check)
    ensures i == 1 ==> f.title == "Certificate does not cover " + t.quotedHost
    ensures i == 2 && f.check == UNTRUSTED_CHAIN ==>
      f.title == if facts.presented == 1 then "Certificate is self-signed" else "Certificate chain is not trusted"
  {
    SectionEvidence(t, facts, probe, now, details, f, i);
    SectionTitle(t, facts, details, f);
    hide CheckExpiry, CheckHostname, CheckChain, CheckProtocol, CheckCipher, CheckKeyStrength, CheckSignature,
      ProbeLegacy;
  }

  lemma SectionTitle(t: Target, facts: Facts, details: Details, f: Finding)
    ensures f in CheckHostname(t, facts, details) ==> f.title == "Certificate does not cover " + t.quotedHost
    ensures f in CheckChain(t, facts, details) && f.check == UNTRUSTED_CHAIN ==>
      f.title == if facts.presented == 1 then "Certificate is self-signed" else "Certificate chain is not trusted"
  {
    hide Fingerprint;
    assert |INCOMPLETE_CHAIN| != |UNTRUSTED_CHAIN|;
  }

  lemma SectionEvidence(t: Target, facts: Facts, probe: bool, now: Time, details: Details, f: Finding, i: int)
    requires f in Section(t, facts, probe, now, details, i)
    ensures f.evidence == details(f.check)
  {
    hide CheckExpiry, CheckHostname, CheckChain, CheckProtocol, CheckCipher, CheckKeyStrength, CheckSignature,
      ProbeLegacy;
    ExpiryEvidence(t, facts.notAfter, now, details);
    NameEvidence(t, facts, details);
    ChainEvidence(t, facts, details);
    ProtocolEvidence(t, facts, details);
    CipherEvidence(t, facts, details);
    KeyEvidence(t, facts, details);
    SignatureEvidence(t, facts, details);
    ProbeEvidence(t, facts, details);
  }

  ghost predicate OwnEvidence(details: Details, fs: seq<Finding>) {
    forall f :: f in fs ==> f.evidence == details(f.check)
  }

  lemma ExpiryEvidence(t: Target, notAfter: Time, now: Time, details: Details)
    ensures OwnEvidence(details, CheckExpiry(t, notAfter, now, details))
  {
    hide Fingerprint, Decimal, Since;
    var fs := CheckExpiry(t, notAfter, now, details);
    assert fs != [] ==> fs == [fs[0]];
  }

  lemma NameEvidence(t: Target, facts: Facts, details: Details)
    ensures OwnEvidence(details, CheckHostname(t, facts, details))
  {
    hide Fingerprint;
    var fs := CheckHostname(t, facts, details);
    assert fs != [] ==> fs == [fs[0]];
  }

  lemma ChainEvidence(t: Target, facts: Facts, details: Details)
    ensures OwnEvidence(details, CheckChain(t, facts, details))
  {
    hide Fingerprint;
    var fs := CheckChain(t, facts, details);
    assert fs != [] ==> fs == [fs[0]];
  }

  lemma ProtocolEvidence(t: Target, facts: Facts, details: Details)
    ensures OwnEvidence(details, CheckProtocol(t, facts, details))
  {
    hide Fingerprint, VersionName;
    var fs := CheckProtocol(t, facts, details);
    assert fs != [] ==> fs == [fs[0]];
  }

  lemma CipherEvidence(t: Target, facts: Facts, details: Details)
    ensures OwnEvidence(details, CheckCipher(t, facts, details))
  {
    hide Fingerprint, VersionName;
    var fs := CheckCipher(t, facts, details);
    assert fs != [] ==> fs == [fs[0]];
  }

  lemma KeyEvidence(t: Target, facts: Facts, details: Details)
    ensures OwnEvidence(details, CheckKeyStrength(t, facts, details))
  {
    hide Fingerprint, Decimal;
    var fs := CheckKeyStrength(t, facts, details);
    assert fs != [] ==> fs == [fs[0]];
  }

  lemma SignatureEvidence(t: Target, facts: Facts, details: Details)
    ensures OwnEvidence(details, CheckSignature(t, facts, details))
  {
    hide Fingerprint, Decimal;
    var fs := CheckSignature(t, facts, details);
    assert fs != [] ==> fs == [fs[0]];
  }

  lemma ProbeEvidence(t: Target, facts: Facts, details: Details)
    ensures OwnEvidence(details, ProbeLegacy(t, facts, details))
  {
    hide Fingerprint, VersionName;
    var fs := ProbeLegacy(t, facts, details);
    assert fs != [] ==> fs == [fs[0]];
  }

  /** Each finding carries the evidence of its own check, a name mismatch names the host as quoted, and of the chains
      that are not trusted those of one certificate are called self-signed. */
  lemma FindingsAreWorded(t: Target, facts: Facts, probe: bool, now: Time, details: Details, f: Finding)
    requires f in Collected(t, facts, probe, now, details)
    ensures f.evidence == details(f.check)
    ensures f.check == "tls.hostname_mismatch" ==> f.title == "Certificate does not cover " + t.quotedHost
    ensures f.check == "tls.untrusted_chain" ==>
      f.title == if facts.presented == 1 then "Certificate is self-signed" else "Certificate chain is not trusted"
  {
    CertificateChecksAreValid();
    hide Section, SectionOf, Collected;
    InItsSection(t, facts, probe, now, details, f);
    SectionWording(t, facts, probe, now, details, f, SectionOf(f.check));
  }

  /** The connection: protocol below TLS 1.2 (0x0303), insecure cipher, RSA key below 2048 bits, legacy signature, and
      whether the probe, if there is one, still gets a legacy connection. */
  lemma ConnectionGraded(t: Target, facts: Facts, probe: bool, now: Time, details: Details)
    ensures var fs := Collected(t, facts, probe, now, details);
      && When(t, fs, "tls.weak_protocol", facts.version < 0x0303, High, VersionName(facts.version))
      && When(t, fs, "tls.weak_cipher", facts.insecureCipher.Some?, High, Named(facts.insecureCipher))
      && When(t, fs, "tls.weak_key", facts.key.Rsa? && facts.key.bits < 2048, High,
              if facts.key.Rsa? then "rsa-" + Decimal(facts.key.bits) else "")
      && When(t, fs, "tls.legacy_signature", facts.legacySignature.Some?, High, Named(facts.legacySignature))
      && When(t, fs, "tls.legacy_protocol", probe && facts.legacyAccepted.Some?, Medium, "")
  {
    ConnectionChecksAreValid();
    LegacyChecksAreValid();
    ProtocolGraded(t, facts, details);
    CipherGraded(t, facts, details);
    KeyGraded(t, facts, details);
    SignatureGraded(t, facts, details);
    ProbeGraded(t, facts, details);
    NoVerdict(t);
    hide CheckProtocol, CheckCipher, CheckKeyStrength, CheckSignature, ProbeLegacy, When, SectionOf, Collected, Decimal,
      VersionName, Named;
    VerdictOfSection(t, facts, probe, now, details, WEAK_PROTOCOL, facts.version < 0x0303, High,
                     VersionName(facts.version));
    VerdictOfSection(t, facts, probe, now, details, WEAK_CIPHER, facts.insecureCipher.Some?, High,
                     Named(facts.insecureCipher));
    VerdictOfSection(t, facts, probe, now, details, WEAK_KEY, facts.key.Rsa? && facts.key.bits < 2048, High,
                     if facts.key.Rsa? then "rsa-" + Decimal(facts.key.bits) else "");
    VerdictOfSection(t, facts, probe, now, details, LEGACY_SIGNATURE, facts.legacySignature.Some?, High,
                     Named(facts.legacySignature));
    VerdictOfSection(t, facts, probe, now, details, LEGACY_PROTOCOL, probe && facts.legacyAccepted.Some?, Medium, "");
  }

  lemma NoVerdict(t: Target)
    ensures When(t, [], LEGACY_PROTOCOL, false, Medium, "")
  {
  }

  lemma ProtocolGraded(t: Target, facts: Facts, details: Details)
    ensures When(t, CheckProtocol(t, facts, details), WEAK_PROTOCOL, facts.version < 0x0303, High,
                 VersionName(facts.version))
  {
    hide Fingerprint, VersionName;
    var fs := CheckProtocol(t, facts, details);
    assert fs != [] ==> fs == [fs[0]];
  }

  lemma CipherGraded(t: Target, facts: Facts, details: Details)
    ensures When(t, CheckCipher(t, facts, details), WEAK_CIPHER, facts.insecureCipher.Some?, High,
                 Named(facts.insecureCipher))
  {
    hide Fingerprint;
    var fs := CheckCipher(t, facts, details);
    assert fs != [] ==> fs == [fs[0]];
  }

  lemma KeyGraded(t: Target, facts: Facts, details: Details)
    ensures When(t, CheckKeyStrength(t, facts, details), WEAK_KEY, facts.key.Rsa? && facts.key.bits < 2048, High,
                 if facts.key.Rsa? then "rsa-" + Decimal(facts.key.bits) else "")
  {
    hide Fingerprint, Decimal;
    var fs := CheckKeyStrength(t, facts, details);
    assert fs != [] ==> fs == [fs[0]];
  }

  lemma SignatureGraded(t: Target, facts: Facts, details: Details)
    ensures When(t, CheckSignature(t, facts, details), LEGACY_SIGNATURE, facts.legacySignature.Some?, High,
                 Named(facts.legacySignature))
  {
    hide Fingerprint;
    var fs := CheckSignature(t, facts, details);
    assert fs != [] ==> fs == [fs[0]];
  }

  lemma ProbeGraded(t: Target, facts: Facts, details: Details)
    ensures When(t, ProbeLegacy(t, facts, details), LEGACY_PROTOCOL, facts.legacyAccepted.Some?, Medium, "")
  {
    hide Fingerprint, VersionName;
    var fs := ProbeLegacy(t, facts, details);
    assert fs != [] ==> fs == [fs[0]];
  }

  /** How the versions below TLS 1.2 that a client can negotiate are named. */
  lemma LegacyVersions()
    ensures VersionName(0x0301) == "TLS 1.0" && VersionName(0x0302) == "TLS 1.1"
  {
  }
}
