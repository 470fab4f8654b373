/** Which keys of an evidence map survive: no secret-looking ones, and of the rest the smallest 24. */
module EvidenceKeys {

  const MAX_KEYS: nat := 24

  const SECRET_MARKERS: seq<string> := [
    "password", "passwd", "passphrase", "secret", "token", "apikey",
    "api_key", "api-key", "private", "credential", "cookie", "session",
    "authorization", "bearer", "license_key", "licence_key", "signature"]

  /** Lower case as far as the markers can notice: the characters whose lower case is ASCII. */
  function LowerChar(c: char): char {
    if 'A' <= c <= 'Z' then (c as int + 32) as char
    else if c == '\U{0130}' then 'i'
    else if c == '\U{212A}' then 'k'
    else c
  }

  function Lower(s: string): string {
    seq(|s|, i requires 0 <= i < |s| => LowerChar(s[i]))
  }

  predicate OccursAt(s: string, part: string, i: nat) {
    i + |part| <= |s| && s[i..i + |part|] == part
  }

  predicate Contains(s: string, part: string) {
    exists i: nat :: i <= |s| && OccursAt(s, part, i)
  }

  predicate IsSecretKey(k: string) {
    exists i :: 0 <= i < |SECRET_MARKERS| && Contains(Lower(k), SECRET_MARKERS[i])
  }

  /** The order of `sort.Strings`; on UTF-8 text, byte order and code point order are the same. */
  predicate Less(a: string, b: string) {
    b != "" && (a == "" || a[0] < b[0] || (a[0] == b[0] && Less(a[1..], b[1..])))
  }

  lemma {:induction false} LessTotal(a: string, b: string)
    ensures a == b || Less(a, b) || Less(b, a)
    ensures !(Less(a, b) && Less(b, a)) && !Less(a, a)
  {
    if a != "" {
      LessTotal(a[1..], a[1..]);
    }
    if a != "" && b != "" {
      LessTotal(a[1..], b[1..]);
      if a[0] == b[0] && a[1..] == b[1..] {
        assert a == [a[0]] + a[1..] && b == [b[0]] + b[1..];
      }
    }
  }

  lemma {:induction false} LessTransitive(a: string, b: string, c: string)
    requires Less(a, b) && Less(b, c)
    ensures Less(a, c)
  {
    if a != "" && a[0] == b[0] && b[0] == c[0] {
      LessTransitive(a[1..], b[1..], c[1..]);
    }
  }

  ghost predicate ProperPrefix(a: string, b: string) {
    |a| < |b| && b[..|a|] == a
  }

  ghost predicate DiffersFirstAt(a: string, b: string, i: nat) {
    i < |a| && i < |b| && a[..i] == b[..i] && a[i] < b[i]
  }

  lemma ShiftPrefix(a: string, b: string)
    requires a != "" && b != "" && a[0] == b[0]
    ensures ProperPrefix(a, b) <==> ProperPrefix(a[1..], b[1..])
  {
    if |a| < |b| {
      assert b[..|a|] == [b[0]] + b[1..][..|a| - 1];
      assert a == [a[0]] + a[1..];
    }
  }

  lemma ShiftDifference(a: string, b: string, i: nat)
    requires a != "" && b != "" && a[0] == b[0]
    ensures DiffersFirstAt(a, b, i + 1) <==> DiffersFirstAt(a[1..], b[1..], i)
    ensures !DiffersFirstAt(a, b, 0)
  {
    if i + 1 < |a| && i + 1 < |b| {
      assert a[..i + 1] == [a[0]] + a[1..][..i] && b[..i + 1] == [b[0]] + b[1..][..i];
    }
  }

  /** Dictionary order: a proper prefix comes first, otherwise the first difference decides. */
  lemma {:induction false} LessExactly(a: string, b: string)
    ensures Less(a, b) <==> ProperPrefix(a, b) || exists i: nat :: DiffersFirstAt(a, b, i)
  {
    hide ProperPrefix, DiffersFirstAt;
    if a == "" || b == "" {
      LessWithEmpty(a, b);
    } else if a[0] != b[0] {
      FirstDiffers(a, b);
    } else {
      LessExactly(a[1..], b[1..]);
      ShiftPrefix(a, b);
      if i: nat :| DiffersFirstAt(a, b, i) {
        ShiftDifference(a, b, if i > 0 then i - 1 else 0);
      }
      if i: nat :| DiffersFirstAt(a[1..], b[1..], i) {
        ShiftDifference(a, b, i);
      }
    }
  }

  lemma LessWithEmpty(a: string, b: string)
    requires a == "" || b == ""
    ensures Less(a, b) <==> ProperPrefix(a, b) || exists i: nat :: DiffersFirstAt(a, b, i)
  {
  }

  lemma FirstDiffers(a: string, b: string)
    requires a != "" && b != "" && a[0] != b[0]
    ensures !ProperPrefix(a, b)
    ensures (exists i: nat :: DiffersFirstAt(a, b, i)) <==> a[0] < b[0]
  {
    assert a[..0] == b[..0];
    assert DiffersFirstAt(a, b, 0) <==> a[0] < b[0];
    forall i: nat | 0 < i <= |a| && i <= |b| ensures a[..i] != b[..i] {
      assert a[..i][0] == a[0] && b[..i][0] == b[0];
    }
  }

  /** The characters that a matching ignoring case takes for a lower-case character of a marker. */
  predicate Spells(c: char, lower: char) {
    || c == lower
    || ('a' <= lower <= 'z' && c as int == lower as int - 32)
    || (lower == 'i' && c == '\U{0130}')
    || (lower == 'k' && c == '\U{212A}')
  }

  predicate SpelledAt(k: string, marker: string, i: nat) {
    i + |marker| <= |k| && forall j :: 0 <= j < |marker| ==> Spells(k[i + j], marker[j])
  }

  lemma LowerSpells(c: char, l: char)
    requires 'a' <= l <= 'z' || l == '_' || l == '-'
    ensures LowerChar(c) == l <==> Spells(c, l)
  {
  }

  predicate PlainMarker(marker: string) {
    forall j :: 0 <= j < |marker| ==> 'a' <= marker[j] <= 'z' || marker[j] == '_' || marker[j] == '-'
  }

  lemma SpelledIsContained(k: string, marker: string)
    requires PlainMarker(marker)
    ensures Contains(Lower(k), marker) <==> exists i: nat :: i <= |k| && SpelledAt(k, marker, i)
  {
    hide LowerChar, Spells;
    forall i: nat | i <= |k| ensures OccursAt(Lower(k), marker, i) <==> SpelledAt(k, marker, i) {
      if i + |marker| <= |k| {
        forall j | 0 <= j < |marker| ensures LowerChar(k[i + j]) == marker[j] <==> Spells(k[i + j], marker[j]) {
          LowerSpells(k[i + j], marker[j]);
        }
        var part := Lower(k)[i..i + |marker|];
        assert forall j :: 0 <= j < |marker| ==> part[j] == LowerChar(k[i + j]);
        assert part == marker <==> forall j :: 0 <= j < |marker| ==> part[j] == marker[j];
      }
    }
  }

  lemma MarkersArePlain()
    ensures forall i :: 0 <= i < |SECRET_MARKERS| ==> PlainMarker(SECRET_MARKERS[i])
  {
  }

  ghost predicate IsMarker(marker: string) {
    || marker in {"password", "passwd", "passphrase", "secret", "token", "apikey", "api_key", "api-key", "private"}
    || marker in {"credential", "cookie", "session", "authorization", "bearer", "license_key", "licence_key"}
    || marker == "signature"
  }

  lemma MarkersExactly(marker: string)
    ensures IsMarker(marker) <==> exists i :: 0 <= i < |SECRET_MARKERS| && SECRET_MARKERS[i] == marker
  {
    var s := SECRET_MARKERS;
    assert s[0] == "password" && s[1] == "passwd" && s[2] == "passphrase" && s[3] == "secret" && s[4] == "token";
    assert s[5] == "apikey" && s[6] == "api_key" && s[7] == "api-key" && s[8] == "private" && s[9] == "credential";
    assert s[10] == "cookie" && s[11] == "session" && s[12] == "authorization" && s[13] == "bearer";
    assert s[14] == "license_key" && s[15] == "licence_key" && s[16] == "signature" && |s| == 17;
  }

  /** A key is secret-like exactly when it contains one of the seventeen markers, in whatever case. */
  lemma SecretExactly(k: string)
    ensures IsSecretKey(k) <==> exists marker, i: nat :: IsMarker(marker) && i <= |k| && SpelledAt(k, marker, i)
  {
    hide IsMarker, SpelledAt, Contains, PlainMarker;
    MarkersArePlain();
    if IsSecretKey(k) {
      var n :| 0 <= n < |SECRET_MARKERS| && Contains(Lower(k), SECRET_MARKERS[n]);
      MarkersExactly(SECRET_MARKERS[n]);
      SpelledIsContained(k, SECRET_MARKERS[n]);
    }
    if marker, i: nat :| IsMarker(marker) && i <= |k| && SpelledAt(k, marker, i) {
      MarkersExactly(marker);
      var n :| 0 <= n < |SECRET_MARKERS| && SECRET_MARKERS[n] == marker;
      SpelledIsContained(k, marker);
    }
  }

  // ---- the smallest keys ----

  function Surviving(keys: set<string>): set<string> {
    set k | k in keys && !IsSecretKey(k)
  }

  function Below(keys: set<string>, k: string): set<string> {
    set x | x in keys && Less(x, k)
  }

  /** The surviving keys with fewer than 24 surviving keys before them. */
  function Kept(keys: set<string>): set<string> {
    set k | k in keys && !IsSecretKey(k) && |Below(Surviving(keys), k)| < MAX_KEYS
  }

  ghost predicate Sorted(ks: seq<string>) {
    forall i, j :: 0 <= i < j < |ks| ==> Less(ks[i], ks[j])
  }

  function Elements(ks: seq<string>): set<string> {
    set k | k in ks
  }

  lemma {:induction false} SortedSize(ks: seq<string>)
    requires Sorted(ks)
    ensures |Elements(ks)| == |ks|
  {
    if ks != [] {
      var n := |ks| - 1;
      SortedSize(ks[..n]);
      LessTotal(ks[n], ks[n]);
      assert Elements(ks) == Elements(ks[..n]) + {ks[n]};
      forall k | k in Elements(ks[..n]) ensures k != ks[n] {
        var i :| 0 <= i < n && ks[i] == k;
        assert Less(ks[i], ks[n]);
      }
    }
  }

  /** In a sorted listing of the keys, the i-th key has exactly i keys before it. */
  lemma BelowInSorted(ks: seq<string>, i: nat)
    requires Sorted(ks) && i < |ks|
    ensures |Below(Elements(ks), ks[i])| == i
  {
    forall x ensures x in Below(Elements(ks), ks[i]) <==> x in Elements(ks[..i]) {
      if x in Elements(ks) && Less(x, ks[i]) {
        var j :| 0 <= j < |ks| && ks[j] == x;
        LessTotal(ks[j], ks[i]);
        assert j < i;
        assert ks[..i][j] == x;
      }
      if x in Elements(ks[..i]) {
        var j :| 0 <= j < i && ks[..i][j] == x;
        assert ks[j] == x;
      }
    }
    assert Below(Elements(ks), ks[i]) == Elements(ks[..i]);
    SortedSize(ks[..i]);
  }

  /** Sorting the survivors and cutting after 24 keeps exactly `Kept`. */
  lemma CutIsKept(keys: set<string>, ks: seq<string>)
    requires Sorted(ks) && Elements(ks) == Surviving(keys)
    ensures Elements(ks[..if |ks| > MAX_KEYS then MAX_KEYS else |ks|]) == Kept(keys)
  {
    var n := if |ks| > MAX_KEYS then MAX_KEYS else |ks|;
    assert Elements(ks[..n]) <= Elements(ks);
    forall k ensures k in Kept(keys) <==> k in Elements(ks[..n]) {
      if k in Surviving(keys) {
        var i :| 0 <= i < |ks| && ks[i] == k;
        BelowInSorted(ks, i);
        if i < n {
          assert ks[..n][i] == k;
        }
        if k in Elements(ks[..n]) {
          var j :| 0 <= j < n && ks[..n][j] == k;
          BelowInSorted(ks, j);
        }
      }
    }
  }

  // ---- the loop over the map and the sort ----

  function Inserted(ks: seq<string>, k: string): seq<string> {
    if ks == [] then [k]
    else
      var n := |ks| - 1;
      if Less(ks[n], k) then ks + [k] else Inserted(ks[..n], k) + [ks[n]]
  }

  lemma {:induction false} InsertedSorted(ks: seq<string>, k: string)
    requires Sorted(ks) && k !in Elements(ks)
    ensures Sorted(Inserted(ks, k)) && Elements(Inserted(ks, k)) == Elements(ks) + {k}
  {
    hide Less;
    if ks != [] {
      var n := |ks| - 1;
      assert ks == ks[..n] + [ks[n]];
      assert ks[n] in Elements(ks);
      LessTotal(ks[n], k);
      if Less(ks[n], k) {
        forall j | 0 <= j < n ensures Less(ks[j], k) {
          LessTransitive(ks[j], ks[n], k);
        }
        AppendKey(ks, k);
      } else {
        InsertedSorted(ks[..n], k);
        forall x | x in Elements(Inserted(ks[..n], k)) ensures Less(x, ks[n]) {
          if x != k {
            var j :| 0 <= j < n && ks[j] == x;
          }
        }
        AppendKey(Inserted(ks[..n], k), ks[n]);
        AppendKey(ks[..n], ks[n]);
      }
    }
  }

  lemma AppendKey(ks: seq<string>, k: string)
    requires Sorted(ks) && forall x :: x in Elements(ks) ==> Less(x, k)
    ensures Sorted(ks + [k]) && Elements(ks + [k]) == Elements(ks) + {k}
  {
    hide Less;
    forall i | 0 <= i < |ks| ensures Less(ks[i], k) {
      assert ks[i] in Elements(ks);
    }
  }

  method SelectKeys(keys: set<string>) returns (ks: seq<string>)
    ensures Sorted(ks) && Elements(ks) == Kept(keys)
  {
    ks := [];
    var todo := keys;
    while todo != {}
      invariant todo <= keys
      invariant Sorted(ks) && Elements(ks) == Surviving(keys - todo)
      decreases todo
    {
      var k :| k in todo;
      todo := todo - {k};
      assert keys - todo == keys - (todo + {k}) + {k};
      if !IsSecretKey(k) {
        assert k !in Elements(ks);
        InsertedSorted(ks, k);
        ks := Inserted(ks, k);
      }
    }
    assert keys - todo == keys;
    CutIsKept(keys, ks);
    if |ks| > MAX_KEYS {
      ks := ks[..MAX_KEYS];
    } else {
      assert ks[..|ks|] == ks;
    }
  }

  lemma {:induction false} SortedListing(keys: set<string>) returns (ks: seq<string>)
    ensures Sorted(ks) && Elements(ks) == keys
  {
    if keys == {} {
      return [];
    }
    var k :| k in keys;
    var rest := SortedListing(keys - {k});
    InsertedSorted(rest, k);
    ks := Inserted(rest, k);
    assert keys == keys - {k} + {k};
  }

  /** `Kept` holds as many survivors as fit, none of them secret-like, and each before every survivor left out. */
  lemma KeptAreTheSmallest(keys: set<string>)
    ensures |Kept(keys)| == if |Surviving(keys)| < 24 then |Surviving(keys)| else 24
    ensures forall k :: k in Kept(keys) ==> k in keys && !IsSecretKey(k)
    ensures forall k, x :: k in Kept(keys) && x in Surviving(keys) - Kept(keys) ==> Less(k, x)
  {
    var ks := SortedListing(Surviving(keys));
    CutIsKept(keys, ks);
    var n := if |ks| > MAX_KEYS then MAX_KEYS else |ks|;
    SortedSize(ks);
    SortedSize(ks[..n]);
    forall j | 0 <= j < n ensures ks[j] in Kept(keys) {
      assert ks[..n][j] == ks[j];
    }
    forall k, x | k in Kept(keys) && x in Surviving(keys) - Kept(keys) ensures Less(k, x) {
      assert k in Elements(ks[..n]) && x in Elements(ks);
      var i :| 0 <= i < n && ks[..n][i] == k;
      var j :| 0 <= j < |ks| && ks[j] == x;
      assert Less(ks[i], ks[j]);
    }
  }

  /** Selecting again changes nothing. */
  lemma KeptAgain(keys: set<string>)
    ensures Kept(Kept(keys)) == Kept(keys)
  {
    KeptAreTheSmallest(keys);
    assert Surviving(Kept(keys)) == Kept(keys);
    forall k | k in Kept(keys) ensures |Below(Kept(keys), k)| < MAX_KEYS {
      SubsetSize(Below(Kept(keys), k), Below(Surviving(keys), k));
    }
  }

  lemma {:induction false} SubsetSize(a: set<string>, b: set<string>)
    requires a <= b
    ensures |a| <= |b|
  {
    assert b == a + (b - a);
  }
}
