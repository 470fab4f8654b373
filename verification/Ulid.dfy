/** ULIDs: 48 bits of millisecond time and 80 bits of entropy, as 26 Crockford base-32 characters. */
module Ulid {
  import opened Core
  import opened Positional

  const CROCKFORD := "0123456789ABCDEFGHJKMNPQRSTVWXYZ"

  type Byte = x: nat | x < 256
  type Word = x: nat | x < 0x1_0000_0000_0000_0000

  const TWO_48: nat := 0x1_0000_0000_0000

  ghost predicate IsUlidBytes(b: seq<nat>) {
    |b| == 16 && InRadix(b, Base256)
  }

  function Letter(d: nat): char
    requires d < 32
  {
    CROCKFORD[d]
  }

  function Letters(ds: seq<nat>): (s: string)
    requires InRadix(ds, Base32)
    ensures |s| == |ds|
  {
    seq(|ds|, i requires 0 <= i < |ds| => Letter(ds[i]))
  }

  /** The 128-bit value of the bytes, in base 32. */
  function Encoded(b: seq<nat>): string {
    Letters(Digits(Value(b, Base256), Base32, 26))
  }

  // ---- machine words ----

  /** `x >> 5`, `x & 0x1f` and `x << 59` of a 64-bit word. */
  function ShiftRight5(x: Word): Word { x / 32 }

  function Low5(x: Word): nat { x % 32 }

  function ShiftLeft59(x: Word): Word { (x * 0x800_0000_0000_0000) % 0x1_0000_0000_0000_0000 }

  /** The two words joined by the shift have no bit in common, so their bitwise or is their sum. */
  lemma OrIsPlus(hi: bv64, lo: bv64)
    ensures (lo >> 5) | (hi << 59) == (lo >> 5) + (hi << 59)
    ensures (lo >> 5) & (hi << 59) == 0
  {
  }

  lemma ShiftAcross(hi: Word, lo: Word)
    ensures ShiftRight5(lo) + ShiftLeft59(hi) < 0x1_0000_0000_0000_0000
    ensures ShiftRight5(hi) * 0x1_0000_0000_0000_0000 + (ShiftRight5(lo) + ShiftLeft59(hi))
         == (hi * 0x1_0000_0000_0000_0000 + lo) / 32
    ensures Low5(lo) == (hi * 0x1_0000_0000_0000_0000 + lo) % 32
  {
    var q, r := hi / 32, hi % 32;
    assert hi * 0x800_0000_0000_0000 == q * 0x1_0000_0000_0000_0000 + r * 0x800_0000_0000_0000;
    assert ShiftLeft59(hi) == r * 0x800_0000_0000_0000;
  }

  lemma {:induction false} ValueOfWords(xs: seq<nat>, ys: seq<nat>)
    ensures Value(xs + ys, Base256) == Value(xs, Base256) * Power(Base256, |ys|) + Value(ys, Base256)
  {
    if ys == [] {
      assert xs + ys == xs;
    } else {
      var n := |ys| - 1;
      ValueOfWords(xs, ys[..n]);
      assert (xs + ys)[..|xs + ys| - 1] == xs + ys[..n];
      Distribute(Value(xs, Base256), Power(Base256, n), Value(ys[..n], Base256));
    }
  }

  lemma Distribute(x: nat, p: nat, y: nat)
    ensures (x * p + y) * 256 == x * (p * 256) + y * 256
  {
  }

  /** The two big-endian words of the bytes. */
  lemma WordsOfBytes(b: seq<nat>)
    requires IsUlidBytes(b)
    ensures Value(b[..8], Base256) < 0x1_0000_0000_0000_0000 && Value(b[8..], Base256) < 0x1_0000_0000_0000_0000
    ensures Value(b, Base256) == Value(b[..8], Base256) * 0x1_0000_0000_0000_0000 + Value(b[8..], Base256)
    ensures Value(b, Base256) < Power(Base256, 16)
  {
    assert b == b[..8] + b[8..];
    ValueOfWords(b[..8], b[8..]);
    ValueBound(b[..8], Base256);
    ValueBound(b[8..], Base256);
    ValueBound(b, Base256);
    Power256of8();
  }

  lemma Power256of8()
    ensures Power(Base256, 8) == 0x1_0000_0000_0000_0000
  {
    assert Power(Base256, 4) == 0x1_0000_0000;
    assert Power(Base256, 6) == 0x1_0000_0000_0000;
  }

  lemma MoreLetters(d: nat, ds: seq<nat>)
    requires d < 32 && InRadix(ds, Base32)
    ensures InRadix([d] + ds, Base32) && Letters([d] + ds) == [Letter(d)] + Letters(ds)
  {
  }

  /** The 128-bit value of two words. */
  function Joined(hi: Word, lo: Word): nat {
    hi * 0x1_0000_0000_0000_0000 + lo
  }

  lemma EncodeStep(hi: Word, lo: Word, i: nat, done: seq<nat>, all: seq<nat>)
    requires all == Digits(Joined(hi, lo), Base32, i + 1) + done && InRadix(done, Base32)
    ensures Low5(lo) < 32 && ShiftRight5(lo) + ShiftLeft59(hi) < 0x1_0000_0000_0000_0000
    ensures all == Digits(Joined(ShiftRight5(hi), ShiftRight5(lo) + ShiftLeft59(hi)), Base32, i) + ([Low5(lo)] + done)
    ensures InRadix([Low5(lo)] + done, Base32) && Letters([Low5(lo)] + done) == [Letter(Low5(lo))] + Letters(done)
  {
    hide ShiftRight5, ShiftLeft59, Low5, Letters, Letter, Joined, Digits, InRadix;
    JoinedShift(hi, lo);
    NextDigit(Joined(hi, lo), i);
    Regrouped(Digits(Joined(ShiftRight5(hi), ShiftRight5(lo) + ShiftLeft59(hi)), Base32, i), Low5(lo), done);
    MoreLetters(Low5(lo), done);
  }

  lemma JoinedShift(hi: Word, lo: Word)
    ensures Low5(lo) < 32 && ShiftRight5(lo) + ShiftLeft59(hi) < 0x1_0000_0000_0000_0000
    ensures Joined(ShiftRight5(hi), ShiftRight5(lo) + ShiftLeft59(hi)) == Joined(hi, lo) / 32
    ensures Low5(lo) == Joined(hi, lo) % 32
  {
    hide ShiftRight5, ShiftLeft59;
    ShiftAcross(hi, lo);
  }

  lemma NextDigit(v: nat, n: nat)
    ensures Digits(v, Base32, n + 1) == Digits(v / 32, Base32, n) + [v % 32]
  {
  }

  lemma Regrouped(xs: seq<nat>, d: nat, ys: seq<nat>)
    ensures xs + [d] + ys == xs + ([d] + ys)
  {
  }

  /** One character stored in front of those already there. */
  method StoreBefore(out: array<char>, i: nat, c: char, ghost text: string)
    requires i < out.Length && out[i + 1..] == text
    modifies out
    ensures out[i..] == [c] + text
  {
    out[i] := c;
    assert out[i + 1..] == text;
  }

  /** The encoder's loop over two 64-bit words. */
  method EncodeCrockford(b: seq<nat>) returns (s: string)
    requires IsUlidBytes(b)
    ensures s == Encoded(b)
  {
    hide Value, Digits, Letters, Letter, Power, ShiftRight5, ShiftLeft59, Low5, Joined, InRadix;
    assert |b| == 16;
    WordsOfBytes(b);
    var out := new char[26];
    var hi: Word := Value(b[..8], Base256);
    var lo: Word := Value(b[8..], Base256);
    ghost var all := Digits(Value(b, Base256), Base32, 26);
    ghost var done: seq<nat> := [];
    StartWords(b, hi, lo);
    var i := 25;
    while i >= 0
      invariant -1 <= i <= 25
      invariant InRadix(done, Base32)
      invariant all == Digits(Joined(hi, lo), Base32, i + 1) + done
      invariant out[i + 1..] == Letters(done)
    {
      EncodeStep(hi, lo, i, done, all);
      StoreBefore(out, i, Letter(Low5(lo)), Letters(done));
      done := [Low5(lo)] + done;
      lo := ShiftRight5(lo) + ShiftLeft59(hi);
      hi := ShiftRight5(hi);
      i := i - 1;
    }
    NoDigits(Joined(hi, lo), Base32);
    assert [] + done == done;
    s := out[..];
  }

  lemma StartWords(b: seq<nat>, hi: Word, lo: Word)
    requires IsUlidBytes(b) && hi == Value(b[..8], Base256) && lo == Value(b[8..], Base256)
    ensures Digits(Value(b, Base256), Base32, 26) == Digits(Joined(hi, lo), Base32, 26) + []
    ensures InRadix([], Base32) && Letters([]) == ""
  {
    hide Digits, Value;
    WordsOfBytes(b);
  }

  // ---- decoding ----

  function LetterIndex(c: char): (i: int)
    ensures -1 <= i < 32
  {
    IndexFrom(c, 0)
  }

  function IndexFrom(c: char, i: nat): (j: int)
    requires i <= 32
    ensures -1 <= j < 32
    ensures j >= 0 ==> i <= j && CROCKFORD[j] == c
    ensures j < 0 ==> forall k :: i <= k < 32 ==> CROCKFORD[k] != c
    decreases 32 - i
  {
    if i == 32 then -1 else if CROCKFORD[i] == c then i else IndexFrom(c, i + 1)
  }

  function Decoded(s: string): Option<seq<nat>> {
    if |s| != 26 || exists i :: 0 <= i < |s| && LetterIndex(s[i]) < 0 then None
    else
      var v := Value(seq(26, i requires 0 <= i < 26 => LetterIndex(s[i]) as nat), Base32);
      if v < Power(Base256, 16) then Some(Digits(v, Base256, 16)) else None
  }

  /** The alphabet is strictly increasing. */
  lemma AlphabetIncreasing(i: nat, j: nat)
    requires i < j < 32
    ensures CROCKFORD[i] < CROCKFORD[j]
  {
    if i + 1 < j {
      AlphabetIncreasing(i, j - 1);
    }
    AlphabetSteps(j - 1);
  }

  lemma AlphabetSteps(i: nat)
    requires i < 31
    ensures CROCKFORD[i] < CROCKFORD[i + 1]
  {
  }

  lemma LetterIndexOf(i: nat)
    requires i < 32
    ensures LetterIndex(CROCKFORD[i]) == i
  {
    var j := LetterIndex(CROCKFORD[i]);
    if j < i {
      AlphabetIncreasing(j, i);
    } else if i < j {
      AlphabetIncreasing(i, j);
    }
  }

  lemma LetterIndices(ds: seq<nat>)
    requires InRadix(ds, Base32)
    ensures forall i :: 0 <= i < |ds| ==> LetterIndex(Letters(ds)[i]) == ds[i]
  {
    forall i | 0 <= i < |ds| ensures LetterIndex(Letters(ds)[i]) == ds[i] {
      LetterIndexOf(ds[i]);
    }
  }

  lemma Powers()
    ensures Power(Base256, 16) == 0x1_0000_0000_0000_0000_0000_0000_0000_0000
    ensures Power(Base32, 26) == 4 * Power(Base256, 16)
    ensures Power(Base32, 25) * 8 == Power(Base256, 16)
    ensures Power(Base32, 10) == 4 * Power(Base256, 6)
  {
    Power256of8();
    assert Power(Base256, 12) == 0x1_0000_0000_0000_0000_0000_0000;
    assert Power(Base32, 6) == 0x4000_0000;
    assert Power(Base32, 10) == 0x4_0000_0000_0000;
    assert Power(Base32, 14) == 0x40_0000_0000_0000_0000;
    assert Power(Base32, 18) == 0x400_0000_0000_0000_0000_0000;
    assert Power(Base32, 22) == 0x4000_0000_0000_0000_0000_0000_0000;
    assert Power(Base32, 25) == 0x2000_0000_0000_0000_0000_0000_0000_0000;
  }

  /** Decoding an encoded ULID gives its 16 bytes back. */
  lemma RoundTrip(b: seq<nat>)
    requires IsUlidBytes(b)
    ensures Decoded(Encoded(b)) == Some(b)
  {
    hide Letters, LetterIndex, Digits, Power;
    var v := Value(b, Base256);
    var ds := Digits(v, Base32, 26);
    var s := Encoded(b);
    LetterIndices(ds);
    ValueBound(b, Base256);
    Powers();
    ValueOfDigits(v, Base32, 26);
    DigitsOfValue(b, Base256);
    assert seq(26, i requires 0 <= i < 26 => LetterIndex(s[i]) as nat) == ds;
  }

  /** And a text that decodes is the encoding of what it decodes to. */
  lemma DecodedIsEncoding(s: string, b: seq<nat>)
    requires Decoded(s) == Some(b)
    ensures IsUlidBytes(b) && Encoded(b) == s
  {
    hide LetterIndex, Digits, Power;
    var ds := seq(26, i requires 0 <= i < 26 => LetterIndex(s[i]) as nat);
    var v := Value(ds, Base32);
    ValueOfDigits(v, Base256, 16);
    DigitsOfValue(ds, Base32);
    forall i | 0 <= i < 26 ensures Letters(ds)[i] == s[i] {
      LetterOfIndex(s[i]);
    }
  }

  lemma LetterOfIndex(c: char)
    requires LetterIndex(c) >= 0
    ensures Letter(LetterIndex(c)) == c
  {
  }

  /** 26 characters hold 130 bits, so the first one never exceeds '7'. */
  lemma FirstCharacter(b: seq<nat>)
    requires IsUlidBytes(b)
    ensures |Encoded(b)| == 26 && '0' <= Encoded(b)[0] <= '7'
  {
    hide Letters, Power, CROCKFORD;
    var v := Value(b, Base256);
    var ds := Digits(v, Base32, 26);
    ValueBound(b, Base256);
    Powers();
    LeadingDigits(v, Base32, 26, 25);
    assert ds[..1] == Digits(Drop(v, Base32, 25), Base32, 1);
    DropBound(v, 25, 8);
    assert ds[0] == ds[..1][0] && ds[0] < 8;
    FirstLetters(ds);
  }

  lemma {:induction false} DropBound(v: nat, n: nat, bound: nat)
    requires v < Power(Base32, n) * bound
    ensures Drop(v, Base32, n) < bound
  {
    if n > 0 {
      Regroup(Power(Base32, n - 1), bound);
      DropBound(v / 32, n - 1, bound);
    }
  }

  lemma Regroup(p: nat, bound: nat)
    ensures (p * 32) * bound == (p * bound) * 32
  {
  }

  lemma FirstLetters(ds: seq<nat>)
    requires InRadix(ds, Base32) && |ds| > 0 && ds[0] < 8
    ensures '0' <= Letters(ds)[0] <= '7'
  {
  }

  /** The alphabet: the digits and the capital letters without I, L, O and U. */
  lemma AlphabetExactly(c: char)
    ensures LetterIndex(c) >= 0 <==> ('0' <= c <= '9' || 'A' <= c <= 'Z') && c !in "ILOU"
  {
    assert forall i :: 0 <= i < 32 ==>
      ('0' <= CROCKFORD[i] <= '9' || 'A' <= CROCKFORD[i] <= 'Z') && CROCKFORD[i] !in "ILOU";
    if ('0' <= c <= '9' || 'A' <= c <= 'Z') && c !in "ILOU" {
      LettersThere(c);
    }
  }

  lemma LettersThere(c: char)
    requires ('0' <= c <= '9' || 'A' <= c <= 'Z') && c !in "ILOU"
    ensures exists i :: 0 <= i < 32 && CROCKFORD[i] == c
  {
    var i := if c <= '9' then c as int - '0' as int
             else if c <= 'H' then c as int - 'A' as int + 10
             else if c <= 'K' then c as int - 'A' as int + 9
             else if c <= 'N' then c as int - 'A' as int + 8
             else if c <= 'T' then c as int - 'A' as int + 7
             else c as int - 'A' as int + 6;
    NotLeftOut(c);
    assert CROCKFORD[i] == c;
  }

  lemma NotLeftOut(c: char)
    requires c !in "ILOU"
    ensures c != 'I' && c != 'L' && c != 'O' && c != 'U'
  {
    assert "ILOU"[0] == 'I' && "ILOU"[1] == 'L' && "ILOU"[2] == 'O' && "ILOU"[3] == 'U';
  }

  // ---- order ----

  ghost predicate StringLess(s: string, t: string) {
    |s| == |t| && exists i :: 0 <= i < |s| && s[..i] == t[..i] && s[i] < t[i]
  }

  lemma LettersKeepOrder(xs: seq<nat>, ys: seq<nat>)
    requires InRadix(xs, Base32) && InRadix(ys, Base32) && |xs| == |ys|
    ensures StringLess(Letters(xs), Letters(ys)) <==> LexLess(xs, ys)
  {
    hide Letter;
    var s, t := Letters(xs), Letters(ys);
    forall i | 0 <= i < |xs|
      ensures s[i] == t[i] <==> xs[i] == ys[i]
      ensures s[i] < t[i] <==> xs[i] < ys[i]
    {
      LetterOrder(xs[i], ys[i]);
    }
    if i :| 0 <= i < |s| && s[..i] == t[..i] && s[i] < t[i] {
      forall j | 0 <= j < i ensures xs[j] == ys[j] { assert s[j] == s[..i][j] && t[j] == t[..i][j]; }
      assert xs[..i] == ys[..i];
    }
    if i :| 0 <= i < |xs| && xs[..i] == ys[..i] && xs[i] < ys[i] {
      forall j | 0 <= j < i ensures s[j] == t[j] { assert xs[j] == xs[..i][j] && ys[j] == ys[..i][j]; }
      assert s[..i] == t[..i];
    }
  }

  lemma LetterOrder(x: nat, y: nat)
    requires x < 32 && y < 32
    ensures Letter(x) == Letter(y) <==> x == y
    ensures Letter(x) < Letter(y) <==> x < y
  {
    if x < y {
      AlphabetIncreasing(x, y);
    } else if y < x {
      AlphabetIncreasing(y, x);
    }
  }

  /** ULID strings sort exactly as their bytes do. */
  lemma OrderPreserved(b: seq<nat>, c: seq<nat>)
    requires IsUlidBytes(b) && IsUlidBytes(c)
    ensures StringLess(Encoded(b), Encoded(c)) <==> LexLess(b, c)
    ensures Encoded(b) == Encoded(c) <==> b == c
  {
    hide Digits, Letters, Power;
    var v, w := Value(b, Base256), Value(c, Base256);
    ValueBound(b, Base256);
    ValueBound(c, Base256);
    Powers();
    LexIsNumeric(b, c, Base256);
    ValueOfDigits(v, Base32, 26);
    ValueOfDigits(w, Base32, 26);
    LexIsNumeric(Digits(v, Base32, 26), Digits(w, Base32, 26), Base32);
    LettersKeepOrder(Digits(v, Base32, 26), Digits(w, Base32, 26));
    RoundTrip(b);
    RoundTrip(c);
  }

  // ---- time ----

  /** The 48 bits of a millisecond time that fit into a ULID. */
  function Stamp(ms: int): nat {
    ms % TWO_48
  }

  function UlidBytes(ms: int, entropy: seq<nat>): seq<nat> {
    Digits(Stamp(ms), Base256, 6) + entropy
  }

  /** The id of a time and ten bytes of entropy: its 16 bytes are the 48-bit time, big-endian, and then the entropy. */
  ghost predicate IsIdOf(id: string, unixMilli: int, entropy: seq<nat>) {
    match Decoded(id)
    case None => false
    case Some(b) =>
      |b| == 16 && Value(b[..6], Base256) == unixMilli % 0x1_0000_0000_0000 && b[6..] == entropy
  }

  lemma EncodedIsIdOf(ms: int, e: seq<nat>)
    requires |e| == 10 && InRadix(e, Base256)
    ensures IsIdOf(Encoded(UlidBytes(ms, e)), ms, e)
  {
    hide Digits, Encoded, Decoded;
    UlidBytesOk(ms, e);
    RoundTrip(UlidBytes(ms, e));
    StampFits();
    ValueOfDigits(Stamp(ms), Base256, 6);
    assert UlidBytes(ms, e)[..6] == Digits(Stamp(ms), Base256, 6) && UlidBytes(ms, e)[6..] == e;
  }

  /** And only that text is. */
  lemma IdOfIsEncoded(id: string, ms: int, e: seq<nat>)
    requires IsIdOf(id, ms, e)
    ensures |e| == 10 && InRadix(e, Base256) && id == Encoded(UlidBytes(ms, e))
  {
    hide Digits, Encoded, Decoded;
    var b := Decoded(id).value;
    DecodedIsEncoding(id, b);
    assert forall i :: 6 <= i < 16 ==> b[6..][i - 6] == b[i];
    assert InRadix(b[..6], Base256);
    DigitsOfValue(b[..6], Base256);
    assert b == b[..6] + b[6..];
  }

  /** Two ids are the same exactly when their 48-bit times and their entropies are. */
  lemma IdsDiffer(id: string, t: int, e: seq<nat>, id': string, u: int, e': seq<nat>)
    requires IsIdOf(id, t, e) && IsIdOf(id', u, e')
    ensures id == id' <==> t % 0x1_0000_0000_0000 == u % 0x1_0000_0000_0000 && e == e'
  {
    hide Decoded, Encoded;
    IdOfIsEncoded(id, t, e);
    IdOfIsEncoded(id', u, e');
  }

  /** A word narrowed to a byte. */
  function LowByte(x: nat): nat {
    x % 256
  }

  /** The timestamp goes into the first six bytes, big-endian; the entropy source may fail. */
  method NewULID(unixMilli: int, entropy: Option<seq<nat>>) returns (id: Option<string>)
    requires entropy.Some? ==> |entropy.value| == 10 && InRadix(entropy.value, Base256)
    ensures id.Some? <==> entropy.Some?
    ensures id.Some? ==> IsIdOf(id.value, unixMilli, entropy.value)
  {
    hide Encoded, Digits, Stamp, LowByte, IsIdOf;
    var ms: Word := unixMilli % 0x1_0000_0000_0000_0000;
    var b := new nat[16](_ => 0);
    b[0] := LowByte(ms / 0x100_0000_0000);
    b[1] := LowByte(ms / 0x1_0000_0000);
    b[2] := LowByte(ms / 0x100_0000);
    b[3] := LowByte(ms / 0x1_0000);
    b[4] := LowByte(ms / 0x100);
    b[5] := LowByte(ms);
    StampBytes(unixMilli);
    assert b[..6] == Digits(Stamp(unixMilli), Base256, 6);
    if entropy == None {
      return None;
    }
    var e := entropy.value;
    for i := 0 to 10
      invariant b[..6] == Digits(Stamp(unixMilli), Base256, 6)
      invariant b[6..6 + i] == e[..i]
    {
      b[6 + i] := e[i];
    }
    assert e[..10] == e && b[6..] == b[6..16];
    assert b[..] == b[..6] + b[6..];
    UlidBytesOk(unixMilli, e);
    var s := EncodeCrockford(b[..]);
    EncodedIsIdOf(unixMilli, e);
    id := Some(s);
  }

  lemma StampBytes(unixMilli: int)
    ensures var ms := unixMilli % 0x1_0000_0000_0000_0000;
      Digits(Stamp(unixMilli), Base256, 6) ==
        [LowByte(ms / 0x100_0000_0000), LowByte(ms / 0x1_0000_0000), LowByte(ms / 0x100_0000),
         LowByte(ms / 0x1_0000), LowByte(ms / 0x100), LowByte(ms)]
  {
    hide Digits;
    var ms := unixMilli % 0x1_0000_0000_0000_0000;
    var t, q := Stamp(unixMilli), ms / TWO_48;
    assert ms == t + q * TWO_48;
    StampFits();
    HighPartIrrelevant(t, q, 6);
    SixDigits(ms);
  }

  lemma {:induction false} HighPartIrrelevant(v: nat, q: nat, n: nat)
    ensures Digits(v + q * Power(Base256, n), Base256, n) == Digits(v, Base256, n)
  {
    if n > 0 {
      Associates(q, Power(Base256, n - 1));
      HighPartIrrelevant(v / 256, q, n - 1);
      HighPartDivides(v, q * Power(Base256, n - 1));
    }
  }

  lemma Associates(q: nat, p: nat)
    ensures q * (p * 256) == (q * p) * 256
  {
  }

  lemma HighPartDivides(v: nat, x: nat)
    ensures (v + x * 256) / 256 == v / 256 + x && (v + x * 256) % 256 == v % 256
  {
  }

  lemma SixDigits(v: nat)
    ensures Digits(v, Base256, 6) ==
      [(v / 0x100_0000_0000) % 256, (v / 0x1_0000_0000) % 256, (v / 0x100_0000) % 256,
       (v / 0x1_0000) % 256, (v / 0x100) % 256, v % 256]
  {
    hide Digits;
    NoDigits(v / 0x1_0000_0000_0000, Base256);
    OneMoreDigit(v / 0x100_0000_0000, v / 0x1_0000_0000_0000, 0);
    OneMoreDigit(v / 0x1_0000_0000, v / 0x100_0000_0000, 1);
    OneMoreDigit(v / 0x100_0000, v / 0x1_0000_0000, 2);
    OneMoreDigit(v / 0x1_0000, v / 0x100_0000, 3);
    OneMoreDigit(v / 0x100, v / 0x1_0000, 4);
    OneMoreDigit(v, v / 0x100, 5);
  }

  lemma OneMoreDigit(v: nat, q: nat, n: nat)
    requires q == v / 256
    ensures Digits(v, Base256, n + 1) == Digits(q, Base256, n) + [v % 256]
  {
  }

  lemma UlidBytesOk(ms: int, e: seq<nat>)
    requires |e| == 10 && InRadix(e, Base256)
    ensures IsUlidBytes(UlidBytes(ms, e))
  {
  }

  lemma StampIsRemainder(t: int)
    ensures Stamp(t) == t % 0x1_0000_0000_0000
    ensures 0 <= t < 0x1_0000_0000_0000 ==> Stamp(t) == t
  {
  }

  lemma BytesOrder(t: int, u: int, e: seq<nat>, e': seq<nat>)
    requires |e| == |e'| == 10 && InRadix(e, Base256) && InRadix(e', Base256) && Stamp(t) < Stamp(u)
    ensures StringLess(Encoded(UlidBytes(t, e)), Encoded(UlidBytes(u, e')))
  {
    hide Digits, Encoded;
    StampFits();
    var xs, ys := Digits(Stamp(t), Base256, 6), Digits(Stamp(u), Base256, 6);
    ValueOfDigits(Stamp(t), Base256, 6);
    ValueOfDigits(Stamp(u), Base256, 6);
    LexIsNumeric(xs, ys, Base256);
    LexPrefix(xs, ys, e, e');
    OrderPreserved(UlidBytes(t, e), UlidBytes(u, e'));
  }

  /** Whatever the entropy, an id with a smaller 48-bit time sorts strictly first; between 1970 and the year 10889
      the 48 bits are the time itself, so earlier ids sort before later ones. */
  lemma TimeOrder(id: string, t: int, e: seq<nat>, id': string, u: int, e': seq<nat>)
    requires IsIdOf(id, t, e) && IsIdOf(id', u, e')
    ensures t % 0x1_0000_0000_0000 < u % 0x1_0000_0000_0000 ==> StringLess(id, id')
    ensures 0 <= t < u < 0x1_0000_0000_0000 ==> StringLess(id, id')
  {
    hide Encoded, Decoded, IsIdOf, UlidBytes, StringLess, Stamp;
    IdOfIsEncoded(id, t, e);
    IdOfIsEncoded(id', u, e');
    StampIsRemainder(t);
    StampIsRemainder(u);
    if Stamp(t) < Stamp(u) {
      BytesOrder(t, u, e, e');
    }
  }

  lemma StampFits()
    ensures Power(Base256, 6) == TWO_48
  {
    assert Power(Base256, 3) == 0x100_0000;
  }

  lemma StampCharacters(t: int, u: int, e: seq<nat>, e': seq<nat>)
    requires |e| == |e'| == 10 && InRadix(e, Base256) && InRadix(e', Base256)
    ensures |Encoded(UlidBytes(t, e))| == 26 && Encoded(UlidBytes(t, e))[..10] == Letters(Digits(Stamp(t), Base32, 10))
    ensures Letters(Digits(Stamp(t), Base32, 10)) == Letters(Digits(Stamp(u), Base32, 10)) <==> Stamp(t) == Stamp(u)
  {
    hide Digits, Power, Letter;
    var b := UlidBytes(t, e);
    var v := Value(b, Base256);
    StampFits();
    Powers();
    ValueOfDigits(Stamp(t), Base256, 6);
    DropValue(Digits(Stamp(t), Base256, 6), e, Base256);
    assert Drop(v, Base256, 10) == Stamp(t);
    SameDrop(v);
    LeadingDigits(v, Base32, 26, 16);
    assert Encoded(b)[..10] == Letters(Digits(v, Base32, 26)[..10]);
    ValueOfDigits(Stamp(t), Base32, 10);
    ValueOfDigits(Stamp(u), Base32, 10);
    var xs, ys := Digits(Stamp(t), Base32, 10), Digits(Stamp(u), Base32, 10);
    if Letters(xs) == Letters(ys) {
      forall i | 0 <= i < 10 ensures xs[i] == ys[i] {
        assert Letters(xs)[i] == Letters(ys)[i];
        LetterOrder(xs[i], ys[i]);
      }
      assert xs == ys;
    }
  }

  /** The first ten characters are the 48-bit time in base 32: they depend on nothing else, and determine it. */
  lemma FirstTenCharacters(id: string, t: int, e: seq<nat>, id': string, u: int, e': seq<nat>)
    requires IsIdOf(id, t, e) && IsIdOf(id', u, e')
    ensures |id| == |id'| == 26
    ensures id[..10] == id'[..10] <==> t % 0x1_0000_0000_0000 == u % 0x1_0000_0000_0000
  {
    hide Encoded, Decoded, Letters, Digits;
    IdOfIsEncoded(id, t, e);
    IdOfIsEncoded(id', u, e');
    StampCharacters(t, u, e, e');
    StampCharacters(u, t, e', e);
  }

  /** Ten bytes and sixteen base-32 digits are both eighty bits. */
  lemma SameDrop(v: nat)
    ensures Drop(v, Base256, 10) == Drop(v, Base32, 16)
  {
    FiveBytes(v);
    FiveBytes(Drop(v, Base256, 5));
    DropMore(v, Base256, 5, 5);
    DropMore(v, Base32, 8, 8);
  }

  lemma {:induction false} DropMore(v: nat, radix: Radix, n: nat, k: nat)
    ensures Drop(v, radix, n + k) == Drop(Drop(v, radix, n), radix, k)
  {
    if n > 0 {
      DropMore(radix.Quotient(v), radix, n - 1, k);
    }
  }

  lemma FiveBytes(v: nat)
    ensures Drop(v, Base256, 5) == Drop(v, Base32, 8)
  {
    var a := v / 0x100_0000_0000;
    assert Drop(v, Base256, 5) == Drop(v / 0x1_0000, Base256, 3);
    assert Drop(v / 0x1_0000, Base256, 3) == Drop(v / 0x1_0000_0000, Base256, 1);
    assert Drop(v / 0x1_0000_0000, Base256, 1) == Drop(a, Base256, 0) == a;
    assert Drop(v, Base32, 8) == Drop(v / 0x400, Base32, 6);
    assert Drop(v / 0x400, Base32, 6) == Drop(v / 0x10_0000, Base32, 4);
    assert Drop(v / 0x10_0000, Base32, 4) == Drop(v / 0x4000_0000, Base32, 2);
    assert Drop(v / 0x4000_0000, Base32, 2) == Drop(v / 0x8_0000_0000, Base32, 1);
    assert Drop(v / 0x8_0000_0000, Base32, 1) == Drop(a, Base32, 0) == a;
  }
}
