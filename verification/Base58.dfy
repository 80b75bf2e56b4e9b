/** Base-58 text for byte strings: positional conversion with leading zeros kept. */
module Base58 {
  import opened Arith
  import opened Amm
  import opened Wrappers

  // ── Positional numbers ───────────────────────────────────────────

  ghost predicate Digits(ds: seq<nat>, b: nat)
  {
    forall i :: 0 <= i < |ds| ==> ds[i] < b
  }

  /** Least significant digit first. */
  function Number(ds: seq<nat>, b: nat): nat
  {
    if |ds| == 0 then 0 else Join(ds[0], b, Number(ds[1..], b))
  }

  function Join(d: nat, b: nat, rest: nat): nat
  {
    MulMonotone(0, b, rest);
    d + b * rest
  }

  /** The digits of v, least significant first, without leading zeros. */
  function Canon(v: nat, b: nat): seq<nat>
    requires b >= 2
  {
    if v == 0 then [] else HalfOrLess(v, b); [v % b] + Canon(v / b, b)
  }

  lemma HalfOrLess(v: nat, b: nat)
    requires b >= 2 && v > 0
    ensures v / b < v
  {
    Quotient(v, b);
    MulMonotone(2, b, v / b);
  }

  ghost predicate Canonical(ds: seq<nat>, b: nat)
  {
    Digits(ds, b) && (|ds| > 0 ==> ds[|ds| - 1] != 0)
  }

  lemma Unjoin(d: nat, b: nat, rest: nat)
    requires d < b
    ensures Join(d, b, rest) % b == d && Join(d, b, rest) / b == rest
  {
    var v := Join(d, b, rest);
    Quotient(v, b);
    if v / b < rest { MulMonotone(v / b + 1, rest, b); }
    if v / b > rest { MulMonotone(rest + 1, v / b, b); }
    assert v == b * (v / b) + v % b;
  }

  lemma Rejoin(v: nat, b: nat)
    requires b > 0
    ensures Join(v % b, b, v / b) == v
  {}

  lemma {:induction false} CanonCorrect(v: nat, b: nat)
    requires b >= 2
    ensures Canonical(Canon(v, b), b) && Number(Canon(v, b), b) == v
  {
    if v > 0 {
      HalfOrLess(v, b);
      CanonCorrect(v / b, b);
      Rejoin(v, b);
      CanonTop(v, b);
    }
  }

  lemma CanonTop(v: nat, b: nat)
    requires b >= 2 && v > 0
    ensures Canon(v / b, b) == [] ==> v % b != 0
  {
    Quotient(v, b);
    if v / b == 0 { assert v == b * (v / b) + v % b; }
  }

  lemma {:induction false} CanonicalPositive(ds: seq<nat>, b: nat)
    requires b >= 2 && Canonical(ds, b) && |ds| > 0
    ensures Number(ds, b) > 0
  {
    if |ds| > 1 {
      CanonicalPositive(ds[1..], b);
      MulMonotone(1, b, Number(ds[1..], b));
    }
  }

  /** Digits without leading zeros are determined by their number. */
  lemma {:induction false} CanonUnique(ds: seq<nat>, b: nat)
    requires b >= 2 && Canonical(ds, b)
    ensures Canon(Number(ds, b), b) == ds
  {
    if |ds| > 0 {
      CanonUnique(ds[1..], b);
      CanonicalPositive(ds, b);
      Unjoin(ds[0], b, Number(ds[1..], b));
    }
  }

  // ── Multiply and add, digit by digit ─────────────────────────────

  /** ds * m + carry in base b. */
  function MulAdd(ds: seq<nat>, b: nat, m: nat, carry: nat): seq<nat>
    requires b >= 2
  {
    if |ds| == 0 then Canon(carry, b)
    else [Join(carry, m, ds[0]) % b] + MulAdd(ds[1..], b, m, Join(carry, m, ds[0]) / b)
  }

  lemma {:induction false} MulAddNumber(ds: seq<nat>, b: nat, m: nat, carry: nat)
    requires b >= 2
    ensures Number(MulAdd(ds, b, m, carry), b) == Join(carry, m, Number(ds, b))
  {
    if |ds| == 0 {
      CanonCorrect(carry, b);
      JoinZero(carry, m);
    } else {
      var s := Join(carry, m, ds[0]);
      MulAddNumber(ds[1..], b, m, s / b);
      Rejoin(s, b);
      CarryOn(carry, m, ds[0], b, Number(ds[1..], b), s % b, s / b);
    }
  }

  lemma JoinZero(d: nat, b: nat)
    ensures Join(d, b, 0) == d
  {}

  lemma CarryOn(carry: nat, m: nat, d: nat, b: nat, rest: nat, low: nat, high: nat)
    requires Join(low, b, high) == Join(carry, m, d)
    ensures Join(low, b, Join(high, m, rest)) == Join(carry, m, Join(d, b, rest))
  {
    assert b * (high + m * rest) == b * high + b * (m * rest);
    assert m * (d + b * rest) == m * d + m * (b * rest);
    assert b * (m * rest) == m * (b * rest);
  }

  lemma {:induction false} MulAddCanonical(ds: seq<nat>, b: nat, m: nat, carry: nat)
    requires b >= 2 && m >= 1 && Canonical(ds, b)
    ensures Canonical(MulAdd(ds, b, m, carry), b)
    ensures |ds| > 0 ==> |MulAdd(ds, b, m, carry)| > 0
  {
    if |ds| == 0 {
      CanonCorrect(carry, b);
    } else {
      var s := Join(carry, m, ds[0]);
      MulAddCanonical(ds[1..], b, m, s / b);
      if |ds| == 1 {
        MulMonotone(1, m, ds[0]);
        CanonTop(s, b);
      }
    }
  }

  /** The two inner loops of the program: the digit vector is rewritten in place with a running carry, then extended.
      The carry stays below m and every intermediate fits 32 bits. */
  method MulAddInPlace(digits: seq<nat>, b: nat, m: nat, add: nat) returns (r: seq<nat>)
    requires 2 <= b <= 256 && 1 <= m <= 256 && add < m && Digits(digits, b)
    ensures r == MulAdd(digits, b, m, add)
  {
    hide *;
    r := digits;
    var carry: nat := add;
    assert [] + MulAdd(digits, b, m, add) == MulAdd(digits, b, m, add) && digits[0..] == digits;
    for i := 0 to |digits|
      invariant |r| == |digits| && r[i..] == digits[i..] && carry < m
      invariant r[..i] + MulAdd(digits[i..], b, m, carry) == MulAdd(digits, b, m, add)
    {
      assert r[i] == r[i..][0] == digits[i];
      DigitBound(digits, b, i);
      CarryBound(carry, m, digits[i], b);
      MulAddStep(digits[i..], b, m, carry);
      ghost var before := r;
      var sum := Join(carry, m, r[i]);
      assert sum < 0x1_0000_0000;
      r := r[i := sum % b];
      carry := sum / b;
      assert digits[i..][1..] == digits[i + 1..];
      assert r[..i + 1] == before[..i] + [sum % b];
    }
    assert r[..|digits|] == r && digits[|digits|..] == [];
    MulAddEnd(b, m, carry);
    while carry > 0
      invariant r + Canon(carry, b) == MulAdd(digits, b, m, add)
    {
      HalfOrLess(carry, b);
      CanonStep(carry, b);
      assert r + ([carry % b] + Canon(carry / b, b)) == (r + [carry % b]) + Canon(carry / b, b);
      r := r + [carry % b];
      carry := carry / b;
    }
    CanonZero(b);
  }

  lemma DigitBound(digits: seq<nat>, b: nat, i: nat)
    requires Digits(digits, b) && i < |digits|
    ensures digits[i] < b
  {}

  lemma MulAddStep(ds: seq<nat>, b: nat, m: nat, carry: nat)
    requires b >= 2 && |ds| > 0
    ensures var s := Join(carry, m, ds[0]);
            s / b >= 0 && MulAdd(ds, b, m, carry) == [s % b] + MulAdd(ds[1..], b, m, s / b)
  {}

  lemma MulAddEnd(b: nat, m: nat, carry: nat)
    requires b >= 2
    ensures MulAdd([], b, m, carry) == Canon(carry, b)
  {}

  lemma CanonStep(v: nat, b: nat)
    requires b >= 2 && v > 0
    ensures v / b >= 0 && Canon(v, b) == [v % b] + Canon(v / b, b)
  {}

  lemma CanonZero(b: nat)
    requires b >= 2
    ensures Canon(0, b) == []
  {}

  /** The carry out of a digit is again below m: 255 when encoding, 57 when decoding. */
  lemma CarryBound(carry: nat, m: nat, d: nat, b: nat)
    requires carry < m <= 256 && d < b <= 256
    ensures Join(carry, m, d) / b < m && Join(carry, m, d) < 0x1_0000_0000
  {
    var s := Join(carry, m, d);
    MulMonotone(d, b - 1, m);
    assert m * d == d * m && (b - 1) * m == m * b - m;
    MulMonotone(m, 256, b);
    Quotient(s, b);
    if s / b >= m { MulMonotone(m, s / b, b); }
  }

  // ── From one base to another ─────────────────────────────────────

  /** Most significant digit first. */
  function Horner(x: seq<nat>, m: nat): nat
  {
    if |x| == 0 then 0 else Join(x[|x| - 1], m, Horner(x[..|x| - 1], m))
  }

  function LeadingZeros(x: seq<nat>): (k: nat)
    ensures k <= |x|
  {
    if |x| > 0 && x[0] == 0 then 1 + LeadingZeros(x[1..]) else 0
  }

  function Zeros(k: nat): (z: seq<nat>)
    ensures |z| == k && forall i :: 0 <= i < k ==> z[i] == 0
  {
    seq(k, _ => 0)
  }

  function Reverse(x: seq<nat>): (r: seq<nat>)
    ensures |r| == |x| && forall i :: 0 <= i < |x| ==> r[i] == x[|x| - 1 - i]
  {
    seq(|x|, i requires 0 <= i < |x| => x[|x| - 1 - i])
  }

  /** The number x in base m rewritten in base b, keeping the count of leading zeros. */
  function Convert(x: seq<nat>, m: nat, b: nat): seq<nat>
    requires b >= 2
  {
    Zeros(LeadingZeros(x)) + Reverse(Canon(Horner(x, m), b))
  }

  lemma {:induction false} HornerReverse(ds: seq<nat>, b: nat)
    ensures Horner(Reverse(ds), b) == Number(ds, b)
  {
    if |ds| > 0 {
      HornerReverse(ds[1..], b);
      assert Reverse(ds)[..|ds| - 1] == Reverse(ds[1..]);
    }
  }

  lemma {:induction false} HornerSkipsZeros(k: nat, x: seq<nat>, m: nat)
    ensures Horner(Zeros(k) + x, m) == Horner(x, m)
    decreases k + |x|
  {
    var y := Zeros(k) + x;
    if |x| > 0 {
      HornerSkipsZeros(k, x[..|x| - 1], m);
      assert y[..|y| - 1] == Zeros(k) + x[..|x| - 1];
    } else if k > 0 {
      HornerSkipsZeros(k - 1, x, m);
      assert y[..k - 1] == Zeros(k - 1) + x;
      JoinZero(0, m);
    }
  }

  lemma {:induction false} LeadingZerosOf(k: nat, x: seq<nat>)
    requires |x| > 0 ==> x[0] != 0
    ensures LeadingZeros(Zeros(k) + x) == k
  {
    if k > 0 {
      assert (Zeros(k) + x)[1..] == Zeros(k - 1) + x;
      LeadingZerosOf(k - 1, x);
    } else {
      assert Zeros(0) + x == x;
    }
  }

  lemma {:induction false} SplitZeros(x: seq<nat>)
    ensures var k := LeadingZeros(x);
            x == Zeros(k) + x[k..] && (|x[k..]| > 0 ==> x[k..][0] != 0)
  {
    if |x| > 0 && x[0] == 0 {
      SplitZeros(x[1..]);
    }
  }

  /** Converting there and back is the identity, for all digit strings and every pair of bases. */
  lemma ConvertRoundTrip(x: seq<nat>, m: nat, b: nat)
    requires m >= 2 && b >= 2 && Digits(x, m)
    ensures Digits(Convert(x, m, b), b)
    ensures Convert(Convert(x, m, b), b, m) == x
  {
    hide Horner, Canon, Number, LeadingZeros;
    var k, v := LeadingZeros(x), Horner(x, m);
    var c := Canon(v, b);
    CanonCorrect(v, b);
    ConvertedParts(k, c, b);
    BackTo(x, m);
    assert Convert(x, m, b) == Zeros(k) + Reverse(c);
  }

  /** The zeros and the number of a converted string. */
  lemma ConvertedParts(k: nat, c: seq<nat>, b: nat)
    requires b >= 2 && Canonical(c, b)
    ensures var y := Zeros(k) + Reverse(c);
            Digits(y, b) && LeadingZeros(y) == k && Horner(y, b) == Number(c, b)
  {
    hide Horner, Number, LeadingZeros;
    LeadingZerosOf(k, Reverse(c));
    HornerSkipsZeros(k, Reverse(c), b);
    HornerReverse(c, b);
  }

  /** A string is its leading zeros followed by the canonical digits of its number. */
  lemma BackTo(x: seq<nat>, m: nat)
    requires m >= 2 && Digits(x, m)
    ensures Zeros(LeadingZeros(x)) + Reverse(Canon(Horner(x, m), m)) == x
  {
    hide Horner, Canon, Number, LeadingZeros, Reverse;
    var k := LeadingZeros(x);
    var rest := x[k..];
    SplitZeros(x);
    HornerSkipsZeros(k, rest, m);
    assert Reverse(Reverse(rest)) == rest;
    HornerReverse(Reverse(rest), m);
    CanonUnique(Reverse(rest), m);
  }

  // ── The alphabet ─────────────────────────────────────────────────

  /** The symbols in six runs of consecutive characters: 0, I, O and l are missing. */
  function Symbol(d: nat): char
    requires d < 58
  {
    if d < 9 then ('1' as int + d) as char
    else if d < 17 then ('A' as int + d - 9) as char
    else if d < 22 then ('J' as int + d - 17) as char
    else if d < 33 then ('P' as int + d - 22) as char
    else if d < 44 then ('a' as int + d - 33) as char
    else ('m' as int + d - 44) as char
  }

  /** 123456789ABCDEFGHJKLMNPQRSTUVWXYZabcdefghijkmnopqrstuvwxyz */
  const ALPHABET: string := seq(58, d requires 0 <= d < 58 => Symbol(d))

  /** The inverse of Symbol. */
  function SymbolValue(c: char): Option<nat>
  {
    if '1' <= c <= '9' then Some((c as int) - ('1' as int))
    else if 'A' <= c <= 'H' then Some((c as int) - ('A' as int) + 9)
    else if 'J' <= c <= 'N' then Some((c as int) - ('J' as int) + 17)
    else if 'P' <= c <= 'Z' then Some((c as int) - ('P' as int) + 22)
    else if 'a' <= c <= 'k' then Some((c as int) - ('a' as int) + 33)
    else if 'm' <= c <= 'z' then Some((c as int) - ('m' as int) + 44)
    else None
  }

  lemma SymbolsInvert(d: nat, c: char)
    requires d < 58
    ensures SymbolValue(Symbol(d)) == Some(d)
    ensures SymbolValue(c).Some? ==> SymbolValue(c).value < 58 && Symbol(SymbolValue(c).value) == c
  {}

  predicate Alphanumeric(c: char)
  {
    '0' <= c <= '9' || 'A' <= c <= 'Z' || 'a' <= c <= 'z'
  }

  /** The alphabet is the alphanumeric characters without 0, I, O and l, in character order. */
  lemma AlphabetIs(d: nat, e: nat, c: char)
    requires d < e < 58
    ensures Symbol(d) < Symbol(e)
    ensures SymbolValue(c).Some? <==> Alphanumeric(c) && c != '0' && c != 'I' && c != 'O' && c != 'l'
  {}

  /** The decoding table: the digit of every symbol, 255 for the other ASCII characters. */
  ghost predicate IsTable(table: seq<nat>)
  {
    |table| == 128 && forall c: nat :: c < 128 ==> TableAt(table, c)
  }

  ghost predicate TableAt(table: seq<nat>, c: nat)
    requires c < 128 == |table|
  {
    table[c] == match SymbolValue(c as char) case Some(d) => d case None => 255
  }

  method BuildTable() returns (table: seq<nat>)
    ensures IsTable(table)
  {
    table := seq(128, _ => 255);
    for i := 0 to |ALPHABET|
      invariant |table| == 128 && |ALPHABET| == 58
      invariant forall c: nat :: c < 128 ==> FilledAt(table, i, c)
    {
      SymbolsInvert(i, ALPHABET[i]);
      ghost var before := table;
      SymbolIsAscii(i);
      table := table[ALPHABET[i] as int := i];
      ghost var next := i + 1;
      forall c: nat | c < 128 ensures FilledAt(table, next, c) {
        FillOne(before, i, c);
      }
    }
    forall c: nat | c < 128 ensures TableAt(table, c) {
      AllFilled(table, c);
    }
  }

  lemma FillOne(before: seq<nat>, i: nat, c: nat)
    requires |before| == 128 && i < 58 && c < 128 && FilledAt(before, i, c) && Symbol(i) as int < 128
    ensures FilledAt(before[Symbol(i) as int := i], i + 1, c)
  {
    SymbolsInvert(i, c as char);
  }

  lemma AllFilled(table: seq<nat>, c: nat)
    requires |table| == 128 && c < 128 && FilledAt(table, 58, c)
    ensures TableAt(table, c)
  {
    SymbolsInvert(0, c as char);
  }

  /** After the first i symbols. */
  ghost predicate FilledAt(table: seq<nat>, i: nat, c: nat)
    requires c < 128 == |table|
  {
    table[c] == match SymbolValue(c as char) case Some(d) => (if d < i then d else 255) case None => 255
  }

  lemma SymbolIsAscii(d: nat)
    requires d < 58
    ensures Symbol(d) as int < 128
  {}

  // ── Encoding and decoding ────────────────────────────────────────

  type Byte = b: nat | b < 256

  datatype Result = Bytes(data: seq<nat>) | InvalidCharacter(c: char)

  function Text(digits: seq<nat>): (s: string)
    requires Digits(digits, 58)
    ensures |s| == |digits|
  {
    seq(|digits|, i requires 0 <= i < |digits| => Symbol(digits[i]))
  }

  /** As many '1's as there are leading zero bytes, then the number in base 58. */
  function Encoded(data: seq<Byte>): string
  {
    ConvertRoundTrip(data, 256, 58);
    Text(Convert(data, 256, 58))
  }

  /** The digits a text stands for, or its first character outside the alphabet. */
  function Parsed(s: string): (r: Result)
    ensures r.Bytes? ==> |r.data| == |s| && Digits(r.data, 58)
  {
    if |s| == 0 then Bytes([])
    else
      var before := Parsed(s[..|s| - 1]);
      var c := s[|s| - 1];
      if before.InvalidCharacter? then before
      else
        SymbolsInvert(0, c);
        match SymbolValue(c)
        case Some(d) => Bytes(before.data + [d])
        case None => InvalidCharacter(c)
  }

  function Decoded(s: string): Result
  {
    match Parsed(s)
    case Bytes(x) => Bytes(Convert(x, 58, 256))
    case InvalidCharacter(c) => InvalidCharacter(c)
  }

  method Encode(data: seq<Byte>) returns (s: string)
    ensures s == Encoded(data)
  {
    ConvertRoundTrip(data, 256, 58);
    if |data| == 0 { return ""; }
    var leadingZeros := LeadingZeros(data);
    var digits: seq<nat> := [];
    for i := 0 to |data|
      invariant digits == Canon(Horner(data[..i], 256), 58)
    {
      ExtendNumber(digits, data, i, 256, 58);
      digits := MulAddInPlace(digits, 58, 256, data[i]);
    }
    assert data[..|data|] == data;
    s := Text(Zeros(leadingZeros) + Reverse(digits));
  }

  /** One more input digit. */
  lemma ExtendNumber(digits: seq<nat>, x: seq<nat>, i: nat, m: nat, b: nat)
    requires i < |x| && b >= 2 && m >= 1 && digits == Canon(Horner(x[..i], m), b)
    ensures Digits(digits, b)
    ensures MulAdd(digits, b, m, x[i]) == Canon(Horner(x[..i + 1], m), b)
  {
    CanonCorrect(Horner(x[..i], m), b);
    MulAddNumber(digits, b, m, x[i]);
    MulAddCanonical(digits, b, m, x[i]);
    CanonUnique(MulAdd(digits, b, m, x[i]), b);
    assert x[..i + 1][..i] == x[..i];
  }

  method Decode(s: string) returns (r: Result)
    ensures r == Decoded(s)
  {
    hide Convert, Canon, MulAdd, IsTable, SymbolValue, Horner, LeadingZeros, Zeros;
    var table := BuildTable();
    var leadingOnes, ones := 0, true;
    ghost var x: seq<nat> := [];
    var digits: seq<nat> := [];
    StartOfNumber();
    for i := 0 to |s|
      invariant Parsed(s[..i]) == Bytes(x)
      invariant digits == Canon(Horner(x, 58), 256)
      invariant leadingOnes == LeadingZeros(x) && (ones <==> leadingOnes == |x|)
    {
      TableValue(table, s[i]);
      assert s[..i + 1][..i] == s[..i];
      var c := s[i] as int;
      if c >= 128 || table[c] == 255 {
        FirstInvalid(s, i + 1);
        return InvalidCharacter(s[i]);
      }
      var d := table[c];
      ghost var y := x + [d];
      assert y[..|x|] == x && y[..|x| + 1] == y;
      ExtendNumber(digits, y, |x|, 58, 256);
      digits := MulAddInPlace(digits, 256, 58, d);
      CountOn(x, d);
      if ones && s[i] == '1' { leadingOnes := leadingOnes + 1; } else { ones := false; }
      x := y;
    }
    assert s[..|s|] == s;
    ConvertIs(x);
    r := Bytes(Zeros(leadingOnes) + Reverse(digits));
  }

  lemma StartOfNumber()
    ensures Canon(Horner([], 58), 256) == []
  {}

  lemma ConvertIs(x: seq<nat>)
    ensures Convert(x, 58, 256) == Zeros(LeadingZeros(x)) + Reverse(Canon(Horner(x, 58), 256))
  {}

  lemma TableValue(table: seq<nat>, c: char)
    requires IsTable(table)
    ensures |table| == 128
    ensures if c as int >= 128 || table[c as int] == 255 then SymbolValue(c).None?
            else SymbolValue(c) == Some(table[c as int]) && table[c as int] < 58
                 && (c == '1' <==> table[c as int] == 0)
  {
    if c as int < 128 { assert TableAt(table, c as int); }
  }

  /** An invalid character found early decides the result. */
  lemma {:induction false} FirstInvalid(s: string, i: nat)
    requires i <= |s| && Parsed(s[..i]).InvalidCharacter?
    ensures Parsed(s) == Parsed(s[..i])
    decreases |s| - i
  {
    if i == |s| {
      assert s[..i] == s;
    } else {
      assert s[..i + 1][..i] == s[..i];
      FirstInvalid(s, i + 1);
    }
  }

  lemma {:induction false} CountOn(x: seq<nat>, d: nat)
    ensures LeadingZeros(x + [d]) == if LeadingZeros(x) == |x| && d == 0 then |x| + 1 else LeadingZeros(x)
  {
    if |x| > 0 {
      CountOn(x[1..], d);
      assert (x + [d])[1..] == x[1..] + [d];
    }
  }

  // ── What the text says ───────────────────────────────────────────

  /** x[0] m^(n-1) + ... + x[n-1] */
  function PlaceValue(x: seq<nat>, m: nat): int
  {
    if |x| == 0 then 0 else x[0] * Pow(m, |x| - 1) + PlaceValue(x[1..], m)
  }

  lemma {:induction false} PlaceValueAppend(x: seq<nat>, d: nat, m: nat)
    ensures PlaceValue(x + [d], m) == PlaceValue(x, m) * m + d
  {
    if |x| == 0 {
      assert [d][1..] == [] && Pow(m, 0) == 1;
    } else {
      var y := x[1..];
      PlaceValueAppend(y, d, m);
      assert (x + [d])[1..] == y + [d];
      PlaceStep(x[0], Pow(m, |x| - 1), m, PlaceValue(y, m));
    }
  }

  lemma PlaceStep(a: int, p: int, m: int, v: int)
    ensures a * (m * p) + v * m == (a * p + v) * m
  {
    assert a * (m * p) == a * p * m;
  }

  lemma {:induction false} HornerIsPlaceValue(x: seq<nat>, m: nat)
    ensures Horner(x, m) == PlaceValue(x, m)
  {
    hide Join, PlaceValue;
    if |x| > 0 {
      var n := |x| - 1;
      HornerIsPlaceValue(x[..n], m);
      PlaceValueAppend(x[..n], x[n], m);
      assert x[..n] + [x[n]] == x;
      JoinIs(x[n], m, Horner(x[..n], m));
    } else {
      NoPlaces(m);
    }
  }

  lemma JoinIs(d: nat, m: nat, v: nat)
    ensures Join(d, m, v) == v * m + d
  {}

  lemma NoPlaces(m: nat)
    ensures PlaceValue([], m) == 0
  {}

  lemma {:induction false} LeadingZerosAre(x: seq<nat>)
    ensures var k := LeadingZeros(x);
            k <= |x| && (forall i :: 0 <= i < k ==> x[i] == 0) && (k < |x| ==> x[k] != 0)
  {
    if |x| > 0 && x[0] == 0 { LeadingZerosAre(x[1..]); }
  }

  /** Read as a number in base 58, most significant character first, the text is the number that the bytes are in
      base 256, most significant byte first; and it starts with as many '1's as there are leading zero bytes. */
  lemma EncodedValue(data: seq<Byte>)
    ensures Parsed(Encoded(data)).Bytes?
    ensures PlaceValue(Parsed(Encoded(data)).data, 58) == PlaceValue(data, 256)
    ensures LeadingZeros(Parsed(Encoded(data)).data) == LeadingZeros(data)
  {
    hide Horner, Canon, LeadingZeros, PlaceValue;
    var x := Convert(data, 256, 58);
    ConvertRoundTrip(data, 256, 58);
    ParseText(x);
    CanonCorrect(Horner(data, 256), 58);
    ConvertedParts(LeadingZeros(data), Canon(Horner(data, 256), 58), 58);
    HornerIsPlaceValue(x, 58);
    HornerIsPlaceValue(data, 256);
  }

  /** The characters stand for the digits parsed, in order. */
  lemma {:induction false} ParsedDigits(s: string)
    requires Parsed(s).Bytes?
    ensures forall i :: 0 <= i < |s| ==> s[i] == Symbol(Parsed(s).data[i])
  {
    TextOfParsed(s);
  }

  /** Bytes 0, 1, 0 are 256 = 4 * 58 + 24. */
  lemma EncodingExample()
    ensures Encoded([0, 1, 0]) == "15R"
  {
    hide Horner, Canon, LeadingZeros;
    var data: seq<Byte> := [0, 1, 0];
    ExampleNumber();
    ExampleDigits();
    assert Convert(data, 256, 58) == [0, 4, 24];
    assert Text([0, 4, 24]) == "15R";
  }

  lemma ExampleNumber()
    ensures Horner([0, 1, 0], 256) == 256 && LeadingZeros([0, 1, 0]) == 1
  {
    hide Horner;
    assert [] + [0] == [0] && [0] + [1] == [0, 1] && [0, 1] + [0] == [0, 1, 0];
    HornerNext([], 0, 256);
    HornerNext([0], 1, 256);
    HornerNext([0, 1], 0, 256);
    LeadingZerosOf(1, [1, 0]);
    assert Zeros(1) + [1, 0] == [0, 1, 0];
  }

  lemma HornerNext(x: seq<nat>, d: nat, m: nat)
    ensures Horner(x + [d], m) == Join(d, m, Horner(x, m)) && Horner([], m) == 0
  {
    assert (x + [d])[..|x|] == x;
  }

  lemma ExampleDigits()
    ensures Canon(256, 58) == [24, 4]
  {
    assert Canon(4, 58) == [4];
  }

  // ── Round trips ──────────────────────────────────────────────────

  lemma {:induction false} ParseText(x: seq<nat>)
    requires Digits(x, 58)
    ensures Parsed(Text(x)) == Bytes(x)
  {
    if |x| > 0 {
      var n := |x| - 1;
      ParseText(x[..n]);
      assert Text(x)[..n] == Text(x[..n]);
      SymbolsInvert(x[n], Text(x)[n]);
      assert x[..n] + [x[n]] == x;
    }
  }

  lemma ParsedGrows(s: string)
    requires Parsed(s).Bytes? && |s| > 0
    ensures var n := |s| - 1;
            && Parsed(s[..n]).Bytes? && SymbolValue(s[n]).Some? && SymbolValue(s[n]).value < 58
            && Parsed(s).data == Parsed(s[..n]).data + [SymbolValue(s[n]).value]
  {
    SymbolsInvert(0, s[|s| - 1]);
  }

  lemma {:induction false} TextOfParsed(s: string)
    requires Parsed(s).Bytes?
    ensures Text(Parsed(s).data) == s
  {
    if |s| > 0 {
      hide Parsed;
      var n := |s| - 1;
      TextOfParsed(s[..n]);
      SymbolsInvert(0, s[n]);
      ParsedGrows(s);
    }
  }

  /** Decoding what was encoded gives the bytes back, for every byte string. */
  lemma DecodeOfEncode(data: seq<Byte>)
    ensures Decoded(Encoded(data)) == Bytes(data)
  {
    ConvertRoundTrip(data, 256, 58);
    ParseText(Convert(data, 256, 58));
  }

  /** Encoding what was decoded gives the text back, for every valid text. */
  lemma EncodeOfDecode(s: string)
    requires Decoded(s).Bytes?
    ensures Digits(Decoded(s).data, 256) && Encoded(Decoded(s).data) == s
  {
    var x := Parsed(s).data;
    ConvertRoundTrip(x, 58, 256);
    TextOfParsed(s);
  }

  /** Text is rejected exactly when it has a character outside the alphabet, and for the first of them. */
  lemma {:induction false} DecodeFails(s: string)
    ensures Decoded(s).InvalidCharacter? <==> exists i :: 0 <= i < |s| && SymbolValue(s[i]).None?
    ensures Decoded(s).InvalidCharacter? ==> FirstOutside(s, Decoded(s).c)
  {
    if |s| > 0 {
      var n := |s| - 1;
      DecodeFails(s[..n]);
      if Decoded(s[..n]).InvalidCharacter? {
        var i :| 0 <= i < n && s[..n][i] == Decoded(s[..n]).c && SymbolValue(s[..n][i]).None?
              && forall j :: 0 <= j < i ==> SymbolValue(s[..n][j]).Some?;
        assert s[i] == s[..n][i] && forall j :: 0 <= j < i ==> s[j] == s[..n][j];
      } else {
        assert forall j :: 0 <= j < n ==> s[j] == s[..n][j];
      }
    }
  }

  ghost predicate FirstOutside(s: string, c: char)
  {
    exists i :: 0 <= i < |s| && s[i] == c && SymbolValue(c).None? && forall j :: 0 <= j < i ==> SymbolValue(s[j]).Some?
  }
}
