/** Gateway identities: 48 bits of milliseconds and 80 bits of entropy, packed five bits at a time
    into 26 Crockford base-32 characters (the public ULID layout). The packing loop reads single
    bits across byte boundaries; its specification is the base-32 numeral of the 128-bit value. */
module Ulid {
  import opened Wrappers

  type Byte = b: int | 0 <= b < 256

  datatype IdError = TimestampOutOfRange | EntropyUnavailable

  const ALPHABET: string := "0123456789ABCDEFGHJKMNPQRSTVWXYZ"

  /** The value of a big-endian digit sequence. */
  function Numeral(base: nat, digits: seq<nat>): nat {
    if digits == [] then 0 else Numeral(base, digits[..|digits| - 1]) * base + digits[|digits| - 1]
  }

  function Pow(base: nat, n: nat): nat {
    if n == 0 then 1 else base * Pow(base, n - 1)
  }

  lemma MulMonotone(x: nat, y: nat, k: nat)
    requires x <= y
    ensures x * k <= y * k
  {
  }

  /** Comparing `x * unit + d` compares `x` first and the remainder `d` second. */
  lemma LeadingFirst(x: nat, d: nat, y: nat, e: nat, unit: nat)
    requires d < unit && e < unit
    ensures x * unit + d < y * unit + e <==> x < y || (x == y && d < e)
    ensures x * unit + d == y * unit + e <==> x == y && d == e
  {
    if x < y {
      MulMonotone(x + 1, y, unit);
      assert (x + 1) * unit == x * unit + unit;
    } else if y < x {
      MulMonotone(y + 1, x, unit);
      assert (y + 1) * unit == y * unit + unit;
    }
  }

  lemma {:induction false} NumeralBound(base: nat, digits: seq<nat>)
    requires forall i :: 0 <= i < |digits| ==> digits[i] < base
    ensures Numeral(base, digits) < Pow(base, |digits|)
  {
    if digits != [] {
      var front := digits[..|digits| - 1];
      NumeralBound(base, front);
      BelowUnit(Numeral(base, front), digits[|digits| - 1], Pow(base, |front|), base);
    }
  }

  lemma BelowUnit(x: nat, d: nat, unit: nat, base: nat)
    requires x < unit && d < base
    ensures x * base + d < base * unit
  {
    MulMonotone(x + 1, unit, base);
    assert (x + 1) * base == x * base + base;
  }

  lemma {:induction false} NumeralConcat(base: nat, a: seq<nat>, b: seq<nat>)
    ensures Numeral(base, a + b) == Numeral(base, a) * Pow(base, |b|) + Numeral(base, b)
  {
    if b == [] {
      assert a + b == a;
    } else {
      var front, last := b[..|b| - 1], b[|b| - 1];
      assert (a + b)[..|a + b| - 1] == a + front;
      NumeralConcat(base, a, front);
      Distribute(Numeral(base, a), Pow(base, |front|), Numeral(base, front), base);
    }
  }

  lemma Distribute(x: nat, p: nat, n: nat, base: nat)
    ensures (x * p + n) * base == x * (base * p) + n * base
  {
    assert x * p * base == x * (base * p);
  }

  lemma NumeralSnoc(base: nat, digits: seq<nat>, d: nat)
    ensures Numeral(base, digits + [d]) == Numeral(base, digits) * base + d
  {
    assert (digits + [d])[..|digits|] == digits;
  }

  lemma {:induction false} NumeralInjective(base: nat, a: seq<nat>, b: seq<nat>)
    requires |a| == |b| && Numeral(base, a) == Numeral(base, b)
    requires forall i :: 0 <= i < |a| ==> a[i] < base && b[i] < base
    ensures a == b
  {
    if a != [] {
      var n := |a| - 1;
      LeadingFirst(Numeral(base, a[..n]), a[n], Numeral(base, b[..n]), b[n], base);
      NumeralInjective(base, a[..n], b[..n]);
      assert a == a[..n] + [a[n]] && b == b[..n] + [b[n]];
    }
  }

  // ---- the bit stream of a byte sequence --------------------------------------------------

  function Pow2(n: nat): (r: nat)
    ensures r > 0
  {
    if n == 0 then 1 else 2 * Pow2(n - 1)
  }

  /** Bit `i` of a byte counted from its most significant end: `(v >> (7 - i)) & 1`. */
  function Bit(v: Byte, i: nat): (bit: nat)
    requires i < 8
    ensures bit < 2
  {
    v / Pow2(7 - i) % 2
  }

  function ByteBits(v: Byte): (s: seq<nat>)
    ensures |s| == 8 && forall i :: 0 <= i < 8 ==> s[i] == Bit(v, i)
  {
    seq(8, i requires 0 <= i < 8 => Bit(v, i))
  }

  /** The bits of a byte sequence, most significant first. */
  function Stream(value: seq<Byte>): (s: seq<nat>)
    ensures |s| == 8 * |value|
  {
    if value == [] then [] else Stream(value[..|value| - 1]) + ByteBits(value[|value| - 1])
  }

  lemma {:induction false} StreamAt(value: seq<Byte>, k: nat)
    requires k < 8 * |value|
    ensures Stream(value)[k] == Bit(value[k / 8], k % 8)
  {
    var n := |value| - 1;
    if k < 8 * n {
      StreamAt(value[..n], k);
    }
  }

  /** The first `t` bits of a byte are the byte shifted right by `8 - t`. */
  lemma {:induction false} ByteBitsPrefix(v: Byte, t: nat)
    requires t <= 8
    ensures Numeral(2, ByteBits(v)[..t]) == v / Pow2(8 - t)
  {
    if t == 0 {
      PowersOfTwo();
    } else {
      ByteBitsPrefix(v, t - 1);
      NumeralSnoc(2, ByteBits(v)[..t - 1], Bit(v, t - 1));
      assert ByteBits(v)[..t] == ByteBits(v)[..t - 1] + [Bit(v, t - 1)];
      ShiftOneMore(v, Pow2(8 - t));
    }
  }

  lemma PowersOfTwo()
    ensures Pow2(0) == 1 && Pow2(1) == 2 && Pow2(2) == 4 && Pow2(3) == 8 && Pow2(4) == 16
    ensures Pow2(5) == 32 && Pow2(6) == 64 && Pow2(7) == 128 && Pow2(8) == 256
  {
    assert Pow2(2) == 4 && Pow2(4) == 16 && Pow2(6) == 64;
  }

  /** Shifting one bit less doubles the quotient and adds the bit. */
  lemma ShiftOneMore(v: nat, d: nat)
    requires d > 0
    ensures v / d == 2 * (v / (2 * d)) + v / d % 2
  {
    var q, b := v / d / 2, v / d % 2;
    var r := v % d;
    assert v / d == 2 * q + b;
    assert v == (v / d) * d + r;
    Regroup(q, b, d);
    QuotientIs(v, 2 * d, q, b * d + r);
  }

  lemma Regroup(q: nat, b: nat, d: nat)
    requires b < 2
    ensures (2 * q + b) * d == q * (2 * d) + b * d
    ensures b * d <= d
  {
  }

  lemma QuotientIs(v: nat, d: nat, q: nat, r: nat)
    requires d > 0 && r < d && v == q * d + r
    ensures v / d == q
  {
    LeadingFirst(v / d, v % d, q, r, d);
  }

  /** The bit stream and the bytes are the same number. */
  lemma {:induction false} StreamIsBytes(value: seq<Byte>)
    ensures Numeral(2, Stream(value)) == Numeral(256, value)
  {
    if value != [] {
      var n := |value| - 1;
      StreamIsBytes(value[..n]);
      ByteBitsPrefix(value[n], 8);
      assert ByteBits(value[n])[..8] == ByteBits(value[n]);
      PowersOfTwo();
      NumeralConcat(2, Stream(value[..n]), ByteBits(value[n]));
      PowTwoLiterals();
    }
  }

  lemma PowTwoLiterals()
    ensures Pow(2, 3) == 8 && Pow(2, 5) == 32 && Pow(2, 8) == 256
  {
    assert Pow(2, 4) == 16 && Pow(2, 6) == 64;
  }

  // ---- identity strings -------------------------------------------------------------------

  lemma AlphabetAscends(i: nat, j: nat)
    requires i < j < 32
    ensures Character(i) < Character(j)
    decreases j - i
  {
    assert forall k :: 0 <= k < 31 ==> Character(k) < Character(k + 1);
    if i + 1 < j {
      AlphabetAscends(i + 1, j);
    }
  }

  function Character(digit: nat): char
    requires digit < 32
  {
    ALPHABET[digit]
  }

  /** The digits spelled by an identity: the inverse of indexing the alphabet. */
  ghost predicate Spells(id: string, digits: seq<nat>) {
    |id| == |digits| && forall i :: 0 <= i < |id| ==> digits[i] < 32 && id[i] == Character(digits[i])
  }

  /** `^[0-7][0-9A-HJKMNP-TV-Z]{25}$`, the pattern every client command checks. */
  predicate GatewayIdPattern(id: string) {
    |id| == 26 && '0' <= id[0] <= '7' && forall i :: 1 <= i < 26 ==> InClass(id[i])
  }

  /** `[0-9A-HJKMNP-TV-Z]` */
  predicate InClass(c: char) {
    || '0' <= c <= '9' || 'A' <= c <= 'H' || c == 'J' || c == 'K' || c == 'M' || c == 'N'
    || 'P' <= c <= 'T' || 'V' <= c <= 'Z'
  }

  /** The alphabet's 32 characters, which ascend, are just those of the pattern's class. */
  lemma AlphabetIsClass(c: char)
    ensures c in ALPHABET <==> InClass(c)
  {
    assert ALPHABET == "0123456789" + "ABCDEFGH" + "JK" + "MN" + "PQRST" + "VWXYZ";
    Range("0123456789", '0', c);
    Range("ABCDEFGH", 'A', c);
    Range("PQRST", 'P', c);
    Range("VWXYZ", 'V', c);
  }

  /** Consecutive characters make up a range. */
  lemma Range(text: string, first: char, c: char)
    requires |text| <= 10 && first <= 'Z' && forall k :: 0 <= k < |text| ==> text[k] == first + k as char
    ensures c in text <==> first <= c && c as int < first as int + |text|
  {
    if first <= c && c as int < first as int + |text| {
      assert text[c as int - first as int] == c;
    }
  }

  /** `id` is the canonical identity of the 128-bit number `n`. */
  ghost predicate IdOf(id: string, n: nat) {
    GatewayIdPattern(id) && exists digits :: Spells(id, digits) && Numeral(32, digits) == n
  }

  /** Byte-wise string order, as SQLite and Go compare identities. */
  predicate Less(a: string, b: string) {
    b != [] && (a == [] || a[0] < b[0] || (a[0] == b[0] && Less(a[1..], b[1..])))
  }

  /** The first place where texts differ decides, and a proper prefix comes first. */
  lemma {:induction false} LessIsLexicographic(a: string, b: string, k: nat)
    requires k <= |a| && k <= |b| && a[..k] == b[..k] && (k < |a| && k < |b| ==> a[k] != b[k])
    ensures Less(a, b) <==> k < |b| && (k == |a| || a[k] < b[k])
  {
    if k > 0 {
      assert a[0] == a[..k][0] == b[..k][0] == b[0];
      assert a[1..][..k - 1] == a[..k][1..] == b[..k][1..] == b[1..][..k - 1];
      LessIsLexicographic(a[1..], b[1..], k - 1);
    }
  }

  /** The same order on digit sequences. */
  ghost predicate DigitsLess(x: seq<nat>, y: seq<nat>) {
    y != [] && (x == [] || x[0] < y[0] || (x[0] == y[0] && DigitsLess(x[1..], y[1..])))
  }

  lemma {:induction false} DigitOrderIsNumeric(x: seq<nat>, y: seq<nat>)
    requires |x| == |y| && forall i :: 0 <= i < |x| ==> x[i] < 32 && y[i] < 32
    ensures DigitsLess(x, y) <==> Numeral(32, x) < Numeral(32, y)
  {
    if x != [] {
      LeadingDigit(x);
      LeadingDigit(y);
      DigitOrderIsNumeric(x[1..], y[1..]);
      LeadingFirst(x[0], Numeral(32, x[1..]), y[0], Numeral(32, y[1..]), Pow(32, |x| - 1));
    }
  }

  lemma CharacterOrder(d: nat, e: nat)
    requires d < 32 && e < 32
    ensures Character(d) < Character(e) <==> d < e
    ensures Character(d) == Character(e) <==> d == e
  {
    if d < e {
      AlphabetAscends(d, e);
    } else if e < d {
      AlphabetAscends(e, d);
    }
  }

  lemma {:induction false} SpellingKeepsOrder(a: string, b: string, x: seq<nat>, y: seq<nat>)
    requires Spells(a, x) && Spells(b, y)
    ensures Less(a, b) <==> DigitsLess(x, y)
  {
    if a != [] && b != [] {
      CharacterOrder(x[0], y[0]);
      SpellingKeepsOrder(a[1..], b[1..], x[1..], y[1..]);
    }
  }

  lemma SpellingInjective(a: string, b: string, x: seq<nat>, y: seq<nat>)
    requires Spells(a, x) && Spells(b, y)
    ensures a == b <==> x == y
  {
    if a == b {
      forall i | 0 <= i < |a|
        ensures x[i] == y[i]
      {
        CharacterOrder(x[i], y[i]);
      }
    }
  }

  lemma LeadingDigit(x: seq<nat>)
    requires x != [] && forall i :: 0 <= i < |x| ==> x[i] < 32
    ensures Numeral(32, x) == x[0] * Pow(32, |x| - 1) + Numeral(32, x[1..])
    ensures Numeral(32, x[1..]) < Pow(32, |x| - 1)
  {
    assert x == [x[0]] + x[1..];
    assert Numeral(32, [x[0]]) == x[0];
    NumeralConcat(32, [x[0]], x[1..]);
    NumeralBound(32, x[1..]);
  }

  /** Packing is injective, and comparing identities compares the packed numbers. */
  lemma IdOrder(a: string, b: string, m: nat, n: nat)
    requires IdOf(a, m) && IdOf(b, n)
    ensures a == b <==> m == n
    ensures Less(a, b) <==> m < n
  {
    var x :| Spells(a, x) && Numeral(32, x) == m;
    var y :| Spells(b, y) && Numeral(32, y) == n;
    SpellingKeepsOrder(a, b, x, y);
    SpellingInjective(a, b, x, y);
    DigitOrderIsNumeric(x, y);
    if m == n {
      NumeralInjective(32, x, y);
    }
  }

  // ---- NewID ------------------------------------------------------------------------------

  const ENTROPY_BYTES := 10
  const MAX_MILLISECONDS := 0xFFFF_FFFF_FFFF

  /** The 128-bit number of a timestamp and ten entropy bytes. */
  function Packed(milliseconds: nat, entropy: seq<Byte>): nat {
    milliseconds * Pow(256, |entropy|) + Numeral(256, entropy)
  }

  /** Two identities minted in different milliseconds are ordered by time, whatever the entropy. */
  lemma LaterIsGreater(a: string, b: string, t: nat, u: nat, e: seq<Byte>, f: seq<Byte>)
    requires |e| == |f| == ENTROPY_BYTES && t < u
    requires IdOf(a, Packed(t, e)) && IdOf(b, Packed(u, f))
    ensures Less(a, b)
  {
    NumeralBound(256, e);
    NumeralBound(256, f);
    LeadingFirst(t, Numeral(256, e), u, Numeral(256, f), Pow(256, ENTROPY_BYTES));
    IdOrder(a, b, Packed(t, e), Packed(u, f));
  }

  /** Identities collide only when both the millisecond and the entropy repeat. */
  lemma CollisionMeansSameInputs(a: string, t: nat, u: nat, e: seq<Byte>, f: seq<Byte>)
    requires |e| == |f| == ENTROPY_BYTES
    requires IdOf(a, Packed(t, e)) && IdOf(a, Packed(u, f))
    ensures t == u && e == f
  {
    IdOrder(a, a, Packed(t, e), Packed(u, f));
    NumeralBound(256, e);
    NumeralBound(256, f);
    LeadingFirst(t, Numeral(256, e), u, Numeral(256, f), Pow(256, ENTROPY_BYTES));
    NumeralInjective(256, e, f);
  }

  /** The big-endian bytes of a number, most significant first. */
  function BigEndian(x: nat, n: nat): (s: seq<Byte>)
    ensures |s| == n
  {
    if n == 0 then [] else BigEndian(x / 256, n - 1) + [x % 256]
  }

  lemma {:induction false} BigEndianValue(x: nat, n: nat)
    requires x < Pow(256, n)
    ensures Numeral(256, BigEndian(x, n)) == x
  {
    if n > 0 {
      BigEndianValue(x / 256, n - 1);
      assert BigEndian(x, n)[..n - 1] == BigEndian(x / 256, n - 1);
    }
  }

  /** The five bits behind a character; two absent bits precede the stream. */
  ghost function Group(bits: seq<nat>, character: nat): (g: seq<nat>)
    requires |bits| == 128 && character < 26
    ensures |g| == 5
  {
    if character == 0 then [0, 0] + bits[..3] else bits[5 * character - 2..5 * character + 3]
  }

  /** The stream consumed by the first `n` characters. */
  ghost function Consumed(bits: seq<nat>, n: nat): seq<nat>
    requires |bits| == 128 && n <= 26
  {
    if n == 0 then [] else bits[..5 * n - 2]
  }

  /** Reading five more bits multiplies by 32 and adds the group. */
  lemma GroupExtends(bits: seq<nat>, character: nat)
    requires |bits| == 128 && character < 26 && forall k :: 0 <= k < 128 ==> bits[k] < 2
    ensures Numeral(2, Consumed(bits, character + 1))
         == Numeral(2, Consumed(bits, character)) * 32 + Numeral(2, Group(bits, character))
    ensures Numeral(2, Group(bits, character)) < if character == 0 then 8 else 32
  {
    var g := Group(bits, character);
    PowTwoLiterals();
    if character == 0 {
      NumeralConcat(2, [0, 0], bits[..3]);
      NumeralBound(2, bits[..3]);
      assert Numeral(2, [0, 0]) == 0 by { NumeralSnoc(2, [0], 0); assert [0, 0] == [0] + [0]; }
    } else {
      NumeralBound(2, g);
      assert Consumed(bits, character + 1) == Consumed(bits, character) + g;
      NumeralConcat(2, Consumed(bits, character), g);
    }
  }

  /** `(value[sourceBit/8] >> (7 - sourceBit%8)) & 1` */
  method ReadBit(value: seq<Byte>, sourceBit: nat) returns (bit: nat)
    requires sourceBit < 8 * |value|
    ensures bit == Stream(value)[sourceBit]
  {
    StreamAt(value, sourceBit);
    bit := value[sourceBit / 8] / Pow2(7 - sourceBit % 8) % 2;
  }

  /** The inner loop: five reads across byte boundaries, shifting as it goes. */
  method FiveBits(value: seq<Byte>, character: nat) returns (bits: nat)
    requires |value| == 16 && character < 26
    ensures bits == Numeral(2, Group(Stream(value), character))
  {
    ghost var g := Group(Stream(value), character);
    bits := 0;
    for bit := 0 to 5
      invariant bits == Numeral(2, g[..bit])
    {
      var sourceBit := character * 5 + bit - 2;
      ghost var before := bits;
      bits := bits * 2;
      if sourceBit >= 0 {
        var read := ReadBit(value, sourceBit);
        bits := bits + read;
      }
      assert bits == before * 2 + g[bit];
      NumeralSnoc(2, g[..bit], g[bit]);
      assert g[..bit + 1] == g[..bit] + [g[bit]];
    }
    assert g[..5] == g;
  }

  lemma StreamIsBinary(value: seq<Byte>)
    ensures forall k :: 0 <= k < 8 * |value| ==> Stream(value)[k] < 2
  {
    forall k: nat | k < 8 * |value|
      ensures Stream(value)[k] < 2
    {
      StreamAt(value, k);
    }
  }

  /** The first `n` characters spell digits whose numeral is the stream consumed so far. */
  ghost predicate Encoded(id: string, digits: seq<nat>, stream: seq<nat>, n: nat)
    requires |stream| == 128 && n <= 26
  {
    && |digits| == n && Spells(id, digits) && (n > 0 ==> digits[0] < 8)
    && Numeral(32, digits) == Numeral(2, Consumed(stream, n))
  }

  lemma EncodedStep(id: string, digits: seq<nat>, stream: seq<nat>, n: nat, bits: nat)
    requires |stream| == 128 && n < 26 && forall k :: 0 <= k < 128 ==> stream[k] < 2
    requires Encoded(id, digits, stream, n) && bits == Numeral(2, Group(stream, n))
    ensures bits < 32 && Encoded(id + [Character(bits)], digits + [bits], stream, n + 1)
  {
    GroupExtends(stream, n);
    SpellsSnoc(id, digits, bits);
    NumeralSnoc(32, digits, bits);
  }

  /** The 26 characters cover two absent leading bits and then the whole stream. */
  method Encode(value: seq<Byte>) returns (id: string)
    requires |value| == 16
    ensures IdOf(id, Numeral(256, value))
  {
    var encoded := new char[26];
    ghost var stream := Stream(value);
    StreamIsBinary(value);
    ghost var digits: seq<nat> := [];
    for character := 0 to 26
      invariant Encoded(encoded[..character], digits, stream, character)
    {
      var bits := FiveBits(value, character);
      EncodedStep(encoded[..character], digits, stream, character, bits);
      digits := digits + [bits];
      encoded[character] := Character(bits);
      assert encoded[..character + 1] == encoded[..character] + [Character(bits)];
    }
    id := encoded[..];
    assert encoded[..26] == id;
    EncodedAll(id, digits, value);
  }

  lemma EncodedAll(id: string, digits: seq<nat>, value: seq<Byte>)
    requires |value| == 16 && Encoded(id, digits, Stream(value), 26)
    ensures IdOf(id, Numeral(256, value))
  {
    assert Consumed(Stream(value), 26) == Stream(value);
    StreamIsBytes(value);
    SpelledMatchesPattern(id, digits);
  }

  lemma SpellsSnoc(id: string, digits: seq<nat>, d: nat)
    requires Spells(id, digits) && d < 32
    ensures Spells(id + [Character(d)], digits + [d])
  {
  }

  lemma SpelledMatchesPattern(id: string, digits: seq<nat>)
    requires Spells(id, digits) && |digits| == 26 && digits[0] < 8
    ensures GatewayIdPattern(id)
  {
    FirstEight(digits[0]);
    forall i | 1 <= i < 26
      ensures InClass(id[i])
    {
      assert id[i] == ALPHABET[digits[i]];
      AlphabetIsClass(id[i]);
    }
  }

  lemma FirstEight(d: nat)
    requires d < 8
    ensures '0' <= Character(d) <= '7'
  {
    if d > 0 {
      AlphabetAscends(0, d);
    }
    if d < 7 {
      AlphabetAscends(d, 7);
    }
  }

  /** The timestamp's six bytes, filled from the least significant end. */
  method TimestampBytes(now: nat) returns (value: array<Byte>)
    ensures fresh(value) && value.Length == 16 && value[..6] == BigEndian(now, 6)
  {
    value := new Byte[16](_ => 0);
    var milliseconds, index := now, 5;
    while index >= 0
      invariant -1 <= index <= 5 && milliseconds >= 0
      invariant BigEndian(now, 6) == BigEndian(milliseconds, index + 1) + value[index + 1..6]
    {
      value[index] := milliseconds % 256;
      assert value[index..6] == [value[index]] + value[index + 1..6];
      milliseconds := milliseconds / 256;
      index := index - 1;
    }
  }

  /** `NewID`: the range check, the timestamp bytes, the entropy read and the packing. `entropy` is
      what the reader delivered; fewer than ten bytes is a read failure. */
  method NewId(now: int, entropy: seq<Byte>) returns (r: Result<string, IdError>)
    ensures r.Err? && r.error == TimestampOutOfRange <==> now < 0 || now > MAX_MILLISECONDS
    ensures r.Err? && r.error == EntropyUnavailable <==> 0 <= now <= MAX_MILLISECONDS && |entropy| < ENTROPY_BYTES
    ensures r.Ok? ==> 0 <= now && IdOf(r.value, Packed(now, entropy[..ENTROPY_BYTES]))
  {
    if now < 0 || now > MAX_MILLISECONDS {
      return Err(TimestampOutOfRange);
    }
    var value := TimestampBytes(now);
    if |entropy| < ENTROPY_BYTES {
      return Err(EntropyUnavailable);
    }
    for i := 0 to ENTROPY_BYTES
      invariant value[..6] == BigEndian(now, 6)
      invariant value[6..6 + i] == entropy[..i]
    {
      value[6 + i] := entropy[i];
    }
    assert value[..] == BigEndian(now, 6) + entropy[..ENTROPY_BYTES];
    var id := Encode(value[..]);
    PackedIsNumeral(now, entropy[..ENTROPY_BYTES]);
    r := Ok(id);
  }

  lemma PackedIsNumeral(milliseconds: nat, entropy: seq<Byte>)
    requires milliseconds <= MAX_MILLISECONDS
    ensures Numeral(256, BigEndian(milliseconds, 6) + entropy) == Packed(milliseconds, entropy)
  {
    assert Pow(256, 2) == 0x1_0000;
    assert Pow(256, 4) == 0x1_0000_0000;
    assert Pow(256, 6) == MAX_MILLISECONDS + 1;
    BigEndianValue(milliseconds, 6);
    NumeralConcat(256, BigEndian(milliseconds, 6), entropy);
  }
}
