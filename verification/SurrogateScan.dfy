/** The UTF-16 surrogate check on a JSON string literal (sections 7 and 8.2 of RFC 8259). The JSON
    library silently replaces isolated surrogate escapes, so a URL is scanned in its raw form first.
    The scan jumps over escapes with unchecked indices; well-formedness of the literal is what keeps
    those indices in range. */
module SurrogateScan {

  predicate Hex(c: char) {
    '0' <= c <= '9' || 'a' <= c <= 'f' || 'A' <= c <= 'F'
  }

  function HexValue(c: char): (d: nat)
    requires Hex(c)
    ensures d < 16
  {
    if c <= '9' then c as int - '0' as int
    else if c <= 'F' then c as int - 'A' as int + 10
    else c as int - 'a' as int + 10
  }

  predicate HexAt(s: string, i: nat) {
    i + 4 <= |s| && Hex(s[i]) && Hex(s[i + 1]) && Hex(s[i + 2]) && Hex(s[i + 3])
  }

  /** `strconv.ParseUint(s[i:i+4], 16, 16)` */
  function CodeUnit(s: string, i: nat): (n: nat)
    requires HexAt(s, i)
    ensures n < 0x10000
  {
    ((HexValue(s[i]) * 16 + HexValue(s[i + 1])) * 16 + HexValue(s[i + 2])) * 16 + HexValue(s[i + 3])
  }

  predicate High(n: nat) { 0xD800 <= n <= 0xDBFF }

  predicate Low(n: nat) { 0xDC00 <= n <= 0xDFFF }

  // ---- which number four digits denote ----------------------------------------------------

  const LOWER: string := "0123456789abcdef"
  const UPPER: string := "0123456789ABCDEF"

  /** The character is this digit of base 16, in either case. */
  predicate Renders(c: char, d: nat)
    requires d < 16
  {
    c == LOWER[d] || c == UPPER[d]
  }

  /** A digit's value is its place in the alphabet of either case. */
  lemma DigitValue(d: nat)
    requires d < 16
    ensures Hex(LOWER[d]) && HexValue(LOWER[d]) == d
    ensures Hex(UPPER[d]) && HexValue(UPPER[d]) == d
  {
    if d < 10 {
      assert LOWER[..10] == "0123456789" == UPPER[..10];
      assert forall k :: 0 <= k < 10 ==> LOWER[k] == '0' + k as char && UPPER[k] == '0' + k as char;
    } else {
      assert forall k :: 10 <= k < 16 ==> LOWER[k] == 'a' + (k - 10) as char && UPPER[k] == 'A' + (k - 10) as char;
    }
  }

  /** And every hexadecimal digit is one of them. */
  lemma DigitIsRendered(c: char)
    requires Hex(c)
    ensures Renders(c, HexValue(c))
  {
    var d := HexValue(c);
    if d < 10 {
      assert forall k :: 0 <= k < 10 ==> LOWER[k] == '0' + k as char;
    } else {
      assert forall k :: 10 <= k < 16 ==> LOWER[k] == 'a' + (k - 10) as char && UPPER[k] == 'A' + (k - 10) as char;
    }
  }

  /** The base-16 digits of a number, found by division and written in either case each, read as that
      number. */
  lemma CodeUnitIsNumeral(s: string, i: nat, n: nat)
    requires i + 4 <= |s| && n < 0x10000
    requires Renders(s[i], n / 4096) && Renders(s[i + 1], n / 256 % 16)
    requires Renders(s[i + 2], n / 16 % 16) && Renders(s[i + 3], n % 16)
    ensures HexAt(s, i) && CodeUnit(s, i) == n
  {
    DigitValue(n / 4096);
    DigitValue(n / 256 % 16);
    DigitValue(n / 16 % 16);
    DigitValue(n % 16);
    Positional(n);
  }

  lemma Positional(n: nat)
    requires n < 0x10000
    ensures ((n / 4096 * 16 + n / 256 % 16) * 16 + n / 16 % 16) * 16 + n % 16 == n
  {
    assert n / 16 == n / 256 * 16 + n / 16 % 16;
    assert n / 256 == n / 4096 * 16 + n / 256 % 16;
  }

  /** Surrogates are the code units that begin with the bits 110110 and 110111. */
  lemma SurrogateBits(n: nat)
    ensures High(n) <==> n / 1024 == 54
    ensures Low(n) <==> n / 1024 == 55
  {
  }

  // ---- the grammar ------------------------------------------------------------------------

  /** One syntactic unit of a string body. */
  datatype Unit = Plain(c: char) | Simple(c: char) | Escaped(code: nat)

  predicate SimpleEscape(c: char) {
    c == '"' || c == '\\' || c == '/' || c == 'b' || c == 'f' || c == 'n' || c == 'r' || c == 't'
  }

  /** The eight short escapes of the grammar. */
  lemma SimpleEscapes(c: char)
    ensures SimpleEscape(c) <==> c in ['"', '\\', '/', 'b', 'f', 'n', 'r', 't']
  {
  }

  /** `\\uXXXX` at position `i`. */
  predicate UnicodeEscape(s: string, i: nat) {
    i + 6 <= |s| && s[i] == '\\' && s[i + 1] == 'u' && HexAt(s, i + 2)
  }

  /** From `i` on, `s` is units and then the closing quote, which ends the text. */
  ghost predicate Body(s: string, i: nat)
    decreases |s| - i
  {
    i < |s| &&
    if s[i] == '"' then i + 1 == |s|
    else if s[i] != '\\' then s[i] >= ' ' && Body(s, i + 1)
    else if i + 1 < |s| && SimpleEscape(s[i + 1]) then Body(s, i + 2)
    else UnicodeEscape(s, i) && Body(s, i + 6)
  }

  /** A well-formed JSON string literal, quotes included. */
  ghost predicate Literal(raw: string) {
    raw != "" && raw[0] == '"' && Body(raw, 1)
  }

  /** The units from position `i` on, in order. */
  ghost function Units(s: string, i: nat): seq<Unit>
    requires Body(s, i)
    decreases |s| - i
  {
    if s[i] == '"' then []
    else if s[i] != '\\' then [Plain(s[i])] + Units(s, i + 1)
    else if SimpleEscape(s[i + 1]) then [Simple(s[i + 1])] + Units(s, i + 2)
    else [Escaped(CodeUnit(s, i + 2))] + Units(s, i + 6)
  }

  ghost predicate EscapedHigh(u: Unit) { u.Escaped? && High(u.code) }

  ghost predicate EscapedLow(u: Unit) { u.Escaped? && Low(u.code) }

  /** Each escaped high surrogate is immediately followed by an escaped low one, and no escaped low
      one stands alone. */
  ghost predicate Paired(units: seq<Unit>) {
    && (forall k :: 0 <= k < |units| && EscapedHigh(units[k]) ==> k + 1 < |units| && EscapedLow(units[k + 1]))
    && (forall k :: 0 <= k < |units| && EscapedLow(units[k]) ==> k > 0 && EscapedHigh(units[k - 1]))
  }

  // ---- the scan's view of pairing ---------------------------------------------------------

  lemma PairedSkip(u: Unit, rest: seq<Unit>)
    requires !EscapedHigh(u) && !EscapedLow(u)
    ensures Paired([u] + rest) <==> Paired(rest)
  {
    var units := [u] + rest;
    assert forall k :: 0 <= k < |rest| ==> units[k + 1] == rest[k];
    if Paired(units) {
      forall k | 0 <= k < |rest| && EscapedHigh(rest[k])
        ensures k + 1 < |rest| && EscapedLow(rest[k + 1])
      {
        assert EscapedHigh(units[k + 1]);
      }
      forall k | 0 <= k < |rest| && EscapedLow(rest[k])
        ensures k > 0 && EscapedHigh(rest[k - 1])
      {
        assert EscapedLow(units[k + 1]) && EscapedHigh(units[k]);
      }
    }
  }

  lemma PairedPair(high: Unit, low: Unit, rest: seq<Unit>)
    requires EscapedHigh(high) && EscapedLow(low)
    ensures Paired([high, low] + rest) <==> Paired(rest)
  {
    var units := [high, low] + rest;
    assert forall k :: 0 <= k < |rest| ==> units[k + 2] == rest[k];
    if Paired(units) {
      forall k | 0 <= k < |rest| && EscapedHigh(rest[k])
        ensures k + 1 < |rest| && EscapedLow(rest[k + 1])
      {
        assert EscapedHigh(units[k + 2]);
      }
      forall k | 0 <= k < |rest| && EscapedLow(rest[k])
        ensures k > 0 && EscapedHigh(rest[k - 1])
      {
        assert EscapedLow(units[k + 2]) && EscapedHigh(units[k + 1]);
      }
    }
  }

  lemma LoneLow(units: seq<Unit>)
    requires units != [] && EscapedLow(units[0])
    ensures !Paired(units)
  {
  }

  lemma UnmatchedHigh(units: seq<Unit>)
    requires units != [] && EscapedHigh(units[0])
    requires |units| == 1 || !EscapedLow(units[1])
    ensures !Paired(units)
  {
    assert EscapedHigh(units[0]);
  }

  /** Pairing as the scan consumes it: a pair at a time, anything else one unit at a time. */
  ghost predicate Accepts(units: seq<Unit>) {
    if units == [] then true
    else if EscapedLow(units[0]) then false
    else if EscapedHigh(units[0]) then |units| >= 2 && EscapedLow(units[1]) && Accepts(units[2..])
    else Accepts(units[1..])
  }

  lemma {:induction false} AcceptsIsPaired(units: seq<Unit>)
    ensures Accepts(units) <==> Paired(units)
    decreases |units|
  {
    if units == [] {
    } else if EscapedLow(units[0]) {
      LoneLow(units);
    } else if EscapedHigh(units[0]) {
      if |units| >= 2 && EscapedLow(units[1]) {
        AcceptsIsPaired(units[2..]);
        PairedPair(units[0], units[1], units[2..]);
        assert units == [units[0], units[1]] + units[2..];
      } else {
        UnmatchedHigh(units);
      }
    } else {
      AcceptsIsPaired(units[1..]);
      PairedSkip(units[0], units[1..]);
      assert units == [units[0]] + units[1..];
    }
  }

  // ---- one lemma per branch of the scan ---------------------------------------------------

  /** What the scan keeps at position `i`: the units not yet read decide. */
  ghost predicate Undecided(raw: string, i: nat)
    requires Literal(raw)
  {
    if i == 0 then true
    else if i >= |raw| then Accepts(Units(raw, 1))
    else Body(raw, i) && (Accepts(Units(raw, 1)) <==> Accepts(Units(raw, i)))
  }

  lemma StepPlain(raw: string, i: nat)
    requires Literal(raw) && i < |raw| && Undecided(raw, i) && raw[i] != '\\'
    ensures Undecided(raw, i + 1)
  {
    if i == 0 {
      assert Body(raw, 1);
    } else if raw[i] == '"' {
      assert Units(raw, i) == [];
    } else {
      assert Units(raw, i) == [Plain(raw[i])] + Units(raw, i + 1);
      AcceptsSkip(Plain(raw[i]), Units(raw, i + 1));
    }
  }

  lemma AcceptsSkip(u: Unit, rest: seq<Unit>)
    requires !EscapedHigh(u) && !EscapedLow(u)
    ensures Accepts([u] + rest) <==> Accepts(rest)
  {
    assert ([u] + rest)[1..] == rest;
  }

  lemma StepSimple(raw: string, i: nat)
    requires Literal(raw) && i < |raw| && Undecided(raw, i) && raw[i] == '\\'
    ensures 0 < i && i + 1 < |raw|
    ensures raw[i + 1] != 'u' ==> i + 2 < |raw| && Undecided(raw, i + 2)
  {
    if raw[i + 1] != 'u' {
      assert Body(raw, i + 2);
      assert Units(raw, i) == [Simple(raw[i + 1])] + Units(raw, i + 2);
      AcceptsSkip(Simple(raw[i + 1]), Units(raw, i + 2));
    }
  }

  lemma StepUnicode(raw: string, i: nat)
    requires Body(raw, i) && i + 1 < |raw| && raw[i] == '\\' && raw[i + 1] == 'u'
    ensures UnicodeEscape(raw, i) && Body(raw, i + 6)
    ensures Units(raw, i) == [Escaped(CodeUnit(raw, i + 2))] + Units(raw, i + 6)
  {
  }

  lemma StepLone(raw: string, i: nat)
    requires UnicodeEscape(raw, i) && Body(raw, i) && Body(raw, i + 6)
    requires Units(raw, i) == [Escaped(CodeUnit(raw, i + 2))] + Units(raw, i + 6)
    ensures Low(CodeUnit(raw, i + 2)) ==> !Accepts(Units(raw, i))
    ensures !Low(CodeUnit(raw, i + 2)) && !High(CodeUnit(raw, i + 2)) ==>
              (Accepts(Units(raw, i)) <==> Accepts(Units(raw, i + 6)))
  {
    assert Units(raw, i)[1..] == Units(raw, i + 6);
  }

  /** An escape is six bytes and at least the closing quote follows it. */
  lemma EscapeTakesSeven(raw: string, i: nat)
    requires Body(raw, i)
    ensures Units(raw, i) != [] && Units(raw, i)[0].Escaped? ==>
              i + 6 < |raw| && raw[i] == '\\' && raw[i + 1] == 'u'
  {
  }

  lemma StepUnmatched(raw: string, i: nat)
    requires UnicodeEscape(raw, i) && Body(raw, i) && Body(raw, i + 6) && High(CodeUnit(raw, i + 2))
    requires Units(raw, i) == [Escaped(CodeUnit(raw, i + 2))] + Units(raw, i + 6)
    requires i + 12 >= |raw| || raw[i + 6] != '\\' || raw[i + 7] != 'u'
    ensures !Accepts(Units(raw, i))
  {
    EscapeTakesSeven(raw, i + 6);
  }

  lemma StepPair(raw: string, i: nat)
    requires UnicodeEscape(raw, i) && Body(raw, i) && Body(raw, i + 6) && High(CodeUnit(raw, i + 2))
    requires UnicodeEscape(raw, i + 6) && Body(raw, i + 12)
    requires Units(raw, i) == [Escaped(CodeUnit(raw, i + 2))] + Units(raw, i + 6)
    requires Units(raw, i + 6) == [Escaped(CodeUnit(raw, i + 8))] + Units(raw, i + 12)
    ensures !Low(CodeUnit(raw, i + 8)) ==> !Accepts(Units(raw, i))
    ensures Low(CodeUnit(raw, i + 8)) ==> (Accepts(Units(raw, i)) <==> Accepts(Units(raw, i + 12)))
  {
    assert Units(raw, i)[2..] == Units(raw, i + 12);
  }

  /** The branch for an escape `\\uXXXX` whose backslash is at `at`: the last byte consumed, or a
      rejection. Every index is in range because the text is a literal. */
  method UnicodeBranch(raw: string, at: nat) returns (ok: bool, i: nat)
    requires Literal(raw) && 0 < at && at + 1 < |raw| && raw[at] == '\\' && raw[at + 1] == 'u' && Undecided(raw, at)
    ensures !ok ==> !Accepts(Units(raw, 1))
    ensures ok ==> at < i < |raw| && Undecided(raw, i + 1)
  {
    StepUnicode(raw, at);
    StepLone(raw, at);
    i := at + 1;
    var n := CodeUnit(raw, i + 1);
    i := i + 4;
    if 0xdc00 <= n <= 0xdfff {
      return false, i;
    }
    if 0xd800 <= n <= 0xdbff {
      if i + 6 >= |raw| || raw[i + 1] != '\\' || raw[i + 2] != 'u' {
        StepUnmatched(raw, at);
        return false, i;
      }
      StepUnicode(raw, at + 6);
      StepPair(raw, at);
      var low := CodeUnit(raw, i + 3);
      if low < 0xdc00 || low > 0xdfff {
        return false, i;
      }
      i := i + 6;
    }
    ok := true;
  }

  method Scan(raw: string) returns (r: bool)
    requires Literal(raw)
    ensures r <==> Accepts(Units(raw, 1))
  {
    var i := 0;
    while i < |raw|
      invariant 0 <= i <= |raw| && Undecided(raw, i)
    {
      if raw[i] != '\\' {
        StepPlain(raw, i);
        i := i + 1;
        continue;
      }
      StepSimple(raw, i);
      if raw[i + 1] != 'u' {
        i := i + 2;
        continue;
      }
      var ok, last := UnicodeBranch(raw, i);
      if !ok {
        return false;
      }
      i := last + 1;
    }
    r := true;
  }

  /** `decodeHTTPURLInput`'s verdict on the surrogates of an accepted string literal. */
  method PairedSurrogates(raw: string) returns (r: bool)
    requires Literal(raw)
    ensures r <==> Paired(Units(raw, 1))
  {
    AcceptsIsPaired(Units(raw, 1));
    r := Scan(raw);
  }

  /** A lone high surrogate is well-formed as a literal and is not paired. */
  lemma LoneSurrogate(raw: string)
    requires raw == ['"', '\\', 'u', 'D', '8', '0', '0', '"']
    ensures Literal(raw) && !Paired(Units(raw, 1))
  {
    CodeUnitIsNumeral(raw, 3, 0xD800);
    assert Body(raw, 7) && Units(raw, 7) == [];
    assert Body(raw, 1) && Units(raw, 1) == [Escaped(0xD800)] + Units(raw, 7);
    assert EscapedHigh(Units(raw, 1)[0]);
  }
}
