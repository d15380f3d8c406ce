/** JSON Pointer handling (sections 3 and 4 of RFC 6901): the server compiles a constraint pointer by
    splitting and then decoding each token, renders field pointers by two global replacements, and
    the command-line client validates a pointer with one scan over the whole text. */
module JsonPointer {
  import opened Wrappers

  const MAX_POINTER_BYTES := 256

  // ---- specification ----------------------------------------------------------------------

  /** `strings.Split(s, "/")` */
  function Split(s: string): (tokens: seq<string>)
    ensures tokens != []
  {
    if s == "" then [""]
    else
      var rest := Split(s[1..]);
      if s[0] == '/' then [""] + rest else [[s[0]] + rest[0]] + rest[1..]
  }

  /** The inverse of `Split`. */
  function Join(tokens: seq<string>): string
    requires tokens != []
  {
    if |tokens| == 1 then tokens[0] else tokens[0] + "/" + Join(tokens[1..])
  }

  /** One token's text with `~0` and `~1` undone; a lone or unknown escape is an error. */
  function DecodeToken(token: string): Option<string> {
    if token == "" then Some("")
    else if token[0] != '~' then Cons(token[0], DecodeToken(token[1..]))
    else if |token| < 2 then None
    else if token[1] == '0' then Cons('~', DecodeToken(token[2..]))
    else if token[1] == '1' then Cons('/', DecodeToken(token[2..]))
    else None
  }

  function Cons(c: char, rest: Option<string>): Option<string> {
    if rest.Some? then Some([c] + rest.value) else None
  }

  function DecodeTokens(tokens: seq<string>): (r: Option<seq<string>>)
    ensures r.Some? ==> |r.value| == |tokens|
  {
    if tokens == [] then Some([])
    else
      var first, rest := DecodeToken(tokens[0]), DecodeTokens(tokens[1..]);
      if first.Some? && rest.Some? then Some([first.value] + rest.value) else None
  }

  /** The reference segments a pointer denotes, if it is a well-formed nonempty pointer. */
  function Segments(pointer: string): Option<seq<string>> {
    if pointer == "" || pointer[0] != '/' then None else DecodeTokens(Split(pointer[1..]))
  }

  /** A segment as it is written in a pointer. */
  function EscapeToken(segment: string): string {
    if segment == "" then ""
    else (if segment[0] == '~' then "~0" else if segment[0] == '/' then "~1" else [segment[0]])
         + EscapeToken(segment[1..])
  }

  /** The pointer denoting a nonempty list of segments. */
  function Pointer(segments: seq<string>): string
    requires segments != []
  {
    "/" + Tail(segments)
  }

  function Tail(segments: seq<string>): string
    requires segments != []
  {
    if |segments| == 1 then EscapeToken(segments[0]) else EscapeToken(segments[0]) + "/" + Tail(segments[1..])
  }

  // ---- decoding and escaping are mutually inverse -----------------------------------------

  /** Escaping writes a tilde as ~0, a slash as ~1 and anything else as itself. */
  lemma EscapeIs(c: char, rest: string)
    ensures EscapeToken("") == ""
    ensures EscapeToken([c] + rest) ==
              (if c == '~' then ['~', '0'] else if c == '/' then ['~', '1'] else [c]) + EscapeToken(rest)
  {
    assert ([c] + rest)[1..] == rest;
  }

  lemma {:induction false} EscapedHasNoSlash(segment: string)
    ensures '/' !in EscapeToken(segment)
  {
    if segment != "" {
      EscapedHasNoSlash(segment[1..]);
    }
  }

  lemma {:induction false} DecodeUndoesEscape(segment: string)
    ensures DecodeToken(EscapeToken(segment)) == Some(segment)
  {
    if segment != "" {
      DecodeUndoesEscape(segment[1..]);
      var escaped, tail := EscapeToken(segment), EscapeToken(segment[1..]);
      assert segment == [segment[0]] + segment[1..];
      if segment[0] == '~' || segment[0] == '/' {
        assert escaped[2..] == tail;
      } else {
        assert escaped[1..] == tail;
      }
    }
  }

  lemma {:induction false} EscapeUndoesDecode(token: string)
    requires '/' !in token && DecodeToken(token).Some?
    ensures EscapeToken(DecodeToken(token).value) == token
  {
    if token != "" {
      var segment := DecodeToken(token).value;
      if token[0] != '~' {
        EscapeUndoesDecode(token[1..]);
        assert segment[1..] == DecodeToken(token[1..]).value;
        assert token == [token[0]] + token[1..];
      } else {
        EscapeUndoesDecode(token[2..]);
        assert segment[1..] == DecodeToken(token[2..]).value;
        assert token == [token[0], token[1]] + token[2..];
      }
    }
  }

  lemma {:induction false} SplitPrefix(token: string, rest: string)
    requires '/' !in token
    ensures Split(token) == [token]
    ensures Split(token + "/" + rest) == [token] + Split(rest)
  {
    var whole := token + "/" + rest;
    if token == "" {
      assert whole[1..] == rest;
    } else {
      SplitPrefix(token[1..], rest);
      assert whole[1..] == token[1..] + "/" + rest;
      assert token == [token[0]] + token[1..];
    }
  }

  lemma {:induction false} SplitTokensHaveNoSlash(s: string)
    ensures forall i :: 0 <= i < |Split(s)| ==> '/' !in Split(s)[i]
    ensures Join(Split(s)) == s
  {
    if s != "" {
      SplitTokensHaveNoSlash(s[1..]);
      var rest := Split(s[1..]);
      assert s == [s[0]] + s[1..];
      if s[0] == '/' {
        assert Split(s)[1..] == rest;
      } else {
        assert Split(s)[1..] == rest[1..];
      }
    }
  }

  lemma {:induction false} SplitTail(segments: seq<string>)
    requires segments != []
    ensures DecodeTokens(Split(Tail(segments))) == Some(segments)
  {
    if |segments| == 1 {
      LastToken(segments[0]);
      assert segments == [segments[0]];
    } else {
      SplitTail(segments[1..]);
      LeadingToken(segments[0], Tail(segments[1..]));
      assert segments == [segments[0]] + segments[1..];
    }
  }

  lemma LastToken(segment: string)
    ensures DecodeTokens(Split(EscapeToken(segment))) == Some([segment])
  {
    EscapedHasNoSlash(segment);
    DecodeUndoesEscape(segment);
    SplitPrefix(EscapeToken(segment), "");
    DecodeCons(EscapeToken(segment), []);
    assert [EscapeToken(segment)] + [] == [EscapeToken(segment)] && [segment] + [] == [segment];
  }

  lemma LeadingToken(segment: string, tail: string)
    requires DecodeTokens(Split(tail)).Some?
    ensures DecodeTokens(Split(EscapeToken(segment) + "/" + tail)) == Some([segment] + DecodeTokens(Split(tail)).value)
  {
    EscapedHasNoSlash(segment);
    DecodeUndoesEscape(segment);
    SplitPrefix(EscapeToken(segment), tail);
    DecodeCons(EscapeToken(segment), Split(tail));
  }

  lemma DecodeCons(token: string, tokens: seq<string>)
    requires DecodeToken(token).Some? && DecodeTokens(tokens).Some?
    ensures DecodeTokens([token] + tokens) == Some([DecodeToken(token).value] + DecodeTokens(tokens).value)
  {
    assert ([token] + tokens)[1..] == tokens;
  }

  /** Every nonempty list of segments, with any text in them, survives being written and read. */
  lemma WriteThenRead(segments: seq<string>)
    requires segments != []
    ensures Segments(Pointer(segments)) == Some(segments)
  {
    SplitTail(segments);
    assert Pointer(segments)[1..] == Tail(segments);
  }

  lemma {:induction false} RewriteTokens(tokens: seq<string>)
    requires tokens != [] && DecodeTokens(tokens).Some?
    requires forall i :: 0 <= i < |tokens| ==> '/' !in tokens[i]
    ensures Tail(DecodeTokens(tokens).value) == Join(tokens)
  {
    EscapeUndoesDecode(tokens[0]);
    if |tokens| > 1 {
      assert DecodeTokens(tokens).value[1..] == DecodeTokens(tokens[1..]).value;
      RewriteTokens(tokens[1..]);
    }
  }

  /** Every accepted pointer is the canonical text of its segments, so no two pointers alias. */
  lemma ReadThenWrite(pointer: string)
    requires Segments(pointer).Some?
    ensures Segments(pointer).value != [] && Pointer(Segments(pointer).value) == pointer
  {
    SplitTokensHaveNoSlash(pointer[1..]);
    RewriteTokens(Split(pointer[1..]));
    assert pointer == "/" + pointer[1..];
  }

  lemma PointersDoNotAlias(p: string, q: string)
    requires Segments(p).Some? && Segments(p) == Segments(q)
    ensures p == q
  {
    ReadThenWrite(p);
    ReadThenWrite(q);
  }

  // ---- the server's compiler --------------------------------------------------------------

  /** `compileJSONPointer`: byte limit, split, then decode each token byte by byte. */
  method CompileJsonPointer(pointer: string) returns (r: Option<seq<string>>)
    ensures r == if |pointer| > MAX_POINTER_BYTES then None else Segments(pointer)
  {
    if pointer == "" || pointer[0] != '/' || |pointer| > MAX_POINTER_BYTES {
      return None;
    }
    var tokens := Split(pointer[1..]);
    var segments: seq<string> := [];
    assert tokens[0..] == tokens;
    PrependUnits(segments, DecodeTokens(tokens));
    for index := 0 to |tokens|
      invariant |segments| == index
      invariant DecodeTokens(tokens) == Prepend(segments, DecodeTokens(tokens[index..]))
    {
      var decoded := DecodeLoop(tokens[index]);
      assert tokens[index..][1..] == tokens[index + 1..];
      if decoded.None? {
        return None;
      }
      PrependStep(segments, decoded.value, DecodeTokens(tokens[index + 1..]));
      segments := segments + [decoded.value];
    }
    assert tokens[|tokens|..] == [];
    PrependUnits(segments, DecodeTokens(tokens));
    r := Some(segments);
  }

  ghost function Prepend<T>(done: seq<T>, rest: Option<seq<T>>): Option<seq<T>> {
    if rest.Some? then Some(done + rest.value) else None
  }

  lemma PrependUnits<T>(done: seq<T>, rest: Option<seq<T>>)
    ensures Prepend([], rest) == rest && Prepend(done, Some([])) == Some(done)
  {
    if rest.Some? {
      assert [] + rest.value == rest.value;
    }
    assert done + [] == done;
  }

  lemma PrependStep<T>(done: seq<T>, x: T, rest: Option<seq<T>>)
    ensures Prepend(done + [x], rest) == Prepend(done, if rest.Some? then Some([x] + rest.value) else None)
  {
    if rest.Some? {
      assert (done + [x]) + rest.value == done + ([x] + rest.value);
    }
  }

  method DecodeLoop(token: string) returns (r: Option<string>)
    ensures r == DecodeToken(token)
  {
    var decoded := "";
    var offset := 0;
    assert token[0..] == token;
    PrependUnits(decoded, DecodeToken(token));
    while offset < |token|
      invariant 0 <= offset <= |token|
      invariant DecodeToken(token) == Prepend(decoded, DecodeToken(token[offset..]))
    {
      ghost var rest := token[offset..];
      assert rest[1..] == token[offset + 1..];
      if token[offset] != '~' {
        assert DecodeToken(rest) == Cons(token[offset], DecodeToken(rest[1..]));
        PrependStep(decoded, token[offset], DecodeToken(rest[1..]));
        decoded := decoded + [token[offset]];
        offset := offset + 1;
        continue;
      }
      if offset + 1 >= |token| {
        return None;
      }
      assert rest[2..] == token[offset + 2..];
      offset := offset + 1;
      match token[offset] {
      case '0' =>
        assert DecodeToken(rest) == Cons('~', DecodeToken(rest[2..]));
        PrependStep(decoded, '~', DecodeToken(rest[2..]));
        decoded := decoded + ['~'];
      case '1' =>
        assert DecodeToken(rest) == Cons('/', DecodeToken(rest[2..]));
        PrependStep(decoded, '/', DecodeToken(rest[2..]));
        decoded := decoded + ['/'];
      case _ =>
        return None;
      }
      offset := offset + 1;
    }
    assert token[offset..] == "";
    PrependUnits(decoded, DecodeToken(token));
    r := Some(decoded);
  }

  // ---- field pointers in diagnostics ------------------------------------------------------

  /** `strings.ReplaceAll` with a one-byte pattern. */
  function ReplaceAll(s: string, c: char, with: string): string {
    if s == "" then "" else (if s[0] == c then with else [s[0]]) + ReplaceAll(s[1..], c, with)
  }

  function ConstraintField(operator: string, pointer: string): string {
    "/" + operator + "/" + ReplaceAll(ReplaceAll(pointer, '~', "~0"), '/', "~1")
  }

  lemma {:induction false} ReplaceConcat(a: string, b: string, c: char, with: string)
    ensures ReplaceAll(a + b, c, with) == ReplaceAll(a, c, with) + ReplaceAll(b, c, with)
  {
    if a == "" {
      assert a + b == b;
    } else {
      assert (a + b)[1..] == a[1..] + b;
      ReplaceConcat(a[1..], b, c, with);
    }
  }

  /** Replacing `~` before `/` is what makes the two passes amount to one escaping pass. */
  lemma {:induction false} TwoPassesEscape(s: string)
    ensures ReplaceAll(ReplaceAll(s, '~', "~0"), '/', "~1") == EscapeToken(s)
  {
    if s != "" {
      var head := if s[0] == '~' then "~0" else [s[0]];
      ReplaceConcat(head, ReplaceAll(s[1..], '~', "~0"), '/', "~1");
      TwoPassesEscape(s[1..]);
      assert ReplaceAll(head, '/', "~1") == if s[0] == '~' then "~0" else if s[0] == '/' then "~1" else [s[0]] by {
        assert "~0"[1..] == "0" && "0"[1..] == "" && head[1..] == if s[0] == '~' then "0" else "";
        assert ReplaceAll("0", '/', "~1") == "0";
      }
    }
  }

  lemma {:induction false} PlainTokenUnescaped(s: string)
    requires '~' !in s && '/' !in s
    ensures EscapeToken(s) == s
  {
    if s != "" {
      PlainTokenUnescaped(s[1..]);
      assert s == [s[0]] + s[1..];
    }
  }

  /** The field reported for a bad atom points at exactly that operator's member, for any member
      name. The operators are "equals" and "regex", which need no escaping. */
  lemma FieldPointsAtMember(operator: string, pointer: string)
    requires '~' !in operator && '/' !in operator
    ensures Segments(ConstraintField(operator, pointer)) == Some([operator, pointer])
  {
    TwoPassesEscape(pointer);
    PlainTokenUnescaped(operator);
    var segments := [operator, pointer];
    assert segments[1..] == [pointer];
    assert Tail([pointer]) == EscapeToken(pointer);
    WriteThenRead(segments);
    assert Pointer(segments) == "/" + (operator + "/" + EscapeToken(pointer)) == ConstraintField(operator, pointer);
  }

  // ---- the client's validator -------------------------------------------------------------

  /** Every `~` is followed by `0` or `1`. */
  ghost predicate EscapesOk(s: string) {
    s == "" || (if s[0] == '~' then |s| >= 2 && (s[1] == '0' || s[1] == '1') && EscapesOk(s[2..])
      else EscapesOk(s[1..]))
  }

  lemma {:induction false} EscapesDecode(s: string)
    ensures EscapesOk(s) <==> DecodeTokens(Split(s)).Some?
    decreases |s|
  {
    if s != "" {
      var tokens, rest := Split(s), Split(s[1..]);
      if s[0] == '/' {
        EscapesDecode(s[1..]);
        assert tokens[1..] == rest;
      } else if s[0] != '~' {
        EscapesDecode(s[1..]);
        FirstTokenDecides(tokens, rest, 1);
      } else if |s| >= 2 && s[1] != '/' {
        EscapesDecode(s[2..]);
        var after := Split(s[2..]);
        assert s[1..][1..] == s[2..];
        assert tokens[0] == [s[0], s[1]] + after[0];
        FirstTokenDecides(tokens, after, 2);
      } else {
        assert rest[0] == "" && tokens[0] == "~";
      }
    }
  }

  /** Dropping an accepted prefix of the first token leaves acceptance as it was. */
  lemma FirstTokenDecides(tokens: seq<string>, rest: seq<string>, n: nat)
    requires tokens != [] && rest != [] && n <= |tokens[0]|
    requires tokens[0][n..] == rest[0] && tokens[1..] == rest[1..]
    requires DecodeToken(tokens[0]).Some? ==> DecodeToken(rest[0]).Some?
    ensures DecodeTokens(tokens).Some? ==> DecodeTokens(rest).Some?
    ensures DecodeToken(tokens[0]).Some? && DecodeTokens(rest).Some? ==> DecodeTokens(tokens).Some?
  {
  }

  /** `validGrantPointer`: one scan, skipping the byte after each tilde. Whether the text is valid
      UTF-8 is decided by the library and enters as `utf8`. */
  method ValidGrantPointer(pointer: string, utf8: bool) returns (r: bool)
    ensures r <==> utf8 && |pointer| <= MAX_POINTER_BYTES && Segments(pointer).Some?
  {
    if !("/" <= pointer) || |pointer| > MAX_POINTER_BYTES || !utf8 {
      return false;
    }
    EscapesDecode(pointer[1..]);
    var index := 0;
    while index < |pointer|
      invariant 0 <= index <= |pointer|
      invariant EscapesOk(pointer) <==> EscapesOk(pointer[index..])
    {
      assert pointer[index..][1..] == pointer[index + 1..];
      if pointer[index] == '~' {
        if index + 1 >= |pointer| || (pointer[index + 1] != '0' && pointer[index + 1] != '1') {
          return false;
        }
        assert pointer[index..][2..] == pointer[index + 2..];
        index := index + 1;
      }
      index := index + 1;
    }
    r := true;
  }
}
