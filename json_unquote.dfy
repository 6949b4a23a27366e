// JSON_UNQUOTE: decoding the escape sequences of a JSON string's bytes.

module JsonUnquote {
  import opened JsonValue

  datatype UnquoteError =
    | MissingClosingQuote  // the string ends in a lone backslash
    | InvalidUnicode       // `\u` is followed by fewer than four bytes

  const Backslash: byte := 0x5C
  const LetterU: byte := 0x75

  /**
   * The byte an escape selector stands for: `\"`, `\b`, `\f`, `\n`, `\r`,
   * `\t` and `\\` give their control or punctuation byte; any other
   * selector stands for itself.
   */
  function EscapedByte(c: byte): (r: byte)
    ensures r != c <==> c in {0x62, 0x66, 0x6E, 0x72, 0x74}
    ensures r != c ==> r < 0x20
  {
    if c == 0x22 then 0x22        // \"
    else if c == 0x62 then 0x08   // \b
    else if c == 0x66 then 0x0C   // \f
    else if c == 0x6E then 0x0A   // \n
    else if c == 0x72 then 0x0D   // \r
    else if c == 0x74 then 0x09   // \t
    else if c == 0x5C then 0x5C   // \\
    else c
  }

  /** Prefixes a successful decoding with some bytes; an error stays an error. */
  function Prepend(p: seq<byte>, r: Result<seq<byte>, UnquoteError>): Result<seq<byte>, UnquoteError> {
    match r
    case Ok(t) => Ok(p + t)
    case Err(e) => Err(e)
  }

  lemma PrependAssoc(p: seq<byte>, q: seq<byte>, r: Result<seq<byte>, UnquoteError>)
    ensures Prepend(p, Prepend(q, r)) == Prepend(p + q, r)
  {
    if r.Ok? {
      assert p + (q + r.value) == (p + q) + r.value;
    }
  }

  lemma PrependNothing(r: Result<seq<byte>, UnquoteError>)
    ensures Prepend([], r) == r
  {
    if r.Ok? {
      assert [] + r.value == r.value;
    }
  }

  /**
   * The decoding of s, scanning from the front. A `\u` escape emits the
   * single byte `\` and skips the four bytes after the `u`: the rune is
   * decoded starting at the backslash, not at the hex digits.
   */
  function UnquoteSpec(s: seq<byte>): (r: Result<seq<byte>, UnquoteError>)
    ensures r.Ok? ==> |r.value| <= |s|
    decreases |s|
  {
    if s == [] then Ok([])
    else if s[0] != Backslash then Prepend([s[0]], UnquoteSpec(s[1..]))
    else if |s| == 1 then Err(MissingClosingQuote)
    else if s[1] == LetterU then
      if |s| < 6 then Err(InvalidUnicode) else Prepend([Backslash], UnquoteSpec(s[6..]))
    else Prepend([EscapedByte(s[1])], UnquoteSpec(s[2..]))
  }

  /** unquoteString: the byte loop, proved to compute UnquoteSpec. */
  method UnquoteString(s: seq<byte>) returns (r: Result<seq<byte>, UnquoteError>)
    ensures r == UnquoteSpec(s)
  {
    var buf: seq<byte> := [];
    var i := 0;
    assert s[0..] == s;
    PrependNothing(UnquoteSpec(s));
    while i < |s|
      invariant 0 <= i <= |s|
      invariant UnquoteSpec(s) == Prepend(buf, UnquoteSpec(s[i..]))
      decreases |s| - i
    {
      ghost var rest, done := s[i..], buf;
      var emitted: seq<byte>;
      if s[i] == Backslash {
        i := i + 1;
        if i == |s| {
          return Err(MissingClosingQuote);
        }
        if s[i] == LetterU {
          if i + 4 >= |s| {
            return Err(InvalidUnicode);
          }
          assert rest[6..] == s[i + 5..];
          // The rune is decoded from s[i-1..i+5], whose first byte is the
          // ASCII backslash: a one-byte rune, re-encoded as that one byte.
          emitted := [s[i - 1]];
          i := i + 4;
        } else {
          assert rest[2..] == s[i + 1..];
          emitted := [EscapedByte(s[i])];
        }
      } else {
        assert rest[1..] == s[i + 1..];
        emitted := [s[i]];
      }
      buf := buf + emitted;
      i := i + 1;
      assert UnquoteSpec(rest) == Prepend(emitted, UnquoteSpec(s[i..]));
      PrependAssoc(done, emitted, UnquoteSpec(s[i..]));
    }
    assert buf + [] == buf;
    r := Ok(buf);
  }

  /**
   * JSON_UNQUOTE of a value: a string is decoded; any other value is its
   * textual rendering, which the caller supplies.
   */
  method Unquote(j: JSON, render: JSON -> seq<byte>) returns (r: Result<seq<byte>, UnquoteError>)
    ensures j.String? ==> r == UnquoteSpec(j.str)
    ensures !j.String? ==> r == Ok(render(j))
  {
    if j.String? {
      r := UnquoteString(j.str);
    } else {
      r := Ok(render(j));
    }
  }

  // ---------------------------------------------------------------------------
  // Properties of the decoding.

  /** A string without a backslash decodes to itself. */
  lemma {:induction false} UnquoteWithoutBackslash(s: seq<byte>)
    requires Backslash !in s
    ensures UnquoteSpec(s) == Ok(s)
    decreases |s|
  {
    if s != [] {
      assert Backslash !in s[1..];
      UnquoteWithoutBackslash(s[1..]);
      assert [s[0]] + s[1..] == s;
    }
  }

  /** Decoding is compositional once the first part decodes completely. */
  lemma {:induction false} UnquoteConcat(s: seq<byte>, t: seq<byte>)
    requires UnquoteSpec(s).Ok?
    ensures UnquoteSpec(s + t) == Prepend(UnquoteSpec(s).value, UnquoteSpec(t))
    decreases |s|
  {
    if s == [] {
      assert s + t == t;
      PrependNothing(UnquoteSpec(t));
    } else {
      var n := if s[0] != Backslash then 1 else if s[1] == LetterU then 6 else 2;
      var p := if s[0] != Backslash then [s[0]] else if s[1] == LetterU then [Backslash] else [EscapedByte(s[1])];
      assert (s + t)[n..] == s[n..] + t;
      assert (s + t)[0] == s[0] && (n > 1 ==> (s + t)[1] == s[1]);
      assert UnquoteSpec(s) == Prepend(p, UnquoteSpec(s[n..]));
      assert UnquoteSpec(s + t) == Prepend(p, UnquoteSpec(s[n..] + t));
      UnquoteConcat(s[n..], t);
      PrependAssoc(p, UnquoteSpec(s[n..]).value, UnquoteSpec(t));
    }
  }

  /** A lone backslash after a completely decoded prefix is an error. */
  lemma TrailingBackslash(s: seq<byte>)
    requires UnquoteSpec(s).Ok?
    ensures UnquoteSpec(s + [Backslash]) == Err(MissingClosingQuote)
  {
    UnquoteConcat(s, [Backslash]);
  }

  /**
   * `\u` consumes exactly six bytes and emits one backslash, whatever the
   * four bytes after it; with fewer than four bytes after it the decoding fails.
   */
  lemma UnicodeEscape(h: seq<byte>, t: seq<byte>)
    ensures |h| == 4 ==> UnquoteSpec([Backslash, LetterU] + h + t) == Prepend([Backslash], UnquoteSpec(t))
    ensures |h| < 4 ==> UnquoteSpec([Backslash, LetterU] + h) == Err(InvalidUnicode)
  {
    if |h| == 4 {
      assert ([Backslash, LetterU] + h + t)[6..] == t;
    }
  }

  // ---------------------------------------------------------------------------
  // The inverse of the escape table: escaping raw bytes, so that the round
  // trip through the decoder can be stated.

  /** The escape sequence for one raw byte, or the byte itself. */
  function EscapeByte(b: byte): (e: seq<byte>)
    ensures |e| == 1 || (|e| == 2 && e[0] == Backslash && e[1] != LetterU && EscapedByte(e[1]) == b)
    ensures |e| == 1 ==> e[0] == b && b != Backslash
  {
    if b == 0x22 then [Backslash, 0x22]
    else if b == 0x08 then [Backslash, 0x62]
    else if b == 0x0C then [Backslash, 0x66]
    else if b == 0x0A then [Backslash, 0x6E]
    else if b == 0x0D then [Backslash, 0x72]
    else if b == 0x09 then [Backslash, 0x74]
    else if b == Backslash then [Backslash, Backslash]
    else [b]
  }

  function Escape(raw: seq<byte>): seq<byte>
    decreases |raw|
  {
    if raw == [] then [] else EscapeByte(raw[0]) + Escape(raw[1..])
  }

  /** Unquoting undoes escaping. */
  lemma {:induction false} UnquoteEscape(raw: seq<byte>)
    ensures UnquoteSpec(Escape(raw)) == Ok(raw)
    decreases |raw|
  {
    if raw != [] {
      var e := EscapeByte(raw[0]);
      if |e| == 2 {
        assert e[2..] == [];
      } else {
        assert e[1..] == [];
      }
      assert [raw[0]] + [] == [raw[0]];
      assert UnquoteSpec(e) == Prepend([raw[0]], Ok([]));
      UnquoteEscape(raw[1..]);
      UnquoteConcat(e, Escape(raw[1..]));
      assert [raw[0]] + raw[1..] == raw;
    }
  }

  /** `\n` gives a newline, `\\` one backslash, `\q` the letter q; `a\` fails. */
  lemma UnquoteExamples()
    ensures UnquoteSpec([Backslash, 0x6E]) == Ok([0x0A])
    ensures UnquoteSpec([Backslash, Backslash]) == Ok([Backslash])
    ensures UnquoteSpec([Backslash, 0x71]) == Ok([0x71])
    ensures UnquoteSpec([0x61, Backslash]) == Err(MissingClosingQuote)
  {
    assert [Backslash, 0x6E][2..] == [] && [0x0A] + [] == [0x0A];
    assert [Backslash, Backslash][2..] == [] && [Backslash] + [] == [Backslash];
    assert [Backslash, 0x71][2..] == [] && [0x71] + [] == [0x71];
    assert [0x61, Backslash][1..] == [Backslash];
  }
}
