/**
 A reference parser for JSON texts, sections 2 to 7 of RFC 8259: a tokenizer that skips
 insignificant white space and decodes strings, and a recursive-descent parser on tokens.
 It is independent of the writers; the theorems below say that it reads back what they print.
 */
module JsonGrammar {
  import opened JsonValue
  import opened JsonText
  import opened JsonStyles
  import opened Sequences

  datatype Token = LeftBrace | RightBrace | LeftBracket | RightBracket | Colon | Comma | Atom(v: Json)

  // ----- section 7: strings -----

  function HexValue(c: byte): (r: Option<nat>)
    ensures r.Some? ==> r.value < 16
  {
    if 0x30 <= c <= 0x39 then Some(c - 0x30)
    else if 0x61 <= c <= 0x66 then Some(c - 0x61 + 10)
    else if 0x41 <= c <= 0x46 then Some(c - 0x41 + 10)
    else None
  }

  /** Four hexadecimal digits: one UTF-16 code unit. */
  function Hex4(t: bytes): (r: Option<nat>)
    ensures r.Some? ==> |t| >= 4 && r.value < 0x1_0000
  {
    if |t| < 4 || HexValue(t[0]).None? || HexValue(t[1]).None? || HexValue(t[2]).None? || HexValue(t[3]).None? then None
    else Some(HexValue(t[0]).value * 0x1000 + HexValue(t[1]).value * 0x100 + HexValue(t[2]).value * 0x10
        + HexValue(t[3]).value)
  }

  /** UTF-8 of a code point. */
  function Utf8(cp: nat): bytes
    requires cp < 0x11_0000
  {
    if cp < 0x80 then [cp]
    else if cp < 0x800 then [0xC0 + cp / 0x40, 0x80 + cp % 0x40]
    else if cp < 0x1_0000 then [0xE0 + cp / 0x1000, 0x80 + cp / 0x40 % 0x40, 0x80 + cp % 0x40]
    else [0xF0 + cp / 0x4_0000, 0x80 + cp / 0x1000 % 0x40, 0x80 + cp / 0x40 % 0x40, 0x80 + cp % 0x40]
  }

  /** Decodes the escape that follows a backslash: what it stands for, and the number of bytes it takes. */
  function Unescape(t: bytes): (r: Option<(bytes, nat)>)
    ensures r.Some? ==> 0 < r.value.1 <= |t|
  {
    if t == [] then None
    else if t[0] == 0x22 || t[0] == 0x5C || t[0] == 0x2F then Some(([t[0]], 1))
    else if t[0] == 0x62 then Some(([0x08], 1))
    else if t[0] == 0x66 then Some(([0x0C], 1))
    else if t[0] == 0x6E then Some(([0x0A], 1))
    else if t[0] == 0x72 then Some(([0x0D], 1))
    else if t[0] == 0x74 then Some(([0x09], 1))
    else if t[0] == 0x75 then
      match Hex4(t[1..])
      case None => None
      case Some(unit) =>
        if 0xD800 <= unit < 0xDC00 && |t| >= 11 && t[5] == 0x5C && t[6] == 0x75 && Hex4(t[7..]).Some?
           && 0xDC00 <= Hex4(t[7..]).value < 0xE000
        then Some((Utf8(0x1_0000 + (unit - 0xD800) * 0x400 + (Hex4(t[7..]).value - 0xDC00)), 11))
        else Some((Utf8(unit), 5))
    else None
  }

  /** Reads a string whose opening quotation mark is already consumed: its decoded bytes, and what follows it. */
  function LexString(t: bytes): (r: Option<(bytes, bytes)>)
    ensures r.Some? ==> |r.value.1| < |t|
    decreases |t|
  {
    if t == [] || t[0] < 0x20 then None
    else if t[0] == 0x22 then Some(([], t[1..]))
    else if t[0] == 0x5C then
      match Unescape(t[1..])
      case None => None
      case Some((decoded, n)) => Prefixed(decoded, LexString(t[1 + n..]))
    else Prefixed([t[0]], LexString(t[1..]))
  }

  function Prefixed(s: bytes, r: Option<(bytes, bytes)>): Option<(bytes, bytes)> {
    match r
    case None => None
    case Some((chars, rest)) => Some((s + chars, rest))
  }

  // ----- sections 2, 3 and 6: tokens -----

  /** The length of the longest prefix that consists of number characters. */
  function NumberRun(t: bytes): (n: nat)
    ensures n <= |t|
    ensures t != [] && NumberChar(t[0]) ==> n > 0
  {
    if t == [] || !NumberChar(t[0]) then 0 else 1 + NumberRun(t[1..])
  }

  /** Reads one token off a text that does not start with white space. */
  function LexToken(t: bytes): (r: Option<(Token, bytes)>)
    requires t != []
    ensures r.Some? ==> |r.value.1| < |t|
  {
    if t[0] == 0x7B then Some((LeftBrace, t[1..]))
    else if t[0] == 0x7D then Some((RightBrace, t[1..]))
    else if t[0] == 0x5B then Some((LeftBracket, t[1..]))
    else if t[0] == 0x5D then Some((RightBracket, t[1..]))
    else if t[0] == 0x3A then Some((Colon, t[1..]))
    else if t[0] == 0x2C then Some((Comma, t[1..]))
    else if t[0] == 0x22 then
      match LexString(t[1..])
      case None => None
      case Some((chars, rest)) => Some((Atom(String(chars)), rest))
    else if NumberChar(t[0]) then
      (var n := NumberRun(t); if IsNumber(t[..n]) then Some((Atom(Number(t[..n])), t[n..])) else None)
    else if [0x6E, 0x75, 0x6C, 0x6C] <= t then Some((Atom(Null), t[4..]))
    else if [0x74, 0x72, 0x75, 0x65] <= t then Some((Atom(Bool(true)), t[4..]))
    else if [0x66, 0x61, 0x6C, 0x73, 0x65] <= t then Some((Atom(Bool(false)), t[5..]))
    else None
  }

  function Lex(t: bytes): Option<seq<Token>>
    decreases |t|
  {
    if t == [] then Some([])
    else if White(t[0]) then Lex(t[1..])
    else match LexToken(t)
      case None => None
      case Some((token, rest)) => Then([token], Lex(rest))
  }

  function Then(ts: seq<Token>, r: Option<seq<Token>>): Option<seq<Token>> {
    match r
    case None => None
    case Some(more) => Some(ts + more)
  }

  // ----- sections 2, 4 and 5: values -----

  function ParseValue(ts: seq<Token>): (r: Option<(Json, seq<Token>)>)
    ensures r.Some? ==> |r.value.1| < |ts|
    decreases |ts|, 1
  {
    if ts == [] then None
    else match ts[0]
      case Atom(v) => Some((v, ts[1..]))
      case LeftBracket =>
        if |ts| > 1 && ts[1] == RightBracket then Some((Array([]), ts[2..]))
        else (match ParseElements(ts[1..])
              case None => None
              case Some((items, rest)) => Some((Array(items), rest)))
      case LeftBrace =>
        if |ts| > 1 && ts[1] == RightBrace then Some((Object([], []), ts[2..]))
        else (match ParseMembers(ts[1..])
              case None => None
              case Some((keys, items, rest)) => Some((Object(keys, items), rest)))
      case _ => None
  }

  /** value *( value-separator value ) end-array */
  function ParseElements(ts: seq<Token>): (r: Option<(seq<Json>, seq<Token>)>)
    ensures r.Some? ==> |r.value.1| < |ts|
    decreases |ts|, 2
  {
    match ParseValue(ts)
    case None => None
    case Some((item, rest)) =>
      if rest == [] then None
      else if rest[0] == RightBracket then Some(([item], rest[1..]))
      else if rest[0] != Comma then None
      else match ParseElements(rest[1..])
        case None => None
        case Some((items, rest')) => Some(([item] + items, rest'))
  }

  /** member *( value-separator member ) end-object, member = string name-separator value */
  function ParseMembers(ts: seq<Token>): (r: Option<(seq<bytes>, seq<Json>, seq<Token>)>)
    ensures r.Some? ==> |r.value.2| < |ts|
    decreases |ts|, 2
  {
    if |ts| < 2 || !ts[0].Atom? || !ts[0].v.String? || ts[1] != Colon then None
    else match ParseValue(ts[2..])
      case None => None
      case Some((item, rest)) =>
        if rest == [] then None
        else if rest[0] == RightBrace then Some(([ts[0].v.chars], [item], rest[1..]))
        else if rest[0] != Comma then None
        else match ParseMembers(rest[1..])
          case None => None
          case Some((keys, items, rest')) => Some(([ts[0].v.chars] + keys, [item] + items, rest'))
  }

  /** JSON-text = ws value ws */
  function Parse(t: bytes): Option<Json> {
    match Lex(t)
    case None => None
    case Some(ts) =>
      match ParseValue(ts)
      case None => None
      case Some((v, rest)) => if rest == [] then Some(v) else None
  }

  // ----- the tokens of a value -----

  function Tokens(v: Json): seq<Token>
    decreases v, 1, 0
  {
    if Container(v) then
      [if v.Array? then LeftBracket else LeftBrace] + EntryTokens(v, 0)
          + [if v.Array? then RightBracket else RightBrace]
    else [Atom(Plain(v))]
  }

  function LeadTokens(v: Json, i: nat): seq<Token> {
    if v.Object? then [Atom(String(KeyAt(v, i))), Colon] else []
  }

  /** The tokens of the entries from index `i` on, without the comma before entry `i`. */
  function EntryTokens(v: Json, i: nat): seq<Token>
    requires Container(v) && i <= |v.items|
    decreases v, 0, |v.items| - i
  {
    if i == |v.items| then []
    else LeadTokens(v, i) + Tokens(v.items[i])
         + (if i + 1 == |v.items| then [] else [Comma] + EntryTokens(v, i + 1))
  }

  // ----- parsing inverts Tokens -----

  lemma {:induction false} ParseTokens(v: Json, rest: seq<Token>)
    requires Shaped(v)
    ensures ParseValue(Tokens(v) + rest) == Some((Plain(v), rest))
    decreases v, 1, 0
  {
    var ts := Tokens(v) + rest;
    if !Container(v) {
      assert ts[1..] == rest;
    } else {
      var open, close := if v.Array? then LeftBracket else LeftBrace, if v.Array? then RightBracket else RightBrace;
      if v.items == [] {
        assert EntryTokens(v, 0) == [];
        assert ts == [open, close] + rest && ts[2..] == rest;
        assert Plain(v) == if v.Array? then Array([]) else Object([], []);
      } else {
        Regroup([open], EntryTokens(v, 0), [close], rest);
        assert ts[1..] == EntryTokens(v, 0) + [close] + rest;
        Assoc(EntryTokens(v, 0), [close], rest);
        TokensStart(v.items[0]);
        assert ts[1] == EntryTokens(v, 0)[0];
        ParseContainerTokens(v, rest);
      }
    }
  }

  lemma ParseContainerTokens(v: Json, rest: seq<Token>)
    requires Shaped(v) && Container(v) && v.items != []
    ensures v.Array? ==> ParseElements(EntryTokens(v, 0) + ([RightBracket] + rest)) == Some((Plain(v).items, rest))
    ensures v.Object? ==>
        ParseMembers(EntryTokens(v, 0) + ([RightBrace] + rest)) == Some((v.keys, Plain(v).items, rest))
    decreases v, 0, |v.items| + 1
  {
    assert Plain(v).items[0..] == Plain(v).items;
    if v.Array? {
      ParseElementTokens(v, 0, rest);
    } else {
      assert v.keys[0..] == v.keys;
      ParseMemberTokens(v, 0, rest);
    }
  }

  lemma TokensStart(v: Json)
    ensures Tokens(v) != [] && Tokens(v)[0] != RightBracket
  {
  }

  /** The last element of an array. */
  lemma ParseLastElement(ts: seq<Token>, item: Json, tail: seq<Token>)
    requires ParseValue(ts) == Some((item, tail)) && tail != [] && tail[0] == RightBracket
    ensures ParseElements(ts) == Some(([item], tail[1..]))
  {
  }

  /** An element that others follow. */
  lemma ParseNextElement(ts: seq<Token>, item: Json, tail: seq<Token>, items: seq<Json>, rest: seq<Token>)
    requires ParseValue(ts) == Some((item, tail)) && tail != [] && tail[0] == Comma
    requires ParseElements(tail[1..]) == Some((items, rest))
    ensures ParseElements(ts) == Some(([item] + items, rest))
  {
  }

  lemma {:induction false} ParseElementTokens(v: Json, i: nat, rest: seq<Token>)
    requires Shaped(v) && v.Array? && i < |v.items|
    ensures ParseElements(EntryTokens(v, i) + ([RightBracket] + rest)) == Some((Plain(v).items[i..], rest))
    decreases v, 0, |v.items| - i
  {
    var more := if i + 1 == |v.items| then [] else [Comma] + EntryTokens(v, i + 1);
    var tail := more + ([RightBracket] + rest);
    ParseTokens(v.items[i], tail);
    Assoc(Tokens(v.items[i]), more, [RightBracket] + rest);
    assert LeadTokens(v, i) + Tokens(v.items[i]) == Tokens(v.items[i]);
    HeadTail(Plain(v).items, i);
    if i + 1 == |v.items| {
      assert tail[1..] == rest;
      ParseLastElement(Tokens(v.items[i]) + tail, Plain(v.items[i]), tail);
      assert [Plain(v.items[i])] + Plain(v).items[i + 1..] == [Plain(v.items[i])];
    } else {
      Assoc([Comma], EntryTokens(v, i + 1), [RightBracket] + rest);
      assert tail[1..] == EntryTokens(v, i + 1) + ([RightBracket] + rest);
      ParseElementTokens(v, i + 1, rest);
      ParseNextElement(Tokens(v.items[i]) + tail, Plain(v.items[i]), tail, Plain(v).items[i + 1..], rest);
    }
  }

  /** The last member of an object. */
  lemma ParseLastMember(k: bytes, ts: seq<Token>, item: Json, tail: seq<Token>)
    requires ParseValue(ts) == Some((item, tail)) && tail != [] && tail[0] == RightBrace
    ensures ParseMembers([Atom(String(k)), Colon] + ts) == Some(([k], [item], tail[1..]))
  {
    assert ([Atom(String(k)), Colon] + ts)[2..] == ts;
  }

  /** A member that others follow. */
  lemma ParseNextMember(k: bytes, ts: seq<Token>, item: Json, tail: seq<Token>, keys: seq<bytes>, items: seq<Json>,
      rest: seq<Token>)
    requires ParseValue(ts) == Some((item, tail)) && tail != [] && tail[0] == Comma
    requires ParseMembers(tail[1..]) == Some((keys, items, rest))
    ensures ParseMembers([Atom(String(k)), Colon] + ts) == Some(([k] + keys, [item] + items, rest))
  {
    assert ([Atom(String(k)), Colon] + ts)[2..] == ts;
  }

  lemma {:induction false} ParseMemberTokens(v: Json, i: nat, rest: seq<Token>)
    requires Shaped(v) && v.Object? && i < |v.items|
    ensures ParseMembers(EntryTokens(v, i) + ([RightBrace] + rest)) == Some((v.keys[i..], Plain(v).items[i..], rest))
    decreases v, 0, |v.items| - i
  {
    var more := if i + 1 == |v.items| then [] else [Comma] + EntryTokens(v, i + 1);
    var tail := more + ([RightBrace] + rest);
    ParseTokens(v.items[i], tail);
    Assoc(LeadTokens(v, i) + Tokens(v.items[i]), more, [RightBrace] + rest);
    Assoc(LeadTokens(v, i), Tokens(v.items[i]), tail);
    HeadTail(v.keys, i);
    HeadTail(Plain(v).items, i);
    if i + 1 == |v.items| {
      assert tail[1..] == rest;
      ParseLastMember(v.keys[i], Tokens(v.items[i]) + tail, Plain(v.items[i]), tail);
      assert [v.keys[i]] + v.keys[i + 1..] == [v.keys[i]];
      assert [Plain(v.items[i])] + Plain(v).items[i + 1..] == [Plain(v.items[i])];
    } else {
      Assoc([Comma], EntryTokens(v, i + 1), [RightBrace] + rest);
      assert tail[1..] == EntryTokens(v, i + 1) + ([RightBrace] + rest);
      ParseMemberTokens(v, i + 1, rest);
      ParseNextMember(v.keys[i], Tokens(v.items[i]) + tail, Plain(v.items[i]), tail,
                      v.keys[i + 1..], Plain(v).items[i + 1..], rest);
    }
  }

  // ----- lexing inverts the printer -----

  lemma ThenThen(a: seq<Token>, b: seq<Token>, r: Option<seq<Token>>)
    ensures Then(a, Then(b, r)) == Then(a + b, r)
  {
    if r.Some? {
      assert a + (b + r.value) == a + b + r.value;
    }
  }

  lemma {:induction false} LexWhite(w: bytes, rest: bytes)
    requires forall k :: 0 <= k < |w| ==> White(w[k])
    ensures Lex(w + rest) == Lex(rest)
  {
    if w == [] {
      assert w + rest == rest;
    } else {
      assert (w + rest)[1..] == w[1..] + rest;
      LexWhite(w[1..], rest);
    }
  }

  lemma LexMark(c: byte, token: Token, rest: bytes)
    requires LexToken([c] + rest) == Some((token, rest)) && !White(c)
    ensures Lex([c] + rest) == Then([token], Lex(rest))
  {
  }

  /** Every byte that write_json_string emits is decoded to the byte it came from. */
  lemma LexEscaped(c: byte, rest: bytes)
    ensures LexString(Escaped(c) + rest) == Prefixed([c], LexString(rest))
  {
    var e := Escaped(c);
    if |e| == 1 {
      assert ([c] + rest)[1..] == rest;
    } else {
      assert e == [BACKSLASH] + e[1..];
      Assoc([BACKSLASH], e[1..], rest);
      assert ([BACKSLASH] + (e[1..] + rest))[1..] == e[1..] + rest;
      UnescapeEscaped(c, rest);
      assert (e + rest)[|e|..] == rest;
    }
  }

  lemma UnescapeEscaped(c: byte, rest: bytes)
    requires |Escaped(c)| > 1
    ensures Unescape(Escaped(c)[1..] + rest) == Some(([c], |Escaped(c)| - 1))
  {
    if |Escaped(c)| == 6 {
      var hex := [0x30, 0x30, HexDigit(c / 16), HexDigit(c % 16)];
      assert Escaped(c)[1..] == [0x75] + hex;
      Assoc([0x75], hex, rest);
      assert ([0x75] + (hex + rest))[1..] == hex + rest;
      assert Hex4(hex + rest) == Some(c);
    }
  }

  lemma {:induction false} LexEscapedAll(s: bytes, rest: bytes)
    ensures LexString(EscapedAll(s) + [QUOTE] + rest) == Some((s, rest))
  {
    if s == [] {
      assert EscapedAll(s) + [QUOTE] + rest == [QUOTE] + rest;
      assert ([QUOTE] + rest)[1..] == rest;
    } else {
      var more := EscapedAll(s[1..]) + [QUOTE] + rest;
      assert EscapedAll(s) + [QUOTE] + rest == Escaped(s[0]) + more;
      LexEscaped(s[0], more);
      LexEscapedAll(s[1..], rest);
      assert [s[0]] + s[1..] == s;
    }
  }

  /** write_json_string is uniquely decodable, whatever follows the string. */
  lemma QuotedDecodes(s: bytes, rest: bytes)
    ensures LexToken(Quoted(s) + rest) == Some((Atom(String(s)), rest))
  {
    var body := EscapedAll(s) + [QUOTE] + rest;
    LexEscapedAll(s, rest);
    assert Quoted(s) + rest == [QUOTE] + body by { Regroup([QUOTE], EscapedAll(s), [QUOTE], rest); }
    assert ([QUOTE] + body)[1..] == body;
  }

  lemma LexQuoted(s: bytes, rest: bytes)
    ensures Lex(Quoted(s) + rest) == Then([Atom(String(s))], Lex(rest))
  {
    QuotedDecodes(s, rest);
    assert (Quoted(s) + rest)[0] == QUOTE;
  }

  lemma {:induction false} NumberRunIs(t: bytes, rest: bytes)
    requires forall k :: 0 <= k < |t| ==> NumberChar(t[k])
    requires rest == [] || !NumberChar(rest[0])
    ensures NumberRun(t + rest) == |t|
  {
    if t == [] {
      assert t + rest == rest;
    } else {
      assert (t + rest)[1..] == t[1..] + rest;
      NumberRunIs(t[1..], rest);
    }
  }

  /** What may follow a value without changing how it is read: nothing that could extend a number. */
  predicate Ends(rest: bytes) {
    rest == [] || !NumberChar(rest[0])
  }

  lemma LexNumber(token: bytes, rest: bytes)
    requires IsNumber(token) && Ends(rest)
    ensures Lex(token + rest) == Then([Atom(Number(token))], Lex(rest))
  {
    NumberChars(token);
    NumberRunIs(token, rest);
    var t := token + rest;
    assert NumberChar(t[0]) by { assert t[0] == token[0]; }
    assert t[..|token|] == token && t[|token|..] == rest;
    LexTokenNumber(t, |token|);
  }

  lemma LexTokenNumber(t: bytes, n: nat)
    requires 0 < n <= |t| && NumberChar(t[0]) && NumberRun(t) == n && IsNumber(t[..n])
    ensures !White(t[0]) && LexToken(t) == Some((Atom(Number(t[..n])), t[n..]))
  {
    hide IsNumber, LexString, NumberRun;
  }

  lemma LexLiteral(v: Json, rest: bytes)
    requires v.Null? || v.Bool? || v.Opaque?
    ensures Lex(Scalar(v) + rest) == Then([Atom(Plain(v))], Lex(rest))
  {
    var t := Scalar(v) + rest;
    assert t[|Scalar(v)|..] == rest;
    assert t[0] == Scalar(v)[0];
    assert LexToken(t) == Some((Atom(Plain(v)), rest));
  }

  lemma LexScalar(v: Json, rest: bytes)
    requires !Container(v) && NumbersOk(v) && Ends(rest)
    ensures Lex(Scalar(v) + rest) == Then([Atom(Plain(v))], Lex(rest))
  {
    match v
    case String(chars) => LexQuoted(chars, rest);
    case Number(token) => LexNumber(token, rest);
    case _ => LexLiteral(v, rest);
  }

  /** Texts that read as tokens, one after the other. */
  lemma LexConcat(a: bytes, ts: seq<Token>, b: bytes, us: seq<Token>, rest: bytes)
    requires Lex(a + (b + rest)) == Then(ts, Lex(b + rest))
    requires Lex(b + rest) == Then(us, Lex(rest))
    ensures Lex(a + b + rest) == Then(ts + us, Lex(rest))
  {
    Assoc(a, b, rest);
    ThenThen(ts, us, Lex(rest));
  }

  lemma LexBeforeItem(s: Style, i: nat, indent: nat, d: nat, rest: bytes)
    ensures Lex(BeforeItem(s, i, indent, d) + rest) == Then(if i > 0 then [Comma] else [], Lex(rest))
  {
    var gap := if s == Batch && i == 0 then [] else Break(indent, d + 1);
    LexWhite(gap, rest);
    if i > 0 {
      Assoc([COMMA], gap, rest);
      assert ([COMMA] + (gap + rest))[1..] == gap + rest;
      LexMark(COMMA, Comma, gap + rest);
    } else {
      assert [] + gap == gap;
      ThenNothing(Lex(rest));
    }
  }

  lemma LexLead(s: Style, v: Json, i: nat, indent: nat, d: nat, rest: bytes)
    ensures Lex(Lead(s, v, i, indent, d) + rest)
            == Then((if i > 0 then [Comma] else []) + LeadTokens(v, i), Lex(rest))
  {
    var key := if v.Object? then KeyText(KeyAt(v, i), indent) else [];
    LexKey(v, i, indent, rest);
    LexBeforeItem(s, i, indent, d, key + rest);
    LexConcat(BeforeItem(s, i, indent, d), if i > 0 then [Comma] else [], key, LeadTokens(v, i), rest);
  }

  lemma LexKey(v: Json, i: nat, indent: nat, rest: bytes)
    ensures Lex((if v.Object? then KeyText(KeyAt(v, i), indent) else []) + rest) == Then(LeadTokens(v, i), Lex(rest))
  {
    if v.Object? {
      var k := KeyAt(v, i);
      var blank := if indent == 0 then [] else [SPACE];
      assert KeyText(k, indent) + rest == Quoted(k) + ([COLON] + (blank + rest));
      LexQuoted(k, [COLON] + (blank + rest));
      assert ([COLON] + (blank + rest))[1..] == blank + rest;
      LexMark(COLON, Colon, blank + rest);
      LexWhite(blank, rest);
      ThenThen([Atom(String(k))], [Colon], Lex(rest));
      assert [Atom(String(k))] + [Colon] == LeadTokens(v, i);
    } else {
      assert [] + rest == rest;
      ThenNothing(Lex(rest));
    }
  }

  lemma ThenNothing(r: Option<seq<Token>>)
    ensures Then([], r) == r
  {
    if r.Some? { assert [] + r.value == r.value; }
  }

  lemma LexEnd(s: Style, v: Json, indent: nat, d: nat, rest: bytes)
    requires Container(v)
    ensures Lex(End(s, v, indent, d) + rest) == Then([if v.Array? then RightBracket else RightBrace], Lex(rest))
  {
    var gap := BeforeClose(s, |v.items|, indent, d);
    assert End(s, v, indent, d) + rest == gap + ([Close(v)] + rest);
    LexWhite(gap, [Close(v)] + rest);
    assert ([Close(v)] + rest)[1..] == rest;
    LexMark(Close(v), if v.Array? then RightBracket else RightBrace, rest);
  }

  /** Whatever the layout and indentation, the printed text of a value reads as the value's tokens. */
  lemma {:induction false} LexText(s: Style, v: Json, indent: nat, d: nat, rest: bytes)
    requires NumbersOk(v) && Ends(rest)
    ensures Lex(Text(s, v, indent, d) + rest) == Then(Tokens(v), Lex(rest))
    decreases v, 1, 0
  {
    if Container(v) {
      var after, entries, end := AfterOpen(s, indent, d), Entries(s, v, 0, indent, d), End(s, v, indent, d);
      var close := [if v.Array? then RightBracket else RightBrace];
      EndEnds(s, v, indent, d, rest);
      LexEntries(s, v, 0, indent, d, end + rest);
      LexEnd(s, v, indent, d, rest);
      assert [] + EntryTokens(v, 0) == EntryTokens(v, 0);
      LexConcat(entries, EntryTokens(v, 0), end, close, rest);
      Assoc([Open(v)] + after + entries, end, rest);
      Assoc([Open(v)] + after, entries, end + rest);
      Assoc(entries, end, rest);
      LexOpen(s, v, indent, d, entries + end + rest);
      var open := [if v.Array? then LeftBracket else LeftBrace];
      ThenThen(open, EntryTokens(v, 0) + close, Lex(rest));
      Assoc(open, EntryTokens(v, 0), close);
    } else {
      LexScalar(v, rest);
    }
  }

  lemma LexOpen(s: Style, v: Json, indent: nat, d: nat, rest: bytes)
    requires Container(v)
    ensures Lex([Open(v)] + AfterOpen(s, indent, d) + rest)
        == Then([if v.Array? then LeftBracket else LeftBrace], Lex(rest))
  {
    var after := AfterOpen(s, indent, d);
    LexWhite(after, rest);
    Assoc([Open(v)], after, rest);
    assert ([Open(v)] + (after + rest))[1..] == after + rest;
    LexMark(Open(v), if v.Array? then LeftBracket else LeftBrace, after + rest);
  }

  lemma EndEnds(s: Style, v: Json, indent: nat, d: nat, rest: bytes)
    requires Container(v)
    ensures Ends(End(s, v, indent, d) + rest)
  {
    var gap := BeforeClose(s, |v.items|, indent, d);
    if gap == [] {
      assert (End(s, v, indent, d) + rest)[0] == Close(v);
    } else {
      assert (End(s, v, indent, d) + rest)[0] == NEWLINE;
    }
  }

  lemma {:induction false} LexEntries(s: Style, v: Json, i: nat, indent: nat, d: nat, rest: bytes)
    requires NumbersOk(v) && Container(v) && i <= |v.items| && Ends(rest)
    ensures Lex(Entries(s, v, i, indent, d) + rest)
            == Then((if 0 < i < |v.items| then [Comma] else []) + EntryTokens(v, i), Lex(rest))
    decreases v, 0, |v.items| - i
  {
    if i == |v.items| {
      var none: seq<Token> := [];
      assert [] + rest == rest && none + EntryTokens(v, i) == none;
      ThenNothing(Lex(rest));
    } else {
      var lead, item, more :=
          Lead(s, v, i, indent, d), Text(s, v.items[i], indent, d + 1), Entries(s, v, i + 1, indent, d);
      EntriesEnd(s, v, i + 1, indent, d, rest);
      LexEntries(s, v, i + 1, indent, d, rest);
      LexText(s, v.items[i], indent, d + 1, more + rest);
      LexLead(s, v, i, indent, d, item + (more + rest));
      Assoc(lead + item, more, rest);
      Assoc(lead, item, more + rest);
      JoinTokens(v, i, Lex(rest));
    }
  }

  lemma EntriesEnd(s: Style, v: Json, i: nat, indent: nat, d: nat, rest: bytes)
    requires Container(v) && 0 < i <= |v.items| && Ends(rest)
    ensures Ends(Entries(s, v, i, indent, d) + rest)
  {
    if i == |v.items| {
      assert [] + rest == rest;
    } else {
      assert Lead(s, v, i, indent, d)[0] == COMMA;
    }
  }

  lemma JoinTokens(v: Json, i: nat, r: Option<seq<Token>>)
    requires Container(v) && i < |v.items|
    ensures var comma := if i > 0 then [Comma] else [];
            var next := (if i + 1 < |v.items| then [Comma] else []) + EntryTokens(v, i + 1);
            Then(comma + LeadTokens(v, i), Then(Tokens(v.items[i]), Then(next, r)))
            == Then(comma + EntryTokens(v, i), r)
  {
    var comma := if i > 0 then [Comma] else [];
    var lead, item := LeadTokens(v, i), Tokens(v.items[i]);
    var next := (if i + 1 < |v.items| then [Comma] else []) + EntryTokens(v, i + 1);
    ThenThen(item, next, r);
    ThenThen(comma + lead, item + next, r);
    Assoc(comma, lead, item + next);
    Assoc(lead, item, next);
  }

  // ----- round trips -----

  /** What any of the printers emits is a JSON text of RFC 8259, and it stands for the value printed. */
  lemma RoundTrip(s: Style, v: Json, indent: nat)
    requires Shaped(v) && NumbersOk(v)
    ensures Parse(Text(s, v, indent, 0)) == Some(Plain(v))
  {
    var t := Text(s, v, indent, 0);
    assert t + [] == t;
    LexText(s, v, indent, 0, []);
    assert Tokens(v) + [] == Tokens(v);
    ParseTokens(v, []);
  }

  /** The value itself comes back exactly when every part of it has a JSON representation. */
  lemma RoundTripExact(s: Style, v: Json, indent: nat)
    requires Shaped(v) && NumbersOk(v)
    ensures Parse(Text(s, v, indent, 0)) == Some(v) <==> !HasOpaque(v)
  {
    RoundTrip(s, v, indent);
    PlainIsIdentity(v);
  }

  /** Two values with the same text, printed in whatever layouts, are the same up to unrepresentable parts. */
  lemma TextIsInjective(s: Style, v: Json, indent: nat, s': Style, v': Json, indent': nat)
    requires Shaped(v) && NumbersOk(v) && Shaped(v') && NumbersOk(v')
    requires Text(s, v, indent, 0) == Text(s', v', indent', 0)
    ensures Plain(v) == Plain(v')
  {
    RoundTrip(s, v, indent);
    RoundTrip(s', v', indent');
  }
}
