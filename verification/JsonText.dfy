/**
 The text of a JSON value: one recursive printer, with the three ways in which the writers
 of the repository place line breaks. The writers themselves are loops and state machines,
 proved against this printer in their own modules.
 */
module JsonText {
  import opened JsonValue

  /** `Batch` is js_json_write (and JsonSerializer), `Push` is JsonWriter, `Pretty` is prettyPrint of jsonpp.js. */
  datatype Style = Batch | Push | Pretty

  const QUOTE: byte := 0x22
  const BACKSLASH: byte := 0x5C
  const COMMA: byte := 0x2C
  const COLON: byte := 0x3A
  const SPACE: byte := 0x20
  const NEWLINE: byte := 0x0A

  const NULL_TEXT: bytes := [0x6E, 0x75, 0x6C, 0x6C]
  const TRUE_TEXT: bytes := [0x74, 0x72, 0x75, 0x65]
  const FALSE_TEXT: bytes := [0x66, 0x61, 0x6C, 0x73, 0x65]

  // ----- strings -----

  function HexDigit(d: nat): byte
    requires d < 16
  {
    if d < 10 then 0x30 + d else 0x61 + (d - 10)
  }

  function Escaped(c: byte): bytes {
    if c == QUOTE then [BACKSLASH, QUOTE]
    else if c == BACKSLASH then [BACKSLASH, BACKSLASH]
    else if c == 0x08 then [BACKSLASH, 0x62]
    else if c == 0x0C then [BACKSLASH, 0x66]
    else if c == 0x0A then [BACKSLASH, 0x6E]
    else if c == 0x0D then [BACKSLASH, 0x72]
    else if c == 0x09 then [BACKSLASH, 0x74]
    else if c < 0x20 then [BACKSLASH, 0x75, 0x30, 0x30, HexDigit(c / 16), HexDigit(c % 16)]
    else [c]
  }

  function EscapedAll(s: bytes): bytes {
    if s == [] then [] else Escaped(s[0]) + EscapedAll(s[1..])
  }

  function Quoted(s: bytes): bytes {
    [QUOTE] + EscapedAll(s) + [QUOTE]
  }

  // ----- white space -----

  function Spaces(n: nat): bytes {
    seq(n, _ => SPACE)
  }

  /** A line break before nesting depth `d`; indentation 0 means none. */
  function Break(indent: nat, d: nat): bytes {
    if indent == 0 then [] else [NEWLINE] + Spaces(indent * d)
  }

  function AfterOpen(s: Style, indent: nat, d: nat): bytes {
    if s == Pretty then [] else Break(indent, d + 1)
  }

  function BeforeItem(s: Style, i: nat, indent: nat, d: nat): bytes {
    (if i > 0 then [COMMA] else []) + (if s == Batch && i == 0 then [] else Break(indent, d + 1))
  }

  function BeforeClose(s: Style, count: nat, indent: nat, d: nat): bytes {
    if s != Batch && count == 0 then [] else Break(indent, d)
  }

  // ----- values -----

  function Open(v: Json): byte {
    if v.Array? then 0x5B else 0x7B
  }

  function Close(v: Json): byte {
    if v.Array? then 0x5D else 0x7D
  }

  function Scalar(v: Json): bytes {
    match v
    case Bool(b) => if b then TRUE_TEXT else FALSE_TEXT
    case Number(token) => token
    case String(chars) => Quoted(chars)
    case _ => NULL_TEXT
  }

  function KeyText(k: bytes, indent: nat): bytes {
    Quoted(k) + [COLON] + (if indent == 0 then [] else [SPACE])
  }

  /** What precedes the value of entry `i` of container `v`. */
  function Lead(s: Style, v: Json, i: nat, indent: nat, d: nat): bytes {
    BeforeItem(s, i, indent, d) + (if v.Object? then KeyText(KeyAt(v, i), indent) else [])
  }

  /** What ends container `v`, which stands at depth `d`. */
  function End(s: Style, v: Json, indent: nat, d: nat): bytes
    requires Container(v)
  {
    BeforeClose(s, |v.items|, indent, d) + [Close(v)]
  }

  function Text(s: Style, v: Json, indent: nat, d: nat): bytes
    decreases v, 1, 0
  {
    if Container(v) then [Open(v)] + AfterOpen(s, indent, d) + Entries(s, v, 0, indent, d) + End(s, v, indent, d)
    else Scalar(v)
  }

  /** The text of the entries of `v` from index `i` on. */
  function Entries(s: Style, v: Json, i: nat, indent: nat, d: nat): bytes
    requires Container(v) && i <= |v.items|
    decreases v, 0, |v.items| - i
  {
    if i == |v.items| then []
    else Lead(s, v, i, indent, d) + Text(s, v.items[i], indent, d + 1) + Entries(s, v, i + 1, indent, d)
  }

  lemma EntriesParts(s: Style, v: Json, i: nat, indent: nat, d: nat)
    requires Container(v) && i < |v.items|
    ensures Entries(s, v, i, indent, d)
            == Lead(s, v, i, indent, d) + Text(s, v.items[i], indent, d + 1) + Entries(s, v, i + 1, indent, d)
  {
  }
}
