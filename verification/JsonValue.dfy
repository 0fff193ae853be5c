/**
 JSON values as the writers of `quickjs-json.c` see them: an immutable, acyclic tree.
 Strings, keys and number tokens are byte sequences, because every writer works on bytes.
 */
module JsonValue {
  import opened Sequences

  type byte = b: int | 0 <= b < 0x100
  type bytes = seq<byte>

  /** `Opaque` stands for undefined, symbols, functions, NaN and the infinities: every writer prints them as null.
      `Array` and `Object` share the field `items`, so that a traversal enumerates either one the same way. */
  datatype Json =
    | Null
    | Bool(b: bool)
    | Number(token: bytes)
    | String(chars: bytes)
    | Opaque
    | Array(items: seq<Json>)
    | Object(keys: seq<bytes>, items: seq<Json>)

  predicate Container(v: Json) {
    v.Array? || v.Object?
  }

  /** The key of entry `i`; objects in which some item has no key are excluded by `Shaped` where it matters. */
  function KeyAt(v: Json, i: nat): bytes {
    if v.Object? && i < |v.keys| then v.keys[i] else []
  }

  /** Every object in the tree has exactly one key for each item. */
  ghost predicate Shaped(v: Json) {
    && (v.Object? ==> |v.keys| == |v.items|)
    && (Container(v) ==> forall i :: 0 <= i < |v.items| ==> Shaped(v.items[i]))
  }

  /** Some container in the tree is empty. */
  predicate HasEmpty(v: Json)
    decreases v, 1, 0
  {
    Container(v) && (v.items == [] || HasEmptyFrom(v, 0))
  }

  /** Some item of `v` from index `i` on holds an empty container. */
  predicate HasEmptyFrom(v: Json, i: nat)
    requires Container(v)
    decreases v, 0, |v.items| - i
  {
    i < |v.items| && (HasEmpty(v.items[i]) || HasEmptyFrom(v, i + 1))
  }

  /** Some value in the tree has no JSON representation of its own. */
  predicate HasOpaque(v: Json) {
    v.Opaque? || (Container(v) && exists i :: 0 <= i < |v.items| && HasOpaque(v.items[i]))
  }

  // ----- number tokens: section 6 of RFC 8259 -----

  predicate Digit(c: byte) { 0x30 <= c <= 0x39 }

  /** The characters that can occur in a number: digits, plus, minus, point, e and E. */
  predicate NumberChar(c: byte) {
    Digit(c) || c == 0x2B || c == 0x2D || c == 0x2E || c == 0x65 || c == 0x45
  }

  predicate Digits(s: bytes) {
    s != [] && forall i :: 0 <= i < |s| ==> Digit(s[i])
  }

  /** int = zero / ( digit1-9 *DIGIT ) */
  predicate IntPart(s: bytes) {
    Digits(s) && (s[0] == 0x30 ==> |s| == 1)
  }

  /** [ exp ], exp = e [ minus / plus ] 1*DIGIT */
  predicate ExpPart(s: bytes) {
    s == [] || (
      && (s[0] == 0x65 || s[0] == 0x45)
      && |s| > 1
      && Digits(if s[1] == 0x2B || s[1] == 0x2D then s[2..] else s[1..]))
  }

  /** [ frac ] [ exp ], frac = decimal-point 1*DIGIT */
  predicate FracExpPart(s: bytes) {
    if s != [] && s[0] == 0x2E then exists j :: 1 < j <= |s| && Digits(s[1..j]) && ExpPart(s[j..])
    else ExpPart(s)
  }

  predicate UnsignedNumber(s: bytes) {
    exists i :: 0 < i <= |s| && IntPart(s[..i]) && FracExpPart(s[i..])
  }

  /** number = [ minus ] int [ frac ] [ exp ] */
  predicate IsNumber(s: bytes) {
    s != [] && UnsignedNumber(if s[0] == 0x2D then s[1..] else s)
  }

  lemma ExpPartChars(s: bytes)
    requires ExpPart(s)
    ensures forall k :: 0 <= k < |s| ==> NumberChar(s[k])
  {
    if s != [] {
      var signed := s[1] == 0x2B || s[1] == 0x2D;
      var tail := if signed then s[2..] else s[1..];
      assert Digits(tail);
      assert s == (if signed then s[..2] else s[..1]) + tail;
    }
  }

  lemma FracExpPartChars(s: bytes)
    requires FracExpPart(s)
    ensures forall k :: 0 <= k < |s| ==> NumberChar(s[k])
  {
    if s != [] && s[0] == 0x2E {
      var j :| 1 < j <= |s| && Digits(s[1..j]) && ExpPart(s[j..]);
      ExpPartChars(s[j..]);
      hide ExpPart, FracExpPart;
      forall k | 0 <= k < |s| ensures NumberChar(s[k]) {
        assert s[k] == if k == 0 then 0x2E else if k < j then s[1..j][k - 1] else s[j..][k - j];
      }
    } else {
      ExpPartChars(s);
    }
  }

  lemma UnsignedNumberChars(s: bytes)
    requires UnsignedNumber(s)
    ensures forall k :: 0 <= k < |s| ==> NumberChar(s[k])
  {
    var i :| 0 < i <= |s| && IntPart(s[..i]) && FracExpPart(s[i..]);
    FracExpPartChars(s[i..]);
    assert forall k :: 0 <= k < i ==> NumberChar(s[..i][k]);
    hide NumberChar, FracExpPart, ExpPart, IntPart, Digits, UnsignedNumber;
    forall k | 0 <= k < |s| ensures NumberChar(s[k]) {
      assert s[k] == if k < i then s[..i][k] else s[i..][k - i];
    }
  }

  lemma NumberChars(s: bytes)
    requires IsNumber(s)
    ensures forall k :: 0 <= k < |s| ==> NumberChar(s[k])
  {
    UnsignedNumberChars(if s[0] == 0x2D then s[1..] else s);
    assert s[0] == 0x2D ==> s == [0x2D] + s[1..];
  }

  /** Every number token in the tree is a number of section 6 of RFC 8259. */
  ghost predicate NumbersOk(v: Json) {
    && (v.Number? ==> IsNumber(v.token))
    && (Container(v) ==> forall i :: 0 <= i < |v.items| ==> NumbersOk(v.items[i]))
  }

  /**
   What write_json_primitive writes for a value that is not to be listed: an object or array is replaced by the
   string that its toString gives, or by null if that throws.
   */
  function Primitive(v: Json, asString: Option<bytes>): (r: Json)
    ensures !Container(r) && (!Container(v) ==> r == v)
  {
    if !Container(v) then v else if asString.Some? then String(asString.value) else Opaque
  }

  /** What a writer preserves of a value: values without a representation become null. */
  function Plain(v: Json): (r: Json)
    ensures v.Array? ==> r.Array? && |r.items| == |v.items|
    ensures v.Object? ==> r.Object? && r.keys == v.keys && |r.items| == |v.items|
    ensures Container(v) ==> forall i :: 0 <= i < |v.items| ==> r.items[i] == Plain(v.items[i])
    ensures !Container(v) ==> r == (if v.Opaque? then Null else v)
  {
    match v
    case Opaque => Null
    case Array(items) => Array(seq(|items|, i requires 0 <= i < |items| => Plain(items[i])))
    case Object(keys, items) => Object(keys, seq(|items|, i requires 0 <= i < |items| => Plain(items[i])))
    case _ => v
  }

  lemma {:induction false} PlainIsIdentity(v: Json)
    ensures Plain(v) == v <==> !HasOpaque(v)
  {
    if Container(v) {
      forall i | 0 <= i < |v.items| ensures Plain(v.items[i]) == v.items[i] <==> !HasOpaque(v.items[i]) {
        PlainIsIdentity(v.items[i]);
      }
      if !HasOpaque(v) {
        assert Plain(v).items == v.items;
      } else {
        var i :| 0 <= i < |v.items| && HasOpaque(v.items[i]);
        assert Plain(v).items[i] != v.items[i];
      }
    }
  }
}
