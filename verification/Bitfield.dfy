/** js_misc_bitfield: sets of numbers and arrays of booleans packed into bytes, eight bits to a byte. */
module Bitfield {
  import opened Sequences

  type byte = bv8

  function Mask(k: nat): byte
    requires k < 8
  {
    1 << k
  }

  /** Bit i of a buffer, the low bit of each byte first. */
  predicate Bit(buf: seq<byte>, i: nat)
    requires i < 8 * |buf|
  {
    buf[i / 8] & Mask(i % 8) != 0
  }

  lemma OrSetsBit(b: byte, k: nat, j: nat)
    requires k < 8 && j < 8
    ensures (b | Mask(k)) & Mask(j) != 0 <==> k == j || b & Mask(j) != 0
  {
    MaskValue(k);
    MaskValue(j);
  }

  lemma MaskValue(k: nat)
    requires k < 8
    ensures Mask(k) == [1, 2, 4, 8, 16, 32, 64, 128][k]
  {
  }

  /** `buf` with bit k set. */
  function WithBit(buf: seq<byte>, k: nat): seq<byte>
    requires k < 8 * |buf|
  {
    buf[k / 8 := buf[k / 8] | Mask(k % 8)]
  }

  lemma WithBitSets(buf: seq<byte>, k: nat, i: nat)
    requires k < 8 * |buf| && i < 8 * |buf|
    ensures Bit(WithBit(buf, k), i) <==> i == k || Bit(buf, i)
  {
    OrSetsBit(buf[k / 8], k % 8, i % 8);
  }

  lemma NoBits(buf: seq<byte>, i: nat)
    requires (forall j :: 0 <= j < |buf| ==> buf[j] == 0) && i < 8 * |buf|
    ensures !Bit(buf, i)
  {
  }

  // ----- numbers -----

  ghost predicate Increasing(s: seq<int>) {
    forall i, j :: 0 <= i < j < |s| ==> s[i] < s[j]
  }

  /** BITFIELD_SET: the positions of the bits that are set, plus the offset. */
  method ToNumbers(buf: array<byte>, offset: int) returns (numbers: seq<int>)
    ensures Increasing(numbers)
    ensures forall n :: n in numbers <==> 0 <= n - offset < 8 * buf.Length && Bit(buf[..], n - offset)
  {
    numbers := [];
    for i := 0 to 8 * buf.Length
      invariant Increasing(numbers) && forall k :: 0 <= k < |numbers| ==> numbers[k] < i + offset
      invariant forall n :: n in numbers <==> 0 <= n - offset < i && Bit(buf[..], n - offset)
    {
      if buf[i / 8] & Mask(i % 8) != 0 {
        numbers := numbers + [i + offset];
      }
    }
  }

  const UINT32: int := 0x1_0000_0000

  /** The bit that stands for a number: both are taken to 32 bits, and so is the difference. */
  function Position(n: int, offset: int): (i: nat)
    ensures i < UINT32
  {
    (n - offset) % UINT32
  }

  function Greatest(numbers: seq<int>): (max: int)
    ensures -1 <= max < UINT32
    ensures forall n :: n in numbers ==> n % UINT32 <= max
    ensures if numbers == [] then max == -1 else exists n :: n in numbers && n % UINT32 == max
  {
    if numbers == [] then -1
    else
      var init, last := numbers[..|numbers| - 1], numbers[|numbers| - 1];
      var rest := Greatest(init);
      assert numbers == init + [last] && last in numbers && forall n :: n in init ==> n in numbers;
      if rest < last % UINT32 then last % UINT32 else rest
  }

  /** The size that fromArray reserves: enough for the greatest number itself, whatever the offset. */
  function Reserved(numbers: seq<int>): (bytes: nat)
    ensures 8 * bytes <= UINT32
  {
    (Greatest(numbers) + 1 + 7) / 8
  }

  /** Every bit to be set lies in the bytes reserved. */
  predicate Inside(numbers: seq<int>, offset: int) {
    forall n :: n in numbers ==> Position(n, offset) < 8 * Reserved(numbers)
  }

  method BufferSize(numbers: seq<int>) returns (bufsize: nat)
    ensures bufsize == Reserved(numbers)
  {
    var max: int := -1;
    for i := 0 to |numbers|
      invariant max == Greatest(numbers[..i])
    {
      assert numbers[..i + 1][..i] == numbers[..i];
      if max < numbers[i] % UINT32 {
        max := numbers[i] % UINT32;
      }
    }
    assert numbers[..|numbers|] == numbers;
    bufsize := (max + 1 + 7) / 8;
  }

  /** `i` is the position of one of the numbers. */
  ghost predicate Stands(i: nat, numbers: seq<int>, offset: int) {
    exists n :: n in numbers && Position(n, offset) == i
  }

  /**
   BITFIELD_FROMARRAY on numbers. `inside` says that every write is to a byte that was reserved; of a run in which one
   is not, nothing more is said.
   */
  method FromNumbers(numbers: seq<int>, offset: int) returns (buf: array<byte>, inside: bool)
    ensures buf.Length == Reserved(numbers)
    ensures inside <==> Inside(numbers, offset)
    ensures inside ==> forall i: nat :: i < 8 * buf.Length ==> (Bit(buf[..], i) <==> Stands(i, numbers, offset))
  {
    hide Bit, Position, Reserved, Stands;
    var bufsize := BufferSize(numbers);
    buf := new byte[bufsize](_ => 0);
    forall i: nat | i < 8 * bufsize ensures !Bit(buf[..], i) && !Stands(i, numbers[..0], offset) {
      NoBits(buf[..], i);
      StandsNowhere(i, offset);
    }
    for j := 0 to |numbers|
      invariant forall i: nat :: i < 8 * bufsize ==> (Bit(buf[..], i) <==> Stands(i, numbers[..j], offset))
      invariant forall n :: n in numbers[..j] ==> Position(n, offset) < 8 * bufsize
    {
      assert numbers[j] in numbers && numbers[..j + 1] == numbers[..j] + [numbers[j]];
      ghost var before := buf[..];
      var number := Position(numbers[j], offset);
      if number >= 8 * bufsize {
        return buf, false;
      }
      buf[number / 8] := buf[number / 8] | Mask(number % 8);
      assert buf[..] == WithBit(before, number);
      forall i: nat | i < 8 * bufsize ensures Bit(buf[..], i) <==> Stands(i, numbers[..j + 1], offset) {
        WithBitSets(before, number, i);
        StandsOneMore(i, numbers, j, offset);
      }
    }
    assert numbers[..|numbers|] == numbers;
    inside := true;
  }

  lemma StandsNowhere(i: nat, offset: int)
    ensures !Stands(i, [], offset)
  {
  }

  lemma StandsOneMore(i: nat, numbers: seq<int>, j: nat, offset: int)
    requires j < |numbers|
    ensures Stands(i, numbers[..j + 1], offset)
        <==> Stands(i, numbers[..j], offset) || i == Position(numbers[j], offset)
  {
    hide Position;
    assert numbers[..j + 1] == numbers[..j] + [numbers[j]];
    if Stands(i, numbers[..j], offset) {
      var n :| n in numbers[..j] && Position(n, offset) == i;
      assert n in numbers[..j + 1];
    }
    assert numbers[j] in numbers[..j + 1];
  }

  /** Numbers that are not below a nonnegative offset always fit. */
  lemma OrdinaryOffsetIsInside(numbers: seq<int>, offset: int)
    requires 0 <= offset && forall n :: n in numbers ==> offset <= n < UINT32
    ensures Inside(numbers, offset)
  {
    forall n | n in numbers ensures Position(n, offset) < 8 * Reserved(numbers) {
      assert n % UINT32 == n <= Greatest(numbers);
      InRange(n - offset);
      hide Greatest;
    }
  }

  /** With a negative offset a write may miss the reserved bytes: [7] reserves one byte, and -1 asks for bit 8. */
  lemma NegativeOffsetCanBeOutside()
    ensures !Inside([7], -1) && Inside([0], -1)
  {
    assert 7 in [7] && Position(7, -1) == 8 && Position(0, -1) == 1;
    assert Greatest([7]) == 7 && Greatest([0]) == 0;
  }

  lemma LastIsGreatest(s: seq<int>)
    requires Increasing(s) && s != []
    ensures var last, init := s[|s| - 1], s[..|s| - 1];
            && s == init + [last] && Increasing(init)
            && last in Elements(s) && Elements(init) == Elements(s) - {last}
            && forall n :: n in Elements(s) ==> n <= last
  {
    var last, init := s[|s| - 1], s[..|s| - 1];
    assert s == init + [last];
    forall n | n in Elements(init) ensures n != last {
      var i :| 0 <= i < |init| && init[i] == n;
      assert s[i] < last;
    }
  }

  /** Increasing sequences are determined by their elements. */
  lemma {:induction false} IncreasingIsUnique(s: seq<int>, t: seq<int>)
    requires Increasing(s) && Increasing(t) && Elements(s) == Elements(t)
    ensures s == t
  {
    assert t != [] ==> t[0] in Elements(t);
    assert s != [] ==> s[0] in Elements(s);
    if s != [] {
      LastIsGreatest(s);
      LastIsGreatest(t);
      hide Elements, Increasing;
      IncreasingIsUnique(s[..|s| - 1], t[..|t| - 1]);
    }
  }

  /**
   Numbers written to a buffer are read back, each once and in order, exactly if no difference to the offset wraps
   around on 32 bits.
   */
  method NumbersRoundTrip(numbers: seq<int>, offset: int) returns (back: seq<int>, inside: bool)
    ensures inside <==> Inside(numbers, offset)
    ensures inside ==> Increasing(back)
    ensures inside ==>
              (Elements(back) == Elements(numbers) <==> forall n :: n in numbers ==> 0 <= n - offset < 0x1_0000_0000)
    ensures inside && Increasing(numbers) ==>
              (back == numbers <==> forall n :: n in numbers ==> 0 <= n - offset < 0x1_0000_0000)
  {
    hide Bit, Stands, Reserved, Inside;
    var buf;
    buf, inside := FromNumbers(numbers, offset);
    back := ToNumbers(buf, offset);
    if inside {
      assert forall m :: m in back ==> Stands(m - offset, numbers, offset);
      forall m | 0 <= m - offset < 8 * buf.Length && Stands(m - offset, numbers, offset) ensures m in back {
        assert Bit(buf[..], m - offset);
      }
      ReadBack(back, numbers, offset, buf.Length);
      if Elements(back) == Elements(numbers) && Increasing(numbers) {
        IncreasingIsUnique(back, numbers);
      }
    }
  }

  lemma InRange(i: int)
    requires 0 <= i < UINT32
    ensures i % UINT32 == i
  {
  }

  lemma ReadBack(back: seq<int>, numbers: seq<int>, offset: int, bytes: nat)
    requires Inside(numbers, offset) && bytes == Reserved(numbers)
    requires forall m :: m in back <==> 0 <= m - offset < 8 * bytes && Stands(m - offset, numbers, offset)
    ensures Elements(back) == Elements(numbers) <==> forall n :: n in numbers ==> 0 <= n - offset < UINT32
  {
    hide Reserved, Greatest, Position;
    if Elements(back) == Elements(numbers) {
      forall n | n in numbers ensures 0 <= n - offset < UINT32 {
        assert n in Elements(numbers) && n in back;
      }
    }
    if forall n :: n in numbers ==> 0 <= n - offset < UINT32 {
      forall n | n in numbers ensures n in back {
        InPlace(n, offset);
        assert Stands(n - offset, numbers, offset);
      }
      forall m | m in back ensures m in numbers {
        var n :| n in numbers && Position(n, offset) == m - offset;
        InPlace(n, offset);
      }
    }
  }

  lemma InPlace(n: int, offset: int)
    requires 0 <= n - offset < UINT32
    ensures Position(n, offset) == n - offset
  {
    InRange(n - offset);
  }

  // ----- booleans -----

  /** BITFIELD_FROMARRAY on booleans, and BITFIELD_BITS on an array. */
  method FromBools(bools: seq<bool>) returns (buf: array<byte>)
    ensures buf.Length == (|bools| + 7) / 8
    ensures forall i: nat :: i < 8 * buf.Length ==> (Bit(buf[..], i) <==> i < |bools| && bools[i])
  {
    hide Bit;
    var bufsize := (|bools| + 7) / 8;
    buf := new byte[bufsize](_ => 0);
    forall i: nat | i < 8 * bufsize ensures !Bit(buf[..], i) {
      NoBits(buf[..], i);
    }
    for j := 0 to |bools|
      invariant forall i: nat :: i < 8 * bufsize ==> (Bit(buf[..], i) <==> i < j && bools[i])
    {
      ghost var before := buf[..];
      if bools[j] {
        buf[j / 8] := buf[j / 8] | Mask(j % 8);
        assert buf[..] == WithBit(before, j);
        forall i: nat | i < 8 * bufsize ensures Bit(buf[..], i) <==> i < j + 1 && bools[i] {
          WithBitSets(before, j, i);
        }
      }
    }
  }

  /** BITFIELD_TOARRAY on a whole buffer. */
  method ToBools(buf: array<byte>) returns (bools: seq<bool>)
    ensures |bools| == 8 * buf.Length && forall i :: 0 <= i < |bools| ==> (bools[i] <==> Bit(buf[..], i))
  {
    bools := [];
    for i := 0 to 8 * buf.Length
      invariant |bools| == i && forall j :: 0 <= j < i ==> (bools[j] <==> Bit(buf[..], j))
    {
      bools := bools + [buf[i / 8] & Mask(i % 8) != 0];
    }
  }

  /** Booleans written to a buffer are read back, followed by false up to a whole byte. */
  method BoolsRoundTrip(bools: seq<bool>) returns (back: seq<bool>)
    ensures |bools| <= |back| < |bools| + 8 && |back| % 8 == 0
    ensures back[..|bools|] == bools && forall i :: |bools| <= i < |back| ==> !back[i]
  {
    hide Bit;
    var buf := FromBools(bools);
    back := ToBools(buf);
  }

  /** Equal bits are equal bytes. */
  lemma BitsDetermineByte(a: byte, b: byte)
    requires forall k: nat :: k < 8 ==> (a & Mask(k) != 0 <==> b & Mask(k) != 0)
    ensures a == b
  {
    hide Mask;
    forall k: nat | k < 8
      ensures a & [1, 2, 4, 8, 16, 32, 64, 128][k] != 0 <==> b & [1, 2, 4, 8, 16, 32, 64, 128][k] != 0
    {
      MaskValue(k);
    }
    SameBits(a, b);
  }

  lemma SameBits(a: byte, b: byte)
    requires forall k :: 0 <= k < 8 ==>
               (a & [1, 2, 4, 8, 16, 32, 64, 128][k] != 0 <==> b & [1, 2, 4, 8, 16, 32, 64, 128][k] != 0)
    ensures a == b
  {
    var masks := [1 as byte, 2, 4, 8, 16, 32, 64, 128];
    assert masks[0] == 1 && masks[1] == 2 && masks[2] == 4 && masks[3] == 8;
    assert masks[4] == 16 && masks[5] == 32 && masks[6] == 64 && masks[7] == 128;
  }

  lemma BitsDetermineBuffer(a: seq<byte>, b: seq<byte>)
    requires |a| == |b| && forall i: nat :: i < 8 * |a| ==> (Bit(a, i) <==> Bit(b, i))
    ensures a == b
  {
    forall j | 0 <= j < |a| ensures a[j] == b[j] {
      forall k: nat | k < 8 ensures a[j] & Mask(k) != 0 <==> b[j] & Mask(k) != 0 {
        assert (8 * j + k) / 8 == j && (8 * j + k) % 8 == k;
        assert Bit(a, 8 * j + k) <==> Bit(b, 8 * j + k);
      }
      BitsDetermineByte(a[j], b[j]);
    }
  }

  /** A buffer read as booleans and written again is the same buffer. */
  method BufferRoundTrip(buf: array<byte>) returns (back: array<byte>)
    ensures back[..] == buf[..]
  {
    hide Bit;
    var bools := ToBools(buf);
    back := FromBools(bools);
    BitsDetermineBuffer(back[..], buf[..]);
  }
}
