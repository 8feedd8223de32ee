/** The radix-64 encoder that turns digest bytes into alphabet text.

    The accumulator is a non-negative integer, as in the program. Every byte
    is or-ed in above the bits already set, so each `|` is written as the sum
    it equals; `x << k` is `x * 2^k`, `x >> k` is `x / 2^k` and `x & 0x3f` is
    `x % 0x40`. BitwiseAgrees checks these readings against bit-vector
    arithmetic. */
module Radix {
  import opened Alphabet

  /** A byte of the input, as the program reads it: an integer below 256. */
  type byte = b: int | 0 <= b < 0x100

  /** The accumulator of the group that starts at index start: the byte there,
      or-ed with the next byte shifted by 8 and the one after shifted by 16,
      as far as those bytes lie before count. */
  function Pack(input: seq<byte>, start: nat, count: nat): (v: nat)
    requires start < count <= |input|
    ensures v < 0x100_0000
  {
    var v0: nat := input[start];
    var v1 := if start + 1 < count then v0 + (input[start + 1] as int) * 0x100 else v0;
    if start + 2 < count then v1 + (input[start + 2] as int) * 0x1_0000 else v1
  }

  /** The symbol of the low six bits of an accumulator, ITOA64[v & 0x3f]
      (SymbolIsTableEntry), computed by the alphabet's range rule. */
  function Symbol(v: nat): char
  {
    SymbolAt(v % 0x40)
  }

  /** The first n symbols of an accumulator, lowest six-bit field first. */
  function Symbols(v: nat, n: nat): (s: string)
    requires n <= 4
    ensures |s| == n
  {
    [Symbol(v), Symbol(v / 0x40), Symbol(v / 0x1000), Symbol(v / 0x4_0000)][..n]
  }

  /** How many symbols the encoder emits for a final group of n bytes: it stops
      as soon as the index has reached count, so a final group of two bytes
      gives two symbols and a final group of three gives three. */
  function FinalWidth(n: nat): nat
    requires 1 <= n <= 3
  {
    if n == 3 then 3 else 2
  }

  /** The encoding the program computes for the bytes from start to count,
      group by group: a group of three bytes followed by more input gives four
      symbols, the final group gives FinalWidth of its size. */
  function GroupsFrom(input: seq<byte>, start: nat, count: nat): string
    requires start <= count <= |input|
    decreases count - start
  {
    if start == count then []
    else if count - start <= 3 then Symbols(Pack(input, start, count), FinalWidth(count - start))
    else Symbols(Pack(input, start, count), 4) + GroupsFrom(input, start + 3, count)
  }

  /** The encoding of the first count bytes of the input. */
  function Encoding(input: seq<byte>, count: nat): string
    requires count <= |input|
  {
    GroupsFrom(input, 0, count)
  }

  /** The length of the encoding of n bytes, n = 3q + r. */
  function EncodedLength(n: nat): nat
  {
    if n == 0 then 0
    else if n % 3 == 0 then 4 * (n / 3) - 1
    else 4 * (n / 3) + 2
  }

  /** Adding a multiple of 0x40 leaves the low six bits alone and moves
      the higher bits up by that multiple. */
  lemma AboveLowField(x: nat, k: nat)
    ensures (x + 0x40 * k) % 0x40 == x % 0x40
    ensures (x + 0x40 * k) / 0x40 == x / 0x40 + k
  {
  }

  /** Adding a byte above bit 8 leaves the low six bits alone. */
  lemma LowFieldKept(v0: nat, b: byte)
    ensures (v0 + b * 0x100) % 0x40 == v0 % 0x40
  {
    AboveLowField(v0, 4 * b);
  }

  /** Adding a byte above bit 16 leaves bits 6 to 11 alone. */
  lemma SecondFieldKept(v1: nat, b: byte)
    ensures ((v1 + b * 0x1_0000) / 0x40) % 0x40 == (v1 / 0x40) % 0x40
  {
    AboveLowField(v1, 0x400 * b);
    AboveLowField(v1 / 0x40, 0x10 * b);
  }

  /** The encoder's symbols for a final group of one byte. */
  lemma FinalOneByte(input: seq<byte>, start: nat, count: nat, v0: nat)
    requires start + 1 == count <= |input|
    requires v0 == input[start]
    ensures GroupsFrom(input, start, count) == [Symbol(v0), Symbol(v0 / 0x40)]
  {
    assert Pack(input, start, count) == v0;
  }

  /** The encoder's symbols for a final group of two bytes. */
  lemma FinalTwoBytes(input: seq<byte>, start: nat, count: nat, v0: nat, v1: nat)
    requires start + 2 == count <= |input|
    requires v0 == input[start]
    requires v1 == v0 + (input[start + 1] as int) * 0x100
    ensures GroupsFrom(input, start, count) == [Symbol(v0), Symbol(v1 / 0x40)]
  {
    assert Pack(input, start, count) == v1;
    LowFieldKept(v0, input[start + 1]);
  }

  /** The four symbols of a full group, as the encoder computes them from
      its growing accumulator. */
  lemma GroupSymbols(v0: nat, b1: byte, b2: byte)
    ensures var v1 := v0 + b1 * 0x100;
            var v2 := v1 + b2 * 0x1_0000;
            Symbols(v2, 4) == [Symbol(v0), Symbol(v1 / 0x40), Symbol(v2 / 0x1000), Symbol(v2 / 0x4_0000)]
  {
    var v1 := v0 + b1 * 0x100;
    var v2 := v1 + b2 * 0x1_0000;
    LowFieldKept(v0, b1);
    LowFieldKept(v1, b2);
    SecondFieldKept(v1, b2);
    SameLowField(v2, v0);
    SameLowField(v2 / 0x40, v1 / 0x40);
  }

  /** Values with the same low six bits have the same symbol. */
  lemma SameLowField(x: nat, y: nat)
    requires x % 0x40 == y % 0x40
    ensures Symbol(x) == Symbol(y)
  {
  }

  /** The encoder's symbols for a final group of three bytes. */
  lemma LastFullGroup(input: seq<byte>, start: nat, count: nat, v0: nat, v1: nat, v2: nat)
    requires start + 3 == count <= |input|
    requires v0 == input[start]
    requires v1 == v0 + (input[start + 1] as int) * 0x100
    requires v2 == v1 + (input[start + 2] as int) * 0x1_0000
    ensures GroupsFrom(input, start, count) == [Symbol(v0), Symbol(v1 / 0x40), Symbol(v2 / 0x1000)]
  {
    assert Pack(input, start, count) == v2;
    GroupSymbols(v0, input[start + 1], input[start + 2]);
  }

  /** The encoder's symbols for a group of three bytes followed by more input. */
  lemma FullGroup(input: seq<byte>, start: nat, count: nat, v0: nat, v1: nat, v2: nat)
    requires start + 3 < count <= |input|
    requires v0 == input[start]
    requires v1 == v0 + (input[start + 1] as int) * 0x100
    requires v2 == v1 + (input[start + 2] as int) * 0x1_0000
    ensures GroupsFrom(input, start, count)
         == [Symbol(v0), Symbol(v1 / 0x40), Symbol(v2 / 0x1000), Symbol(v2 / 0x4_0000)]
            + GroupsFrom(input, start + 3, count)
  {
    assert Pack(input, start, count) == v2;
    GroupSymbols(v0, input[start + 1], input[start + 2]);
  }

  /** The encoder's two appends for a final group of one or two bytes
      complete the encoding. */
  lemma FinalPairStep(input: seq<byte>, count: nat, start: nat, before: string, v0: nat, v1: nat)
    requires start < count <= |input| && count - start <= 2
    requires before + GroupsFrom(input, start, count) == Encoding(input, count)
    requires v0 == input[start]
    requires v1 == if start + 1 < count then v0 + (input[start + 1] as int) * 0x100 else v0
    ensures before + [Symbol(v0)] + [Symbol(v1 / 0x40)] == Encoding(input, count)
  {
    if start + 1 < count {
      FinalTwoBytes(input, start, count, v0, v1);
    } else {
      FinalOneByte(input, start, count, v0);
    }
    assert before + [Symbol(v0)] + [Symbol(v1 / 0x40)] == before + [Symbol(v0), Symbol(v1 / 0x40)];
  }

  /** The encoder's three appends for a final group of three bytes complete
      the encoding. */
  lemma LastFullStep(input: seq<byte>, count: nat, start: nat, before: string, v0: nat, v1: nat, v2: nat)
    requires start + 3 == count <= |input|
    requires before + GroupsFrom(input, start, count) == Encoding(input, count)
    requires v0 == input[start]
    requires v1 == v0 + (input[start + 1] as int) * 0x100
    requires v2 == v1 + (input[start + 2] as int) * 0x1_0000
    ensures before + [Symbol(v0)] + [Symbol(v1 / 0x40)] + [Symbol(v2 / 0x1000)] == Encoding(input, count)
  {
    LastFullGroup(input, start, count, v0, v1, v2);
    assert before + [Symbol(v0)] + [Symbol(v1 / 0x40)] + [Symbol(v2 / 0x1000)]
        == before + [Symbol(v0), Symbol(v1 / 0x40), Symbol(v2 / 0x1000)];
  }

  /** The encoder's four appends for a group of three bytes followed by more
      input leave the encoding of the bytes after the group still to come. */
  lemma FullStep(input: seq<byte>, count: nat, start: nat, before: string, v0: nat, v1: nat, v2: nat)
    requires start + 3 < count <= |input|
    requires before + GroupsFrom(input, start, count) == Encoding(input, count)
    requires v0 == input[start]
    requires v1 == v0 + (input[start + 1] as int) * 0x100
    requires v2 == v1 + (input[start + 2] as int) * 0x1_0000
    ensures before + [Symbol(v0)] + [Symbol(v1 / 0x40)] + [Symbol(v2 / 0x1000)] + [Symbol(v2 / 0x4_0000)]
              + GroupsFrom(input, start + 3, count)
         == Encoding(input, count)
  {
    FullGroup(input, start, count, v0, v1, v2);
    var group := [Symbol(v0), Symbol(v1 / 0x40), Symbol(v2 / 0x1000), Symbol(v2 / 0x4_0000)];
    var rest := GroupsFrom(input, start + 3, count);
    assert before + [Symbol(v0)] + [Symbol(v1 / 0x40)] + [Symbol(v2 / 0x1000)] + [Symbol(v2 / 0x4_0000)] + rest
        == before + (group + rest);
  }

  /** The encoder loop: one pass per group, appending one symbol at a time and
      leaving the loop as soon as the index has reached count. */
  method Encode64(input: seq<byte>, count: nat) returns (s: string)
    requires count <= |input|
    ensures s == Encoding(input, count)
  {
    var output: seq<char> := [];
    var i := 0;
    while i < count
      invariant 0 <= i <= count
      invariant output + GroupsFrom(input, i, count) == Encoding(input, count)
    {
      ghost var before, start := output, i;

      var value: nat := input[i];
      ghost var v0 := value;
      i := i + 1;
      output := output + [Symbol(value)];

      if i < count {
        value := value + (input[i] as int) * 0x100;
        i := i + 1;
      }
      ghost var v1 := value;
      output := output + [Symbol(value / 0x40)];

      if i >= count {
        FinalPairStep(input, count, start, before, v0, v1);
        break;
      }

      if i < count {
        value := value + (input[i] as int) * 0x1_0000;
        i := i + 1;
      }
      ghost var v2 := value;
      output := output + [Symbol(value / 0x1000)];

      if i >= count {
        LastFullStep(input, count, start, before, v0, v1, v2);
        break;
      }

      output := output + [Symbol(value / 0x4_0000)];
      FullStep(input, count, start, before, v0, v1, v2);
    }
    s := output;
  }

  /** The encoding of the bytes from start to count has EncodedLength of
      their number: four symbols per group of three followed by more input,
      then two for a final group of one or two bytes and three for a final
      group of three. */
  lemma {:induction false} GroupsLength(input: seq<byte>, start: nat, count: nat)
    requires start <= count <= |input|
    ensures |GroupsFrom(input, start, count)| == EncodedLength(count - start)
    decreases count - start
  {
    if count - start > 3 {
      GroupsLength(input, start + 3, count);
      assert EncodedLength(count - start) == 4 + EncodedLength(count - start - 3);
    }
  }

  /** The encoding of count bytes has EncodedLength(count) symbols. */
  lemma EncodingLength(input: seq<byte>, count: nat)
    requires count <= |input|
    ensures |Encoding(input, count)| == EncodedLength(count)
  {
    GroupsLength(input, 0, count);
  }

  /** A 16-byte digest encodes to exactly 22 symbols, so taking the first 22
      drops nothing. */
  lemma DigestEncodingLength(digest: seq<byte>)
    requires |digest| == 16
    ensures |Encoding(digest, 16)| == 22
    ensures Encoding(digest, 16)[..22] == Encoding(digest, 16)
  {
    EncodingLength(digest, 16);
  }

  /** Each emitted symbol is the table entry at the accumulator masked to six
      bits, an index in [0, 63]. */
  lemma SymbolIsTableEntry(v: nat)
    ensures 0 <= v % 0x40 < 64
    ensures Symbol(v) == ITOA64[v % 0x40]
    ensures Symbol(v) in ITOA64
  {
  }

  /** Every symbol of the encoding of the bytes from start to count is in the
      alphabet. */
  lemma {:induction false} GroupsOverAlphabet(input: seq<byte>, start: nat, count: nat)
    requires start <= count <= |input|
    ensures OverAlphabet(GroupsFrom(input, start, count))
    decreases count - start
  {
    if start < count {
      var v := Pack(input, start, count);
      SymbolIsTableEntry(v);
      SymbolIsTableEntry(v / 0x40);
      SymbolIsTableEntry(v / 0x1000);
      SymbolIsTableEntry(v / 0x4_0000);
      if count - start > 3 {
        GroupsOverAlphabet(input, start + 3, count);
        var head, tail := Symbols(v, 4), GroupsFrom(input, start + 3, count);
        forall c | c in head + tail
          ensures c in ITOA64
        {
          if c in head {
          } else {
            assert c in tail;
          }
        }
      }
    }
  }

  /** Every symbol of the encoding is in the alphabet. */
  lemma EncodingOverAlphabet(input: seq<byte>, count: nat)
    requires count <= |input|
    ensures OverAlphabet(Encoding(input, count))
  {
    GroupsOverAlphabet(input, 0, count);
  }

  /** Dropping the symbols of g groups of three bytes, each followed by more
      input, leaves the encoding of the bytes from mid = start + 3g on. */
  lemma {:induction false} GroupsDrop(input: seq<byte>, start: nat, count: nat, g: nat, mid: nat)
    requires mid == start + 3 * g && mid < count <= |input|
    ensures |GroupsFrom(input, start, count)| >= 4 * g
    ensures GroupsFrom(input, start, count)[4 * g..] == GroupsFrom(input, mid, count)
    decreases g
  {
    if g > 0 {
      var head, tail := Symbols(Pack(input, start, count), 4), GroupsFrom(input, start + 3, count);
      GroupsDrop(input, start + 3, count, g - 1, mid);
      GroupsSplit(input, start, count);
      DropPastHead(head, tail, 4 * g);
    }
  }

  /** A group of three bytes followed by more input contributes four symbols. */
  lemma GroupsSplit(input: seq<byte>, start: nat, count: nat)
    requires start + 3 < count <= |input|
    ensures GroupsFrom(input, start, count)
         == Symbols(Pack(input, start, count), 4) + GroupsFrom(input, start + 3, count)
  {
  }

  /** Dropping k >= |head| elements of head + tail drops k - |head| of tail. */
  lemma DropPastHead(head: string, tail: string, k: nat)
    requires |head| <= k <= |head| + |tail|
    ensures (head + tail)[k..] == tail[k - |head|..]
  {
  }

  /** Group g of three bytes that is followed by more input encodes, at
      positions 4g to 4g+3, to ITOA64 at the four six-bit fields of
      v = b0 | b1 << 8 | b2 << 16, lowest field first. */
  lemma FullGroupLayout(input: seq<byte>, count: nat, g: nat)
    requires 3 * g + 3 < count <= |input|
    ensures var v := input[3 * g] as int + (input[3 * g + 1] as int) * 0x100 + (input[3 * g + 2] as int) * 0x1_0000;
            |Encoding(input, count)| >= 4 * g + 4 &&
            Encoding(input, count)[4 * g..4 * g + 4]
              == [ITOA64[v % 0x40], ITOA64[(v / 0x40) % 0x40],
                  ITOA64[(v / 0x1000) % 0x40], ITOA64[(v / 0x4_0000) % 0x40]]
  {
    var mid := 3 * g;
    var v := Pack(input, mid, count);
    assert v == input[3 * g] as int + (input[3 * g + 1] as int) * 0x100 + (input[3 * g + 2] as int) * 0x1_0000;
    var e := Encoding(input, count);
    GroupsDrop(input, 0, count, g, mid);
    GroupsSplit(input, mid, count);
    var head := Symbols(v, 4);
    assert e[4 * g..] == head + GroupsFrom(input, mid + 3, count);
    assert e[4 * g..4 * g + 4] == (head + GroupsFrom(input, mid + 3, count))[..4] == head;
    FieldSymbols(v);
  }

  /** The four symbols of an accumulator are the table entries at its four
      six-bit fields. */
  lemma FieldSymbols(v: nat)
    ensures Symbols(v, 4) == [ITOA64[v % 0x40], ITOA64[(v / 0x40) % 0x40],
                              ITOA64[(v / 0x1000) % 0x40], ITOA64[(v / 0x4_0000) % 0x40]]
  {
    SymbolIsTableEntry(v);
    SymbolIsTableEntry(v / 0x40);
    SymbolIsTableEntry(v / 0x1000);
    SymbolIsTableEntry(v / 0x4_0000);
  }

  /** The final group, bytes 3q to count - 1 with 1 <= count - 3q <= 3,
      encodes to the last symbols: the two lowest six-bit fields of its
      accumulator for one or two bytes, the three lowest for three. */
  lemma FinalGroupLayout(input: seq<byte>, count: nat, q: nat)
    requires 3 * q < count <= 3 * q + 3 && count <= |input|
    ensures var v := Pack(input, 3 * q, count);
            |Encoding(input, count)| >= 4 * q &&
            Encoding(input, count)[4 * q..]
              == (if count - 3 * q == 3
                  then [ITOA64[v % 0x40], ITOA64[(v / 0x40) % 0x40], ITOA64[(v / 0x1000) % 0x40]]
                  else [ITOA64[v % 0x40], ITOA64[(v / 0x40) % 0x40]])
  {
    GroupsDrop(input, 0, count, q, 3 * q);
  }

  /** In 32-bit arithmetic the program's bitwise steps are the integer steps
      the model takes: a byte or-ed in above the bits already set, by a
      shift of 8 or of 16, is added; right shifts by 6, 12 and 18 divide by
      0x40, 0x1000 and 0x4_0000; and masking with 0x3f keeps the
      remainder. */
  lemma BitwiseAgrees(x: bv32, y: bv32, b: bv32, v: bv32)
    requires x < 0x100 && y < 0x1_0000 && b < 0x100
    ensures x | (b << 8) == x + b * 0x100
    ensures y | (b << 16) == y + b * 0x1_0000
    ensures v >> 6 == v / 0x40 && v >> 12 == v / 0x1000 && v >> 18 == v / 0x4_0000
    ensures v & 0x3f == v % 0x40
  {
  }

  /** The symbol of a value fixes the value's low six bits. */
  lemma SymbolDetermines(x: nat, y: nat)
    requires Symbol(x) == Symbol(y)
    ensures x % 0x40 == y % 0x40
  {
    SymbolIsTableEntry(x);
    SymbolIsTableEntry(y);
    AlphabetDistinct(x % 0x40, y % 0x40);
  }

  /** 0x40 to the power n: the number of values that n symbols tell apart. */
  function Span(n: nat): (p: nat)
    ensures p >= 1
  {
    if n == 0 then 1 else 0x40 * Span(n - 1)
  }

  /** Past the first symbol, the symbols of v are those of v / 0x40. */
  lemma SymbolsShift(v: nat, n: nat)
    requires 1 <= n <= 4
    ensures Symbols(v, n)[1..] == Symbols(v / 0x40, n - 1)
  {
    assert v / 0x40 / 0x40 == v / 0x1000;
    assert v / 0x40 / 0x1000 == v / 0x4_0000;
  }

  /** n symbols tell apart every two values below Span(n). */
  lemma {:induction false} SymbolsDetermine(v: nat, w: nat, n: nat)
    requires 1 <= n <= 4 && v < Span(n) && w < Span(n)
    requires Symbols(v, n) == Symbols(w, n)
    ensures v == w
  {
    assert Symbols(v, n)[0] == Symbol(v) && Symbols(w, n)[0] == Symbol(w);
    SymbolDetermines(v, w);
    if n > 1 {
      SymbolsShift(v, n);
      SymbolsShift(w, n);
      SymbolsDetermine(v / 0x40, w / 0x40, n - 1);
    }
  }

  /** The accumulator of a group of n bytes lies below 0x100 to the power n. */
  lemma PackBound(input: seq<byte>, start: nat, count: nat)
    requires start < count <= |input|
    ensures count - start == 1 ==> Pack(input, start, count) < 0x100
    ensures count - start == 2 ==> Pack(input, start, count) < 0x1_0000
  {
  }

  /** The accumulator fixes the bytes of its group. */
  lemma PackDetermines(a: seq<byte>, b: seq<byte>, start: nat, count: nat)
    requires start < count <= |a| && count <= |b|
    requires Pack(a, start, count) == Pack(b, start, count)
    ensures forall i :: start <= i < count && i < start + 3 ==> a[i] == b[i]
  {
    var v0: nat, w0: nat := a[start], b[start];
    var v1 := if start + 1 < count then v0 + (a[start + 1] as int) * 0x100 else v0;
    var w1 := if start + 1 < count then w0 + (b[start + 1] as int) * 0x100 else w0;
    if start + 2 < count {
      assert v1 < 0x1_0000 && w1 < 0x1_0000;
      assert a[start + 2] == Pack(a, start, count) / 0x1_0000;
      assert b[start + 2] == Pack(b, start, count) / 0x1_0000;
      assert v1 == w1;
    }
    if start + 1 < count {
      assert v1 == w1;
      assert a[start + 1] == v1 / 0x100 && b[start + 1] == w1 / 0x100;
    }
  }

  /** The length of the encoding phpass gives n bytes: ceil(8n / 6), one
      symbol per six bits, the last one partly filled. */
  function ReferenceLength(n: nat): nat
  {
    (8 * n + 5) / 6
  }

  /** The encoding that phpass intends for the bytes from start to count: a
      final group of n < 3 bytes keeps n + 1 symbols, so that every bit of
      the input reaches the output. */
  function ReferenceGroupsFrom(input: seq<byte>, start: nat, count: nat): string
    requires start <= count <= |input|
    decreases count - start
  {
    if start == count then []
    else if count - start < 3 then Symbols(Pack(input, start, count), count - start + 1)
    else Symbols(Pack(input, start, count), 4) + ReferenceGroupsFrom(input, start + 3, count)
  }

  /** The intended encoding of the first count bytes. */
  function ReferenceEncoding(input: seq<byte>, count: nat): string
    requires count <= |input|
  {
    ReferenceGroupsFrom(input, 0, count)
  }

  /** The intended encoding of n bytes has ceil(8n / 6) symbols. */
  lemma {:induction false} ReferenceGroupsLength(input: seq<byte>, start: nat, count: nat)
    requires start <= count <= |input|
    ensures |ReferenceGroupsFrom(input, start, count)| == ReferenceLength(count - start)
    decreases count - start
  {
    if count - start >= 3 {
      ReferenceGroupsLength(input, start + 3, count);
      assert ReferenceLength(count - start) == 4 + ReferenceLength(count - start - 3);
    }
  }

  /** The intended encoding tells apart every two inputs that differ in
      their first count bytes. */
  lemma {:induction false} ReferenceGroupsInjective(a: seq<byte>, b: seq<byte>, start: nat, count: nat)
    requires start <= count <= |a| && count <= |b|
    requires ReferenceGroupsFrom(a, start, count) == ReferenceGroupsFrom(b, start, count)
    ensures forall i :: start <= i < count ==> a[i] == b[i]
    decreases count - start
  {
    if start < count {
      var v, w := Pack(a, start, count), Pack(b, start, count);
      PackBound(a, start, count);
      PackBound(b, start, count);
      if count - start < 3 {
        SymbolsDetermine(v, w, count - start + 1);
      } else {
        var ta, tb := ReferenceGroupsFrom(a, start + 3, count), ReferenceGroupsFrom(b, start + 3, count);
        assert (Symbols(v, 4) + ta)[..4] == Symbols(v, 4);
        assert (Symbols(w, 4) + tb)[..4] == Symbols(w, 4);
        assert Span(4) == 0x100_0000;
        SymbolsDetermine(v, w, 4);
        assert ta == tb by {
          assert (Symbols(v, 4) + ta)[4..] == ta;
          assert (Symbols(w, 4) + tb)[4..] == tb;
        }
        ReferenceGroupsInjective(a, b, start + 3, count);
      }
      PackDetermines(a, b, start, count);
    }
  }

  /** Equal intended encodings of count bytes come from equal bytes. */
  lemma ReferenceEncodingInjective(a: seq<byte>, b: seq<byte>, count: nat)
    requires count <= |a| && count <= |b|
    requires ReferenceEncoding(a, count) == ReferenceEncoding(b, count)
    ensures a[..count] == b[..count]
  {
    ReferenceGroupsInjective(a, b, 0, count);
  }

  /** When the bytes left leave a final group of one byte, the program's
      encoding is the intended one. */
  lemma {:induction false} GroupsAgree(input: seq<byte>, start: nat, count: nat)
    requires start <= count <= |input| && (count - start) % 3 == 1
    ensures GroupsFrom(input, start, count) == ReferenceGroupsFrom(input, start, count)
    decreases count - start
  {
    if count - start > 3 {
      GroupsAgree(input, start + 3, count);
    }
  }

  /** For count = 3q + 1, in particular the 16 bytes of a digest, the
      program's encoding is the intended one. */
  lemma EncodingAgrees(input: seq<byte>, count: nat)
    requires count <= |input| && count % 3 == 1
    ensures Encoding(input, count) == ReferenceEncoding(input, count)
  {
    GroupsAgree(input, 0, count);
  }

  /** For every other non-zero count the program's encoding is one symbol
      shorter than the intended one: the six bits it drops are the high
      bits of the last byte. */
  lemma EncodingShortByOne(input: seq<byte>, count: nat)
    requires 0 < count <= |input| && count % 3 != 1
    ensures |Encoding(input, count)| + 1 == |ReferenceEncoding(input, count)|
  {
    EncodingLength(input, count);
    ReferenceGroupsLength(input, 0, count);
  }

  /** The shortened final group loses information: a final group of two
      bytes no longer tells 0x00 from 0x10 in its last byte, and one of
      three bytes no longer tells 0x00 from 0x04. */
  lemma TruncatedFinalGroup()
    ensures Encoding([0, 0], 2) == Encoding([0, 0x10], 2) == ".."
    ensures Encoding([0, 0, 0], 3) == Encoding([0, 0, 4], 3) == "..."
  {
    assert Symbol(0) == Symbol(0x40) == Symbol(0x1000) == '.';
    assert Pack([0, 0], 0, 2) == 0 && Pack([0, 0x10], 0, 2) == 0x1000;
    assert Pack([0, 0, 0], 0, 3) == 0 && Pack([0, 0, 4], 0, 3) == 0x4_0000;
  }

  /** The program's encoding tells inputs apart exactly when count = 3q + 1. */
  lemma EncodingInjective(a: seq<byte>, b: seq<byte>, count: nat)
    requires count <= |a| && count <= |b| && count % 3 == 1
    requires Encoding(a, count) == Encoding(b, count)
    ensures a[..count] == b[..count]
  {
    EncodingAgrees(a, count);
    EncodingAgrees(b, count);
    ReferenceEncodingInjective(a, b, count);
  }
}
