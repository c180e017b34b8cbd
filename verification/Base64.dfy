/** The Base64 encoders and decoders (section 4 of RFC 4648; 76-character lines as in section 6.8 of RFC 2045). */
module Base64 {
  import opened Seqs

  type Byte = x: int | 0 <= x < 256

  /** A C `char` where plain `char` is signed. */
  type SignedChar = x: int | -128 <= x < 128

  function ToByte(x: int): Byte { x % 256 }

  function ToBytes(s: seq<int>): seq<Byte> { seq(|s|, i requires 0 <= i < |s| => ToByte(s[i])) }

  // ----- the two tables -----

  /** `bstr`: the character of a sextet. */
  function Letter(i: int): (c: char)
    requires 0 <= i < 64
    ensures c != '=' && c != '\n' && c != '\r'
  {
    if i < 26 then (i + 65) as char
    else if i < 52 then (i + 71) as char
    else if i < 62 then (i - 4) as char
    else if i == 62 then '+' else '/'
  }

  /** `rstr`: the sextet of a character, 0 for a character outside the alphabet. */
  function Sextet(c: char): (i: int)
    ensures 0 <= i < 64
  {
    if 'A' <= c <= 'Z' then c as int - 65
    else if 'a' <= c <= 'z' then c as int - 71
    else if '0' <= c <= '9' then c as int + 4
    else if c == '+' then 62
    else if c == '/' then 63
    else 0
  }

  /** The alphabet of table 1 of RFC 4648, in the pieces of `bstr`. */
  lemma Alphabet(i: nat)
    requires i < 64
    ensures Letter(i) ==
            if i < 17 then "ABCDEFGHIJKLMNOPQ"[i] else if i < 34 then "RSTUVWXYZabcdefgh"[i - 17]
            else if i < 51 then "ijklmnopqrstuvwxy"[i - 34] else "z0123456789+/"[i - 51]
  {
  }

  // ----- encoding -----

  // The shifts and masks of the encoder. `x >> k & m` is a floor division and a remainder, which reads the
  // same bits of a signed and of an unsigned char.
  function Top6(x: int): (r: int) ensures 0 <= r < 64 { x / 4 % 64 }             // (x >> 2) & 0x3f
  function Low2(x: int): (r: int) ensures 0 <= r <= 48 && r % 16 == 0 { x % 4 * 16 } // (x << 4) & 0x30
  function Top4(x: int): (r: int) ensures 0 <= r < 16 { x / 16 % 16 }            // (x >> 4) & 0x0f
  function Low4(x: int): (r: int) ensures 0 <= r <= 60 && r % 4 == 0 { x % 16 * 4 }  // (x << 2) & 0x3c
  function Top2(x: int): (r: int) ensures 0 <= r < 4 { x / 64 % 4 }              // (x >> 6) & 0x03
  function Low6(x: int): (r: int) ensures 0 <= r < 64 { x % 64 }                 // x & 0x3f

  /** One group of four characters for the next one, two or three chars. */
  function Group(b: seq<int>): (s: string)
    requires 1 <= |b|
    ensures |s| == 4
    ensures forall k :: 0 <= k < 4 ==> s[k] != '\n' && s[k] != '\r'
    ensures s[0] != '=' && s[1] != '='
  {
    if |b| == 1 then
      [Letter(Top6(b[0])), Letter(Low2(b[0])), '=', '=']
    else if |b| == 2 then
      [Letter(Top6(b[0])), Letter(Low2(b[0]) + Top4(b[1])), Letter(Low4(b[1])), '=']
    else
      [Letter(Top6(b[0])), Letter(Low2(b[0]) + Top4(b[1])),
       Letter(Low4(b[1]) + Top2(b[2])), Letter(Low6(b[2]))]
  }

  predicate BreaksAt(o: nat, crlf: bool) { crlf && o != 0 && o % 76 == 0 }

  function Break(o: nat, crlf: bool): string { if BreaksAt(o, crlf) then "\n" else "" }

  /** What is left of `b` from index `i` on; nothing once `i` has passed the end. */
  function From<T>(b: seq<T>, i: nat): seq<T> { if i < |b| then b[i..] else [] }

  /** The text for the rest `b` of the input once `o` letters are out. */
  function EncodeFrom(b: seq<int>, o: nat, crlf: bool): string
    decreases |b|
  {
    if |b| == 0 then "" else Break(o, crlf) + Group(b) + EncodeFrom(From(b, 3), o + 4, crlf)
  }

  lemma EncodeStep(b: seq<int>, o: nat, crlf: bool)
    ensures |b| > 0 ==>
              EncodeFrom(b, o, crlf) == Break(o, crlf) + Group(b) + EncodeFrom(From(b, 3), o + 4, crlf)
    ensures |b| == 0 ==> EncodeFrom(b, o, crlf) == ""
    ensures !crlf ==> Break(o, crlf) == ""
  {
  }

  lemma FromStart<T>(b: seq<T>)
    ensures From(b, 0) == b
  {
  }

  lemma FromStep<T>(b: seq<T>, i: nat)
    ensures |From(b, i)| == if i < |b| then |b| - i else 0
    ensures From(From(b, i), 3) == From(b, i + 3)
  {
  }

  /** The `switch` on the number of chars that remain. */
  method EncodeGroup(input: seq<int>, i: nat) returns (group: string)
    requires i < |input|
    ensures group == Group(From(input, i))
  {
    hide Letter, Top6, Low2, Top4, Low4, Top2, Low6;
    var remain := |input| - i;
    if remain == 1 {
      group := [Letter(Top6(input[i])), Letter(Low2(input[i])), '=', '='];
    } else if remain == 2 {
      group := [Letter(Top6(input[i])), Letter(Low2(input[i]) + Top4(input[i + 1])),
                Letter(Low4(input[i + 1])), '='];
    } else {
      group := [Letter(Top6(input[i])), Letter(Low2(input[i]) + Top4(input[i + 1])),
                Letter(Low4(input[i + 1]) + Top2(input[i + 2])), Letter(Low6(input[i + 2]))];
    }
  }

  /** The `char` encoder. */
  method EncodeChars(input: seq<SignedChar>, addCrlf: bool) returns (output: string)
    ensures output == EncodeFrom(ToBytes(input), 0, addCrlf)
  {
    hide EncodeFrom, Group, BreaksAt, From;
    var i: nat, o: nat := 0, 0;
    output := "";
    FromStart<int>(input);
    while i < |input|
      invariant EncodeFrom(input, 0, addCrlf) == output + EncodeFrom(From<int>(input, i), o, addCrlf)
    {
      FromStep<int>(input, i);
      EncodeStep(From<int>(input, i), o, addCrlf);
      Regroup(output, Break(o, addCrlf), Group(From<int>(input, i)),
              EncodeFrom(From<int>(input, i + 3), o + 4, addCrlf));
      assert output + "" == output;
      if BreaksAt(o, addCrlf) {
        output := output + "\n";
      }
      var group := EncodeGroup(input, i);
      output := output + group;
      o := o + 4;
      i := i + 3;
    }
    FromStep<int>(input, i);
    EncodeStep(From<int>(input, i), o, addCrlf);
    SignsAgree(input, 0, addCrlf);
  }

  /** The `unsigned char` encoder. */
  method EncodeBytes(input: seq<Byte>, addCrlf: bool) returns (output: string)
    ensures output == EncodeFrom(input, 0, addCrlf)
  {
    hide EncodeFrom, Group, BreaksAt, From;
    var i: nat, o: nat := 0, 0;
    output := "";
    FromStart<int>(input);
    while i < |input|
      invariant EncodeFrom(input, 0, addCrlf) == output + EncodeFrom(From<int>(input, i), o, addCrlf)
    {
      FromStep<int>(input, i);
      EncodeStep(From<int>(input, i), o, addCrlf);
      Regroup(output, Break(o, addCrlf), Group(From<int>(input, i)),
              EncodeFrom(From<int>(input, i + 3), o + 4, addCrlf));
      assert output + "" == output;
      if BreaksAt(o, addCrlf) {
        output := output + "\n";
      }
      var group := EncodeGroup(input, i);
      output := output + group;
      o := o + 4;
      i := i + 3;
    }
    FromStep<int>(input, i);
    EncodeStep(From<int>(input, i), o, addCrlf);
  }

  lemma GroupSignsAgree(b: seq<SignedChar>)
    requires 1 <= |b|
    ensures Group(b) == Group(ToBytes(b))
  {
    hide Top6, Low2, Top4, Low4, Top2, Low6, ToByte, Letter;
    SextetBits(b[0]);
    if |b| > 1 { SextetBits(b[1]); }
    if |b| > 2 { SextetBits(b[2]); }
  }

  lemma SextetBits(x: SignedChar)
    ensures Top6(x) == Top6(ToByte(x)) && Low2(x) == Low2(ToByte(x)) && Top4(x) == Top4(ToByte(x))
    ensures Low4(x) == Low4(ToByte(x)) && Top2(x) == Top2(ToByte(x)) && Low6(x) == Low6(ToByte(x))
  {
    hide Top6, Low2, Top4, Low4, Top2, Low6;
    if x < 0 {
      assert ToByte(x) == x + 256;
      TopBits(x);
      LowBits(x);
    } else {
      assert ToByte(x) == x;
    }
  }

  lemma TopBits(x: int)
    ensures Top6(x) == Top6(x + 256) && Top4(x) == Top4(x + 256) && Top2(x) == Top2(x + 256)
  {
    assert (x + 256) / 4 == x / 4 + 64 && (x + 256) / 16 == x / 16 + 16 && (x + 256) / 64 == x / 64 + 4;
    Turn(x / 4, x / 16, x / 64);
  }

  lemma Turn(a: int, b: int, c: int)
    ensures (a + 64) % 64 == a % 64 && (b + 16) % 16 == b % 16 && (c + 4) % 4 == c % 4
  {
  }

  lemma LowBits(x: int)
    ensures Low2(x) == Low2(x + 256) && Low4(x) == Low4(x + 256) && Low6(x) == Low6(x + 256)
  {
    assert (x + 256) / 4 == x / 4 + 64;
    assert (x + 256) / 16 == x / 16 + 16;
    assert (x + 256) / 64 == x / 64 + 4;
  }

  /** The signed and the unsigned encoder produce the same text. */
  lemma {:induction false} SignsAgree(b: seq<SignedChar>, o: nat, crlf: bool)
    ensures EncodeFrom(b, o, crlf) == EncodeFrom(ToBytes(b), o, crlf)
    decreases |b|
  {
    hide EncodeFrom, Group, ToByte;
    EncodeStep(b, o, crlf);
    EncodeStep(ToBytes(b), o, crlf);
    if |b| > 0 {
      GroupSignsAgree(b);
      SignsAgree(From(b, 3), o + 4, crlf);
      assert From<int>(b, 3) == From(b, 3);
      assert ToBytes(From(b, 3)) == From<int>(ToBytes(b), 3);
    }
  }

  /** Section 4 of RFC 4648: a full group spells the 24-bit number of its three bytes, high sextet first. */
  lemma GroupIsRfc4648(b: seq<Byte>)
    requires |b| == 3
    ensures var v: int := b[0] as int * 65536 + b[1] as int * 256 + b[2];
            Group(b) == [Letter(v / 262144), Letter(v / 4096 % 64), Letter(v / 64 % 64), Letter(v % 64)]
  {
    hide Letter;
    Rfc4648Sextets(b[0], b[1], b[2]);
  }

  lemma Rfc4648Sextets(x: Byte, y: Byte, z: Byte)
    ensures var v: int := x as int * 65536 + y as int * 256 + z;
            && v / 262144 == Top6(x) && v / 4096 % 64 == Low2(x) + Top4(y)
            && v / 64 % 64 == Low4(y) + Top2(z) && v % 64 == Low6(z)
  {
    hide Top6, Low2, Top4, Low4, Top2, Low6;
    var v: int := x as int * 65536 + y as int * 256 + z;
    var hi: int := x as int * 16 + Top4(y);
    assert y == 16 * Top4(y) + Low4(y) / 4 && z == 64 * Top2(z) + Low6(z) by { SplitByte(y); SplitByte(z); }
    var mid: int := Low4(y) + Top2(z);
    assert v == 4096 * hi + 64 * mid + Low6(z);
    assert v / 64 == 64 * hi + mid;
    assert v / 4096 == hi;
    SplitHigh(x, Top4(y));
    assert v / 262144 == hi / 64;
  }

  lemma SplitByte(y: Byte)
    ensures y == 16 * Top4(y) + Low4(y) / 4 && y == 64 * Top2(y) + Low6(y)
  {
  }

  lemma SplitHigh(x: Byte, p: int)
    requires 0 <= p < 16
    ensures (x as int * 16 + p) / 64 == Top6(x) && (x as int * 16 + p) % 64 == Low2(x) + p
  {
  }

  // ----- decoding -----

  /** Reading at or past the end yields NUL, as `std::string` does at its size. */
  function At(s: string, k: nat): char { if k < |s| then s[k] else '\0' }

  function Byte1(s: string): Byte { Sextet(At(s, 0)) * 4 + Sextet(At(s, 1)) / 16 % 4 }
  function Byte2(s: string): Byte { Sextet(At(s, 1)) % 16 * 16 + Sextet(At(s, 2)) / 4 % 16 }
  function Byte3(s: string): Byte { Sextet(At(s, 2)) % 4 * 64 + Sextet(At(s, 3)) }

  function Ungroup(s: string): seq<Byte> {
    [Byte1(s)] + (if At(s, 2) != '=' then [Byte2(s)] else []) + (if At(s, 3) != '=' then [Byte3(s)] else [])
  }

  predicate IsBreak(c: char) { c == '\r' || c == '\n' }

  function Decode(s: string): seq<Byte>
    decreases |s|
  {
    if |s| == 0 then []
    else if IsBreak(s[0]) then Decode(From(s, 1))
    else Ungroup(s) + Decode(From(s, 4))
  }

  lemma DecodeStep(s: string, i: nat)
    ensures i >= |s| ==> Decode(From(s, i)) == []
    ensures i < |s| && IsBreak(s[i]) ==> Decode(From(s, i)) == Decode(From(s, i + 1))
    ensures i < |s| && !IsBreak(s[i]) ==> Decode(From(s, i)) == Ungroup(From(s, i)) + Decode(From(s, i + 4))
  {
    hide Ungroup;
    if i < |s| {
      assert From(From(s, i), 1) == From(s, i + 1);
      assert From(From(s, i), 4) == From(s, i + 4);
    }
  }

  lemma FromAt(s: string, i: nat)
    ensures At(From(s, i), 0) == At(s, i) && At(From(s, i), 1) == At(s, i + 1)
    ensures At(From(s, i), 2) == At(s, i + 2) && At(From(s, i), 3) == At(s, i + 3)
  {
  }

  /** The decoder into a `std::string`. */
  method DecodeToString(input: string) returns (output: seq<Byte>)
    ensures output == Decode(input)
  {
    hide Decode, From, Sextet, At, IsBreak;
    var i: nat := 0;
    output := [];
    FromStart(input);
    while i < |input|
      invariant Decode(input) == output + Decode(From(input, i))
    {
      while i < |input| && IsBreak(input[i])
        invariant Decode(input) == output + Decode(From(input, i))
      {
        DecodeStep(input, i);
        i := i + 1;
      }
      if i < |input| {
        DecodeStep(input, i);
        FromAt(input, i);
        ghost var before := output;
        output := output + [Sextet(At(input, i)) * 4 + Sextet(At(input, i + 1)) / 16 % 4];
        if At(input, i + 2) != '=' {
          output := output + [Sextet(At(input, i + 1)) % 16 * 16 + Sextet(At(input, i + 2)) / 4 % 16];
        }
        if At(input, i + 3) != '=' {
          output := output + [Sextet(At(input, i + 2)) % 4 * 64 + Sextet(At(input, i + 3))];
        }
        assert output == before + Ungroup(From(input, i));
        i := i + 4;
      }
    }
    DecodeStep(input, i);
  }

  /** The decoder into a caller's buffer; a null buffer only counts. */
  method DecodeToBuffer(input: string, output: array?<Byte>) returns (sz: nat)
    requires output != null ==> |Decode(input)| <= output.Length
    modifies output
    ensures sz == |Decode(input)|
    ensures output != null ==> output[..sz] == Decode(input) && output[sz..] == old(output[sz..])
  {
    hide Decode, From, Ungroup, IsBreak;
    var i: nat, j: nat := 0, 0;
    ghost var done: seq<Byte> := [];
    FromStart(input);
    while i < |input|
      invariant Decode(input) == done + Decode(From(input, i)) && j == |done|
      invariant output != null ==> output[..j] == done && output[j..] == old(output[j..])
    {
      while i < |input| && IsBreak(input[i])
        invariant Decode(input) == done + Decode(From(input, i))
        invariant output != null ==> output[..j] == done && output[j..] == old(output[j..])
      {
        DecodeStep(input, i);
        i := i + 1;
      }
      if i < |input| {
        DecodeStep(input, i);
        assert Decode(input) == done + Ungroup(From(input, i)) + Decode(From(input, i + 4));
        j := WriteGroup(input, i, output, j);
        done := done + Ungroup(From(input, i));
        i := i + 4;
      }
    }
    DecodeStep(input, i);
    sz := j;
  }

  /** The bytes of one group go to `output[j..]`, when there is an output. */
  method WriteGroup(input: string, i: nat, output: array?<Byte>, j0: nat) returns (j: nat)
    requires output != null ==> j0 + |Ungroup(From(input, i))| <= output.Length
    modifies output
    ensures j == j0 + |Ungroup(From(input, i))|
    ensures output != null ==> output[..j] == old(output[..j0]) + Ungroup(From(input, i))
    ensures output != null ==> output[j..] == old(output[j..])
  {
    hide Sextet, From, At;
    FromAt(input, i);
    j := j0;
    if output != null {
      output[j] := Sextet(At(input, i)) * 4 + Sextet(At(input, i + 1)) / 16 % 4;
    }
    j := j + 1;
    if At(input, i + 2) != '=' {
      if output != null {
        output[j] := Sextet(At(input, i + 1)) % 16 * 16 + Sextet(At(input, i + 2)) / 4 % 16;
      }
      j := j + 1;
    }
    if At(input, i + 3) != '=' {
      if output != null {
        output[j] := Sextet(At(input, i + 2)) % 4 * 64 + Sextet(At(input, i + 3));
      }
      j := j + 1;
    }
  }

  // ----- round trip -----

  lemma LetterSextet(i: int)
    requires 0 <= i < 64
    ensures Sextet(Letter(i)) == i
  {
  }

  lemma UngroupGroup(b: seq<Byte>, rest: string)
    requires 1 <= |b|
    ensures Ungroup(Group(b) + rest) == if |b| < 3 then b else b[..3]
  {
    hide Letter, Sextet, Top6, Low2, Top4, Low4, Top2, Low6;
    var s := Group(b) + rest;
    assert At(s, 0) == Group(b)[0] && At(s, 1) == Group(b)[1] && At(s, 2) == Group(b)[2] && At(s, 3) == Group(b)[3];
    LetterSextet(Top6(b[0]));
    FirstByte(b[0], 0);
    if |b| == 1 {
      LetterSextet(Low2(b[0]));
    } else {
      LetterSextet(Low2(b[0]) + Top4(b[1]));
      FirstByte(b[0], b[1]);
      SecondByte(b[0], b[1], 0);
      if |b| == 2 {
        LetterSextet(Low4(b[1]));
      } else {
        LetterSextet(Low4(b[1]) + Top2(b[2]));
        LetterSextet(Low6(b[2]));
        SecondByte(b[0], b[1], b[2]);
        ThirdByte(b[1], b[2]);
      }
    }
  }

  lemma FirstByte(x: Byte, y: Byte)
    ensures Top6(x) * 4 + Low2(x) / 16 % 4 == x
    ensures Top6(x) * 4 + (Low2(x) + Top4(y)) / 16 % 4 == x
  {
  }

  lemma SecondByte(x: Byte, y: Byte, z: Byte)
    ensures (Low2(x) + Top4(y)) % 16 * 16 + Low4(y) / 4 % 16 == y
    ensures (Low2(x) + Top4(y)) % 16 * 16 + (Low4(y) + Top2(z)) / 4 % 16 == y
  {
    hide Low2, Top4, Low4, Top2;
    SplitByte(y);
    assert (Low4(y) + Top2(z)) / 4 == Low4(y) / 4;
    assert (Low2(x) + Top4(y)) % 16 == Top4(y);
  }

  lemma ThirdByte(y: Byte, z: Byte)
    ensures (Low4(y) + Top2(z)) % 4 * 64 + Low6(z) == z
  {
  }

  lemma DecodeGroup(b: seq<Byte>, tail: string)
    requires 1 <= |b|
    ensures Decode(Group(b) + tail) == (if |b| < 3 then b else b[..3]) + Decode(tail)
  {
    hide Group, Ungroup;
    var s := Group(b) + tail;
    assert s[0] == Group(b)[0];
    assert From(s, 4) == tail;
    UngroupGroup(b, tail);
  }

  lemma DecodeBreak(s: string, o: nat, crlf: bool)
    ensures Decode(Break(o, crlf) + s) == Decode(s)
  {
    hide Ungroup, BreaksAt;
    if BreaksAt(o, crlf) {
      assert From("\n" + s, 1) == s;
    } else {
      assert "" + s == s;
    }
  }

  /** Decoding undoes encoding for every byte string, with and without line breaks. */
  lemma {:induction false} DecodeEncode(b: seq<Byte>, o: nat, crlf: bool)
    ensures Decode(EncodeFrom(b, o, crlf)) == b
    decreases |b|
  {
    hide EncodeFrom, Group, Decode;
    EncodeStep(b, o, crlf);
    if |b| > 0 {
      var tail := EncodeFrom(From<int>(b, 3), o + 4, crlf);
      assert EncodeFrom(b, o, crlf) == Break(o, crlf) + (Group(b) + tail);
      DecodeBreak(Group(b) + tail, o, crlf);
      DecodeGroup(b, tail);
      DecodeEncode(From(b, 3), o + 4, crlf);
      assert From<int>(b, 3) == From(b, 3);
    } else {
      DecodeStep("", 0);
    }
  }

  // ----- line breaks -----

  /** Characters out, breaks included, when `o` letters are out and the break due at `o` is not. */
  function Position(o: nat): nat { if o == 0 then 0 else o + (o - 1) / 76 }

  lemma PositionAt(q: nat, r: nat)
    requires r < 76
    ensures Position(76 * q + r) == if r > 0 then 77 * q + r else if q > 0 then 77 * (q - 1) + 76 else 0
  {
    if r > 0 {
      assert 76 * q + r - 1 == q * 76 + (r - 1);
    } else if q > 0 {
      assert 76 * q + r - 1 == (q - 1) * 76 + 75;
    }
  }

  lemma PositionStep(o: nat)
    requires o % 4 == 0
    ensures Position(o + 4) == Position(o) + 4 + (if BreaksAt(o, true) then 1 else 0)
    ensures if BreaksAt(o, true) then Position(o) % 77 == 76 else Position(o) % 77 <= 72
  {
    hide Position;
    var q, r := o / 76, o % 76;
    assert o == 76 * q + r && r <= 72;
    PositionAt(q, r);
    if r < 72 {
      PositionAt(q, r + 4);
    } else {
      assert o + 4 == 76 * (q + 1) + 0;
      PositionAt(q + 1, 0);
    }
  }

  /** Line feeds stand at exactly the 77th, 154th, ... characters, so lines hold 76 letters and whole groups. */
  lemma {:induction false} BreakPositions(b: seq<int>, o: nat, k: nat)
    requires o % 4 == 0
    requires k < |EncodeFrom(b, o, true)|
    ensures EncodeFrom(b, o, true)[k] == '\n' <==> (Position(o) + k) % 77 == 76
    decreases |b|
  {
    hide EncodeFrom, Group, Position;
    PositionStep(o);
    EncodeStep(b, o, true);
    var brk := if BreaksAt(o, true) then 1 else 0;
    var next := From(b, 3);
    if k >= brk + 4 {
      BreakPositions(next, o + 4, k - brk - 4);
      assert EncodeFrom(b, o, true)[k] == EncodeFrom(next, o + 4, true)[k - brk - 4];
    } else if k >= brk {
      assert EncodeFrom(b, o, true)[k] == Group(b)[k - brk];
    }
  }

  function WithoutBreaks(s: string): string {
    if |s| == 0 then "" else (if s[0] == '\n' then "" else [s[0]]) + WithoutBreaks(s[1..])
  }

  lemma {:induction false} WithoutBreaksConcat(s: string, t: string)
    ensures WithoutBreaks(s + t) == WithoutBreaks(s) + WithoutBreaks(t)
  {
    if |s| == 0 {
      assert s + t == t;
    } else {
      WithoutBreaksConcat(s[1..], t);
      assert (s + t)[1..] == s[1..] + t;
      var head := if s[0] == '\n' then "" else [s[0]];
      assert WithoutBreaks(s) == head + WithoutBreaks(s[1..]);
      assert WithoutBreaks(s + t) == head + WithoutBreaks(s[1..] + t);
    }
  }

  lemma WithoutBreaksGroup(s: string)
    requires |s| == 4 && forall k :: 0 <= k < 4 ==> s[k] != '\n'
    ensures WithoutBreaks(s) == s
  {
    assert s == [s[0]] + [s[1]] + [s[2]] + [s[3]];
    WithoutBreaksConcat([s[0]] + [s[1]] + [s[2]], [s[3]]);
    WithoutBreaksConcat([s[0]] + [s[1]], [s[2]]);
    WithoutBreaksConcat([s[0]], [s[1]]);
  }

  /** Asking for line breaks inserts line feeds and changes nothing else. */
  lemma {:induction false} BreaksOnlyInsert(b: seq<int>, o: nat)
    ensures WithoutBreaks(EncodeFrom(b, o, true)) == EncodeFrom(b, o, false)
    decreases |b|
  {
    if |b| > 0 {
      var next := From(b, 3);
      var brk := Break(o, true);
      var tail := EncodeFrom(next, o + 4, true);
      BreaksOnlyInsert(next, o + 4);
      assert EncodeFrom(b, o, true) == brk + Group(b) + tail;
      WithoutBreaksConcat(brk + Group(b), tail);
      WithoutBreaksConcat(brk, Group(b));
      WithoutBreaksGroup(Group(b));
    }
  }

  // ----- decode_length -----

  function Groups(n: nat): nat { (n + 2) / 3 }

  lemma GroupsStep(n: nat)
    ensures Groups(n) == if n == 0 then 0 else 1 + Groups(if n < 3 then 0 else n - 3)
  {
  }

  lemma {:induction false} EncodedLength(b: seq<int>, o: nat)
    requires o % 4 == 0
    ensures |EncodeFrom(b, o, false)| == 4 * Groups(|b|)
    ensures |EncodeFrom(b, o, true)| == Position(o + 4 * Groups(|b|)) - Position(o)
    decreases |b|
  {
    hide EncodeFrom, Group, Position, Groups, BreaksAt;
    GroupsStep(|b|);
    EncodeStep(b, o, false);
    EncodeStep(b, o, true);
    if |b| > 0 {
      PositionStep(o);
      EncodedLength(From(b, 3), o + 4);
      assert o + 4 * Groups(|b|) == o + 4 + 4 * Groups(|From(b, 3)|);
    } else {
      assert o + 4 * Groups(|b|) == o;
    }
  }

  lemma LastTwo(s: string, t: string)
    requires |t| >= 4
    ensures var u := s + t; u[|u| - 1] == t[|t| - 1] && u[|u| - 2] == t[|t| - 2]
  {
  }

  lemma {:induction false} Padding(b: seq<int>, o: nat, crlf: bool)
    requires |b| > 0
    ensures var s := EncodeFrom(b, o, crlf);
            && |s| >= 4
            && (s[|s| - 2] == '=' <==> |b| % 3 == 1)
            && (s[|s| - 1] == '=' <==> |b| % 3 != 0)
    decreases |b|
  {
    hide EncodeFrom, Letter, Top6, Low2, Top4, Low4, Top2, Low6;
    EncodeStep(b, o, crlf);
    EncodeStep(From(b, 3), o + 4, crlf);
    if |b| > 3 {
      Padding(From(b, 3), o + 4, crlf);
      LastTwo(Break(o, crlf) + Group(b), EncodeFrom(From(b, 3), o + 4, crlf));
    } else {
      assert EncodeFrom(b, o, crlf) == Break(o, crlf) + Group(b);
      LastTwo(Break(o, crlf), Group(b));
    }
  }

  function DecodeLength(s: string): nat
  {
    if |s| == 0 || |s| % 4 != 0 then 0
    else
      3 * (|s| / 4 - 1) + 1 + (if s[|s| - 2] != '=' then 1 else 0) + (if s[|s| - 1] != '=' then 1 else 0)
  }

  /** `decode_length` announces the input length exactly when no break was inserted: without `add_crlf`,
      or with an input that fits one line of 76 characters. */
  lemma DecodeLengthExact(b: seq<Byte>, crlf: bool)
    ensures DecodeLength(EncodeFrom(b, 0, crlf)) == |b| <==> !crlf || |b| <= 57
  {
    hide EncodeFrom;
    EncodedLength(b, 0);
    if |b| == 0 {
      EncodeStep(b, 0, crlf);
    } else {
      Padding(b, 0, crlf);
      var g := Groups(|b|);
      var breaks := if crlf then (4 * g - 1) / 76 else 0;
      AnnouncedLength(EncodeFrom(b, 0, crlf), |b|, breaks);
      BreakCount(|b|);
    }
  }

  /** 58 bytes have a break, and their announced length is wrong. */
  lemma DecodeLengthWrong()
    ensures DecodeLength(EncodeFrom(seq(58, _ => 0 as Byte), 0, true)) != 58
  {
    hide EncodeFrom, DecodeLength;
    DecodeLengthExact(seq(58, _ => 0 as Byte), true);
  }

  lemma BreakCount(n: nat)
    requires n > 0
    ensures (4 * Groups(n) - 1) / 76 == 0 <==> n <= 57
  {
  }

  lemma AnnouncedLength(s: string, n: nat, breaks: nat)
    requires n > 0 && |s| == 4 * Groups(n) + breaks
    requires s[|s| - 2] == '=' <==> n % 3 == 1
    requires s[|s| - 1] == '=' <==> n % 3 != 0
    ensures DecodeLength(s) == n <==> breaks == 0
  {
    var g := Groups(n);
    assert n == 3 * (g - 1) + (if n % 3 == 0 then 3 else n % 3);
    if |s| % 4 == 0 {
      assert breaks % 4 == 0 && |s| / 4 == g + breaks / 4;
    }
  }

  /** Carriage returns and line feeds before a group are skipped, however many. */
  lemma {:induction false} BreaksSkipped(breaks: string, s: string)
    requires forall i :: 0 <= i < |breaks| ==> breaks[i] == '\r' || breaks[i] == '\n'
    ensures Decode(breaks + s) == Decode(s)
  {
    hide Ungroup;
    if |breaks| == 0 {
      assert breaks + s == s;
    } else {
      assert (breaks + s)[0] == breaks[0] && From(breaks + s, 1) == breaks[1..] + s;
      BreaksSkipped(breaks[1..], s);
    }
  }
}
