/** Base64 (section 4 of RFC 4648): the encoder, the quadruple decoder and the decoding of
    a stream that may be interrupted by newlines. */
module Base64 {

  type byte = bv8

  const NEWLINE: byte := 10
  const PAD: byte := 61

  // ---------- the alphabet ----------

  function Char(v: byte): byte
    requires v < 64
  {
    if v < 26 then v + 65 else if v < 52 then v + 71 else if v < 62 then v - 4 else if v == 62 then 43 else 47
  }

  predicate IsBase64(c: byte) {
    65 <= c <= 90 || 97 <= c <= 122 || 48 <= c <= 57 || c == 43 || c == 47
  }

  // The b64 table; -1 there is !IsBase64 here.
  function Value(c: byte): byte {
    if 65 <= c <= 90 then c - 65 else if 97 <= c <= 122 then c - 71 else if 48 <= c <= 57 then c + 4
    else if c == 43 then 62 else 63
  }

  lemma CharValue(v: byte)
    requires v < 64
    ensures IsBase64(Char(v)) && Value(Char(v)) == v
    ensures Char(v) != NEWLINE && Char(v) != PAD
  {
  }

  // Table 1 of RFC 4648, its padding character, and the character that may interrupt a stream.
  const UPPER: string := "ABCDEFGHIJKLM" + "NOPQRSTUVWXYZ"
  const LOWER: string := "abcdefghijklm" + "nopqrstuvwxyz"
  const DIGITS: string := "0123456789"
  const ALPHABET: string := UPPER + LOWER + DIGITS + "+/"

  // Characters of which each is the successor of the one before.
  predicate Rising(s: string, first: int) {
    forall k :: 0 <= k < |s| ==> s[k] as int == first + k
  }

  lemma {:induction false} RisingParts()
    ensures Rising("ABCDEFGHIJKLM", 65) && Rising("NOPQRSTUVWXYZ", 78)
    ensures Rising("abcdefghijklm", 97) && Rising("nopqrstuvwxyz", 110)
    ensures Rising(DIGITS, 48) && |DIGITS| == 10
  {
  }

  lemma {:induction false} RisingJoin(s: string, t: string, first: int)
    requires Rising(s, first) && Rising(t, first + |s|)
    ensures Rising(s + t, first)
  {
  }

  lemma {:induction false} AlphabetInOrder(i: nat)
    requires i < 64
    ensures |ALPHABET| == 64
    ensures ALPHABET[i] as int ==
            if i < 26 then 65 + i else if i < 52 then 71 + i else if i < 62 then i - 4 else if i == 62 then 43 else 47
  {
    hide Rising;
    RisingParts();
    RisingJoin("ABCDEFGHIJKLM", "NOPQRSTUVWXYZ", 65);
    RisingJoin("abcdefghijklm", "nopqrstuvwxyz", 97);
    InFour(UPPER, LOWER, DIGITS, "+/", i);
  }

  lemma {:induction false} InFour(a: string, b: string, d: string, e: string, i: nat)
    requires |a| == |b| == 26 && |d| == 10 && |e| == 2 && i < 64
    requires Rising(a, 65) && Rising(b, 97) && Rising(d, 48) && e[0] == '+' && e[1] == '/'
    ensures |a + b + d + e| == 64
    ensures (a + b + d + e)[i] as int ==
            if i < 26 then 65 + i else if i < 52 then 71 + i else if i < 62 then i - 4 else if i == 62 then 43 else 47
  {
  }

  // A character, as a byte, is the one the alphabet lists.
  lemma {:induction false} CharIsAlphabet(v: byte)
    requires v < 64
    ensures v as int < |ALPHABET| && Char(v) as int == ALPHABET[v as int] as int
    ensures PAD as int == '=' as int && NEWLINE as int == '\n' as int
  {
    AlphabetInOrder(v as int);
  }

  // The alphabet's characters and no others are digits, and a digit's value is its place.
  lemma {:induction false} DigitsAreAlphabet(c: byte)
    ensures IsBase64(c) <==> exists i :: 0 <= i < |ALPHABET| && ALPHABET[i] as int == c as int
    ensures IsBase64(c) ==> Value(c) as int < |ALPHABET| && ALPHABET[Value(c) as int] as int == c as int
  {
    ValueSmall(c);
    AlphabetInOrder(Value(c) as int);
    if i :| 0 <= i < |ALPHABET| && ALPHABET[i] as int == c as int {
      AlphabetInOrder(i);
    }
  }

  // ---------- three bytes, four characters ----------

  function Sextet0(a: byte): (v: byte)
    ensures v < 64
  {
    (a >> 2) & 0x3f
  }

  function Sextet1(a: byte, b: byte): (v: byte)
    ensures v < 64
  {
    ((a << 4) + (b >> 4)) & 0x3f
  }

  function Sextet2(b: byte, c: byte): (v: byte)
    ensures v < 64
  {
    ((b << 2) + (c >> 6)) & 0x3f
  }

  function Sextet3(c: byte): (v: byte)
    ensures v < 64
  {
    c & 0x3f
  }

  function Byte0(v: byte, w: byte): byte {
    (v << 2) | (w >> 4)
  }

  function Byte1(w: byte, x: byte): byte {
    ((w << 4) & 0xf0) | (x >> 2)
  }

  function Byte2(x: byte, y: byte): byte {
    ((x << 6) & 0xc0) | y
  }

  lemma BytesFromSextets(a: byte, b: byte, c: byte)
    ensures Byte0(Sextet0(a), Sextet1(a, b)) == a
    ensures Byte1(Sextet1(a, b), Sextet2(b, c)) == b
    ensures Byte2(Sextet2(b, c), Sextet3(c)) == c
  {
  }

  function Encode(s: seq<byte>): (r: seq<byte>)
    ensures |r| == (|s| + 2) / 3 * 4
  {
    if |s| == 0 then []
    else if |s| == 1 then [Char(Sextet0(s[0])), Char(Sextet1(s[0], 0)), PAD, PAD]
    else if |s| == 2 then [Char(Sextet0(s[0])), Char(Sextet1(s[0], s[1])), Char(Sextet2(s[1], 0)), PAD]
    else [Char(Sextet0(s[0])), Char(Sextet1(s[0], s[1])), Char(Sextet2(s[1], s[2])), Char(Sextet3(s[2]))]
         + Encode(s[3..])
  }

  // ---------- decoding one quadruple ----------

  // Whether decoding succeeded, what it produced (also on failure), and what it left over.
  datatype Outcome = Outcome(ok: bool, out: seq<byte>, rest: seq<byte>)

  // The first four of the given bytes.  Padding is accepted only at the very end of them.
  function Quad(s: seq<byte>): (r: Outcome)
    ensures |r.out| <= 3
    ensures r.ok ==> |s| >= 4 && r.rest == s[4..]
    ensures !r.ok ==> r.rest == []
  {
    if |s| < 2 || !IsBase64(s[0]) || !IsBase64(s[1]) then Outcome(false, [], [])
    else
      var o0 := Byte0(Value(s[0]), Value(s[1]));
      if |s| == 2 then Outcome(false, [o0], [])
      else if s[2] == PAD then
        if |s| == 4 && s[3] == PAD then Outcome(true, [o0], []) else Outcome(false, [o0], [])
      else if !IsBase64(s[2]) then Outcome(false, [o0], [])
      else
        var o1 := Byte1(Value(s[1]), Value(s[2]));
        if |s| == 3 then Outcome(false, [o0, o1], [])
        else if s[3] == PAD then
          if |s| == 4 then Outcome(true, [o0, o1], []) else Outcome(false, [o0, o1], [])
        else if !IsBase64(s[3]) then Outcome(false, [o0, o1], [])
        else Outcome(true, [o0, o1, Byte2(Value(s[2]), Value(s[3]))], s[4..])
  }

  // ---------- decoding a newline-free stream ----------

  function Then(o: seq<byte>, r: Outcome): Outcome {
    r.(out := o + r.out)
  }

  // Cut into quadruples, decode each; a partial quadruple at the end is left over.
  function Quads(s: seq<byte>): (r: Outcome)
    ensures r.ok ==> |r.rest| < 4 && |r.rest| <= |s|
    ensures |r.out| <= 3 * (|s| / 4)
  {
    if |s| < 4 then Outcome(true, [], s)
    else
      var q := Quad(s[..4]);
      if q.ok then Then(q.out, Quads(s[4..])) else q
  }

  function Strip(s: seq<byte>): (r: seq<byte>)
    ensures |r| <= |s| && NEWLINE !in r
  {
    if s == [] then [] else (if s[0] == NEWLINE then [] else [s[0]]) + Strip(s[1..])
  }

  lemma {:induction false} StripConcat(a: seq<byte>, b: seq<byte>)
    ensures Strip(a + b) == Strip(a) + Strip(b)
  {
    if a == [] {
      assert a + b == b;
    } else {
      assert (a + b)[1..] == a[1..] + b;
      StripConcat(a[1..], b);
      var h := if a[0] == NEWLINE then [] else [a[0]];
      assert h + (Strip(a[1..]) + Strip(b)) == (h + Strip(a[1..])) + Strip(b);
    }
  }

  lemma {:induction false} StripClean(s: seq<byte>)
    requires NEWLINE !in s
    ensures Strip(s) == s
  {
    if s != [] {
      StripClean(s[1..]);
    }
  }

  // Decoding in two parts: what the first part leaves over is put in front of the second.
  lemma {:induction false} QuadsSplit(a: seq<byte>, b: seq<byte>)
    ensures Quads(a + b) == var r := Quads(a); if r.ok then Then(r.out, Quads(r.rest + b)) else r
    decreases |a|
  {
    hide Quad;
    if |a| < 4 {
      assert [] + Quads(a + b).out == Quads(a + b).out;
    } else {
      assert (a + b)[..4] == a[..4] && (a + b)[4..] == a[4..] + b;
      var q := Quad(a[..4]);
      if q.ok {
        QuadsSplit(a[4..], b);
        var r := Quads(a[4..]);
        ThenThen(q.out, r.out, Quads(r.rest + b));
      }
    }
  }

  lemma {:induction false} ThenThen(o: seq<byte>, o': seq<byte>, r: Outcome)
    ensures Then(o, Then(o', r)) == Then(o + o', r)
  {
    assert o + (o' + r.out) == (o + o') + r.out;
  }

  // ---------- round trip ----------

  lemma {:induction false} EncodeClean(s: seq<byte>)
    ensures NEWLINE !in Encode(s)
  {
    CharValue(0);
    if |s| >= 3 {
      CharValue(Sextet0(s[0])); CharValue(Sextet1(s[0], s[1]));
      CharValue(Sextet2(s[1], s[2])); CharValue(Sextet3(s[2]));
      EncodeClean(s[3..]);
    } else if |s| == 2 {
      CharValue(Sextet0(s[0])); CharValue(Sextet1(s[0], s[1])); CharValue(Sextet2(s[1], 0));
    } else if |s| == 1 {
      CharValue(Sextet0(s[0])); CharValue(Sextet1(s[0], 0));
    }
  }

  lemma {:induction false} QuadOfThree(a: byte, b: byte, c: byte)
    ensures Quad([Char(Sextet0(a)), Char(Sextet1(a, b)), Char(Sextet2(b, c)), Char(Sextet3(c))])
            == Outcome(true, [a, b, c], [])
  {
    BytesFromSextets(a, b, c);
    CharValue(Sextet0(a)); CharValue(Sextet1(a, b)); CharValue(Sextet2(b, c)); CharValue(Sextet3(c));
  }

  lemma {:induction false} QuadOfTwo(a: byte, b: byte)
    ensures Quad([Char(Sextet0(a)), Char(Sextet1(a, b)), Char(Sextet2(b, 0)), PAD]) == Outcome(true, [a, b], [])
  {
    BytesFromSextets(a, b, 0);
    CharValue(Sextet0(a)); CharValue(Sextet1(a, b)); CharValue(Sextet2(b, 0));
  }

  lemma {:induction false} QuadOfOne(a: byte)
    ensures Quad([Char(Sextet0(a)), Char(Sextet1(a, 0)), PAD, PAD]) == Outcome(true, [a], [])
  {
    BytesFromSextets(a, 0, 0);
    CharValue(Sextet0(a)); CharValue(Sextet1(a, 0));
  }

  lemma {:induction false} EncodeThree(s: seq<byte>)
    requires |s| >= 3
    ensures var e := Encode(s);
            && |e| >= 4 && e[4..] == Encode(s[3..])
            && e[..4] == [Char(Sextet0(s[0])), Char(Sextet1(s[0], s[1])),
                          Char(Sextet2(s[1], s[2])), Char(Sextet3(s[2]))]
  {
    hide Char, Sextet0, Sextet1, Sextet2, Sextet3;
  }

  lemma {:induction false} DecodeEncode(s: seq<byte>)
    ensures Quads(Encode(s)) == Outcome(true, s, [])
    decreases |s|, 1
  {
    hide Quad, Char, Sextet0, Sextet1, Sextet2, Sextet3;
    if |s| >= 3 {
      DecodeThree(s);
    } else if |s| == 2 {
      var e := Encode(s);
      QuadOfTwo(s[0], s[1]);
      assert e[..4] == e && e[4..] == [] && s == [s[0], s[1]];
    } else if |s| == 1 {
      var e := Encode(s);
      QuadOfOne(s[0]);
      assert e[..4] == e && e[4..] == [] && s == [s[0]];
    }
  }

  lemma {:induction false} DecodeThree(s: seq<byte>)
    requires |s| >= 3
    ensures Quads(Encode(s)) == Outcome(true, s, [])
    decreases |s|, 0
  {
    hide Quad, Char, Sextet0, Sextet1, Sextet2, Sextet3, Encode;
    EncodeThree(s);
    QuadOfThree(s[0], s[1], s[2]);
    DecodeEncode(s[3..]);
    assert s == [s[0], s[1], s[2]] + s[3..];
  }

  // The test vectors of section 10 of RFC 4648: "f" is "Zg==", "fo" is "Zm8=", "foo" is "Zm9v".
  lemma {:induction false} Rfc4648Vectors()
    ensures Encode([102]) == [90, 103, 61, 61]
    ensures Encode([102, 111]) == [90, 109, 56, 61]
    ensures Encode([102, 111, 111]) == [90, 109, 57, 118]
  {
  }

  // ---------- what a quadruple means ----------

  // Section 4 of RFC 4648: two to four digits of the alphabet, padded to four.
  predicate WellFormedQuad(s: seq<byte>) {
    && |s| == 4 && IsBase64(s[0]) && IsBase64(s[1])
    && ((s[2] == PAD && s[3] == PAD) || (IsBase64(s[2]) && (s[3] == PAD || IsBase64(s[3]))))
  }

  // The 24-bit group four digits spell, most significant first, and its bytes.
  function Group(v: byte, w: byte, x: byte, y: byte): bv24 {
    (v as bv24 << 18) | (w as bv24 << 12) | (x as bv24 << 6) | y as bv24
  }

  function HighByte(g: bv24): byte {
    (g >> 16) as byte
  }

  function MiddleByte(g: bv24): byte {
    ((g >> 8) & 0xff) as byte
  }

  function LowByte(g: bv24): byte {
    (g & 0xff) as byte
  }

  lemma {:induction false} GroupBytes(v: byte, w: byte, x: byte, y: byte)
    requires v < 64 && w < 64 && x < 64 && y < 64
    ensures HighByte(Group(v, w, x, y)) == Byte0(v, w)
    ensures MiddleByte(Group(v, w, x, y)) == Byte1(w, x)
    ensures LowByte(Group(v, w, x, y)) == Byte2(x, y)
  {
  }

  lemma {:induction false} ValueSmall(c: byte)
    ensures Value(c) < 64
  {
  }

  function Digit(c: byte): byte {
    if c == PAD then 0 else Value(c)
  }

  // Exactly the well-formed quadruples decode, each to the leading bytes of its group.
  lemma {:induction false} QuadMeaning(s: seq<byte>)
    requires |s| == 4
    ensures Quad(s).ok <==> WellFormedQuad(s)
    ensures WellFormedQuad(s) ==>
              var g := Group(Digit(s[0]), Digit(s[1]), Digit(s[2]), Digit(s[3]));
              Quad(s).out == if s[2] == PAD then [HighByte(g)] else if s[3] == PAD then [HighByte(g), MiddleByte(g)]
                             else [HighByte(g), MiddleByte(g), LowByte(g)]
  {
    hide Group, HighByte, MiddleByte, LowByte, Byte0, Byte1, Byte2, Value;
    ValueSmall(s[0]); ValueSmall(s[1]); ValueSmall(s[2]); ValueSmall(s[3]);
    GroupBytes(Digit(s[0]), Digit(s[1]), Digit(s[2]), Digit(s[3]));
  }
}
