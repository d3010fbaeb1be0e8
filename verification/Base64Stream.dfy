/** Whole-stream consequences: chunked decoding, buffer sizes, and the shifted configuration files. */
module Base64Stream {
  import opened Base64
  import opened Base64Codec

  // ---------- chunked decoding ----------

  // The calls a caller makes: nonempty chunks through one context that holds `pending` at first.
  function Feed(pending: seq<byte>, chunks: seq<seq<byte>>): Outcome
    decreases |chunks|
  {
    if chunks == [] then Outcome(true, [], pending)
    else
      var r := Quads(pending + Strip(chunks[0]));
      if r.ok then Then(r.out, Feed(r.rest, chunks[1..])) else r
  }

  function Concat(chunks: seq<seq<byte>>): seq<byte> {
    if chunks == [] then [] else chunks[0] + Concat(chunks[1..])
  }

  // However the input is split, the calls together do what one call on the whole does.
  lemma {:induction false} StreamingIsOneShot(pending: seq<byte>, chunks: seq<seq<byte>>)
    requires |pending| < 4
    ensures Feed(pending, chunks) == Quads(pending + Strip(Concat(chunks)))
    decreases |chunks|
  {
    hide Strip, Quads;
    if chunks == [] {
      EndOfInput([], pending);
      ThenNothing(Quads(pending + Strip([])));
    } else {
      var s, later := Strip(chunks[0]), Strip(Concat(chunks[1..]));
      StripConcat(chunks[0], Concat(chunks[1..]));
      Regroup(pending, s, later);
      QuadsSplit(pending + s, later);
      var r := Quads(pending + s);
      if r.ok {
        StreamingIsOneShot(r.rest, chunks[1..]);
      }
    }
  }

  // Two ways of splitting the same input cannot be told apart: not by success, output or leftover.
  lemma {:induction false} SplitIrrelevant(pending: seq<byte>, chunks: seq<seq<byte>>, chunks': seq<seq<byte>>)
    requires |pending| < 4 && Concat(chunks) == Concat(chunks')
    ensures Feed(pending, chunks) == Feed(pending, chunks')
  {
    StreamingIsOneShot(pending, chunks);
    StreamingIsOneShot(pending, chunks');
  }

  // A partial quadruple remains exactly when the stripped length is no multiple of four.
  lemma {:induction false} LeftoverLength(s: seq<byte>)
    requires Quads(s).ok
    ensures |Quads(s).rest| == |s| % 4
    decreases |s|
  {
    hide Quad;
    if |s| >= 4 {
      LeftoverLength(s[4..]);
    }
  }

  function Block(s: seq<byte>, k: nat): seq<byte>
    requires 4 * k + 4 <= |s|
  {
    s[4 * k..4 * k + 4]
  }

  // A whole stream and its final flush: accepted iff every quadruple is well formed and none is cut.
  lemma {:induction false} StreamAccepted(s: seq<byte>)
    ensures Quads(s).ok && Quads(s).rest == [] <==>
            |s| % 4 == 0 && forall k :: 0 <= k < |s| / 4 ==> WellFormedQuad(Block(s, k))
    decreases |s|
  {
    hide Quad, WellFormedQuad;
    if |s| >= 4 {
      var t := s[4..];
      assert Block(s, 0) == s[..4];
      QuadMeaning(s[..4]);
      StreamAccepted(t);
      forall k | 1 <= k < |s| / 4
        ensures Block(s, k) == Block(t, k - 1)
      {
      }
      forall k | 0 <= k < |t| / 4
        ensures Block(t, k) == Block(s, k + 1)
      {
      }
    }
  }

  // ---------- buffer sizes under 64-bit wrap-around ----------

  const SIZE_T: nat := 0x1_0000_0000_0000_0000

  function Base64Length(inlen: nat): nat {
    (inlen + 2) % SIZE_T / 3 * 4 % SIZE_T
  }

  function EncodeSize(inlen: nat): nat {
    (1 + Base64Length(inlen)) % SIZE_T
  }

  function NeedLen(inlen: nat): nat {
    (3 * (inlen / 4) % SIZE_T + 3) % SIZE_T
  }

  // The single comparison made after the wrapped computation rejects exactly the lengths whose
  // true size does not fit; for the others nothing wrapped.
  lemma {:induction false} OverflowTestExact(inlen: nat)
    requires inlen < SIZE_T
    ensures var size := 1 + (inlen + 2) / 3 * 4;
            && (inlen > EncodeSize(inlen) <==> size >= SIZE_T)
            && (size < SIZE_T ==> EncodeSize(inlen) == size)
  {
    var t := (inlen + 2) / 3;
    if inlen + 2 >= SIZE_T {
      assert (inlen + 2) % SIZE_T == inlen + 2 - SIZE_T <= 1;
      assert (inlen + 2) % SIZE_T / 3 == 0;
    } else {
      assert (inlen + 2) % SIZE_T / 3 == t;
      if 4 * t >= SIZE_T {
        assert t * 4 % SIZE_T == 4 * t - SIZE_T;
      }
    }
  }

  method EncodeAlloc(input: seq<byte>) returns (out: array?<byte>, n: nat)
    requires |input| < SIZE_T
    ensures out == null <==> |Encode(input)| + 1 >= SIZE_T
    ensures out == null ==> n == 0
    ensures out != null ==> fresh(out) && out[..] == Encode(input) + [0] && n == |Encode(input)|
  {
    OverflowTestExact(|input|);
    var outlen := EncodeSize(|input|);
    if |input| > outlen {
      return null, 0;
    }
    out := new byte[outlen];
    EncodeBuffer(input, out);
    n := outlen - 1;
    assert out[..] == out[..n] + [out[n]];
  }

  // Nothing wraps, and the space suffices even with characters left over from earlier calls.
  lemma {:induction false} NeedLenSuffices(inlen: nat, pending: seq<byte>, s: seq<byte>)
    requires inlen < SIZE_T && |pending| < 4 && |s| <= inlen
    ensures NeedLen(inlen) == 3 * (inlen / 4) + 3
    ensures |Quads(pending + s).out| <= NeedLen(inlen)
  {
    hide Quads, NeedLen;
    NeedLenIs(inlen);
    QuarterSteps(|pending + s|, inlen);
  }

  lemma {:induction false} NeedLenIs(inlen: nat)
    requires inlen < SIZE_T
    ensures NeedLen(inlen) == 3 * (inlen / 4) + 3
  {
  }

  lemma {:induction false} QuarterSteps(n: nat, inlen: nat)
    requires n <= inlen + 3
    ensures n / 4 <= inlen / 4 + 1
  {
  }

  method DecodeAllocCtx(ctx: Context, input: seq<byte>) returns (ok: bool, out: seq<byte>)
    requires ctx.Valid() && |input| < SIZE_T
    modifies ctx, ctx.buf
    ensures ctx.Valid()
    ensures input != [] ==>
              var r := Quads(old(ctx.Pending()) + Strip(input));
              ok == r.ok && (ok ==> out == r.out && ctx.Pending() == r.rest)
    ensures input == [] ==>
              ctx.Pending() == old(ctx.Pending()) && (ok <==> ctx.Pending() == []) && (ok ==> out == [])
    ensures !ok ==> out == []
  {
    hide Quads, Strip, Quad;
    NeedLenSuffices(|input|, ctx.Pending(), Strip(input));
    var needlen := NeedLen(|input|);
    var buffer := new byte[needlen];
    var n;
    ok, n := DecodeCtx(ctx, input, buffer);
    out := if ok then buffer[..n] else [];
    NothingWritten([]);
  }

  // A run of calls through one context, ended by a flush: the outputs put together are those
  // of the whole input, and the run succeeds iff the input decodes with nothing left over.
  method DecodeStream(chunks: seq<seq<byte>>) returns (ok: bool, out: seq<byte>)
    requires forall c :: c in chunks ==> c != [] && |c| < SIZE_T
    ensures var r := Quads(Strip(Concat(chunks)));
            (ok <==> r.ok && r.rest == []) && (ok ==> out == r.out)
  {
    hide Quads, Strip, Concat;
    ghost var whole := Quads(Strip(Concat(chunks)));
    StreamingIsOneShot([], chunks);
    Unprefixed(Strip(Concat(chunks)));
    var ctx := new Context();
    ok, out := true, [];
    ThenNothing(whole);
    assert chunks[0..] == chunks;
    for i := 0 to |chunks|
      invariant fresh(ctx) && fresh(ctx.buf) && ctx.Valid()
      invariant whole == Then(out, Feed(ctx.Pending(), chunks[i..]))
    {
      ghost var p, later := ctx.Pending(), chunks[i + 1..];
      assert chunks[i..][1..] == later;
      var more;
      ok, more := DecodeAllocCtx(ctx, chunks[i]);
      if !ok {
        return;
      }
      ThenThen(out, more, Feed(ctx.Pending(), later));
      out := out + more;
    }
    var tail;
    ok, tail := DecodeAllocCtx(ctx, []);
  }

  // ---------- configuration files ----------

  function Shift(s: seq<byte>): seq<byte> {
    seq(|s|, i requires 0 <= i < |s| => s[i] + 33)
  }

  function Unshift(s: seq<byte>): seq<byte> {
    seq(|s|, i requires 0 <= i < |s| => s[i] - 33)
  }

  lemma {:induction false} CharRange(v: byte)
    requires v < 64
    ensures Char(v) <= 122 && PAD <= 122
  {
  }

  // The encoding tool adds 33 to bytes that must not pass 255.
  lemma {:induction false} ShiftStaysAByte(s: seq<byte>)
    ensures forall c :: c in Encode(s) ==> c <= 255 - 33
  {
    hide Char, Sextet0, Sextet1, Sextet2, Sextet3;
    if s != [] {
      CharRange(Sextet0(s[0]));
      CharRange(Sextet1(s[0], if |s| > 1 then s[1] else 0));
      if |s| > 1 {
        CharRange(Sextet2(s[1], if |s| > 2 then s[2] else 0));
      }
      if |s| > 2 {
        CharRange(Sextet3(s[2]));
        ShiftStaysAByte(s[3..]);
      }
    }
  }

  // "f", encoded as "Zg==" and shifted.
  lemma {:induction false} ShiftedVector()
    ensures Shift(Encode([102])) == [123, 136, 94, 94]
  {
    Rfc4648Vectors();
  }

  // Loading undoes what the encoding tool did.
  lemma {:induction false} ConfigRoundTrip(s: seq<byte>)
    ensures Quads(Strip(Unshift(Shift(Encode(s))))) == Outcome(true, s, [])
  {
    hide Quads, Strip, Encode;
    assert Unshift(Shift(Encode(s))) == Encode(s);
    EncodeClean(s);
    StripClean(Encode(s));
    DecodeEncode(s);
  }

  // The file's bytes are un-shifted in place and decoded into a buffer of the file's size.
  method GetDecodeBuf(file: array<byte>) returns (out: array<byte>, n: nat)
    modifies file
    ensures fresh(out) && out.Length == file.Length && n <= out.Length
    ensures file[..] == Unshift(old(file[..]))
    ensures out[..n] == Quads(Strip(file[..])).out
  {
    hide Quads, Strip, Quad;
    for i := 0 to file.Length
      invariant forall k :: 0 <= k < i ==> file[k] == old(file[k]) - 33
      invariant forall k :: i <= k < file.Length ==> file[k] == old(file[k])
    {
      file[i] := file[i] - 33;
    }
    out := new byte[file.Length];
    var ctx := new Context();
    var buf := file[..];
    Unprefixed(Strip(buf));
    FileFits(buf);
    var ok;
    ok, n := DecodeCtx(ctx, buf, out);
  }

  lemma {:induction false} FileFits(buf: seq<byte>)
    ensures |Quads(Strip(buf)).out| <= |buf|
    ensures buf == [] ==> Quads(Strip(buf)).out == Quad([]).out
  {
  }
}
