/** The encoder's and the streaming decoder's loops over buffers, and what they compute. */
module Base64Codec {
  import opened Bounds
  import opened Base64

  // ---------- the encoder ----------

  // The first four characters of an encoding.
  function FirstQuad(s: seq<byte>): (r: seq<byte>)
    requires s != []
    ensures |r| == 4
  {
    [Char(Sextet0(s[0])),
     Char(Sextet1(s[0], if |s| > 1 then s[1] else 0)),
     if |s| > 1 then Char(Sextet2(s[1], if |s| > 2 then s[2] else 0)) else PAD,
     if |s| > 2 then Char(Sextet3(s[2])) else PAD]
  }

  lemma {:induction false} EncodeStep(s: seq<byte>)
    requires s != []
    ensures Encode(s) == FirstQuad(s) + Encode(s[Min(3, |s|)..])
  {
  }

  // One more character of `g` behind `done`.
  method PutChar(ch: byte, out: array<byte>, o0: nat, ghost done: seq<byte>, ghost g: seq<byte>, ghost n: nat)
    returns (o: nat)
    requires o0 < out.Length && n < |g| && ch == g[n] && out[..o0] == done + g[..n]
    modifies out
    ensures o == o0 + 1 && out[..o] == done + g[..n + 1]
    ensures forall j :: o <= j < out.Length ==> out[j] == old(out[j])
  {
    out[o0] := ch;
    o := o0 + 1;
    assert out[..o] == old(out[..o0]) + [ch] && g[..n + 1] == g[..n] + [ch];
  }

  // One round of the loop: four characters, or as many as still fit.
  method EncodeGroup(input: seq<byte>, at: nat, inlen0: nat, out: array<byte>, o0: nat) returns (inlen: nat, o: nat)
    requires 0 < inlen0 && at + inlen0 == |input| && o0 < out.Length
    modifies out
    ensures o == Min(o0 + 4, out.Length) && out[..o] == old(out[..o0]) + FirstQuad(input[at..])[..o - o0]
    ensures forall j :: o <= j < out.Length ==> out[j] == old(out[j])
    ensures o < out.Length ==> inlen == if inlen0 > 3 then inlen0 - 3 else 0
  {
    hide Char, Sextet0, Sextet1, Sextet2, Sextet3;
    inlen := inlen0;
    ghost var g, done := FirstQuad(input[at..]), out[..o0];
    assert done + g[..0] == done;
    o := PutChar(Char(Sextet0(input[at])), out, o0, done, g, 0);
    if o == out.Length {
      return;
    }
    inlen := inlen - 1;
    o := PutChar(Char(Sextet1(input[at], if inlen != 0 then input[at + 1] else 0)), out, o, done, g, 1);
    if o == out.Length {
      return;
    }
    var third := PAD;
    if inlen != 0 {
      inlen := inlen - 1;
      third := Char(Sextet2(input[at + 1], if inlen != 0 then input[at + 2] else 0));
    }
    o := PutChar(third, out, o, done, g, 2);
    if o == out.Length {
      return;
    }
    o := PutChar(if inlen != 0 then Char(Sextet3(input[at + 2])) else PAD, out, o, done, g, 3);
    if o == out.Length {
      return;
    }
    if inlen != 0 {
      inlen := inlen - 1;
    }
  }

  // Writes the longest prefix of the encoding that fits, and a zero behind it if there is room.
  method EncodeBuffer(input: seq<byte>, out: array<byte>)
    modifies out
    ensures var e := Encode(input);
            var k := Min(|e|, out.Length);
            && out[..k] == e[..k]
            && (|e| < out.Length ==> out[|e|] == 0)
            && forall j :: |e| < j < out.Length ==> out[j] == old(out[j])
  {
    hide Encode, FirstQuad;
    ghost var e := Encode(input);
    var at, inlen, o := 0, |input|, 0;
    assert input[0..] == input;
    while inlen != 0 && o < out.Length
      invariant 0 <= inlen <= |input| && 0 <= o <= out.Length
      invariant inlen != 0 ==> at + inlen == |input|
      invariant e == out[..o] + Encode(input[|input| - inlen..])
      invariant forall j :: o <= j < out.Length ==> out[j] == old(out[j])
      decreases out.Length - o
    {
      EncodeStep(input[at..]);
      ghost var g, done := FirstQuad(input[at..]), out[..o];
      ghost var more := input[at..][Min(3, inlen)..];
      assert e == done + (g + Encode(more));
      var left;
      left, o := EncodeGroup(input, at, inlen, out, o);
      FitPrefix(done, g, Encode(more), o - |done|);
      if o == out.Length {
        assert out[..o] == out[..];
        break;
      }
      assert more == input[|input| - left..];
      inlen := left;
      if inlen != 0 {
        at := at + 3;
      }
    }
    EncodeNothing();
    if o < out.Length {
      out[o] := 0;
    }
  }

  lemma {:induction false} EncodeNothing()
    ensures Encode([]) == []
  {
  }

  lemma {:induction false} FitPrefix(done: seq<byte>, g: seq<byte>, tail: seq<byte>, k: nat)
    requires k <= |g|
    ensures done + g[..k] <= done + (g + tail)
    ensures k == |g| ==> done + (g + tail) == (done + g[..k]) + tail
  {
  }

  // ---------- the decoder ----------

  // `written` is what a buffer of `size` bytes holds after `bytes` were appended to `done`.
  predicate Fits(written: seq<byte>, done: seq<byte>, bytes: seq<byte>, size: nat) {
    && |done| <= |written| == Min(|done| + |bytes|, size)
    && written == done + bytes[..|written| - |done|]
  }

  method Put(b: byte, out: array<byte>, o0: nat, ghost done: seq<byte>, ghost bytes: seq<byte>) returns (o: nat)
    requires o0 <= out.Length && Fits(out[..o0], done, bytes, out.Length)
    modifies out
    ensures o <= out.Length && Fits(out[..o], done, bytes + [b], out.Length)
  {
    o := o0;
    if o < out.Length {
      out[o] := b;
      o := o + 1;
      assert out[..o] == old(out[..o0]) + [b];
    }
  }

  // Up to three bytes of the quadruple at the front of `s`, as far as they fit.
  method DecodeQuad(s: seq<byte>, out: array<byte>, o0: nat) returns (ok: bool, o: nat)
    requires o0 <= out.Length
    modifies out
    ensures ok == Quad(s).ok
    ensures o0 <= o <= out.Length && Fits(out[..o], old(out[..o0]), Quad(s).out, out.Length)
  {
    hide Byte0, Byte1, Byte2, IsBase64, Value, Fits;
    ghost var done := out[..o0];
    NoneFits(done, out.Length);
    o := o0;
    if |s| < 2 {
      return false, o;
    }
    if !IsBase64(s[0]) || !IsBase64(s[1]) {
      return false, o;
    }
    var b0 := Byte0(Value(s[0]), Value(s[1]));
    o := Put(b0, out, o, done, []);
    FitLength(out[..o], done, [] + [b0], out.Length);
    assert [] + [b0] == [b0];
    if |s| == 2 {
      return false, o;
    }
    if s[2] == PAD {
      if |s| != 4 {
        return false, o;
      }
      if s[3] != PAD {
        return false, o;
      }
    } else {
      if !IsBase64(s[2]) {
        return false, o;
      }
      var b1 := Byte1(Value(s[1]), Value(s[2]));
      o := Put(b1, out, o, done, [b0]);
      FitLength(out[..o], done, [b0] + [b1], out.Length);
      assert [b0] + [b1] == [b0, b1];
      if |s| == 3 {
        return false, o;
      }
      if s[3] == PAD {
        if |s| != 4 {
          return false, o;
        }
      } else {
        if !IsBase64(s[3]) {
          return false, o;
        }
        var b2 := Byte2(Value(s[2]), Value(s[3]));
        o := Put(b2, out, o, done, [b0, b1]);
        FitLength(out[..o], done, [b0, b1] + [b2], out.Length);
        assert [b0, b1] + [b2] == [b0, b1, b2];
      }
    }
    return true, o;
  }

  lemma {:induction false} NoneFits(done: seq<byte>, size: nat)
    requires |done| <= size
    ensures Fits(done, done, [], size)
  {
    assert done + [] == done;
  }

  lemma {:induction false} FitLength(written: seq<byte>, done: seq<byte>, bytes: seq<byte>, size: nat)
    requires Fits(written, done, bytes, size)
    ensures |done| <= |written| == Min(|done| + |bytes|, size)
  {
  }

  // What survives between two calls: up to three characters of a split quadruple.
  class Context {
    var i: nat
    const buf: array<byte>

    ghost predicate Valid()
      reads this, buf
    {
      buf.Length == 4 && i <= 4 && NEWLINE !in buf[..i]
    }

    ghost function Pending(): (p: seq<byte>)
      requires Valid()
      reads this, buf
      ensures |p| < 4 && NEWLINE !in p
    {
      if i == 4 then [] else buf[..i]
    }

    constructor ()
      ensures Valid() && Pending() == [] && fresh(buf)
    {
      i := 0;
      buf := new byte[4];
    }

    method Push(c: byte)
      requires Valid() && i < 4 && c != NEWLINE
      modifies this, buf
      ensures Valid() && i == old(i) + 1 && buf[..i] == old(buf[..i]) + [c]
    {
      buf[i] := c;
      i := i + 1;
    }
  }

  lemma {:induction false} StripSkip(input: seq<byte>, at: nat)
    requires at < |input|
    ensures Strip(input[at..]) == (if input[at] == NEWLINE then [] else [input[at]]) + Strip(input[at + 1..])
  {
    assert input[at..][1..] == input[at + 1..];
  }

  // The next quadruple: the four bytes in place when they hold no newline, else gathered
  // behind what the context already holds.
  method Get4(ctx: Context, input: seq<byte>, at0: nat) returns (quad: seq<byte>, at: nat)
    requires ctx.Valid() && at0 <= |input|
    modifies ctx, ctx.buf
    ensures ctx.Valid() && at0 <= at <= |input| && |quad| <= 4
    ensures old(ctx.Pending()) + Strip(input[at0..]) == quad + Strip(input[at..])
    ensures |quad| == 4 ==> ctx.Pending() == [] && at > at0
    ensures |quad| < 4 ==> at == |input| && ctx.Pending() == quad
  {
    hide Strip;
    if ctx.i == 4 {
      ctx.i := 0;
    }
    if ctx.i == 0 {
      if 4 <= |input| - at0 && NEWLINE !in input[at0..at0 + 4] {
        at, quad := at0 + 4, input[at0..at0 + 4];
        StripFront(input[at0..], quad, input[at..]);
        return;
      }
    }
    quad, at := Gather(ctx, input, at0);
  }

  lemma {:induction false} StripFront(s: seq<byte>, q: seq<byte>, rest: seq<byte>)
    requires s == q + rest && NEWLINE !in q
    ensures [] + Strip(s) == q + Strip(rest)
  {
    StripClean(q);
    StripConcat(q, rest);
  }

  lemma {:induction false} Regroup(a: seq<byte>, b: seq<byte>, c: seq<byte>)
    ensures a + (b + c) == (a + b) + c
    ensures a + [] == a
  {
  }

  method Gather(ctx: Context, input: seq<byte>, at0: nat) returns (quad: seq<byte>, at: nat)
    requires ctx.Valid() && at0 <= |input| && ctx.i < 4
    modifies ctx, ctx.buf
    ensures ctx.Valid() && at0 <= at <= |input| && |quad| <= 4
    ensures old(ctx.Pending()) + Strip(input[at0..]) == quad + Strip(input[at..])
    ensures |quad| == 4 ==> ctx.Pending() == [] && at > at0
    ensures |quad| < 4 ==> at == |input| && ctx.Pending() == quad
  {
    hide Strip;
    ghost var all := ctx.Pending() + Strip(input[at0..]);
    at := at0;
    while at < |input| && ctx.i < 4
      invariant ctx.Valid() && at0 <= at <= |input|
      invariant ctx.i == 4 ==> at > at0
      invariant all == ctx.buf[..ctx.i] + Strip(input[at..])
    {
      StripSkip(input, at);
      ghost var kept, later := ctx.buf[..ctx.i], Strip(input[at + 1..]);
      var c := input[at];
      at := at + 1;
      if c != NEWLINE {
        ctx.Push(c);
      }
      Regroup(kept, if c == NEWLINE then [] else [c], later);
    }
    quad := ctx.buf[..ctx.i];
  }

  lemma {:induction false} FitsThen(w: seq<byte>, w': seq<byte>, done: seq<byte>, bytes: seq<byte>, more: seq<byte>,
                                    size: nat)
    requires Fits(w, done, bytes, size) && Fits(w', w, more, size)
    ensures Fits(w', done, bytes + more, size)
  {
    if |w| == size {
      assert |w'| == |w| && w' == w;
      assert (bytes + more)[..|w| - |done|] == bytes[..|w| - |done|];
    } else {
      assert w == done + bytes;
    }
  }

  // A quadruple accepted in place holds no newline, so it is the first of the stripped stream.
  lemma {:induction false} FastQuad(s: seq<byte>)
    requires Quad(s).ok
    ensures |s| >= 4 && Quads(Strip(s)) == Then(Quad(s).out, Quads(Strip(s[4..])))
  {
    hide Strip, Byte0, Byte1, Byte2, Value;
    var q, rest := s[..4], Strip(s[4..]);
    assert NEWLINE !in q;
    assert s == q + s[4..];
    StripFront(s, q, s[4..]);
    assert [] + Strip(s) == Strip(s);
    SlowQuad(q, rest);
  }

  lemma {:induction false} SlowQuad(q: seq<byte>, rest: seq<byte>)
    requires |q| == 4
    ensures Quads(q + rest) == if Quad(q).ok then Then(Quad(q).out, Quads(rest)) else Quad(q)
  {
    hide Quad;
    assert (q + rest)[..4] == q && (q + rest)[4..] == rest;
  }

  // Nothing is written for a quadruple that starts with a newline, or for no input at all.
  lemma {:induction false} NothingWritten(s: seq<byte>)
    requires s == [] || s[0] == NEWLINE
    ensures !Quad(s).ok && Quad(s).out == []
  {
  }

  // The inner loop: quadruples straight from the input while they decode.  `save` is where the
  // output stood before the quadruple that did not.
  method FastQuads(input: seq<byte>, at0: nat, out: array<byte>, o0: nat)
    returns (at: nat, o: nat, save: nat, ghost bytes: seq<byte>)
    requires at0 <= |input| && o0 <= out.Length
    modifies out
    ensures at0 <= at <= |input| && o0 <= save <= o <= out.Length
    ensures Quads(Strip(input[at0..])) == Then(bytes, Quads(Strip(input[at..])))
    ensures Fits(out[..save], old(out[..o0]), bytes, out.Length)
    ensures (at == |input| || input[at] == NEWLINE) ==> o == save
  {
    hide Quad, Quads, Strip, Fits;
    ghost var done, all := out[..o0], Quads(Strip(input[at0..]));
    at, o, bytes := at0, o0, [];
    NoneFits(done, out.Length);
    ThenNothing(all);
    while true
      invariant at0 <= at <= |input| && o0 <= o <= out.Length
      invariant all == Then(bytes, Quads(Strip(input[at..])))
      invariant Fits(out[..o], done, bytes, out.Length)
      decreases |input| - at
    {
      save := o;
      ghost var w := out[..o];
      var s := input[at..];
      var ok;
      ok, o := DecodeQuad(s, out, save);
      FitLength(out[..o], w, Quad(s).out, out.Length);
      if !ok {
        FitPrefixes(out[..o], w, Quad(s).out, out.Length);
        assert out[..save] == out[..o][..save] == w;
        if at == |input| || input[at] == NEWLINE {
          NothingWritten(s);
        }
        return;
      }
      FastQuad(s);
      FitsThen(w, out[..o], done, bytes, Quad(s).out, out.Length);
      ThenThen(bytes, Quad(s).out, Quads(Strip(s[4..])));
      bytes := bytes + Quad(s).out;
      at := at + 4;
      assert s[4..] == input[at..];
    }
  }

  lemma {:induction false} ThenNothing(r: Outcome)
    ensures Then([], r) == r
  {
    assert [] + r.out == r.out;
  }

  lemma {:induction false} FitPrefixes(written: seq<byte>, done: seq<byte>, bytes: seq<byte>, size: nat)
    requires Fits(written, done, bytes, size)
    ensures done <= written
  {
  }

  // Decodes what the context holds followed by the input; an empty input flushes the context.
  method DecodeCtx(ctx: Context, input: seq<byte>, out: array<byte>) returns (ok: bool, n: nat)
    requires ctx.Valid() && out != ctx.buf
    modifies ctx, ctx.buf, out
    ensures ctx.Valid() && n <= out.Length
    ensures input != [] ==>
              var r := Quads(old(ctx.Pending()) + Strip(input));
              ok == r.ok && Fits(out[..n], [], r.out, out.Length) && (ok ==> ctx.Pending() == r.rest)
    ensures input == [] ==>
              && ctx.Pending() == old(ctx.Pending())
              && (ok <==> ctx.Pending() == [])
              && Fits(out[..n], [], Quad(ctx.Pending()).out, out.Length)
  {
    if input == [] {
      ok, n := Flush(ctx, out);
    } else {
      ok, n := DecodeMore(ctx, input, out);
    }
  }

  method Flush(ctx: Context, out: array<byte>) returns (ok: bool, n: nat)
    requires ctx.Valid() && out != ctx.buf
    modifies ctx, ctx.buf, out
    ensures ctx.Valid() && n <= out.Length
    ensures ctx.Pending() == old(ctx.Pending())
    ensures ok <==> ctx.Pending() == []
    ensures Fits(out[..n], [], Quad(ctx.Pending()).out, out.Length)
  {
    hide Quad, Quads, Fits, Strip;
    n := 0;
    NoneFits(out[..0], out.Length);
    NothingWritten([]);
    var non_nl, _ := Get4(ctx, [], 0);
    ghost var p := ctx.Pending();
    NothingStripped();
    Regroup(old(ctx.Pending()), [], []);
    Regroup(non_nl, [], []);
    if non_nl == [] {
      return true, n;
    }
    ok, n := DecodeQuad(non_nl, out, n);
    return false, n;
  }

  lemma {:induction false} NothingStripped()
    ensures Strip([]) == []
  {
  }

  method DecodeMore(ctx: Context, input: seq<byte>, out: array<byte>) returns (ok: bool, n: nat)
    requires ctx.Valid() && out != ctx.buf && input != []
    modifies ctx, ctx.buf, out
    ensures ctx.Valid() && n <= out.Length
    ensures var r := Quads(old(ctx.Pending()) + Strip(input));
            ok == r.ok && Fits(out[..n], [], r.out, out.Length) && (ok ==> ctx.Pending() == r.rest)
  {
    hide Quad, Quads, Strip, Fits, Then;
    var ctx_i := ctx.i;
    var at, o := 0, 0;
    ghost var bytes: seq<byte>, all := [], Quads(ctx.Pending() + Strip(input));
    ThenNothing(all);
    NoneFits(out[..0], out.Length);
    assert input[0..] == input;
    while true
      invariant ctx.Valid() && 0 <= at <= |input| && 0 <= o <= out.Length
      invariant ctx_i == 0 ==> ctx.Pending() == []
      invariant all == Then(bytes, Quads(ctx.Pending() + Strip(input[at..])))
      invariant Fits(out[..o], [], bytes, out.Length)
      decreases |input| - at
    {
      var save := o;
      ghost var p := ctx.Pending();
      if ctx_i == 0 {
        ghost var w, s := out[..o], Strip(input[at..]);
        Unprefixed(s);
        ghost var more;
        at, o, save, more := FastQuads(input, at, out, o);
        FitsThen(w, out[..save], [], bytes, more, out.Length);
        ThenThen(bytes, more, Quads(Strip(input[at..])));
        bytes := bytes + more;
        Unprefixed(Strip(input[at..]));
        assert ctx.Pending() == p;
      }
      if at == |input| {
        EndOfInput(bytes, p);
        return true, o;
      }
      if input[at] == NEWLINE {
        StripSkip(input, at);
        Unprefixed(Strip(input[at + 1..]));
        at := at + 1;
        continue;
      }
      var done;
      done, ok, at, o, bytes := SlowRound(ctx, input, at, out, save, all, bytes);
      if done {
        return ok, o;
      }
    }
  }

  // A quadruple gathered through the context; `done` when it was the last, or did not decode.
  method SlowRound(ctx: Context, input: seq<byte>, at0: nat, out: array<byte>, o0: nat,
                   ghost all: Outcome, ghost bytes0: seq<byte>)
    returns (done: bool, ok: bool, at: nat, o: nat, ghost bytes: seq<byte>)
    requires ctx.Valid() && out != ctx.buf && at0 <= |input| && o0 <= out.Length
    requires all == Then(bytes0, Quads(ctx.Pending() + Strip(input[at0..])))
    requires Fits(out[..o0], [], bytes0, out.Length)
    modifies ctx, ctx.buf, out
    ensures ctx.Valid() && at0 <= at <= |input| && o <= out.Length
    ensures done ==> ok == all.ok && Fits(out[..o], [], all.out, out.Length) && (ok ==> ctx.Pending() == all.rest)
    ensures !done ==>
              && at > at0 && ctx.Pending() == [] && all == Then(bytes, Quads([] + Strip(input[at..])))
              && Fits(out[..o], [], bytes, out.Length)
  {
    hide Quad, Quads, Strip, Fits, Then;
    o, bytes := o0, bytes0;
    var non_nl;
    non_nl, at := Get4(ctx, input, at0);
    if |non_nl| < 4 {
      EndOfInput(bytes, non_nl);
      done, ok := true, true;
      return;
    }
    SlowQuad(non_nl, Strip(input[at..]));
    ghost var w := out[..o];
    ok, o := DecodeQuad(non_nl, out, o);
    FitsThen(w, out[..o], [], bytes, Quad(non_nl).out, out.Length);
    done := !ok;
    if ok {
      ThenThen(bytes, Quad(non_nl).out, Quads(Strip(input[at..])));
      bytes := bytes + Quad(non_nl).out;
      Unprefixed(Strip(input[at..]));
    } else {
      ThenFields(bytes, Quad(non_nl));
    }
  }

  lemma {:induction false} Unprefixed(s: seq<byte>)
    ensures [] + s == s
  {
  }

  lemma {:induction false} ThenFields(o: seq<byte>, r: Outcome)
    ensures Then(o, r).out == o + r.out && Then(o, r).ok == r.ok && Then(o, r).rest == r.rest
  {
  }

  lemma {:induction false} EndOfInput(bytes: seq<byte>, p: seq<byte>)
    requires |p| < 4
    ensures Then(bytes, Quads(p + Strip([]))) == Outcome(true, bytes, p)
  {
    assert p + Strip([]) == p && bytes + [] == bytes;
  }
}
