/** The incremental UTF-8 decoder of libutf8 (`utf8_decode`): the caller
    keeps a `utf8_dec_state_t` and feeds one byte at a time; each call
    returns a status and, when a code point is complete, stores it through
    `out`.

    Bytes and code points are modelled as bounded integers. For a byte `c`,
    the bit tests and masks of the source read as arithmetic: `c & 0x80` is
    set exactly when `c >= 0x80`, and `c & ~0xC0`, `c & ~0xE0`, `c & ~0xF0`
    keep the low six, five and four bits, `c % 64`, `c % 32`, `c % 16`. */
module Utf8 {

  import opened CInt
  import opened Optional
  import opened Arith

  /** `utf8_dec_state_t`. A zero `remaining` means no sequence is in progress. */
  datatype DecState = DecState(remaining: u8, numBytes: u8, codepoint: u32)

  /** The status codes `UTF8_CODEPOINT_EXTRACTED`, `UTF8_MORE_BYTES_REQUIRED`
      and `UTF8_INVALID_INPUT`. */
  datatype Status = Extracted | MoreBytesRequired | InvalidInput
  {
    /** The numeric value of the status code. */
    function Code(): (n: nat)
      ensures n < 3
      ensures this == Extracted <==> n == 0
      ensures this == MoreBytesRequired <==> n == 1
    {
      match this
      case Extracted => 0
      case MoreBytesRequired => 1
      case InvalidInput => 2
    }
  }

  /** What one call leaves behind: the status it returns (`None` when control
      reaches the end of the function without a `return`, so the value the
      caller sees is undefined), the decoder state, and the value stored
      through `out` (`None` when `out` is not written). */
  datatype Decoded = Decoded(status: Option<Status>, state: DecState, out: Option<u32>)

  /** The state a caller starts from: all fields zero. */
  const Initial: DecState := DecState(0, 0, 0)

  /** `utf8_decode` as written. The lead-byte tests are made in the order
      two-byte, three-byte, four-byte, and every byte that passes the later
      tests (`>= 0xE0`, `>= 0xF0`) has already passed `>= 0xC0`, so the
      second and third branches are never taken. A lead byte `0x80..0xBF`
      matches no branch and the function ends without returning a value. */
  function Decode(s: DecState, c: u8): (r: Decoded)
    ensures r.out.Some? <==> r.status == Some(Extracted)
    ensures r.status == Some(InvalidInput) || r.status.None? ==> r.state == s
  {
    if s.remaining == 0 then
      if c >= 0x80 then
        if c >= 0xC0 then
          Decoded(Some(MoreBytesRequired), Lead(c, Two), None)
        else if c >= 0xE0 then
          Decoded(Some(MoreBytesRequired), Lead(c, Three), None)
        else if c >= 0xF0 then
          Decoded(Some(MoreBytesRequired), Lead(c, Four), None)
        else
          Decoded(None, s, None)
      else
        Decoded(Some(Extracted), s, Some(c))
    else
      Continue(s, c)
  }

  /** The sequence lengths a lead byte can announce. */
  datatype Length = Two | Three | Four

  /** The state after a lead byte of a sequence of `len` bytes: one byte
      fewer remains, and the lead byte's payload (`c & ~0xC0`, `c & ~0xE0`,
      `c & ~0xF0`) starts the code point. */
  function Lead(c: u8, len: Length): (s: DecState)
    ensures s.remaining + 1 == s.numBytes
    ensures len == Two ==> s == DecState(1, 2, c % 64)
    ensures len == Three ==> s == DecState(2, 3, c % 32)
    ensures len == Four ==> s == DecState(3, 4, c % 16)
  {
    match len
    case Two => DecState(1, 2, c % 64)
    case Three => DecState(2, 3, c % 32)
    case Four => DecState(3, 4, c % 16)
  }

  /** `(c & ~0xC0) | (codepoint << 6)` on `uint32_t`: the shift drops the top
      six bits of the code point and leaves the low six clear, so the OR
      adds the byte's payload. */
  function Append6(cp: u32, c: u8): (r: u32)
    ensures r % 64 == c % 64
    ensures r / 64 == cp % 0x400_0000
  {
    DivModOf(cp % 0x400_0000, 64, c % 64);
    (cp % 0x400_0000) * 64 + c % 64
  }

  /** The continuation-byte branch, shared by both decoders: a byte without
      the high bit is rejected and the state kept; otherwise its six payload
      bits are appended to the code point and one fewer byte is expected,
      the code point being stored through `out` when none remain. */
  function Continue(s: DecState, c: u8): (r: Decoded)
    requires s.remaining != 0
    ensures r.out.Some? <==> r.status == Some(Extracted)
    ensures c < 0x80 ==> r == Decoded(Some(InvalidInput), s, None)
    ensures c >= 0x80 ==>
      && r.state == DecState(s.remaining - 1, s.numBytes, Append6(s.codepoint, c))
      && r.status == Some(if s.remaining == 1 then Extracted else MoreBytesRequired)
      && (s.remaining == 1 ==> r.out == Some(r.state.codepoint))
  {
    if c < 0x80 then
      Decoded(Some(InvalidInput), s, None)
    else
      var next := s.(remaining := s.remaining - 1, codepoint := Append6(s.codepoint, c));
      if next.remaining == 0 then Decoded(Some(Extracted), next, Some(next.codepoint))
      else Decoded(Some(MoreBytesRequired), next, None)
  }

  /** An ASCII byte outside a sequence is returned as it is and the state is
      not touched. */
  lemma DecodeAscii(s: DecState, c: u8)
    requires s.remaining == 0 && c < 0x80
    ensures Decode(s, c) == Decoded(Some(Extracted), s, Some(c))
  {
  }

  /** Any byte from `0xC0` up starts a two-byte sequence, whatever its
      higher bits announce; its low six bits start the code point. */
  lemma DecodeLead(s: DecState, c: u8)
    requires s.remaining == 0 && c >= 0xC0
    ensures Decode(s, c) == Decoded(Some(MoreBytesRequired), DecState(1, 2, c % 64), None)
  {
  }

  /** A continuation byte outside a sequence reaches the end of the function
      without a return value; state and `out` are untouched. */
  lemma DecodeStrayContinuation(s: DecState, c: u8)
    requires s.remaining == 0 && 0x80 <= c < 0xC0
    ensures Decode(s, c) == Decoded(None, s, None)
  {
  }

  // ---------------------------------------------------------------------
  // Feeding a byte string

  /** The code points a run of calls extracts, and the state it leaves. */
  datatype Trace = Trace(points: seq<u32>, state: DecState)

  /** Feeding `bytes` one call at a time, as the callers' loops do,
      collecting every extracted code point. A rejected byte is skipped, as
      the callers do after reporting it, and the loop goes on with the
      state the call left; `None` as soon as a call returns no value, where
      the callers would read an undefined status. */
  function Run(step: (DecState, u8) -> Decoded, s: DecState, bytes: seq<u8>): (r: Option<Trace>)
    ensures bytes == [] ==> r == Some(Trace([], s))
    decreases |bytes|
  {
    if bytes == [] then Some(Trace([], s))
    else
      var d := step(s, bytes[0]);
      if d.status.Some? then
        match Run(step, d.state, bytes[1..])
        case None => None
        case Some(t) => Some(Trace(Got(d) + t.points, t.state))
      else None
  }

  /** The code point one call stores, as a list of zero or one elements. */
  function Got(d: Decoded): (g: seq<u32>)
    ensures d.out.Some? ==> g == [d.out.value]
    ensures d.out.None? ==> g == []
  {
    if d.out.Some? then [d.out.value] else []
  }

  /** A byte that only advances the sequence adds no code point. */
  lemma RunMore(step: (DecState, u8) -> Decoded, s: DecState, bytes: seq<u8>)
    requires bytes != [] && step(s, bytes[0]).status == Some(MoreBytesRequired)
    requires step(s, bytes[0]).out.None?
    ensures Run(step, s, bytes) == Run(step, step(s, bytes[0]).state, bytes[1..])
  {
    match Run(step, step(s, bytes[0]).state, bytes[1..])
    case None =>
    case Some(t) => assert [] + t.points == t.points;
  }

  /** A rejected byte adds no code point and does not stop the run: feeding
      goes on from the state the call left. */
  lemma RunInvalid(step: (DecState, u8) -> Decoded, s: DecState, bytes: seq<u8>)
    requires bytes != [] && step(s, bytes[0]).status == Some(InvalidInput)
    requires step(s, bytes[0]).out.None?
    ensures Run(step, s, bytes) == Run(step, step(s, bytes[0]).state, bytes[1..])
  {
    match Run(step, step(s, bytes[0]).state, bytes[1..])
    case None =>
    case Some(t) => assert [] + t.points == t.points;
  }

  /** An ASCII byte inside a two-byte sequence is rejected and skipped, and
      the sequence then completes: C3 41 A9 yields U+00E9 alone. */
  lemma RunSkipsInvalid()
    ensures Run(Decode, Initial, [0xC3, 0x41, 0xA9]) == Some(Trace([0xE9], DecState(0, 2, 0xE9)))
  {
    var bytes: seq<u8> := [0xC3, 0x41, 0xA9];
    var s1 := DecState(1, 2, 3);
    assert Decode(Initial, 0xC3) == Decoded(Some(MoreBytesRequired), s1, None);
    assert Decode(s1, 0x41) == Decoded(Some(InvalidInput), s1, None);
    assert Append6(3, 0xA9) == 0xE9;
    assert Decode(s1, 0xA9) == Decoded(Some(Extracted), DecState(0, 2, 0xE9), Some(0xE9));
    assert bytes[1..] == [0x41, 0xA9] && bytes[1..][1..] == [0xA9] && bytes[1..][1..][1..] == [];
    var last: seq<u8> := [0xA9];
    assert last[1..] == [];
    var pts: seq<u32> := [0xE9];
    assert Got(Decode(s1, 0xA9)) == pts && pts + [] == pts && [] + pts == pts;
    assert Run(Decode, s1, last) == Some(Trace(pts, DecState(0, 2, 0xE9)));
    var rest: seq<u8> := [0x41, 0xA9];
    assert rest[0] == 0x41 && rest[1..] == last && bytes[1..] == rest;
    RunInvalid(Decode, s1, rest);
    assert Run(Decode, s1, rest) == Some(Trace([0xE9], DecState(0, 2, 0xE9)));
    assert Run(Decode, Initial, bytes) == Some(Trace(pts, DecState(0, 2, 0xE9)));
  }

  /** A byte that completes a code point puts it in front of the rest. */
  lemma RunExtract(step: (DecState, u8) -> Decoded, s: DecState, bytes: seq<u8>, v: u32)
    requires bytes != [] && step(s, bytes[0]).status == Some(Extracted) && step(s, bytes[0]).out == Some(v)
    ensures Run(step, s, bytes) ==
      match Run(step, step(s, bytes[0]).state, bytes[1..])
      case None => None
      case Some(t) => Some(Trace([v] + t.points, t.state))
  {
  }

  /** Feeding `a + b` is feeding `a`, then feeding `b` from where `a` left off. */
  lemma {:induction false} RunConcat(step: (DecState, u8) -> Decoded, s: DecState, a: seq<u8>, b: seq<u8>)
    requires Run(step, s, a).Some?
    ensures Run(step, s, a + b) ==
      match Run(step, Run(step, s, a).value.state, b)
      case None => None
      case Some(t) => Some(Trace(Run(step, s, a).value.points + t.points, t.state))
    decreases |a|
  {
    if a == [] {
      assert a + b == b;
      match Run(step, s, b)
      case None =>
      case Some(t) => assert [] + t.points == t.points;
    } else {
      var d := step(s, a[0]);
      assert (a + b)[0] == a[0];
      assert (a + b)[1..] == a[1..] + b;
      RunConcat(step, d.state, a[1..], b);
      var ta := Run(step, d.state, a[1..]).value;
      match Run(step, ta.state, b)
      case None =>
      case Some(t) =>
        assert Got(d) + (ta.points + t.points) == (Got(d) + ta.points) + t.points;
    }
  }

  /** Fed from a state with at most one byte outstanding, the decoder as
      written never expects more than one further byte: the only sequences
      it starts are two-byte ones. */
  lemma {:induction false} RunRemainingAtMostOne(s: DecState, bytes: seq<u8>)
    requires s.remaining <= 1
    requires Run(Decode, s, bytes).Some?
    ensures Run(Decode, s, bytes).value.state.remaining <= 1
    decreases |bytes|
  {
    if bytes != [] {
      var d := Decode(s, bytes[0]);
      RunRemainingAtMostOne(d.state, bytes[1..]);
    }
  }

  // ---------------------------------------------------------------------
  // UTF-8 encoding, the decoder's partner

  /** Code points UTF-8 can encode (surrogates are not excluded, as the
      decoder does not exclude them either). */
  predicate Encodable(cp: u32)
  {
    cp < 0x11_0000
  }

  /** The standard UTF-8 encoding: one to four bytes, the lead byte
      announcing the length, six payload bits per continuation byte. */
  function Encode(cp: u32): (bytes: seq<u8>)
    requires Encodable(cp)
    ensures 1 <= |bytes| <= 4
    ensures |bytes| == 1 <==> cp < 0x80
    ensures |bytes| == 2 <==> 0x80 <= cp < 0x800
    ensures forall i | 1 <= i < |bytes| :: 0x80 <= bytes[i] < 0xC0
  {
    if cp < 0x80 then
      [cp]
    else if cp < 0x800 then
      [0xC0 + cp / 64, 0x80 + cp % 64]
    else if cp < 0x1_0000 then
      [0xE0 + cp / 0x1000, 0x80 + cp / 64 % 64, 0x80 + cp % 64]
    else
      [0xF0 + cp / 0x4_0000, 0x80 + cp / 0x1000 % 64, 0x80 + cp / 64 % 64, 0x80 + cp % 64]
  }

  /** The encodings of a string of code points, one after the other. */
  function EncodeAll(cps: seq<u32>): (bytes: seq<u8>)
    requires forall i | 0 <= i < |cps| :: Encodable(cps[i])
    ensures |cps| <= |bytes| <= 4 * |cps|
  {
    if cps == [] then [] else Encode(cps[0]) + EncodeAll(cps[1..])
  }

  /** A two-byte encoding: the lead byte carries `cp / 64`, the continuation
      byte `cp % 64`. */
  lemma Encode2Parts(cp: u32)
    requires 0x80 <= cp < 0x800
    ensures Encode(cp) == [0xC0 + cp / 64, 0x80 + cp % 64]
    ensures 0xC0 <= Encode(cp)[0] < 0xE0 && Encode(cp)[0] % 64 == cp / 64
    ensures Append6(cp / 64, Encode(cp)[1]) == cp
  {
  }

  lemma DecodeTwoByteRoundTrip(s: DecState, cp: u32)
    requires s.remaining == 0 && 0x80 <= cp < 0x800
    ensures Run(Decode, s, Encode(cp)) == Some(Trace([cp], DecState(0, 2, cp)))
  {
    var b := Encode(cp);
    Encode2Parts(cp);
    var d0 := Decode(s, b[0]);
    assert d0 == Decoded(Some(MoreBytesRequired), DecState(1, 2, cp / 64), None);
    var d1 := Decode(d0.state, b[1]);
    assert d1 == Decoded(Some(Extracted), DecState(0, 2, cp), Some(cp));
    assert b[1..][1..] == [];
    RunMore(Decode, s, b);
    RunExtract(Decode, d0.state, b[1..], cp);
    assert [cp] + [] == [cp];
  }

  /** The decoder as written decodes every one- and two-byte encoding
      (U+0000 to U+07FF) back to its code point and ends outside a sequence. */
  lemma DecodeShortRoundTrip(s: DecState, cp: u32)
    requires s.remaining == 0 && cp < 0x800
    ensures Run(Decode, s, Encode(cp)).Some?
    ensures Run(Decode, s, Encode(cp)).value.points == [cp]
    ensures Run(Decode, s, Encode(cp)).value.state.remaining == 0
  {
    if cp < 0x80 {
      var b := Encode(cp);
      assert b[1..] == [];
      RunExtract(Decode, s, b, cp);
      assert [cp] + [] == [cp];
    } else {
      DecodeTwoByteRoundTrip(s, cp);
    }
  }

  /** So a whole string of code points below U+0800 survives encoding and
      decoding with the decoder as written. */
  lemma {:induction false} DecodeShortStringRoundTrip(s: DecState, cps: seq<u32>)
    requires s.remaining == 0
    requires forall i | 0 <= i < |cps| :: cps[i] < 0x800
    ensures Run(Decode, s, EncodeAll(cps)).Some?
    ensures Run(Decode, s, EncodeAll(cps)).value.points == cps
    ensures Run(Decode, s, EncodeAll(cps)).value.state.remaining == 0
    decreases |cps|
  {
    if cps != [] {
      DecodeShortRoundTrip(s, cps[0]);
      var mid := Run(Decode, s, Encode(cps[0])).value.state;
      DecodeShortStringRoundTrip(mid, cps[1..]);
      RunConcat(Decode, s, Encode(cps[0]), EncodeAll(cps[1..]));
    }
  }

  /** The three-byte encoding of U+20AC (E2 82 AC) is read as the two-byte
      sequence E2 82, yielding U+0882, and the final AC then reaches the end
      of the function without a return value. */
  lemma ThreeByteMisread()
    ensures Encode(0x20AC) == [0xE2, 0x82, 0xAC]
    ensures Decode(Initial, 0xE2) == Decoded(Some(MoreBytesRequired), DecState(1, 2, 0x22), None)
    ensures Decode(DecState(1, 2, 0x22), 0x82) == Decoded(Some(Extracted), DecState(0, 2, 0x882), Some(0x882))
    ensures Decode(DecState(0, 2, 0x882), 0xAC).status.None?
    ensures Run(Decode, Initial, Encode(0x20AC)).None?
  {
    var b := Encode(0x20AC);
    assert b[1..] == [0x82, 0xAC];
    assert b[1..][1..] == [0xAC];
    assert Append6(0x22, 0x82) == 0x882;
  }

  // ---------------------------------------------------------------------
  // The decoder with its lead-byte tests in the intended order

  /** `utf8_decode` with the lead-byte tests made from the longest pattern
      down (`0xF0`, then `0xE0`, then `0xC0`) and a stray continuation byte
      rejected with `UTF8_INVALID_INPUT` instead of falling off the end. */
  function DecodeFixed(s: DecState, c: u8): (r: Decoded)
    ensures r.out.Some? <==> r.status == Some(Extracted)
    ensures r.status.Some?
    ensures r.status == Some(InvalidInput) ==> r.state == s
    ensures s.remaining <= 3 ==> r.state.remaining <= 3
  {
    if s.remaining == 0 then
      if c >= 0x80 then
        if c >= 0xF0 then
          Decoded(Some(MoreBytesRequired), Lead(c, Four), None)
        else if c >= 0xE0 then
          Decoded(Some(MoreBytesRequired), Lead(c, Three), None)
        else if c >= 0xC0 then
          Decoded(Some(MoreBytesRequired), Lead(c, Two), None)
        else
          Decoded(Some(InvalidInput), s, None)
      else
        Decoded(Some(Extracted), s, Some(c))
    else
      Continue(s, c)
  }

  /** A three-byte encoding, byte by byte. */
  lemma Encode3Parts(cp: u32)
    requires 0x800 <= cp < 0x1_0000
    ensures Encode(cp) == [0xE0 + cp / 0x1000, 0x80 + cp / 64 % 64, 0x80 + cp % 64]
    ensures 0xE0 <= Encode(cp)[0] < 0xF0 && Encode(cp)[0] % 32 == cp / 0x1000
    ensures Append6(cp / 0x1000, Encode(cp)[1]) == cp / 64
    ensures Append6(cp / 64, Encode(cp)[2]) == cp
  {
    var b := Encode(cp);
    var q := cp / 0x1000;
    assert b == [0xE0 + q, 0x80 + cp / 64 % 64, 0x80 + cp % 64];
    assert b[0] % 32 == q by {
      assert q < 16;
      DivModOf(7, 32, q);
    }
    assert Append6(q, b[1]) == cp / 64 by {
      AppendNext6(cp, 64);
    }
    assert Append6(cp / 64, b[2]) == cp by {
      AppendNext6(cp, 1);
    }
  }

  /** Appending the next six bits of `cp` to its prefix above them gives
      the prefix one level down. */
  lemma AppendNext6(cp: u32, k: nat)
    requires k == 1 || k == 64 || k == 0x1000
    ensures Append6(cp / (64 * k), 0x80 + cp / k % 64) == cp / k
  {
    var hi := cp / (64 * k);
    var lo := cp / k % 64;
    assert cp / k == hi * 64 + lo by {
      assert cp / k / 64 == cp / (64 * k);
    }
    assert (0x80 + lo) % 64 == lo;
    assert hi % 0x400_0000 == hi;
  }

  /** A four-byte encoding, byte by byte. */
  lemma Encode4Parts(cp: u32)
    requires 0x1_0000 <= cp < 0x11_0000
    ensures Encode(cp) == [0xF0 + cp / 0x4_0000, 0x80 + cp / 0x1000 % 64, 0x80 + cp / 64 % 64, 0x80 + cp % 64]
    ensures 0xF0 <= Encode(cp)[0] && Encode(cp)[0] % 16 == cp / 0x4_0000
    ensures Append6(cp / 0x4_0000, Encode(cp)[1]) == cp / 0x1000
    ensures Append6(cp / 0x1000, Encode(cp)[2]) == cp / 64
    ensures Append6(cp / 64, Encode(cp)[3]) == cp
  {
    var b := Encode(cp);
    assert b == [0xF0 + cp / 0x4_0000, 0x80 + cp / 0x1000 % 64, 0x80 + cp / 64 % 64, 0x80 + cp % 64];
    assert b[0] % 16 == cp / 0x4_0000 by {
      assert cp / 0x4_0000 <= 4;
      DivModOf(15, 16, cp / 0x4_0000);
    }
    assert Append6(cp / 0x4_0000, b[1]) == cp / 0x1000 by {
      AppendNext6(cp, 0x1000);
    }
    assert Append6(cp / 0x1000, b[2]) == cp / 64 by {
      AppendNext6(cp, 64);
    }
    assert Append6(cp / 64, b[3]) == cp by {
      AppendNext6(cp, 1);
    }
  }

  lemma FixedRoundTrip1(s: DecState, cp: u32)
    requires s.remaining == 0 && cp < 0x80
    ensures Run(DecodeFixed, s, Encode(cp)) == Some(Trace([cp], s))
  {
    var b := Encode(cp);
    assert b[1..] == [];
    RunExtract(DecodeFixed, s, b, cp);
    assert [cp] + [] == [cp];
  }

  lemma FixedRoundTrip2(s: DecState, cp: u32)
    requires s.remaining == 0 && 0x80 <= cp < 0x800
    ensures Run(DecodeFixed, s, Encode(cp)) == Some(Trace([cp], DecState(0, 2, cp)))
  {
    var b := Encode(cp);
    Encode2Parts(cp);
    var d0 := DecodeFixed(s, b[0]);
    assert d0 == Decoded(Some(MoreBytesRequired), DecState(1, 2, cp / 64), None);
    var d1 := DecodeFixed(d0.state, b[1]);
    assert d1 == Decoded(Some(Extracted), DecState(0, 2, cp), Some(cp));
    assert b[1..][1..] == [];
    RunMore(DecodeFixed, s, b);
    RunExtract(DecodeFixed, d0.state, b[1..], cp);
    assert [cp] + [] == [cp];
  }

  lemma FixedRoundTrip3(s: DecState, cp: u32)
    requires s.remaining == 0 && 0x800 <= cp < 0x1_0000
    ensures Run(DecodeFixed, s, Encode(cp)) == Some(Trace([cp], DecState(0, 3, cp)))
  {
    var b := Encode(cp);
    var d0, d1 := Fixed3Steps(s, cp);
    assert b[1..][1..][1..] == [];
    RunMore(DecodeFixed, s, b);
    RunMore(DecodeFixed, d0.state, b[1..]);
    RunExtract(DecodeFixed, d1.state, b[1..][1..], cp);
    assert [cp] + [] == [cp];
  }

  /** The three bytes of a three-byte encoding, decoded one at a time. */
  lemma Fixed3Steps(s: DecState, cp: u32) returns (d0: Decoded, d1: Decoded)
    requires s.remaining == 0 && 0x800 <= cp < 0x1_0000
    ensures |Encode(cp)| == 3
    ensures d0 == DecodeFixed(s, Encode(cp)[0]) == Decoded(Some(MoreBytesRequired), DecState(2, 3, cp / 0x1000), None)
    ensures d1 == DecodeFixed(d0.state, Encode(cp)[1]) == Decoded(Some(MoreBytesRequired), DecState(1, 3, cp / 64), None)
    ensures DecodeFixed(d1.state, Encode(cp)[2]) == Decoded(Some(Extracted), DecState(0, 3, cp), Some(cp))
  {
    var b := Encode(cp);
    Encode3Parts(cp);
    d0 := DecodeFixed(s, b[0]);
    d1 := DecodeFixed(d0.state, b[1]);
  }

  lemma FixedRoundTrip4(s: DecState, cp: u32)
    requires s.remaining == 0 && 0x1_0000 <= cp < 0x11_0000
    ensures Run(DecodeFixed, s, Encode(cp)) == Some(Trace([cp], DecState(0, 4, cp)))
  {
    var b := Encode(cp);
    Encode4Parts(cp);
    var d0 := DecodeFixed(s, b[0]);
    assert d0 == Decoded(Some(MoreBytesRequired), DecState(3, 4, cp / 0x4_0000), None);
    var d1 := DecodeFixed(d0.state, b[1]);
    assert d1 == Decoded(Some(MoreBytesRequired), DecState(2, 4, cp / 0x1000), None);
    var d2 := DecodeFixed(d1.state, b[2]);
    assert d2 == Decoded(Some(MoreBytesRequired), DecState(1, 4, cp / 64), None);
    var d3 := DecodeFixed(d2.state, b[3]);
    assert d3 == Decoded(Some(Extracted), DecState(0, 4, cp), Some(cp));
    assert b[1..][1..][1..][1..] == [];
    RunMore(DecodeFixed, s, b);
    RunMore(DecodeFixed, d0.state, b[1..]);
    RunMore(DecodeFixed, d1.state, b[1..][1..]);
    RunExtract(DecodeFixed, d2.state, b[1..][1..][1..], cp);
    assert [cp] + [] == [cp];
  }

  /** Every encodable code point decodes back to itself with the reordered
      tests, and the decoder ends outside a sequence. */
  lemma FixedRoundTrip(s: DecState, cp: u32)
    requires s.remaining == 0 && Encodable(cp)
    ensures Run(DecodeFixed, s, Encode(cp)).Some?
    ensures Run(DecodeFixed, s, Encode(cp)).value.points == [cp]
    ensures Run(DecodeFixed, s, Encode(cp)).value.state.remaining == 0
  {
    if cp < 0x80 { FixedRoundTrip1(s, cp); }
    else if cp < 0x800 { FixedRoundTrip2(s, cp); }
    else if cp < 0x1_0000 { FixedRoundTrip3(s, cp); }
    else { FixedRoundTrip4(s, cp); }
  }

  /** A whole string of encodable code points survives encoding and decoding
      with the reordered tests. */
  lemma {:induction false} FixedStringRoundTrip(s: DecState, cps: seq<u32>)
    requires s.remaining == 0
    requires forall i | 0 <= i < |cps| :: Encodable(cps[i])
    ensures Run(DecodeFixed, s, EncodeAll(cps)).Some?
    ensures Run(DecodeFixed, s, EncodeAll(cps)).value.points == cps
    ensures Run(DecodeFixed, s, EncodeAll(cps)).value.state.remaining == 0
    decreases |cps|
  {
    if cps != [] {
      FixedRoundTrip(s, cps[0]);
      var mid := Run(DecodeFixed, s, Encode(cps[0])).value.state;
      FixedStringRoundTrip(mid, cps[1..]);
      RunConcat(DecodeFixed, s, Encode(cps[0]), EncodeAll(cps[1..]));
    }
  }
}
