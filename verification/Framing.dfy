/** Length-prefixed messages over a byte stream that moves in chunks of any size. */
module Framing {
  import opened Bytes

  const BUFF_LEN: nat := 1600

  const SIZE_BYTES: nat := 8

  /** A message that fits the receiver's buffer. */
  type Message = s: seq<Byte> | |s| <= BUFF_LEN

  function Pow256(k: nat): (p: nat)
    ensures p > 0
  {
    if k == 0 then 1 else 0x100 * Pow256(k - 1)
  }

  // ----- the memory of a size_t -----

  /** The `k` bytes of a number in host order. */
  function Encode(host: Host, n: nat, k: nat): (s: seq<Byte>)
    ensures |s| == k
  {
    if k == 0 then []
    else match host
      case LittleEndian => [n % 0x100] + Encode(host, n / 0x100, k - 1)
      case BigEndian => Encode(host, n / 0x100, k - 1) + [n % 0x100]
  }

  /** A number that fits reads back as itself. */
  lemma {:induction false} DecodeOfEncode(host: Host, n: nat, k: nat)
    requires n < Pow256(k)
    ensures Decode(host, Encode(host, n, k)) == n
  {
    if k > 0 {
      DecodeOfEncode(host, n / 0x100, k - 1);
      var s := Encode(host, n, k);
      assert if host == LittleEndian then s[1..] == Encode(host, n / 0x100, k - 1)
             else s[..k - 1] == Encode(host, n / 0x100, k - 1);
    }
  }

  /** The digit of 0x100^i. */
  function Digit(n: nat, i: nat): Byte {
    if i == 0 then n % 0x100 else Digit(n / 0x100, i - 1)
  }

  /** Its bytes are the digits to the base 0x100, the lowest first or last. */
  lemma {:induction false} EncodeBytes(host: Host, n: nat, k: nat, i: nat)
    requires i < k
    ensures Encode(host, n, k)[if host == LittleEndian then i else k - 1 - i] == Digit(n, i)
  {
    if i > 0 {
      EncodeBytes(host, n / 0x100, k - 1, i - 1);
    }
  }

  // ----- frames -----

  function Frame(host: Host, m: seq<Byte>): seq<Byte> {
    Encode(host, |m|, SIZE_BYTES) + m
  }

  function Frames(host: Host, ms: seq<Message>): seq<Byte> {
    if ms == [] then [] else Frame(host, ms[0]) + Frames(host, ms[1..])
  }

  /** The stream begins with a whole frame that fits the buffer. */
  predicate FrameAhead(host: Host, s: seq<Byte>) {
    && |s| >= SIZE_BYTES
    && Decode(host, s[..SIZE_BYTES]) <= BUFF_LEN
    && SIZE_BYTES + Decode(host, s[..SIZE_BYTES]) <= |s|
  }

  function NextMessage(host: Host, s: seq<Byte>): Message
    requires FrameAhead(host, s)
  {
    s[SIZE_BYTES..SIZE_BYTES + Decode(host, s[..SIZE_BYTES])]
  }

  function AfterFrame(host: Host, s: seq<Byte>): seq<Byte>
    requires FrameAhead(host, s)
  {
    s[SIZE_BYTES + Decode(host, s[..SIZE_BYTES])..]
  }

  /** A frame is read back as its message, and not a byte more is taken. */
  lemma FrameRoundTrip(host: Host, m: Message, rest: seq<Byte>)
    ensures FrameAhead(host, Frame(host, m) + rest)
    ensures NextMessage(host, Frame(host, m) + rest) == m && AfterFrame(host, Frame(host, m) + rest) == rest
  {
    hide Encode, Decode, Pow256;
    SizeFits(|m|);
    DecodeOfEncode(host, |m|, SIZE_BYTES);
    var s := Frame(host, m) + rest;
    assert s[..SIZE_BYTES] == Encode(host, |m|, SIZE_BYTES);
    assert s == Encode(host, |m|, SIZE_BYTES) + (m + rest);
  }

  lemma SizeFits(n: nat)
    requires n <= BUFF_LEN
    ensures n < Pow256(SIZE_BYTES)
  {
    assert Pow256(2) == 0x1_0000;
    assert Pow256(5) >= Pow256(2) && Pow256(SIZE_BYTES) >= Pow256(5);
  }

  /** What `proto_recv` comes to on a stream that ends after `s`: the size it returns, or a write
      past the end of its buffer, or an endless wait for bytes that do not come. */
  datatype Receipt = Complete(size: nat) | Overflow | Stuck

  /** The size as far as its bytes arrive, in a variable that holds 0 before. */
  function SizeOf(host: Host, s: seq<Byte>): nat {
    Decode(host, if |s| < SIZE_BYTES then s + Zeros(SIZE_BYTES - |s|) else s[..SIZE_BYTES])
  }

  function BodyOf(s: seq<Byte>): seq<Byte> {
    if |s| < SIZE_BYTES then [] else s[SIZE_BYTES..]
  }

  function Outcome(host: Host, s: seq<Byte>): Receipt {
    var size, body := SizeOf(host, s), BodyOf(s);
    if size > BUFF_LEN && |body| > BUFF_LEN then Overflow
    else if |body| < size then Stuck
    else Complete(size)
  }

  lemma {:induction false} DecodeZeros(host: Host, n: nat)
    ensures Decode(host, Zeros(n)) == 0
  {
    if n > 0 {
      DecodeZeros(host, n - 1);
      assert Zeros(n)[1..] == Zeros(n - 1) && Zeros(n)[..n - 1] == Zeros(n - 1);
    }
  }

  /** A stream can be received from without trouble if and only if it begins with a whole frame
      that fits the buffer, or ends before the size and has only zero bytes there. */
  lemma CompleteExactly(host: Host, s: seq<Byte>)
    ensures Outcome(host, s).Complete? <==> FrameAhead(host, s) || (|s| < SIZE_BYTES && SizeOf(host, s) == 0)
    ensures FrameAhead(host, s) ==> Outcome(host, s) == Complete(|NextMessage(host, s)|)
    ensures s == [] ==> Outcome(host, s) == Complete(0)
  {
    hide Decode;
    if s == [] {
      DecodeZeros(host, SIZE_BYTES);
      assert s + Zeros(SIZE_BYTES) == Zeros(SIZE_BYTES);
    }
  }

  /** The buffer is overrun if and only if the size says more than it holds, and more than that comes;
      and the wait is endless if and only if less comes than the size says, and it fits. */
  lemma OtherOutcomes(host: Host, s: seq<Byte>)
    requires |s| >= 8
    ensures Outcome(host, s) == Overflow <==> Decode(host, s[..8]) > 1600 && |s| > 8 + 1600
    ensures Outcome(host, s) == Stuck <==> |s| - 8 < Decode(host, s[..8]) && |s| <= 8 + 1600
  {
    hide Decode;
  }

  /** Whatever is sent arrives, unless it is larger than the buffer, and then it always overflows it. */
  lemma OutcomeOfFrame(host: Host, m: seq<Byte>, rest: seq<Byte>)
    requires |m| < Pow256(SIZE_BYTES)
    ensures Outcome(host, Frame(host, m) + rest) == if |m| <= BUFF_LEN then Complete(|m|) else Overflow
  {
    hide Encode, Decode, Pow256;
    DecodeOfEncode(host, |m|, SIZE_BYTES);
    var s := Frame(host, m) + rest;
    assert s[..SIZE_BYTES] == Encode(host, |m|, SIZE_BYTES);
    assert s[SIZE_BYTES..] == m + rest;
  }

  /** The stream after `n` receives. */
  function AfterFrames(host: Host, s: seq<Byte>, n: nat): seq<Byte> {
    if n == 0 || !FrameAhead(host, s) then s else AfterFrames(host, AfterFrame(host, s), n - 1)
  }

  /** Successive receives return exactly the messages of successive sends, in order, and leave
      whatever was sent after them. */
  lemma {:induction false} SuccessiveReceives(host: Host, ms: seq<Message>, rest: seq<Byte>, n: nat)
    requires n <= |ms|
    ensures AfterFrames(host, Frames(host, ms) + rest, n) == Frames(host, ms[n..]) + rest
    ensures n < |ms| ==> var s := Frames(host, ms[n..]) + rest; FrameAhead(host, s) && NextMessage(host, s) == ms[n]
  {
    hide Frame, FrameAhead, NextMessage, AfterFrame;
    if n == 0 {
      assert ms[0..] == ms;
      if ms != [] {
        FrameRoundTrip(host, ms[0], Frames(host, ms[1..]) + rest);
        assert Frames(host, ms) + rest == Frame(host, ms[0]) + (Frames(host, ms[1..]) + rest);
      }
    } else {
      FrameRoundTrip(host, ms[0], Frames(host, ms[1..]) + rest);
      assert Frames(host, ms) + rest == Frame(host, ms[0]) + (Frames(host, ms[1..]) + rest);
      SuccessiveReceives(host, ms[1..], rest, n - 1);
      assert ms[1..][n - 1..] == ms[n..];
    }
  }

  lemma {:induction false} FramesAppend(host: Host, ms: seq<Message>, m: Message)
    ensures Frames(host, ms + [m]) == Frames(host, ms) + Frame(host, m)
  {
    hide Frame;
    if ms == [] {
      assert (ms + [m])[1..] == [];
    } else {
      assert (ms + [m])[1..] == ms[1..] + [m];
      FramesAppend(host, ms[1..], m);
    }
  }

  /** No two sequences of messages share a stream. */
  lemma {:induction false} FramesInjective(host: Host, ms: seq<Message>, ns: seq<Message>)
    requires Frames(host, ms) == Frames(host, ns)
    ensures ms == ns
  {
    hide Frame, FrameAhead, NextMessage, AfterFrame;
    if ms != [] && ns != [] {
      FrameRoundTrip(host, ms[0], Frames(host, ms[1..]));
      FrameRoundTrip(host, ns[0], Frames(host, ns[1..]));
      FramesInjective(host, ms[1..], ns[1..]);
      assert ms == [ms[0]] + ms[1..] && ns == [ns[0]] + ns[1..];
    } else if ms != [] {
      FrameLength(host, ms[0]);
    } else if ns != [] {
      FrameLength(host, ns[0]);
    }
  }

  lemma FrameLength(host: Host, m: Message)
    ensures |Frame(host, m)| > 0
  {
  }

  // ----- the two ends of a connection -----

  lemma NextChunk(s: seq<Byte>, from: nat, n: nat)
    requires from + n <= |s|
    ensures s[..from + n] == s[..from] + s[from..|s|][..n]
  {
  }

  /** The sending end: all that has been written to the stream. */
  class Outgoing {
    var written: seq<Byte>

    /** `send`: takes at least one and possibly not all of the bytes. */
    method Send(data: seq<Byte>) returns (status: nat)
      requires data != []
      modifies this
      ensures 1 <= status <= |data| && written == old(written) + data[..status]
    {
      status :| 1 <= status <= |data|;
      written := written + data[..status];
    }

    /** The `send` of the size, which is assumed to move all eight bytes. */
    method SendSize(bytes: seq<Byte>)
      modifies this
      ensures written == old(written) + bytes
    {
      written := written + bytes;
    }

    method ProtoSend(host: Host, data: seq<Byte>)
      modifies this
      ensures written == old(written) + Frame(host, data)
    {
      hide Encode;
      SendSize(Encode(host, |data|, SIZE_BYTES));
      var bytesSent, bytesToSend := 0, |data|;
      while bytesSent < |data|
        invariant bytesSent <= |data| && bytesToSend == |data| - bytesSent
        invariant written == old(written) + (Encode(host, |data|, SIZE_BYTES) + data[..bytesSent])
      {
        var status := Send(data[bytesSent..bytesSent + bytesToSend]);
        assert bytesSent + bytesToSend == |data|;
        NextChunk(data, bytesSent, status);
        bytesSent := bytesSent + status;
        bytesToSend := bytesToSend - status;
      }
      assert data[..|data|] == data;
    }
  }

  /** The receiving end: all the bytes still to come on the stream, whenever they arrive. */
  class Incoming {
    var coming: seq<Byte>

    /** `recv`: takes at least one and possibly not all of the bytes wanted. */
    method Recv(want: nat) returns (chunk: seq<Byte>)
      requires want > 0 && coming != []
      modifies this
      ensures 1 <= |chunk| <= want && old(coming) == chunk + coming
    {
      var n: nat :| 1 <= n <= want && n <= |coming|;
      chunk := coming[..n];
      coming := coming[n..];
    }

    /** The `recv` of the size, which is assumed to move all eight bytes, or as many as come before
        the stream ends. */
    method RecvSize(host: Host) returns (size: nat)
      modifies this
      ensures size == SizeOf(host, old(coming)) && coming == BodyOf(old(coming))
    {
      size := SizeOf(host, coming);
      coming := BodyOf(coming);
    }

    /** Returns 0 on a closed stream, and on an empty message alike.  The program does not return
        from the two other outcomes. */
    method ProtoRecv(host: Host, buffer: array<Byte>) returns (r: Receipt)
      requires buffer.Length == BUFF_LEN
      modifies this, buffer
      ensures r == Outcome(host, old(coming))
      ensures r.Complete? ==>
                var size := r.size; var body := BodyOf(old(coming));
                size <= |body| && size <= BUFF_LEN
                && buffer[..] == body[..size] + Zeros(BUFF_LEN - size) && coming == body[size..]
    {
      hide SizeOf;
      var size := RecvSize(host);
      ghost var body := coming;
      var bytesRecv, bytesToRecv := 0, size;
      forall i | 0 <= i < BUFF_LEN {
        buffer[i] := 0;
      }
      while bytesRecv < size
        invariant bytesRecv <= size && bytesRecv <= |body| && bytesRecv <= BUFF_LEN
        invariant bytesToRecv == size - bytesRecv && coming == body[bytesRecv..]
        invariant forall i :: 0 <= i < BUFF_LEN ==> buffer[i] == if i < bytesRecv then body[i] else 0
      {
        if coming == [] {
          return Stuck;
        }
        var chunk := Recv(bytesToRecv);
        assert body[bytesRecv..] == chunk + coming;
        if bytesRecv + |chunk| > BUFF_LEN {
          return Overflow;
        }
        forall i | 0 <= i < |chunk| {
          buffer[bytesRecv + i] := chunk[i];
        }
        assert forall i :: 0 <= i < |chunk| ==> body[bytesRecv..][i] == chunk[i];
        assert coming == body[bytesRecv..][|chunk|..];
        bytesRecv := bytesRecv + |chunk|;
        bytesToRecv := bytesToRecv - |chunk|;
      }
      r := Complete(size);
      assert buffer[..] == body[..size] + Zeros(BUFF_LEN - size);
    }
  }
}
