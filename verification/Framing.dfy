/**
 * Frames on the client connection: a header of 51 bytes whose last two give, most
 * significant first, the number of data bytes that follow (thread_main in
 * transfer_export/src/transfer/transfer_server.cpp; MSG_HEADER_LEN and PACKAGE_SIZE in
 * transfer_export/include/transfer.h).
 */
module Framing {
  import opened Bytes
  import opened Wrappers
  import opened Protocol
  import B = ByteOrder

  const HEADER_LEN := 51
  const PACKAGE_SIZE := 8192

  function DataLen(f: Block): nat
    requires |f| >= HEADER_LEN
  {
    256 * (f[HEADER_LEN - 2] as int) + f[HEADER_LEN - 1] as int
  }

  /** What htons leaves in memory, and so on the wire, for a 16-bit number. */
  function Sent16(v: nat): (m: Block)
    ensures |m| == 2
  {
    B.Reversed(B.Memory(v, 2))
  }

  /** The length field holds v exactly if its two bytes are those that htons makes of v. */
  lemma LengthOnTheWire(f: Block, v: nat)
    requires |f| >= HEADER_LEN && v < 0x1_0000
    ensures f[HEADER_LEN - 2..HEADER_LEN] == Sent16(v) <==> DataLen(f) == v
  {
    var field := f[HEADER_LEN - 2..HEADER_LEN];
    assert B.Memory(v, 2)[0] == v % 256 && B.Memory(v, 2)[1] == v / 256 % 256 by {
      B.Digit(v, 2, 0);
      B.Digit(v, 2, 1);
      assert B.Pow256(0) == 1 && B.Pow256(1) == 256;
    }
    assert Sent16(v) == [v / 256 % 256, v % 256];
    assert field == [f[HEADER_LEN - 2], f[HEADER_LEN - 1]];
  }

  predicate WellFramed(f: Block) {
    |f| >= HEADER_LEN && |f| == HEADER_LEN + DataLen(f)
  }

  /** The part of a delivered block that the storage server uses: header and counted data. */
  function Cut(block: Block): Block {
    if |block| >= HEADER_LEN && HEADER_LEN + DataLen(block) <= |block|
    then block[..HEADER_LEN + DataLen(block)] else block
  }

  function Cuts(blocks: seq<Block>): (r: seq<Block>)
    ensures |r| == |blocks| && forall k | 0 <= k < |r| :: r[k] == Cut(blocks[k])
  {
    seq(|blocks|, k requires 0 <= k < |blocks| => Cut(blocks[k]))
  }

  /** Whatever stale bytes follow the frame, cutting gives the frame back. */
  lemma CutRecovers(block: Block, frame: Block)
    requires WellFramed(frame) && frame <= block
    ensures Cut(block) == frame
  {
    assert DataLen(block) == DataLen(frame);
  }

  // --- the stream as frames ---

  /** Length of the whole frame that a stream begins with; 0 if it begins with none that fits the buffer. */
  function FrameLen(stream: Block): (n: nat)
    ensures n <= |stream| && n <= PACKAGE_SIZE
  {
    if |stream| >= HEADER_LEN && HEADER_LEN + DataLen(stream) <= |stream|
       && HEADER_LEN + DataLen(stream) <= PACKAGE_SIZE
    then HEADER_LEN + DataLen(stream) else 0
  }

  /** The whole frames at the front of a stream. */
  function Frames(stream: Block): seq<Block>
    decreases |stream|
  {
    var n := FrameLen(stream);
    if n == 0 then [] else [stream[..n]] + Frames(stream[n..])
  }

  /** What is left of the stream behind them. */
  function Rest(stream: Block): Block
    decreases |stream|
  {
    var n := FrameLen(stream);
    if n == 0 then stream else Rest(stream[n..])
  }

  function Concat(frames: seq<Block>): Block {
    if frames == [] then [] else frames[0] + Concat(frames[1..])
  }

  predicate Sendable(frames: seq<Block>) {
    forall k | 0 <= k < |frames| :: WellFramed(frames[k]) && |frames[k]| <= PACKAGE_SIZE
  }

  lemma Unfold(stream: Block)
    ensures FrameLen(stream) == 0 ==> Frames(stream) == [] && Rest(stream) == stream
    ensures FrameLen(stream) > 0 ==>
              var n := FrameLen(stream);
              && Frames(stream) == [stream[..n]] + Frames(stream[n..])
              && Rest(stream) == Rest(stream[n..])
  {
    hide FrameLen;
  }

  lemma FirstIsFrame(f: Block, more: Block)
    requires WellFramed(f) && |f| <= PACKAGE_SIZE
    ensures FrameLen(f + more) == |f| && (f + more)[..|f|] == f && (f + more)[|f|..] == more
  {
    assert DataLen(f + more) == DataLen(f);
  }

  /** Sending frames one after another, and then a part of one, and cutting the stream are inverse. */
  lemma {:induction false} FramesOfConcat(frames: seq<Block>, part: Block)
    requires Sendable(frames) && FrameLen(part) == 0
    ensures Frames(Concat(frames) + part) == frames && Rest(Concat(frames) + part) == part
  {
    if frames == [] {
      assert [] + part == part;
      Unfold(part);
    } else {
      var f, tail := frames[0], frames[1..];
      assert WellFramed(f) && Sendable(tail) && frames == [f] + tail;
      hide *;
      FramesOfConcat(tail, part);
      FirstIsFrame(f, Concat(tail) + part);
      Unfold(f + (Concat(tail) + part));
      ConcatCons(f, tail);
      Regroup(f, Concat(tail), part);
    }
  }

  lemma {:induction false} ConcatOfFrames(stream: Block)
    ensures Sendable(Frames(stream)) && FrameLen(Rest(stream)) == 0
    ensures Concat(Frames(stream)) + Rest(stream) == stream
    decreases |stream|
  {
    hide Frames, Rest, Concat;
    Unfold(stream);
    var n := FrameLen(stream);
    if n == 0 {
      NoFrames(stream);
    } else {
      var f, more := stream[..n], stream[n..];
      ConcatOfFrames(more);
      assert WellFramed(f) by {
        assert DataLen(f) == DataLen(stream);
      }
      hide FrameLen, WellFramed;
      ConcatCons(f, Frames(more));
      Glued(stream, n, Concat(Frames(more)), Rest(more));
    }
  }

  lemma NoFrames(stream: Block)
    ensures Concat([]) + stream == stream
  {
  }

  lemma Glued(stream: Block, n: nat, a: Block, b: Block)
    requires n <= |stream| && a + b == stream[n..]
    ensures stream[..n] + a + b == stream
  {
    assert stream[..n] + (a + b) == stream;
  }

  lemma Regroup(a: Block, b: Block, c: Block)
    ensures a + (b + c) == a + b + c
  {
  }

  lemma ConcatCons(f: Block, frames: seq<Block>)
    ensures Concat([f] + frames) == f + Concat(frames)
  {
    assert ([f] + frames)[1..] == frames;
  }

  // --- the calls of WriteData ---

  /**
   * A call with the reused buffer: the length, and as many of its bytes as the buffer has.  A
   * length over PACKAGE_SIZE is refused by the shared memory before any byte is used.
   */
  datatype Call = Call(len: nat, data: Block)

  function CallOn(buffer: Block): Call
    requires |buffer| == PACKAGE_SIZE
  {
    var len := HEADER_LEN + DataLen(buffer);
    Call(len, if len <= PACKAGE_SIZE then buffer[..len] else buffer)
  }

  /** The buffer with new bytes at its front. */
  function Onto(buffer: Block, bytes: Block): (r: Block)
    requires |bytes| <= |buffer| == PACKAGE_SIZE
    ensures |r| == PACKAGE_SIZE
  {
    bytes + buffer[|bytes|..]
  }

  function After(buffer: Block, frames: seq<Block>): (r: Block)
    requires |buffer| == PACKAGE_SIZE && Sendable(frames)
    ensures |r| == PACKAGE_SIZE
    decreases |frames|
  {
    if frames == [] then buffer else After(Onto(buffer, frames[0]), frames[1..])
  }

  function AsCalls(frames: seq<Block>): (calls: seq<Call>)
    ensures |calls| == |frames| && forall k | 0 <= k < |frames| :: calls[k] == Call(|frames[k]|, frames[k])
  {
    seq(|frames|, k requires 0 <= k < |frames| => Call(|frames[k]|, frames[k]))
  }

  /**
   * What a connection amounts to: a call for each whole frame and, if it ends inside a frame, one
   * more in which old bytes of the buffer stand for what did not come.
   */
  function Calls(buffer: Block, stream: Block): seq<Call>
    requires |buffer| == PACKAGE_SIZE && |Rest(stream)| <= PACKAGE_SIZE && Sendable(Frames(stream))
  {
    AsCalls(Frames(stream))
    + if Rest(stream) == [] then [] else [CallOn(Onto(After(buffer, Frames(stream)), Rest(stream)))]
  }

  /** The bytes passed on are the bytes received exactly if the stream consists of whole frames. */
  lemma NothingInvented(buffer: Block, stream: Block, frames: seq<Block>)
    requires |buffer| == PACKAGE_SIZE && |Rest(stream)| <= PACKAGE_SIZE
    ensures Sendable(Frames(stream))
    ensures Calls(buffer, stream) == AsCalls(frames) && Concat(frames) == stream
            <==> Rest(stream) == [] && frames == Frames(stream)
  {
    ConcatOfFrames(stream);
    var whole, rest := Frames(stream), Rest(stream);
    hide Frames, Rest, After, FrameLen;
    if rest == [] {
      assert Concat(whole) + [] == Concat(whole);
      AsCallsInjective(frames, whole);
    } else if Calls(buffer, stream) == AsCalls(frames) && Concat(frames) == stream {
      var b := Onto(After(buffer, whole), rest);
      var last := CallOn(b);
      assert AsCalls(frames)[|whole|] == last;
      assert frames == whole + [last.data] by {
        assert |frames| == |whole| + 1;
        forall k | 0 <= k < |whole| ensures frames[k] == whole[k] {
          assert AsCalls(frames)[k] == AsCalls(whole)[k];
        }
      }
      ConcatSnoc(whole, last.data);
      assert Concat(whole) + last.data == Concat(whole) + rest;
      assert last.data == rest by {
        assert (Concat(whole) + last.data)[|Concat(whole)|..] == last.data;
        assert (Concat(whole) + rest)[|Concat(whole)|..] == rest;
      }
      WholeAfterAll(b, rest, last.len);
    }
  }

  /** A call whose data are just what was left would be a whole frame. */
  lemma WholeAfterAll(b: Block, rest: Block, len: nat)
    requires |b| == PACKAGE_SIZE && rest != [] && rest <= b && CallOn(b) == Call(|rest|, rest)
    ensures FrameLen(rest) > 0
  {
    assert DataLen(b) == DataLen(rest);
  }

  lemma AsCallsInjective(a: seq<Block>, b: seq<Block>)
    ensures AsCalls(a) == AsCalls(b) <==> a == b
  {
    if AsCalls(a) == AsCalls(b) {
      forall k | 0 <= k < |a| ensures a[k] == b[k] {
        assert AsCalls(a)[k] == AsCalls(b)[k];
      }
    }
  }

  lemma {:induction false} ConcatSnoc(frames: seq<Block>, f: Block)
    ensures Concat(frames + [f]) == Concat(frames) + f
  {
    if frames == [] {
      assert [f][1..] == [];
    } else {
      ConcatSnoc(frames[1..], f);
      assert (frames + [f])[1..] == frames[1..] + [f];
    }
  }

  // --- what the client sends ---

  /** 49 header bytes of any content, and the data. */
  datatype Message = Message(head: Block, data: Block)

  predicate MayBeSent(m: Message) {
    |m.head| == HEADER_LEN - 2 && HEADER_LEN + |m.data| <= PACKAGE_SIZE
  }

  function Packed(m: Message): Block {
    m.head + Sent16(|m.data|) + m.data
  }

  function AllPacked(ms: seq<Message>): (fs: seq<Block>)
    ensures |fs| == |ms| && forall k | 0 <= k < |ms| :: fs[k] == Packed(ms[k])
  {
    seq(|ms|, k requires 0 <= k < |ms| => Packed(ms[k]))
  }

  lemma PackedIsFrame(m: Message)
    requires MayBeSent(m)
    ensures WellFramed(Packed(m)) && DataLen(Packed(m)) == |m.data|
  {
    var f := Packed(m);
    assert f[HEADER_LEN - 2..HEADER_LEN] == Sent16(|m.data|);
    LengthOnTheWire(f, |m.data|);
  }

  /** From a stream of messages, and perhaps a part of one more, just these messages are cut. */
  lemma MessagesAreCut(ms: seq<Message>, last: Message, k: nat)
    requires (forall m | m in ms :: MayBeSent(m)) && MayBeSent(last) && k < |Packed(last)|
    ensures var stream := Concat(AllPacked(ms)) + Packed(last)[..k];
            Frames(stream) == AllPacked(ms) && Rest(stream) == Packed(last)[..k]
  {
    var frames, f := AllPacked(ms), Packed(last);
    forall j | 0 <= j < |frames| ensures WellFramed(frames[j]) && |frames[j]| <= PACKAGE_SIZE {
      PackedIsFrame(ms[j]);
    }
    PackedIsFrame(last);
    assert k >= HEADER_LEN ==> DataLen(f[..k]) == DataLen(f);
    FramesOfConcat(frames, f[..k]);
  }

  /** The calls for a connection that sends whole messages are exactly these messages. */
  lemma MessagesPassedOn(ms: seq<Message>, buffer: Block)
    requires |buffer| == PACKAGE_SIZE && forall m | m in ms :: MayBeSent(m)
    ensures var stream := Concat(AllPacked(ms));
            && |Rest(stream)| <= PACKAGE_SIZE && Sendable(Frames(stream))
            && Calls(buffer, stream) == AsCalls(AllPacked(ms))
            && forall k | 0 <= k < |ms| :: Calls(buffer, stream)[k] == Call(HEADER_LEN + |ms[k].data|, Packed(ms[k]))
  {
    var stream, any := Concat(AllPacked(ms)), Message(seq(HEADER_LEN - 2, _ => 0), []);
    MessagesAreCut(ms, any, 0);
    assert stream + Packed(any)[..0] == stream;
    ConcatOfFrames(stream);
    hide Frames, Rest, Packed, Concat;
    forall k | 0 <= k < |ms| ensures |Packed(ms[k])| == HEADER_LEN + |ms[k].data| {
      PackedIsFrame(ms[k]);
    }
  }

  // --- the loop ---

  /** A read of up to `n` bytes that is short only at the end of the stream. */
  method Read(stream: Block, pos: nat, buffer: array<byte>, off: nat, n: nat) returns (got: nat)
    requires pos <= |stream| && off <= buffer.Length
    requires n <= |stream| - pos ==> off + n <= buffer.Length
    requires |stream| - pos <= n ==> off + (|stream| - pos) <= buffer.Length
    modifies buffer
    ensures got == if n <= |stream| - pos then n else |stream| - pos
    ensures buffer[..] == old(buffer[..off]) + stream[pos..pos + got] + old(buffer[off + got..])
  {
    hide *;
    got := if n <= |stream| - pos then n else |stream| - pos;
    Copy(buffer, off, stream[pos..pos + got]);
  }

  /** How many bytes one pass of the loop takes off the stream. */
  function Taken(rest: Block): (t: nat)
    ensures t <= |rest|
  {
    if |rest| < HEADER_LEN || |rest| - HEADER_LEN < DataLen(rest) then |rest| else HEADER_LEN + DataLen(rest)
  }

  /** One pass of the inner loop: the header, then the data bytes it counts, into one buffer. */
  method ReadFrame(stream: Block, pos: nat, buffer: array<byte>) returns (ret: nat, len: nat, next: nat)
    requires pos <= |stream| && buffer.Length == PACKAGE_SIZE && Taken(stream[pos..]) <= PACKAGE_SIZE
    modifies buffer
    ensures ret == 0 <==> pos == |stream|
    ensures ret != 0 ==> next == pos + Taken(stream[pos..]) && len == DataLen(buffer[..])
    ensures buffer[..] == Onto(old(buffer[..]), stream[pos..][..Taken(stream[pos..])])
  {
    hide Taken, Onto;
    ghost var rest, was := stream[pos..], buffer[..];
    len, next := 0, pos;
    ret := Read(stream, pos, buffer, 0, HEADER_LEN);
    assert stream[pos..pos + ret] == rest[..ret];
    ghost var head := buffer[..];
    HeaderRead(rest, was, head, ret);
    if ret == 0 {
      return;
    }
    len := 256 * (buffer[HEADER_LEN - 2] as int) + buffer[HEADER_LEN - 1] as int;
    assert len == DataLen(head);
    next := pos + ret;
    if len != 0 {
      var more := Read(stream, next, buffer, HEADER_LEN, len);
      assert stream[next..next + more] == rest[ret..ret + more];
      DataRead(rest, was, head, ret, more, buffer[..]);
      next := next + more;
    }
  }

  /** After the first read of a pass: all is done unless data bytes follow the header. */
  lemma HeaderRead(rest: Block, was: Block, head: Block, ret: nat)
    requires |was| == PACKAGE_SIZE && Taken(rest) <= PACKAGE_SIZE
    requires ret == (if HEADER_LEN <= |rest| then HEADER_LEN else |rest|) && head == rest[..ret] + was[ret..]
    ensures |head| == PACKAGE_SIZE && ret <= Taken(rest)
    ensures ret == 0 || DataLen(head) == 0 || |rest| == ret ==>
              Taken(rest) == ret && head == Onto(was, rest[..Taken(rest)])
    ensures HEADER_LEN < |rest| ==> DataLen(head) == DataLen(rest)
    ensures var left, len := |rest| - ret, DataLen(head);
            HEADER_LEN + (if len <= left then len else left) <= PACKAGE_SIZE
  {
  }

  lemma DataRead(rest: Block, was: Block, head: Block, ret: nat, more: nat, now: Block)
    requires |was| == PACKAGE_SIZE && Taken(rest) <= PACKAGE_SIZE
    requires ret == (if HEADER_LEN <= |rest| then HEADER_LEN else |rest|) && head == rest[..ret] + was[ret..]
    requires more == if DataLen(head) <= |rest| - ret then DataLen(head) else |rest| - ret
    requires HEADER_LEN + more <= PACKAGE_SIZE
    requires now == head[..HEADER_LEN] + rest[ret..ret + more] + head[HEADER_LEN + more..]
    ensures Taken(rest) == ret + more && now == Onto(was, rest[..Taken(rest)]) && DataLen(now) == DataLen(head)
  {
    if more > 0 {
      assert ret == HEADER_LEN;
    }
    assert now == rest[..ret + more] + was[ret + more..];
  }

  /** What is left to do after one pass, whole frame or not. */
  lemma OnePass(buffer: Block, rest: Block)
    requires |buffer| == PACKAGE_SIZE && rest != [] && |Rest(rest)| <= PACKAGE_SIZE
    ensures Taken(rest) <= PACKAGE_SIZE
    ensures Sendable(Frames(rest)) && Sendable(Frames(rest[Taken(rest)..]))
    ensures |Rest(rest[Taken(rest)..])| <= PACKAGE_SIZE
    ensures var b := Onto(buffer, rest[..Taken(rest)]);
            Calls(buffer, rest) == [CallOn(b)] + Calls(b, rest[Taken(rest)..])
  {
    var n, t := FrameLen(rest), Taken(rest);
    hide Frames, Rest, AsCalls, After, CallOn, Onto;
    ConcatOfFrames(rest);
    ConcatOfFrames(rest[t..]);
    Unfold(rest);
    if n == 0 {
      assert t == |rest| && rest[..t] == rest && rest[t..] == [];
      LastCall(buffer, rest);
    } else {
      assert t == n;
      FramePass(buffer, rest);
    }
  }

  lemma FramePass(buffer: Block, rest: Block)
    requires |buffer| == PACKAGE_SIZE && FrameLen(rest) > 0 && |Rest(rest)| <= PACKAGE_SIZE
    requires Sendable(Frames(rest)) && Sendable(Frames(rest[FrameLen(rest)..]))
    ensures var n := FrameLen(rest); var b := Onto(buffer, rest[..n]);
            && |Rest(rest[n..])| <= PACKAGE_SIZE
            && Calls(buffer, rest) == [CallOn(b)] + Calls(b, rest[n..])
  {
    hide Frames, Rest, AsCalls, After, CallOn, Onto;
    var n := FrameLen(rest);
    var f, more := rest[..n], rest[n..];
    Unfold(rest);
    assert |f| >= HEADER_LEN && |f| == HEADER_LEN + DataLen(f) by {
      assert DataLen(f) == DataLen(rest);
    }
    hide FrameLen, DataLen, Sendable;
    WholeCall(buffer, f);
    FirstCall(buffer, f, Frames(more));
    FirstAsCall(f, Frames(more));
    var b, frames := Onto(buffer, f), Frames(more);
    var tail := if Rest(more) == [] then [] else [CallOn(Onto(After(b, frames), Rest(more)))];
    assert Calls(b, more) == AsCalls(frames) + tail;
    assert Calls(buffer, rest) == [Call(n, f)] + AsCalls(frames) + tail;
    CallsRegroup(Call(n, f), AsCalls(frames), tail);
  }

  lemma CallsRegroup(first: Call, calls: seq<Call>, tail: seq<Call>)
    ensures [first] + calls + tail == [first] + (calls + tail)
  {
  }

  lemma FirstAsCall(f: Block, frames: seq<Block>)
    ensures AsCalls([f] + frames) == [Call(|f|, f)] + AsCalls(frames)
  {
  }

  lemma LastCall(buffer: Block, rest: Block)
    requires |buffer| == PACKAGE_SIZE && rest != [] && FrameLen(rest) == 0 && |rest| <= PACKAGE_SIZE
    ensures Frames(rest) == [] && Rest(rest) == rest && Frames([]) == [] && Rest([]) == []
    ensures Calls(buffer, rest) == [CallOn(Onto(buffer, rest))] && Calls(Onto(buffer, rest), []) == []
  {
    Unfold(rest);
    Unfold([]);
    hide Frames, Rest, FrameLen, CallOn, Onto;
    assert AsCalls([]) == [] && After(buffer, []) == buffer;
  }

  lemma WholeCall(buffer: Block, f: Block)
    requires |buffer| == PACKAGE_SIZE && |f| <= PACKAGE_SIZE && |f| >= HEADER_LEN && |f| == HEADER_LEN + DataLen(f)
    ensures CallOn(Onto(buffer, f)) == Call(|f|, f)
  {
    assert DataLen(Onto(buffer, f)) == DataLen(f);
  }

  lemma FirstCall(buffer: Block, f: Block, frames: seq<Block>)
    requires |buffer| == PACKAGE_SIZE && Sendable([f] + frames) && Sendable(frames)
    ensures |f| <= PACKAGE_SIZE && After(buffer, [f] + frames) == After(Onto(buffer, f), frames)
  {
    assert ([f] + frames)[0] == f && ([f] + frames)[1..] == frames;
  }

  /**
   * The inner loop of thread_main, whatever the buffer held before and wherever the stream ends,
   * short of a length field that makes it write behind the buffer.
   */
  method ThreadMain(stream: Block, buffer: array<byte>) returns (calls: seq<Call>)
    requires buffer.Length == PACKAGE_SIZE && |Rest(stream)| <= PACKAGE_SIZE
    modifies buffer
    ensures Sendable(Frames(stream)) && calls == Calls(old(buffer[..]), stream)
  {
    hide Going, Frames, Rest, Sendable, Calls, CallOn, AsCalls, After, Onto, Taken;
    var pos := 0;
    calls := [];
    ghost var first := buffer[..];
    StartsGoing(first, stream);
    while true
      invariant Going(first, stream, buffer[..], pos, calls)
      invariant pos <= |stream|
      decreases |stream| - pos
    {
      ghost var b := buffer[..];
      GoesOn(first, stream, b, pos, calls);
      var ret, len, next := ReadFrame(stream, pos, buffer);
      if ret == 0 {
        break;
      }
      var total, bytes := HEADER_LEN + len, buffer[..];
      IsCall(bytes, total);
      calls := calls + [Call(total, if total <= PACKAGE_SIZE then bytes[..total] else bytes)];
      pos := next;
    }
  }

  /** The calls made so far and those that the rest of the stream will make are all calls. */
  ghost predicate Going(first: Block, stream: Block, buffer: Block, pos: nat, calls: seq<Call>) {
    && pos <= |stream| && |first| == |buffer| == PACKAGE_SIZE
    && |Rest(stream)| <= PACKAGE_SIZE && Sendable(Frames(stream))
    && |Rest(stream[pos..])| <= PACKAGE_SIZE && Sendable(Frames(stream[pos..]))
    && Calls(first, stream) == calls + Calls(buffer, stream[pos..])
  }

  lemma StartsGoing(first: Block, stream: Block)
    requires |first| == PACKAGE_SIZE && |Rest(stream)| <= PACKAGE_SIZE
    ensures Going(first, stream, first, 0, []) && Sendable(Frames(stream))
  {
    ConcatOfFrames(stream);
    hide Frames, Rest, Calls, Sendable;
    assert stream[0..] == stream && [] + Calls(first, stream) == Calls(first, stream);
  }

  lemma GoesOn(first: Block, stream: Block, buffer: Block, pos: nat, calls: seq<Call>)
    requires Going(first, stream, buffer, pos, calls)
    ensures pos <= |stream| && |buffer| == PACKAGE_SIZE && Taken(stream[pos..]) <= PACKAGE_SIZE
    ensures pos == |stream| ==>
              && |first| == PACKAGE_SIZE && |Rest(stream)| <= PACKAGE_SIZE && Sendable(Frames(stream))
              && Calls(first, stream) == calls
    ensures pos < |stream| ==>
              var rest := stream[pos..]; var t := Taken(rest); var b := Onto(buffer, rest[..t]);
              t > 0 && Going(first, stream, b, pos + t, calls + [CallOn(b)])
  {
    hide Frames, Rest, CallOn, Onto, AsCalls, Calls;
    var rest := stream[pos..];
    if pos == |stream| {
      NothingLeft(buffer);
      assert rest == [] && calls + [] == calls;
    } else {
      OnePass(buffer, rest);
      var t := Taken(rest);
      var b := Onto(buffer, rest[..t]);
      assert stream[pos + t..] == rest[t..];
      assert calls + ([CallOn(b)] + Calls(b, rest[t..])) == calls + [CallOn(b)] + Calls(b, rest[t..]);
    }
  }

  lemma NothingLeft(buffer: Block)
    requires |buffer| == PACKAGE_SIZE
    ensures Frames([]) == [] && Rest([]) == [] && Taken([]) == 0 && Calls(buffer, []) == []
  {
  }

  lemma IsCall(buffer: Block, total: nat)
    requires |buffer| == PACKAGE_SIZE && total == HEADER_LEN + DataLen(buffer)
    ensures CallOn(buffer) == Call(total, if total <= PACKAGE_SIZE then buffer[..total] else buffer)
  {
  }
}
