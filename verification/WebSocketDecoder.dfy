/** The simulator's incremental WebSocket decoder object. */
module WebSocketDecoding {
  import opened Bytes
  import opened Options
  import opened Incremental
  import opened WebSocket

  type Decision = (Assembly, Bytes) -> Verdict<Assembly, Message, Error>

  /** `look` is the decoder's decision, for code that only follows it. */
  ghost predicate IsDecision(look: Decision) {
    && Progressing(look)
    && forall st, s {:trigger Look(st, s)} :: look(st, s) == Look(st, s)
  }

  class Decoder {
    ghost const look: Decision
    var buf: Bytes
    var msg: Bytes
    var msgOp: Op
    var inMessage: bool
    var status: Option<Error>      // none while the stream is good

    constructor ()
      ensures IsDecision(look) && End() == Open(IDLE, [])
    {
      look := Look;
      buf, msg, msgOp, inMessage, status := [], [], Text, false, None;
      new;
      LookIsSound();
    }

    function Current(): Assembly
      reads this
    {
      Assembly(inMessage, msgOp, msg)
    }

    function End(): End<Assembly, Byte, Error>
      reads this
    {
      if status.Some? then Closed(status.value) else Open(Current(), buf)
    }

    /** Decodes on from where the last call stopped; a decoder that has failed stays failed. */
    method Feed(bytes: Bytes) returns (out: seq<Message>)
      requires IsDecision(look)
      modifies this
      ensures out == Incremental.Feed(look, old(End()), bytes).out
      ensures End() == Incremental.Feed(look, old(End()), bytes).end
    {
      out := [];
      if status.Some? {
        return;
      }
      buf := buf + bytes;
      ghost var start, s := Current(), buf;
      var consumed: nat := 0;
      ReachedStart(look, start, s);
      while true
        invariant buf == s && status.None?
        invariant Reached(look, start, s, consumed, Current(), out)
        decreases |s| - consumed
      {
        ghost var before := Current();
        var used, done := ParseOne(consumed);
        if status.Some? {
          ReachedEnd(look, start, s, consumed, before, out);
          return;
        }
        if used == 0 {
          break;
        }
        ReachedStep(look, start, s, consumed, before, out);
        out := out + done;
        consumed := consumed + used;
      }
      ReachedEnd(look, start, s, consumed, Current(), out);
      buf := buf[consumed..];
    }

    /** Parses the frame at `start`; `used` is 0 when more input is needed or on an error. */
    method ParseOne(start: nat) returns (used: nat, out: seq<Message>)
      requires IsDecision(look)
      requires status.None? && start <= |buf|
      modifies this`msg, this`msgOp, this`inMessage, this`status
      ensures
        match look(old(Current()), buf[start..])
        case Wait => used == 0 && status.None? && Current() == old(Current())
        case Reject(e) => used == 0 && status == Some(e)
        case Take(size, messages, next) =>
          used == size && used > 0 && out == messages && status.None? && Current() == next
    {
      ghost var here := buf[start..];
      used, out := 0, [];
      var head := ParseHead(start, Current());
      if head.Bad? {
        status := Some(ProtocolError);
      }
      if !head.Head? {
        return;
      }
      if head.length > MAX_MESSAGE || |msg| + head.length > MAX_MESSAGE {
        status := Some(TooBig);
        return;
      }
      var key := start + head.size;
      if |buf| - start < head.size + 4 + head.length {
        return;
      }
      assert here[head.size..head.size + 4] == buf[key..key + 4];
      assert here[head.size + 4..head.size + 4 + head.length] == buf[key + 4..key + 4 + head.length];
      var payload := Unmask(key + 4, head.length, buf[key..key + 4]);
      out := TakeIn(head.op, head.fin, payload);
      used := if status.Some? then 0 else head.size + 4 + head.length;
    }

    /** Reads the header of the frame at `start`. */
    method ParseHead(start: nat, ghost st: Assembly) returns (head: Head)
      requires IsDecision(look)
      requires start <= |buf|
      ensures head.Head? ==> 2 <= head.size <= |buf| - start
      ensures look(st, buf[start..]) == FollowHead(st, buf[start..], head)
    {
      head := ReadFrameHead(start);
      assert look(st, buf[start..]) == Look(st, buf[start..]);
    }

    method ReadFrameHead(start: nat) returns (head: Head)
      requires start <= |buf|
      ensures head == ReadHead(buf[start..])
    {
      ghost var here := buf[start..];
      var avail := |buf| - start;
      if avail < 2 {
        return Short;
      }
      var b0, b1 := buf[start], buf[start + 1];
      var fin := b0 >= 128;
      var opcode := OpOf(b0 % 16);
      var length: nat := b1 % 128;
      var size := 2;
      if b0 / 16 % 8 != 0 || b1 < 128 {
        return Bad;
      }
      if opcode.None? || (Control(opcode.value) && (!fin || length > MAX_CONTROL)) {
        return Bad;
      }
      if length == 126 {
        if avail < 4 {
          return Short;
        }
        assert here[2..4] == buf[start + 2..start + 4];
        length := ReadLength(start + 2, 2);
        size := 4;
      } else if length == 127 {
        if avail < 10 {
          return Short;
        }
        assert here[2..10] == buf[start + 2..start + 10];
        length := ReadLength(start + 2, 8);
        size := 10;
      }
      head := Head(opcode.value, fin, size, length);
    }

    /** Adds a complete frame to the message under assembly. */
    method TakeIn(op: Op, fin: bool, payload: Bytes) returns (out: seq<Message>)
      requires status.None?
      modifies this`msg, this`msgOp, this`inMessage, this`status
      ensures
        match Deliver(old(Current()), op, fin, payload)
        case Refuse(e) => status == Some(e)
        case Accept(messages, next) => out == messages && status.None? && Current() == next
    {
      out := [];
      if Control(op) {
        return [Message(op, payload)];
      }
      if op.Continuation? {
        if !inMessage {
          status := Some(ProtocolError);
          return;
        }
        msg := msg + payload;
      } else {
        if inMessage {
          status := Some(ProtocolError);
          return;
        }
        msg, msgOp, inMessage := payload, op, true;
      }
      if fin {
        out := [Message(msgOp, msg)];
        msg, inMessage := [], false;
      }
    }

    /** The big-endian number in `n` bytes at `at`. */
    method ReadLength(at: nat, n: nat) returns (length: nat)
      requires at + n <= |buf|
      ensures length == GetBE(buf[at..at + n])
    {
      length := 0;
      for i := 0 to n
        invariant length == GetBE(buf[at..at + i])
      {
        assert buf[at..at + i + 1][..i] == buf[at..at + i];
        length := length * 256 + buf[at + i] as int;
      }
    }

    method Unmask(at: nat, length: nat, key: Key) returns (payload: Bytes)
      requires at + length <= |buf|
      ensures payload == Masked(buf[at..at + length], key)
    {
      payload := [];
      for i := 0 to length
        invariant payload == Masked(buf[at..at + length], key)[..i]
      {
        payload := payload + [XorByte(buf[at + i], key[i % 4])];
      }
    }
  }
}
