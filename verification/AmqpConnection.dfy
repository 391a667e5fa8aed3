/** The parser's own form (rabbitMQ_C/amqp_connection.c): buffers filled in place, a piece of input per
    call. It is proved to do what the byte machine of AmqpParser does on the bytes it consumed. */
module AmqpConnection {
  import opened Common
  import opened Octets
  import opened AmqpCodec
  import opened AmqpFrames
  import opened AmqpParser

  class Connection {
    var frameMax: nat
    var phase: Phase
    const headerBuffer: array<byte>
    var inbound: array<byte>       // the header buffer, or a block of the channel's pool
    var inboundOffset: nat
    var targetSize: nat
    var broken: Option<Error>      // an error was reported: the connection must be shut down

    constructor (frameMax: nat)
      ensures Valid() && Abstract() == FRESH && this.frameMax == frameMax && fresh(headerBuffer)
    {
      this.frameMax := frameMax;
      phase, inboundOffset, targetSize, broken := Initial, 0, 8, None;
      headerBuffer := new byte[8];
      inbound := headerBuffer;
    }

    ghost predicate Buffers()
      reads this
    {
      && headerBuffer.Length == 8
      && (broken.None? && phase != InBody ==> inbound == headerBuffer)
      && (broken.None? ==> inboundOffset <= targetSize <= inbound.Length)
    }

    ghost predicate Valid()
      reads this, inbound
    {
      Buffers() && Sane(Abstract())
    }

    /** The state the byte machine is in. */
    ghost function Abstract(): State
      reads this, inbound
    {
      if broken.Some? then Failed(broken.value)
      else Running(phase, if inboundOffset <= inbound.Length then inbound[..inboundOffset] else [], targetSize)
    }

    /** `return_to_idle`. */
    method ReturnToIdle()
      requires headerBuffer.Length == 8 && broken.None?
      modifies `inbound, `inboundOffset, `targetSize, `phase
      ensures Valid() && Abstract() == IDLE
    {
      inbound := headerBuffer;
      inboundOffset := 0;
      targetSize := HEADER_SIZE;
      phase := Idle;
      assert inbound[..0] == [];
    }

    /** `consume_data`: as much of the data as is here and fits goes into the buffer. */
    method ConsumeData(data: Bytes) returns (consumed: nat)
      requires inboundOffset <= targetSize <= inbound.Length
      modifies inbound, `inboundOffset
      ensures consumed == if |data| < targetSize - old(inboundOffset) then |data| else targetSize - old(inboundOffset)
      ensures inboundOffset == old(inboundOffset) + consumed
      ensures inbound[..inboundOffset] == old(inbound[..inboundOffset]) + data[..consumed]
    {
      consumed := targetSize - inboundOffset;
      if |data| < consumed {
        consumed := |data|;
      }
      forall i | 0 <= i < consumed {
        inbound[inboundOffset + i] := data[i];
      }
      inboundOffset := inboundOffset + consumed;
    }

    /** The header case: checks the announced size and moves to a block that holds the whole frame. Only
        HEADER_SIZE bytes move along; a new block holds zeros. */
    method MoveToBody()
      requires headerBuffer.Length == 8 && inbound == headerBuffer && 7 <= inboundOffset <= 8 && broken.None?
      modifies `inbound, `phase, `targetSize, `broken
      ensures inboundOffset == old(inboundOffset) && (fresh(inbound) || inbound == headerBuffer)
      ensures var acc := old(headerBuffer[..7]) + if inboundOffset == 8 then [0] else [];
        var size := FromBigEndian(acc[3..7]);
        if size >= INT32_MAX || frameMax < size + HEADER_SIZE + FOOTER_SIZE then broken == Some(BadAmqpData)
        else
          && broken == None && phase == InBody && targetSize == size + HEADER_SIZE + FOOTER_SIZE
          && fresh(inbound) && inbound.Length == targetSize && inbound[..inboundOffset] == acc
    {
      var size := FromBigEndian(inbound[3..7]);
      assert inbound[3..7] == inbound[..7][3..7];
      assert (inbound[..7] + if inboundOffset == 8 then [0] else [])[3..7] == inbound[3..7];
      if size >= INT32_MAX {
        broken := Some(BadAmqpData);
        return;
      }
      targetSize := size + HEADER_SIZE + FOOTER_SIZE;
      if frameMax < targetSize {
        broken := Some(BadAmqpData);
        return;
      }
      var block := new byte[targetSize](_ => 0);
      forall i | 0 <= i < HEADER_SIZE {
        block[i] := headerBuffer[i];
      }
      inbound := block;
      phase := InBody;
      assert block[..7] == old(headerBuffer[..7]);
    }

    /** The body case: the frame is complete. */
    method FinishFrame() returns (r: Result<Option<Frame>>)
      requires Buffers() && phase == InBody && inboundOffset == targetSize && targetSize >= 8 && broken.None?
      modifies `inbound, `inboundOffset, `targetSize, `phase, `broken
      ensures Valid() && Same((Abstract(), Delivered(r)), Finish(old(inbound[..inboundOffset])))
      ensures r.Err? <==> broken.Some?
      ensures r.Ok? ==> Abstract() == IDLE
      ensures inbound == old(inbound) || inbound == headerBuffer
    {
      r := DecodeRaw(inbound[..targetSize]);
      if r.Err? {
        broken := Some(r.error);
      } else {
        ReturnToIdle();
      }
    }

    /** What the machine does from here in the body of a frame; nothing is left to wait for if the frame is
        complete. */
    ghost function BodyOutcome(acc: Bytes, target: nat, data: Bytes): Outcome
      requires |acc| <= target && 8 <= target
      reads `frameMax
    {
      if |acc| < target then Run(frameMax, Running(InBody, acc, target), data) else Finish(acc)
    }

    /** From the second `consume_data` on. */
    method HandleBody(data: Bytes) returns (used: nat, r: Result<Option<Frame>>)
      requires Buffers() && phase == InBody && targetSize >= 8 && broken.None?
      modifies inbound, `inbound, `inboundOffset, `targetSize, `phase, `broken
      ensures Valid() && used <= |data| && (inbound == old(inbound) || inbound == headerBuffer)
      ensures old(inboundOffset) < old(targetSize) && data != [] ==> used > 0
      ensures old(inboundOffset) == old(targetSize) ==> used == 0
      ensures Same((Abstract(), Delivered(r)),
          BodyOutcome(old(inbound[..inboundOffset]), old(targetSize), data[..used]))
      ensures (r.Err? <==> broken.Some?) && (r.Ok? && used < |data| ==> Abstract() == IDLE)
    {
      hide Finish, Run, Complete;
      ghost var acc := inbound[..inboundOffset];
      used := ConsumeData(data);
      if inboundOffset < targetSize {
        assert data[..used] == data;
        RunAppends(frameMax, Running(InBody, acc, targetSize), data);
        return used, Ok(None);
      }
      assert inbound[..inboundOffset] == acc + data[..used];
      if |acc| == targetSize {
        assert acc + data[..used] == acc;
      } else {
        RunCompletes(frameMax, Running(InBody, acc, targetSize), data[..used]);
      }
      BodyCompletes(frameMax, acc + data[..used]);
      r := FinishFrame();
    }

    /** `amqp_handle_input`: takes bytes up to the end of the current frame at most, and does on them what
        the byte machine does. */
    method HandleInput(data: Bytes) returns (used: nat, r: Result<Option<Frame>>)
      requires Valid() && broken.None?
      modifies this, headerBuffer, inbound
      ensures Valid() && used <= |data| && (data != [] ==> used > 0)
      ensures frameMax == old(frameMax) && (inbound == old(inbound) || inbound == headerBuffer || fresh(inbound))
      ensures Same((Abstract(), Delivered(r)), Run(frameMax, old(Abstract()), data[..used]))
      ensures (r.Err? <==> broken.Some?) && (r.Ok? && used < |data| ==> Abstract() == IDLE)
    {
      hide Finish, Run;
      if data == [] {
        RunAppends(frameMax, Abstract(), data);
        return 0, Ok(None);
      }
      ghost var st := Abstract();
      if phase == Idle { phase := InHeader; }
      used := ConsumeData(data);
      if inboundOffset < targetSize {
        RunAppends(frameMax, st, data);
        assert data[..used] == data;
        return used, Ok(None);
      }
      RunCompletes(frameMax, st, data[..used]);
      ghost var raw := inbound[..inboundOffset];
      assert raw == st.acc + data[..used];
      r := Ok(None);
      if phase == InBody {
        r := FinishFrame();
      } else if phase == Initial && inbound[..4] == AMQP {
        assert raw[..4] == inbound[..4] && raw[4..] == inbound[4..];
        r := Ok(Some(ProtocolHeader(inbound[4..])));
        ReturnToIdle();
      } else {
        ghost var at := used;
        used, r := AfterHeader(data, used);
        HeaderThenBody(frameMax, st, data, at, used);
      }
    }

    /** The header has come; the rest of the data may hold the body. */
    method AfterHeader(data: Bytes, start: nat) returns (used: nat, r: Result<Option<Frame>>)
      requires headerBuffer.Length == 8 && inbound == headerBuffer && broken.None? && start <= |data|
      requires if phase == Initial then inboundOffset == 8 && inbound[..4] != AMQP
          else phase == InHeader && inboundOffset == 7
      modifies `inbound, `inboundOffset, `targetSize, `phase, `broken
      ensures Valid() && start <= used <= |data| && (inbound == headerBuffer || fresh(inbound))
      ensures Same((Abstract(), Delivered(r)),
          AfterComplete(frameMax, Complete(frameMax, old(phase), old(inbound[..inboundOffset])), data[start..used]))
      ensures (r.Err? <==> broken.Some?) && (r.Ok? && used < |data| ==> Abstract() == IDLE)
      ensures AtRest(Complete(frameMax, old(phase), old(inbound[..inboundOffset]))) ==> used == start
    {
      hide Finish, Run, Complete;
      ghost var acc := inbound[..7] + if inboundOffset == 8 then [0] else [];
      ghost var raw := inbound[..inboundOffset];
      assert raw[..7] == inbound[..7] && (phase == Initial ==> raw[..4] == inbound[..4]);
      HeaderCompletes(frameMax, phase, raw);
      FinishRests(acc);
      MoveToBody();
      if broken.Some? { return start, Err(BadAmqpData); }
      used, r := HandleBody(data[start..]);
      assert data[start..][..used] == data[start..start + used];
      used := start + used;
    }

    /** One buffer of received bytes, as the header file asks: call again on the rest until it is used up. */
    method FeedPiece(data: Bytes) returns (frames: seq<Frame>)
      requires Valid()
      modifies this, headerBuffer, inbound
      ensures Valid() && (inbound == old(inbound) || inbound == headerBuffer || fresh(inbound))
      ensures frameMax == old(frameMax) && Same((Abstract(), frames), Run(frameMax, old(Abstract()), data))
    {
      hide Run, Abstract;
      frames := [];
      var at := 0;
      ghost var st := Abstract();
      assert data[..0] == [];
      RunAppendsNothing(frameMax, st, data[..0]);
      while at < |data| && broken.None?
        invariant at <= |data| && Valid() && frameMax == old(frameMax) && st == old(Abstract())
        invariant inbound == old(inbound) || inbound == headerBuffer || fresh(inbound)
        invariant Same((Abstract(), frames), Run(frameMax, st, data[..at]))
      {
        var used, r := HandleInput(data[at..]);
        RunConcat(frameMax, st, data[..at], data[at..][..used]);
        assert data[..at] + data[at..][..used] == data[..at + used];
        at := at + used;
        if r.Ok? && r.value.Some? { frames := frames + [r.value.value]; }
      }
      FailedStays(at, data, st, frames);
    }

    /** Nothing comes out after an error. */
    lemma FailedStays(at: nat, data: Bytes, st: State, frames: seq<Frame>)
      requires Sane(st) && at <= |data| && (broken.Some? || at == |data|)
      requires Same((Abstract(), frames), Run(frameMax, st, data[..at]))
      ensures Same((Abstract(), frames), Run(frameMax, st, data))
    {
      hide Run;
      assert data[..at] + data[at..] == data;
      if broken.Some? {
        RunFailed(frameMax, broken.value, data[at..]);
        RunConcat(frameMax, st, data[..at], data[at..]);
      } else {
        assert data[..at] == data;
      }
    }

    /** A stream in any number of pieces. With `AnyCutsDeliver` and `CutsDoNotMatter` of AmqpParser: the
        frames that come out depend only on the bytes. */
    method Feed(pieces: seq<Bytes>) returns (frames: seq<Frame>)
      requires Valid()
      modifies this, headerBuffer, inbound
      ensures Valid() && frameMax == old(frameMax)
      ensures Same((Abstract(), frames), Run(frameMax, old(Abstract()), Flatten(pieces)))
    {
      hide Run, Abstract;
      frames := [];
      var n := 0;
      ghost var st := Abstract();
      assert pieces[..0] == [];
      RunAppendsNothing(frameMax, st, Flatten(pieces[..0]));
      while n < |pieces|
        invariant n <= |pieces| && Valid() && frameMax == old(frameMax) && st == old(Abstract())
        invariant inbound == old(inbound) || inbound == headerBuffer || fresh(inbound)
        invariant Same((Abstract(), frames), Run(frameMax, st, Flatten(pieces[..n])))
      {
        var more := FeedPiece(pieces[n]);
        FlattenOneMore(pieces, n);
        RunConcat(frameMax, st, Flatten(pieces[..n]), pieces[n]);
        frames := frames + more;
        n := n + 1;
      }
      assert pieces[..n] == pieces;
    }
  }

  lemma {:induction false} FlattenOneMore(pieces: seq<Bytes>, n: nat)
    requires n < |pieces|
    ensures Flatten(pieces[..n + 1]) == Flatten(pieces[..n]) + pieces[n]
    decreases n
  {
    if n > 0 {
      FlattenOneMore(pieces[1..], n - 1);
      assert pieces[1..][..n] == pieces[..n + 1][1..] && pieces[1..][..n - 1] == pieces[..n][1..];
    }
  }

  /** No further bytes are wanted for this frame. */
  ghost predicate AtRest(o: Outcome) {
    !(o.0.Running? && o.0.phase == InBody)
  }

  /** What the machine does after completing a header: only a frame still short of its body reads on. */
  ghost function AfterComplete(frameMax: nat, o: Outcome, rest: Bytes): Outcome
    requires Sane(o.0)
  {
    if AtRest(o) then o else Run(frameMax, o.0, rest)
  }

  lemma HeaderCompletes(frameMax: nat, phase: Phase, raw: Bytes)
    requires if phase == Initial then |raw| == 8 && raw[..4] != AMQP else phase == InHeader && |raw| == 7
    ensures Complete(frameMax, phase, raw) == StartBody(frameMax, raw[..7] + if |raw| == 8 then [0] else [])
  {
    assert |raw| == 7 ==> raw[..7] + [] == raw;
  }

  lemma FinishRests(acc: Bytes)
    ensures |acc| >= 8 ==> AtRest(Finish(acc))
  {
  }

  lemma HeaderThenBody(frameMax: nat, st: State, data: Bytes, at: nat, used: nat)
    requires Sane(st) && at <= used <= |data|
    requires var o := Run(frameMax, st, data[..at]);
      if AtRest(o) then used == at else o.1 == []
    ensures Same(Run(frameMax, st, data[..used]),
        AfterComplete(frameMax, Run(frameMax, st, data[..at]), data[at..used]))
  {
    hide Run;
    assert data[..at] + data[at..used] == data[..used];
    if used == at {
      assert data[..used] == data[..at];
      RunAppendsNothing(frameMax, Run(frameMax, st, data[..at]).0, data[at..used]);
    } else {
      RunConcat(frameMax, st, data[..at], data[at..used]);
    }
  }

  lemma RunAppendsNothing(frameMax: nat, st: State, data: Bytes)
    requires Sane(st) && data == []
    ensures Run(frameMax, st, data) == (st, [])
  {
  }

  /** At most one frame comes out of a call. */
  ghost function Delivered(r: Result<Option<Frame>>): seq<Frame> {
    if r.Ok? && r.value.Some? then [r.value.value] else []
  }

  lemma BodyCompletes(frameMax: nat, acc: Bytes)
    requires |acc| >= 8
    ensures Complete(frameMax, InBody, acc) == Finish(acc)
  {
  }
}
