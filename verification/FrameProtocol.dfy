/**
 Sending and receiving frames over a byte stream.

 The operating system decides how many bytes a write takes and a read returns, and when to report
 that it would block, that the peer closed, or that the call failed. These decisions are the
 two schedules of a pipe; a schedule that runs out counts as a failure, so every
 finite beginning of a run is covered.
 */
module FrameProtocol {
  import opened Frames

  datatype WriteOutcome = Wrote(count: nat) | WriteBlocked | WriteFailed
  datatype ReadOutcome = Got(count: nat) | ReadBlocked | Closed | ReadFailed

  const READ_SIZE: nat := 4096

  // ---------------------------------------------------------------- what the system calls do

  /** How many of the bytes offered a write takes: at least one, and as many as it says if there are so many. */
  function Accepted(offered: nat, count: nat): (n: nat)
    requires offered > 0
    ensures 0 < n <= offered
  {
    if count == 0 then 1 else if count > offered then offered else count
  }

  /** How many bytes a read of a non-empty wire returns: at least one, and at most what fits the read buffer. */
  function Taken(wire: string, count: nat): (n: nat)
    requires wire != ""
    ensures 0 < n <= |wire| && n <= READ_SIZE
  {
    Accepted(if |wire| < READ_SIZE then |wire| else READ_SIZE, count)
  }

  /** One direction of a connection: the bytes written to it and not read yet. */
  class Pipe {
    var wire: string
    var writeSchedule: seq<WriteOutcome>
    var readSchedule: seq<ReadOutcome>

    constructor (writes: seq<WriteOutcome>, readOutcomes: seq<ReadOutcome>)
      ensures wire == "" && writeSchedule == writes && readSchedule == readOutcomes
    {
      wire, writeSchedule, readSchedule := "", writes, readOutcomes;
    }

    /** `write`: takes between one and all of the bytes, or none. */
    method Write(data: string) returns (outcome: WriteOutcome)
      requires data != ""
      modifies this`wire, this`writeSchedule
      ensures old(writeSchedule) == [] ==> outcome == WriteFailed && wire == old(wire) && writeSchedule == []
      ensures old(writeSchedule) != [] ==>
                writeSchedule == old(writeSchedule)[1..]
                && match old(writeSchedule)[0]
                   case Wrote(count) =>
                     outcome == Wrote(Accepted(|data|, count)) && wire == old(wire) + data[..Accepted(|data|, count)]
                   case other => outcome == other && wire == old(wire)
    {
      if writeSchedule == [] {
        return WriteFailed;
      }
      outcome, writeSchedule := writeSchedule[0], writeSchedule[1..];
      if outcome.Wrote? {
        var n := Accepted(|data|, outcome.count);
        outcome := Wrote(n);
        wire := wire + data[..n];
      }
    }

    /** `read` into a buffer of `READ_SIZE` bytes; it blocks while there is nothing to read. */
    method Read() returns (outcome: ReadOutcome, data: string)
      modifies this`wire, this`readSchedule
      ensures old(wire) == data + wire
      ensures old(readSchedule) == [] ==> outcome == ReadFailed && data == "" && readSchedule == []
      ensures old(readSchedule) != [] ==>
                readSchedule == old(readSchedule)[1..]
                && match old(readSchedule)[0]
                   case Got(count) =>
                     if old(wire) == "" then outcome == ReadBlocked && data == ""
                     else outcome == Got(count) && data == old(wire)[..Taken(old(wire), count)]
                          && (count >= 4096 && |old(wire)| >= 4096 ==> |data| == 4096)
                   case other => outcome == other && data == ""
    {
      data := "";
      if readSchedule == [] {
        return ReadFailed, data;
      }
      outcome, readSchedule := readSchedule[0], readSchedule[1..];
      if outcome.Got? {
        if wire == "" {
          return ReadBlocked, data;
        }
        var n := Taken(wire, outcome.count);
        data, wire := wire[..n], wire[n..];
      }
    }
  }

  // ---------------------------------------------------------------- what the two loops come to

  /** How many of `left` bytes the writing loop gets onto the wire, and the schedule after it. */
  function Pushed(left: nat, schedule: seq<WriteOutcome>): (r: (nat, seq<WriteOutcome>))
    ensures r.0 <= left
    decreases |schedule|
  {
    if left == 0 || schedule == [] then (0, schedule)
    else
      match schedule[0]
      case Wrote(count) =>
        var n := Accepted(left, count);
        var r := Pushed(left - n, schedule[1..]);
        (n + r.0, r.1)
      case WriteBlocked => Pushed(left, schedule[1..])
      case WriteFailed => (0, schedule[1..])
  }

  datatype Filling = Filling(buffer: string, wire: string, schedule: seq<ReadOutcome>)

  /** The buffer, the wire and the schedule after the reading loop. */
  function Filled(buffer: string, wire: string, schedule: seq<ReadOutcome>): (r: Filling)
    ensures r.buffer + r.wire == buffer + wire
    decreases |schedule|
  {
    if HasComplete(buffer) || schedule == [] then Filling(buffer, wire, schedule)
    else
      match schedule[0]
      case Got(count) =>
        if wire == "" then Filled(buffer, wire, schedule[1..])
        else
          var n := Taken(wire, count);
          assert (buffer + wire[..n]) + wire[n..] == buffer + wire;
          Filled(buffer + wire[..n], wire[n..], schedule[1..])
      case ReadBlocked => Filled(buffer, wire, schedule[1..])
      case _ => Filling(buffer, wire, schedule[1..])
  }

  /** The calls up to the first failure that take bytes. */
  function Writes(schedule: seq<WriteOutcome>): nat {
    if schedule == [] || schedule[0].WriteFailed? then 0
    else (if schedule[0].Wrote? then 1 else 0) + Writes(schedule[1..])
  }

  function Reads(schedule: seq<ReadOutcome>): nat {
    if schedule == [] || schedule[0].Closed? || schedule[0].ReadFailed? then 0
    else (if schedule[0].Got? then 1 else 0) + Reads(schedule[1..])
  }

  /** The first `n` outcomes are used up. */
  predicate StopsAt<T(==)>(before: seq<T>, n: int, after: seq<T>) {
    0 <= n <= |before| && after == before[n..]
  }

  /** The outcomes used up end with a failed write, or are all there are. */
  ghost predicate WritingFailed(before: seq<WriteOutcome>, after: seq<WriteOutcome>) {
    exists n :: StopsAt(before, n, after) && (n == |before| || (n > 0 && before[n - 1].WriteFailed?))
  }

  /** The outcomes used up end with a closed or failed connection, or are all there are. */
  ghost predicate ReadingEnded(before: seq<ReadOutcome>, after: seq<ReadOutcome>) {
    exists n :: StopsAt(before, n, after)
                && (n == |before| || (n > 0 && (before[n - 1].Closed? || before[n - 1].ReadFailed?)))
  }

  /** Everything is written unless a write fails; and as many successful writes as there are bytes are always enough. */
  lemma {:induction false} PushedUnlessFailed(left: nat, schedule: seq<WriteOutcome>)
    ensures Pushed(left, schedule).0 < left ==> WritingFailed(schedule, Pushed(left, schedule).1)
    ensures Writes(schedule) >= left ==> Pushed(left, schedule).0 == left
    decreases |schedule|
  {
    var after := Pushed(left, schedule).1;
    if left > 0 && schedule != [] {
      ContinuesAfterOne(schedule);
      match schedule[0]
      case Wrote(count) =>
        PushedUnlessFailed(left - Accepted(left, count), schedule[1..]);
        WritingFailedFrom(schedule, schedule[1..], after);
      case WriteBlocked =>
        PushedUnlessFailed(left, schedule[1..]);
        WritingFailedFrom(schedule, schedule[1..], after);
      case WriteFailed => assert StopsAt(schedule, 1, after);
    } else if left > 0 {
      assert StopsAt(schedule, |schedule|, after);
    }
  }

  /** One schedule is what is left of another. */
  ghost predicate Continues<T>(before: seq<T>, after: seq<T>) {
    exists n :: StopsAt(before, n, after)
  }

  lemma ContinuesItself<T>(s: seq<T>)
    ensures Continues(s, s)
  {
    assert StopsAt(s, 0, s);
  }

  lemma ContinuesAfterOne<T>(s: seq<T>)
    requires s != []
    ensures Continues(s, s[1..])
  {
    assert StopsAt(s, 1, s[1..]);
  }

  lemma StopsLater<T>(a: seq<T>, n: int, b: seq<T>, m: int, c: seq<T>)
    requires StopsAt(a, n, b) && StopsAt(b, m, c)
    ensures StopsAt(a, n + m, c) && |b| == |a| - n
    ensures m > 0 ==> b[m - 1] == a[n + m - 1]
  {
  }

  lemma ContinuesOn<T>(a: seq<T>, b: seq<T>, c: seq<T>)
    requires Continues(a, b) && Continues(b, c)
    ensures Continues(a, c)
  {
    var n :| StopsAt(a, n, b);
    var m :| StopsAt(b, m, c);
    StopsLater(a, n, b, m, c);
  }

  lemma WritingFailedFrom(before: seq<WriteOutcome>, middle: seq<WriteOutcome>, after: seq<WriteOutcome>)
    requires Continues(before, middle)
    ensures WritingFailed(middle, after) ==> WritingFailed(before, after)
  {
    if WritingFailed(middle, after) {
      var n :| StopsAt(before, n, middle);
      var m :| StopsAt(middle, m, after) && (m == |middle| || (m > 0 && middle[m - 1].WriteFailed?));
      StopsLater(before, n, middle, m, after);
    }
  }

  lemma ReadingEndedFrom(before: seq<ReadOutcome>, middle: seq<ReadOutcome>, after: seq<ReadOutcome>)
    requires Continues(before, middle)
    ensures ReadingEnded(middle, after) ==> ReadingEnded(before, after)
  {
    if ReadingEnded(middle, after) {
      var n :| StopsAt(before, n, middle);
      var m :| StopsAt(middle, m, after)
               && (m == |middle| || (m > 0 && (middle[m - 1].Closed? || middle[m - 1].ReadFailed?)));
      StopsLater(before, n, middle, m, after);
    }
  }

  /**
   A complete frame is put together unless the connection ends before; and as many successful reads as
   bytes are missing are always enough for one that has been sent.
   */
  lemma {:induction false} FilledUnlessEnded(buffer: string, wire: string, schedule: seq<ReadOutcome>)
    ensures var r := Filled(buffer, wire, schedule);
            !HasComplete(r.buffer) ==> ReadingEnded(schedule, r.schedule)
    ensures HasComplete(buffer + wire) && |buffer| + Reads(schedule) >= FrameEnd(buffer + wire) ==>
              HasComplete(Filled(buffer, wire, schedule).buffer)
    decreases |schedule|
  {
    hide HasComplete, FrameEnd;
    var after := Filled(buffer, wire, schedule).schedule;
    if HasComplete(buffer) {
      DecodeExtends(buffer, wire);
    } else if schedule == [] {
      assert StopsAt(schedule, |schedule|, after);
      EnoughBuffered(buffer, wire);
    } else {
      EnoughBuffered(buffer, wire);
      ContinuesAfterOne(schedule);
      match schedule[0]
      case Got(count) =>
        if wire == "" {
          assert buffer + wire == buffer;
          FilledUnlessEnded(buffer, wire, schedule[1..]);
        } else {
          var n := Taken(wire, count);
          assert (buffer + wire[..n]) + wire[n..] == buffer + wire;
          FilledUnlessEnded(buffer + wire[..n], wire[n..], schedule[1..]);
        }
        ReadingEndedFrom(schedule, schedule[1..], after);
      case ReadBlocked =>
        FilledUnlessEnded(buffer, wire, schedule[1..]);
        ReadingEndedFrom(schedule, schedule[1..], after);
      case _ => assert StopsAt(schedule, 1, after);
    }
  }

  /** One turn of the reading loop. */
  lemma FilledTurn(buffer: string, wire: string, schedule: seq<ReadOutcome>)
    requires !HasComplete(buffer)
    ensures schedule == [] ==> Filled(buffer, wire, schedule) == Filling(buffer, wire, [])
    ensures schedule != [] && (schedule[0].ReadBlocked? || (schedule[0].Got? && wire == "")) ==>
              Filled(buffer, wire, schedule) == Filled(buffer, wire, schedule[1..])
    ensures schedule != [] && schedule[0].Got? && wire != "" ==>
              var n := Taken(wire, schedule[0].count);
              Filled(buffer, wire, schedule) == Filled(buffer + wire[..n], wire[n..], schedule[1..])
    ensures schedule != [] && (schedule[0].Closed? || schedule[0].ReadFailed?) ==>
              Filled(buffer, wire, schedule) == Filling(buffer, wire, schedule[1..])
  {
    hide HasComplete;
  }

  lemma FilledDone(buffer: string, wire: string, schedule: seq<ReadOutcome>)
    requires HasComplete(buffer)
    ensures Filled(buffer, wire, schedule) == Filling(buffer, wire, schedule)
  {
    hide HasComplete;
  }

  /** A buffer as long as the first frame of the stream holds it. */
  lemma EnoughBuffered(buffer: string, wire: string)
    ensures HasComplete(buffer + wire) && |buffer| >= FrameEnd(buffer + wire) ==> HasComplete(buffer)
  {
    if HasComplete(buffer + wire) && |buffer| >= FrameEnd(buffer + wire) {
      AnnouncedExtends(buffer, wire);
    }
  }

  // ---------------------------------------------------------------- the codec over buffers

  method WriteUint32BigEndian(output: array<char>, offset: nat, value: int)
    requires offset + 4 <= output.Length && IsUint32(value)
    modifies output
    ensures output[..] == old(output[..offset]) + Bytes32(value) + old(output[offset + 4..])
  {
    output[offset] := Byte(value / 0x100_0000);
    output[offset + 1] := Byte(value / 0x1_0000);
    output[offset + 2] := Byte(value / 0x100);
    output[offset + 3] := Byte(value);
  }

  /** What serializing gives: `Overread` where the length field makes the copy run past the payload's end. */
  datatype Serialized = Refused | Overread | Bytes(data: string)

  /** Only a frame whose payload is as long as its length field says must be passed on. */
  predicate Transmissible(f: Frame) {
    HasRange(f) && (f.length <= MAX_PAYLOAD_SIZE ==> f.length <= |f.payload|)
  }

  lemma WellFormedIsTransmissible(f: Frame)
    requires WellFormed(f)
    ensures Transmissible(f)
  {
  }

  method WriteHeader(output: array<char>, frame: Frame)
    requires HasRange(frame) && output.Length >= HEADER_SIZE
    modifies output
    ensures output[..12] == Header(frame)
  {
    hide Bytes32;
    WriteUint32BigEndian(output, 0, frame.kind);
    WriteUint32BigEndian(output, 4, frame.id);
    WriteUint32BigEndian(output, 8, frame.length);
    assert output[..4] == Bytes32(frame.kind) && output[4..8] == Bytes32(frame.id) && output[8..12] == Bytes32(frame.length);
  }

  method SerializeFrame(frame: Frame) returns (r: Serialized)
    requires HasRange(frame)
    ensures r == Refused <==> frame.length > MAX_PAYLOAD_SIZE
    ensures r == Overread <==> frame.length <= MAX_PAYLOAD_SIZE && frame.length > |frame.payload|
    ensures r.Bytes? ==> r.data == Encode(frame)
  {
    if frame.length > MAX_PAYLOAD_SIZE {
      return Refused;
    }
    if frame.length > |frame.payload| {
      return Overread;
    }
    hide Header, Bytes32;
    var output := new char[HEADER_SIZE + frame.length](_ => 0 as char);
    WriteHeader(output, frame);
    forall i | 0 <= i < frame.length {
      output[HEADER_SIZE + i] := frame.payload[i];
    }
    assert output[..12] == Header(frame);
    assert output[12..] == frame.payload[..frame.length];
    assert output[..] == output[..12] + output[12..];
    return Bytes(output[..]);
  }

  method DeserializeFrame(data: string) returns (ok: bool, frame: Frame, consumed: nat)
    ensures ok <==> HasComplete(data)
    ensures ok ==> frame == Decode(data) && consumed == FrameEnd(data)
    ensures !ok ==> consumed == 0
  {
    ok, frame, consumed := false, Frame(ERROR, 0, 0, ""), 0;
    if |data| >= HEADER_SIZE {
      var kind := Number32(data);
      var id := Number32(data[4..]);
      var length := Number32(data[8..]);
      if length <= MAX_PAYLOAD_SIZE && |data| >= HEADER_SIZE + length {
        var payload := if length > 0 then data[HEADER_SIZE..HEADER_SIZE + length] else "";
        frame := Frame(kind, id, length, payload);
        consumed := HEADER_SIZE + length;
        ok := true;
      }
    }
  }

  // ---------------------------------------------------------------- sending and receiving

  datatype SendResult = Sent | NotSent | Overran

  /** The writing loop: until everything is written, or a write fails. */
  method WriteAll(pipe: Pipe, data: string) returns (written: nat)
    modifies pipe`wire, pipe`writeSchedule
    ensures (written, pipe.writeSchedule) == Pushed(|data|, old(pipe.writeSchedule))
    ensures written <= |data| && pipe.wire == old(pipe.wire) + data[..written]
  {
    written := 0;
    while written < |data|
      invariant 0 <= written <= |data|
      invariant pipe.wire == old(pipe.wire) + data[..written]
      invariant var p := Pushed(|data| - written, pipe.writeSchedule);
                Pushed(|data|, old(pipe.writeSchedule)) == (written + p.0, p.1)
      decreases |data| - written + |pipe.writeSchedule|
    {
      var outcome := pipe.Write(data[written..]);
      match outcome {
        case Wrote(n) =>
          assert data[..written] + data[written..][..n] == data[..written + n];
          written := written + n;
        case WriteBlocked =>
        case WriteFailed => return;
      }
    }
  }

  /**
   The whole frame goes onto the wire unless a write fails; failure leaves a part of it there. With a
   length field that says more than the payload holds, what would be sent is not known.
   */
  method SendFrame(pipe: Pipe, frame: Frame) returns (r: SendResult)
    requires HasRange(frame)
    modifies pipe`wire, pipe`writeSchedule
    ensures r == Overran <==> !Transmissible(frame)
    ensures frame.length > 1048576 ==> r == NotSent && pipe.wire == old(pipe.wire)
    ensures frame.length > 1048576 || r == Overran ==> pipe.writeSchedule == old(pipe.writeSchedule)
    ensures frame.length <= 1048576 && r != Overran ==>
              var p := Pushed(|Encode(frame)|, old(pipe.writeSchedule));
              && pipe.wire == old(pipe.wire) + Encode(frame)[..p.0] && pipe.writeSchedule == p.1
              && (r == Sent <==> p.0 == |Encode(frame)|)
    ensures r == Sent ==> frame.length <= 1048576 && pipe.wire == old(pipe.wire) + Encode(frame)
    ensures r == NotSent && frame.length <= 1048576 ==> WritingFailed(old(pipe.writeSchedule), pipe.writeSchedule)
  {
    hide Encode, Bytes32, WritingFailed, Pushed;
    var serialized := SerializeFrame(frame);
    if serialized == Refused {
      return NotSent;
    }
    if serialized == Overread {
      return Overran;
    }
    var data := serialized.data;
    PushedUnlessFailed(|data|, pipe.writeSchedule);
    var written := WriteAll(pipe, data);
    assert data[..|data|] == data;
    r := if written == |data| then Sent else NotSent;
  }

  const NO_FRAME := Frame(ERROR, 0, 0, "")

  /** The reading loop: until the buffer holds a complete frame, or the connection ends. */
  method FillBuffer(pipe: Pipe, readBuffer: string) returns (buffer: string)
    modifies pipe`wire, pipe`readSchedule
    ensures Filling(buffer, pipe.wire, pipe.readSchedule) == Filled(readBuffer, old(pipe.wire), old(pipe.readSchedule))
  {
    hide HasComplete, Filled, Taken;
    buffer := readBuffer;
    ghost var result := Filled(readBuffer, pipe.wire, pipe.readSchedule);
    while !HasComplete(buffer)
      invariant Filled(buffer, pipe.wire, pipe.readSchedule) == result
      decreases |pipe.readSchedule|
    {
      ghost var wire := pipe.wire;
      FilledTurn(buffer, wire, pipe.readSchedule);
      var outcome, data := pipe.Read();
      assert wire[|data|..] == pipe.wire && "" + pipe.wire == pipe.wire;
      match outcome {
        case Got(_) => buffer := buffer + data;
        case Closed => return;
        case ReadBlocked =>
        case ReadFailed => return;
      }
    }
    FilledDone(buffer, pipe.wire, pipe.readSchedule);
  }

  /**
   No byte is lost, repeated or reordered: what was buffered and on the wire is the returned frame
   followed by what is buffered and on the wire now. The placeholder is returned, and every byte kept,
   only when the connection ended before a frame was complete.
   */
  method ReceiveFrame(pipe: Pipe, readBuffer: string) returns (frame: Frame, buffer: string)
    modifies pipe`wire, pipe`readSchedule
    ensures var f := Filled(readBuffer, old(pipe.wire), old(pipe.readSchedule));
            && pipe.wire == f.wire && pipe.readSchedule == f.schedule
            && frame == (if HasComplete(f.buffer) then Decode(f.buffer) else NO_FRAME)
            && buffer == if HasComplete(f.buffer) then f.buffer[FrameEnd(f.buffer)..] else f.buffer
    ensures var stream := readBuffer + old(pipe.wire);
            || (HasComplete(stream) && frame == Decode(stream) && buffer + pipe.wire == stream[FrameEnd(stream)..])
            || (!HasComplete(buffer) && frame == Frame(7, 0, 0, "") && buffer + pipe.wire == stream
                && ReadingEnded(old(pipe.readSchedule), pipe.readSchedule))
    ensures HasComplete(readBuffer) ==>
              frame == Decode(readBuffer) && buffer == readBuffer[FrameEnd(readBuffer)..] && pipe.wire == old(pipe.wire)
  {
    hide Decode, FrameEnd, HasComplete, ReadingEnded, Filled;
    FilledUnlessEnded(readBuffer, pipe.wire, pipe.readSchedule);
    if HasComplete(readBuffer) {
      FilledDone(readBuffer, pipe.wire, pipe.readSchedule);
    }
    frame := NO_FRAME;
    buffer := FillBuffer(pipe, readBuffer);
    if HasComplete(buffer) {
      var ok, received, consumed := DeserializeFrame(buffer);
      DecodeExtends(buffer, pipe.wire);
      assert (buffer + pipe.wire)[consumed..] == buffer[consumed..] + pipe.wire;
      frame, buffer := received, buffer[consumed..];
    }
  }

  // ---------------------------------------------------------------- a backend connection, as the forwarder uses it

  class BackendForwarder {
    var readBuffers: map<int, string>

    constructor ()
      ensures readBuffers == map[]
    {
      readBuffers := map[];
    }

    function Buffered(fd: int): string
      reads this
    {
      if fd in readBuffers then readBuffers[fd] else ""
    }

    /**
     One request and one response. The buffer is copied out, used, and copied back, and nothing
     is lost between calls: what the backend sent and the gateway did not return yet is still there. The
     placeholder is returned only when the request could not be sent, or the connection ended.
     */
    method SendAndReceive(fd: int, toBackend: Pipe, fromBackend: Pipe, request: Frame)
      returns (sent: bool, response: Frame)
      requires toBackend != fromBackend
      requires Transmissible(request)
      modifies this, toBackend, fromBackend
      ensures sent <==>
                request.length <= 1048576
                && Pushed(|Encode(request)|, old(toBackend.writeSchedule)).0 == |Encode(request)|
      ensures sent ==> toBackend.wire == old(toBackend.wire) + Encode(request)
      ensures !sent && request.length <= 1048576 ==> WritingFailed(old(toBackend.writeSchedule), toBackend.writeSchedule)
      ensures !sent ==> readBuffers == old(readBuffers) && fromBackend.wire == old(fromBackend.wire) && response == NO_FRAME
      ensures !sent ==> fromBackend.readSchedule == old(fromBackend.readSchedule)
      ensures sent ==>
                var f := Filled(old(Buffered(fd)), old(fromBackend.wire), old(fromBackend.readSchedule));
                && fromBackend.wire == f.wire && fromBackend.readSchedule == f.schedule
                && response == (if HasComplete(f.buffer) then Decode(f.buffer) else NO_FRAME)
                && Buffered(fd) == if HasComplete(f.buffer) then f.buffer[FrameEnd(f.buffer)..] else f.buffer
      ensures var stream := old(Buffered(fd) + fromBackend.wire);
              var left := Buffered(fd) + fromBackend.wire;
              || (HasComplete(stream) && response == Decode(stream) && left == stream[FrameEnd(stream)..])
              || (response == NO_FRAME && left == stream
                  && (!sent || ReadingEnded(old(fromBackend.readSchedule), fromBackend.readSchedule)))
      ensures Continues(old(toBackend.writeSchedule), toBackend.writeSchedule)
      ensures Continues(old(fromBackend.readSchedule), fromBackend.readSchedule)
      ensures forall other :: other != fd ==> Buffered(other) == old(Buffered(other))
    {
      hide Pushed, Filled, WritingFailed, ReadingEnded, HasComplete, Encode, Decode, Continues;
      response := NO_FRAME;
      ContinuesItself(toBackend.writeSchedule);
      ContinuesItself(fromBackend.readSchedule);
      if request.length <= 1048576 {
        PushedContinues(|Encode(request)|, toBackend.writeSchedule);
      }
      FilledContinues(Buffered(fd), fromBackend.wire, fromBackend.readSchedule);
      var result := SendFrame(toBackend, request);
      sent := result == Sent;
      if sent {
        var readBuffer := Buffered(fd);
        var buffer;
        response, buffer := ReceiveFrame(fromBackend, readBuffer);
        readBuffers := readBuffers[fd := buffer];
      }
    }

    /**
     A run of calls on one connection, up to the first that returns the placeholder: the responses
     are the backend's frames, in order, none skipped or repeated, however the bytes were cut up; and the
     run is cut short only by a failed write, the end of the connection, or a frame equal to the
     placeholder. (A backend may send one; the caller cannot tell it apart.)
     */
    method Exchange(fd: int, toBackend: Pipe, fromBackend: Pipe, requests: seq<Frame>, ghost frames: seq<Frame>,
                    ghost partial: string)
      returns (responses: seq<Frame>)
      requires toBackend != fromBackend
      requires AllWellFormed(requests)
      requires AllWellFormed(frames)
      requires !HasComplete(partial)
      requires Buffered(fd) + fromBackend.wire == EncodeAll(frames) + partial
      modifies this, toBackend, fromBackend
      ensures |responses| <= |requests| && responses <= frames
      ensures var n := |responses|;
              || Buffered(fd) + fromBackend.wire == EncodeAll(frames[n..]) + partial
              || (n < |frames| && frames[n] == NO_FRAME
                  && Buffered(fd) + fromBackend.wire == EncodeAll(frames[n + 1..]) + partial)
      ensures var n := |responses|;
              n < |requests| ==>
                || (n < |frames| && frames[n] == NO_FRAME)
                || WritingFailed(old(toBackend.writeSchedule), toBackend.writeSchedule)
                || ReadingEnded(old(fromBackend.readSchedule), fromBackend.readSchedule)
    {
      hide HasComplete, Decode, FrameEnd, EncodeAll, WellFormed, Transmissible, Pushed, Filled;
      hide WritingFailed, ReadingEnded, Continues;
      responses := [];
      var i := 0;
      ghost var writes, readOutcomes := toBackend.writeSchedule, fromBackend.readSchedule;
      ContinuesItself(writes);
      ContinuesItself(readOutcomes);
      while i < |requests|
        invariant i == |responses| <= |requests| && responses <= frames
        invariant Buffered(fd) + fromBackend.wire == EncodeAll(frames[i..]) + partial
        invariant Continues(writes, toBackend.writeSchedule) && Continues(readOutcomes, fromBackend.readSchedule)
      {
        ghost var stream := Buffered(fd) + fromBackend.wire;
        WellFormedIsTransmissible(requests[i]);
        WellFormedFits(requests[i]);
        ghost var midWrites, midReads := toBackend.writeSchedule, fromBackend.readSchedule;
        var sent, response := SendAndReceive(fd, toBackend, fromBackend, requests[i]);
        WritingFailedFrom(writes, midWrites, toBackend.writeSchedule);
        ReadingEndedFrom(readOutcomes, midReads, fromBackend.readSchedule);
        if HasComplete(stream) {
          FirstFrame(frames[i..], partial);
          assert frames[i..][0] == frames[i] && frames[i..][1..] == frames[i + 1..];
        }
        if response == NO_FRAME {
          return;
        }
        ContinuesOn(writes, midWrites, toBackend.writeSchedule);
        ContinuesOn(readOutcomes, midReads, fromBackend.readSchedule);
        responses := responses + [response];
        i := i + 1;
      }
    }
  }

  lemma WellFormedFits(f: Frame)
    requires WellFormed(f)
    ensures f.length <= 1048576
  {
  }

  lemma {:induction false} PushedContinues(left: nat, schedule: seq<WriteOutcome>)
    ensures Continues(schedule, Pushed(left, schedule).1)
    decreases |schedule|
  {
    hide Continues;
    ContinuesItself(schedule);
    if left > 0 && schedule != [] {
      ContinuesAfterOne(schedule);
      if !schedule[0].WriteFailed? {
        var k := if schedule[0].Wrote? then Accepted(left, schedule[0].count) else 0;
        PushedContinues(left - k, schedule[1..]);
        ContinuesOn(schedule, schedule[1..], Pushed(left, schedule).1);
      }
    }
  }

  lemma {:induction false} FilledContinues(buffer: string, wire: string, schedule: seq<ReadOutcome>)
    ensures Continues(schedule, Filled(buffer, wire, schedule).schedule)
    decreases |schedule|
  {
    hide HasComplete, Continues;
    ContinuesItself(schedule);
    if !HasComplete(buffer) && schedule != [] {
      ContinuesAfterOne(schedule);
      if !schedule[0].Closed? && !schedule[0].ReadFailed? {
        var k := if schedule[0].Got? && wire != "" then Taken(wire, schedule[0].count) else 0;
        assert k == 0 ==> buffer + wire[..k] == buffer && wire[k..] == wire;
        FilledContinues(buffer + wire[..k], wire[k..], schedule[1..]);
        ContinuesOn(schedule, schedule[1..], Filled(buffer, wire, schedule).schedule);
      }
    }
  }

  lemma FirstFrame(fs: seq<Frame>, partial: string)
    requires AllWellFormed(fs)
    requires !HasComplete(partial) && HasComplete(EncodeAll(fs) + partial)
    ensures fs != [] && Decode(EncodeAll(fs) + partial) == fs[0]
    ensures (EncodeAll(fs) + partial)[FrameEnd(EncodeAll(fs) + partial)..] == EncodeAll(fs[1..]) + partial
  {
    hide *;
    assert fs != [] by {
      UnfoldEncodeAll(fs);
      assert "" + partial == partial;
    }
    FirstOf(fs, partial);
  }
}
