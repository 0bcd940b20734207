/** Common::ZeroCopyInputStreamQIODevice and ZeroCopyOutputStreamQIODevice: a device seen
    through a 4 KiB buffer.  Pointers into the buffer are offsets from its start. */
module ZeroCopyStream {

  import opened Sequences

  const BUFFER_SIZE: nat := 4096

  function Min(a: nat, b: nat): nat {
    if a < b then a else b
  }

  /** The device: the bytes that have arrived (or were written) and the read position. */
  class Device {
    var data: seq<byte>
    var at: nat

    ghost predicate Valid()
      reads this
    {
      at <= |data|
    }

    constructor (data: seq<byte>, at: nat)
      requires at <= |data|
      ensures this.data == data && this.at == at
    {
      this.data, this.at := data, at;
    }

    function BytesAvailable(): nat
      requires Valid()
      reads this
    {
      |data| - at
    }

    /** QIODevice::read: takes at most what is there. */
    method Read(count: nat) returns (got: seq<byte>)
      requires Valid()
      modifies `at
      ensures Valid() && at == old(at) + Min(count, |data| - old(at)) && got == data[old(at)..at]
    {
      var n := Min(count, |data| - at);
      got := data[at..at + n];
      at := at + n;
    }

    method Write(bytes: seq<byte>)
      modifies `data
      ensures data == old(data) + bytes
    {
      data := data + bytes;
    }

    /** More bytes arrive. */
    method Arrive(bytes: seq<byte>)
      requires Valid()
      modifies `data
      ensures Valid() && data == old(data) + bytes
    {
      data := data + bytes;
    }
  }

  // ----- the plain cursor -----

  /** A reader without a buffer: the bytes that have arrived, the cursor, how many bytes from the
      cursor on were peeked and not handed out yet, how many were peeked last, and how many of
      those before the cursor can be given back. */
  datatype Plain = Plain(data: seq<byte>, at: nat, ahead: nat, peeked: nat, given: nat)

  /** What a client and the network may do to an input stream, in any order. */
  datatype Call =
    | NextCall(peeked: nat)
    | BackUpCall(count: nat)
    | SkipCall(count: nat)
    | ArriveCall(bytes: seq<byte>)

  /** The next chunk is what is ahead, or else what can be peeked now. */
  function Fetched(p: Plain, peeked: nat): Plain {
    var size := if p.ahead > 0 then p.ahead else peeked;
    p.(at := p.at + size, ahead := 0, peeked := if p.ahead > 0 then p.peeked else peeked, given := size)
  }

  /** The cursor goes on, at most past the end by what was peeked last. */
  function Skipped(p: Plain, count: nat): Plain {
    p.(at := Min(p.at + count, |p.data| + p.peeked), given := 0,
       ahead := if count < p.ahead then p.ahead - count else 0)
  }

  /** The callers' obligations. */
  predicate Allowed(p: Plain, call: Call) {
    match call
    case NextCall(peeked) => peeked <= BUFFER_SIZE && p.at + p.ahead + peeked <= |p.data|
    case BackUpCall(count) => count <= p.given <= p.at
    case SkipCall(count) => p.at + count <= |p.data|
    case ArriveCall(_) => true
  }

  /** One call; what is not allowed is left out. */
  function Move(p: Plain, call: Call): Plain {
    if !Allowed(p, call) then p
    else
      match call
      case NextCall(peeked) => Fetched(p, peeked)
      case BackUpCall(count) => p.(at := p.at - count, ahead := p.ahead + count, given := 0)
      case SkipCall(count) => Skipped(p, count)
      case ArriveCall(bytes) => p.(data := p.data + bytes)
  }

  function Moves(p: Plain, script: seq<Call>): Plain {
    if script == [] then p else Move(Moves(p, script[..|script| - 1]), script[|script| - 1])
  }

  /** Bytes that have arrived stay. */
  lemma {:induction false} MovesKeepData(p: Plain, script: seq<Call>)
    ensures p.data <= Moves(p, script).data
  {
    if script == [] {
    } else {
      MovesKeepData(p, script[..|script| - 1]);
    }
  }

  // ----- the input stream -----

  class ZeroCopyInputStream {
    const device: Device
    const buffer: array<byte>
    var nbLastRead: nat
    var pos: nat
    var bytesRead: nat
    ghost const start: nat   // the device position at construction
    ghost var handed: nat    // the size of the last chunk, 0 unless Next was the last call

    /** Where the client stands in the stream. */
    ghost function Cursor(): nat
      reads this, device
    {
      device.at + pos
    }

    /** The bytes between pos and the end of the buffer, and those BackUp can give back, are the
        device's bytes around the cursor. */
    ghost predicate Valid()
      reads this, device, buffer
    {
      && buffer.Length == BUFFER_SIZE && device.Valid()
      && handed <= pos <= nbLastRead <= BUFFER_SIZE
      && device.at + nbLastRead <= |device.data|
      && start + handed <= Cursor()
      && (forall i :: pos - handed <= i < nbLastRead ==> buffer[i] == device.data[device.at + i])
      && bytesRead == (Cursor() - start) + (nbLastRead - pos)
    }

    /** The plain reader the stream stands for. */
    ghost function View(): Plain
      requires pos <= nbLastRead
      reads this, device
    {
      Plain(device.data, Cursor(), nbLastRead - pos, nbLastRead, handed)
    }

    constructor (device: Device)
      requires device.Valid()
      ensures Valid() && this.device == device && start == device.at && fresh(buffer)
      ensures View() == Plain(device.data, start, 0, 0, 0) && bytesRead == 0
    {
      this.device := device;
      buffer := new byte[BUFFER_SIZE];
      nbLastRead, pos, bytesRead, handed := 0, 0, 0, 0;
      start := device.at;
    }

    /** The buffer is used up: its bytes leave the device and the next ones are peeked. */
    method Refill(peeked: nat)
      requires Valid() && pos == nbLastRead
      requires peeked <= BUFFER_SIZE && peeked <= |device.data| - (device.at + nbLastRead)
      modifies this, buffer, device`at
      ensures Valid() && pos == 0 && nbLastRead == peeked && handed == 0 && Cursor() == old(Cursor())
    {
      if nbLastRead != 0 {
        var _ := device.Read(nbLastRead);
      }
      nbLastRead, pos, handed := peeked, 0, 0;
      bytesRead := bytesRead + nbLastRead;
      forall i | 0 <= i < peeked {
        buffer[i] := device.data[device.at + i];
      }
    }

    /** The next chunk is buffer[from..from + size].  `peeked` is how many bytes the device lets
        itself be peeked. */
    method Next(peeked: nat) returns (ok: bool, from: nat, size: nat)
      requires Valid()
      requires peeked <= BUFFER_SIZE && peeked <= |device.data| - (device.at + nbLastRead)
      modifies this, buffer, device`at
      ensures Valid() && View() == Fetched(old(View()), peeked)
      ensures ok <==> old(pos < nbLastRead) || peeked > 0
      ensures ok ==> size > 0 && from + size <= BUFFER_SIZE && old(Cursor()) + size <= |device.data|
      ensures ok ==> buffer[from..from + size] == device.data[old(Cursor())..old(Cursor()) + size]
      ensures size == handed && Cursor() == old(Cursor()) + size
      ensures size == (if old(pos < nbLastRead) then old(nbLastRead - pos) else peeked) && pos == nbLastRead
    {
      if pos != nbLastRead {
        from, size := pos, nbLastRead - pos;
        handed := 0;
        pos := nbLastRead;
        handed := size;
        return true, from, size;
      }
      Refill(peeked);
      if nbLastRead == 0 {
        return false, 0, 0;
      }
      pos, handed := nbLastRead, nbLastRead;
      return true, 0, nbLastRead;
    }

    /** Gives back the end of the last chunk. */
    method BackUp(count: nat)
      requires Valid() && count <= handed
      modifies this
      ensures Valid() && Cursor() == old(Cursor()) - count
      ensures View() == Move(old(View()), BackUpCall(count)) && bytesRead == old(bytesRead)
    {
      pos := pos - count;
      handed := 0;
    }

    /** The part of a skip that stays in the buffer; `left` bytes are still to be skipped. */
    method SkipBuffered(count: nat) returns (left: nat)
      requires Valid()
      modifies this`pos, this`handed
      ensures Valid() && handed == 0
      ensures left == count - Min(count, old(nbLastRead - pos)) && pos == old(pos) + Min(count, old(nbLastRead - pos))
    {
      handed := 0;
      left := count;
      if pos != nbLastRead {
        if pos + left > nbLastRead {
          left := left - (nbLastRead - pos);
          pos := nbLastRead;
        } else {
          pos := pos + left;
          left := 0;
        }
      }
    }

    /** Skips `count` bytes.  The cursor stays a position of the stream, and gets where it
        should, exactly when it does not run past the end or no peeked bytes are kept. */
    method Skip(count: nat) returns (ok: bool)
      requires Valid()
      modifies this, device`at
      ensures device.Valid() && pos <= nbLastRead && View() == Skipped(old(View()), count)
      ensures var target := Min(old(Cursor()) + count, |device.data|);
              Cursor() == target <==> old(Cursor()) + count <= |device.data| || old(nbLastRead) == 0
      ensures Valid() <==> old(Cursor()) + count <= |device.data| || old(nbLastRead) == 0
      ensures Valid() ==> (ok <==> nbLastRead > 0 || Cursor() < |device.data|)
    {
      var left := SkipBuffered(count);
      if device.BytesAvailable() == 0 {
        return false;
      }
      if left == 0 {
        return true;
      }
      var data := device.Read(left);
      bytesRead := bytesRead + |data|;
      return device.BytesAvailable() > 0;
    }

    function ByteCount(): nat
      reads this
    {
      bytesRead
    }

    /** The destructor takes what was consumed out of the device. */
    method Destroy()
      requires Valid()
      modifies device`at
      ensures device.at == old(Cursor())
    {
      var _ := device.Read(pos);
    }
  }

  /** One byte, handed out by Next, and one more skipped: the cursor is behind the end. */
  lemma SkipPastEnd()
    ensures var p := Moves(Plain([7], 0, 0, 0, 0), [NextCall(1)]);
            p.at == |p.data| && Skipped(p, 1).at > |p.data|
  {
    assert [NextCall(1)][..0] == [];
  }

  /** `net` is what lies between the beginning of the stream and the cursor. */
  ghost predicate Follows(stream: ZeroCopyInputStream, net: seq<byte>)
    reads stream, stream.device
  {
    && stream.Cursor() == stream.start + |net| <= |stream.device.data|
    && net == stream.device.data[stream.start..stream.start + |net|]
  }

  lemma SliceJoin(data: seq<byte>, begin: nat, done: nat, more: nat)
    requires begin + done + more <= |data|
    ensures data[begin..begin + done] + data[begin + done..begin + done + more] == data[begin..begin + (done + more)]
  {
  }

  lemma NextPart(data: seq<byte>, begin: nat, net: seq<byte>, chunk: seq<byte>)
    requires begin + |net| + |chunk| <= |data| && net == data[begin..begin + |net|]
    requires chunk == data[begin + |net|..begin + |net| + |chunk|]
    ensures net + chunk == data[begin..begin + |net + chunk|]
  {
    SliceJoin(data, begin, |net|, |chunk|);
  }

  method PlayNext(stream: ZeroCopyInputStream, peeked: nat, net: seq<byte>) returns (net': seq<byte>, given: nat)
    requires stream.Valid() && Follows(stream, net)
    requires peeked <= BUFFER_SIZE && peeked <= |stream.device.data| - (stream.device.at + stream.nbLastRead)
    modifies stream, stream.buffer, stream.device`at
    ensures stream.Valid() && given == stream.handed && Follows(stream, net')
    ensures stream.View() == Fetched(old(stream.View()), peeked)
  {
    ghost var data := stream.device.data;
    var ok, from, size := stream.Next(peeked);
    if !ok { return net, 0; }
    var chunk := stream.buffer[from..from + size];
    NextPart(data, stream.start, net, chunk);
    return net + chunk, size;
  }

  method PlayBackUp(stream: ZeroCopyInputStream, count: nat, net: seq<byte>) returns (net': seq<byte>)
    requires stream.Valid() && Follows(stream, net) && count <= stream.handed
    modifies stream
    ensures stream.Valid() && stream.handed == 0 && Follows(stream, net')
    ensures stream.View() == Move(old(stream.View()), BackUpCall(count))
  {
    stream.BackUp(count);
    net' := net[..|net| - count];
  }

  method PlaySkip(stream: ZeroCopyInputStream, count: nat, net: seq<byte>) returns (net': seq<byte>)
    requires stream.Valid() && Follows(stream, net) && stream.Cursor() + count <= |stream.device.data|
    modifies stream, stream.device`at
    ensures stream.Valid() && stream.handed == 0 && Follows(stream, net')
    ensures stream.View() == Skipped(old(stream.View()), count)
  {
    var at := stream.device.at + stream.pos;
    SliceJoin(stream.device.data, stream.start, |net|, count);
    net' := net + stream.device.data[at..at + count];
    var _ := stream.Skip(count);
  }

  method PlayArrive(stream: ZeroCopyInputStream, bytes: seq<byte>, net: seq<byte>)
    requires stream.Valid() && Follows(stream, net)
    modifies stream.device`data
    ensures stream.Valid() && Follows(stream, net)
    ensures stream.View() == Move(old(stream.View()), ArriveCall(bytes))
  {
    stream.device.Arrive(bytes);
  }

  method PlayOne(stream: ZeroCopyInputStream, call: Call, net: seq<byte>, given: nat)
    returns (net': seq<byte>, given': nat)
    requires stream.Valid() && given == stream.handed && Follows(stream, net)
    modifies stream, stream.buffer, stream.device
    ensures stream.Valid() && given' == stream.handed && Follows(stream, net')
    ensures stream.View() == Move(old(stream.View()), call)
  {
    var device := stream.device;
    net', given' := net, given;
    match call {
      case NextCall(peeked) =>
        if peeked <= BUFFER_SIZE && peeked <= |device.data| - (device.at + stream.nbLastRead) {
          net', given' := PlayNext(stream, peeked, net);
        }
      case BackUpCall(count) =>
        if count <= given {
          net' := PlayBackUp(stream, count, net);
          given' := 0;
        }
      case SkipCall(count) =>
        if device.at + stream.pos + count <= |device.data| {
          net' := PlaySkip(stream, count, net);
          given' := 0;
        }
      case ArriveCall(bytes) =>
        PlayArrive(stream, bytes, net);
    }
  }

  /** Any run of calls (those that are not allowed are left out) takes the stream where it takes the
      plain reader: the bytes handed out less those given back, with the skipped ones in their
      place, are the device's bytes from where the stream began to that cursor; ByteCount counts
      them and what is ahead; and the destructor leaves the device at the cursor. */
  method Play(stream: ZeroCopyInputStream, script: seq<Call>) returns (net: seq<byte>)
    requires stream.Valid() && stream.Cursor() == stream.start && stream.handed == 0
    modifies stream, stream.buffer, stream.device
    ensures var end := Moves(old(stream.View()), script);
            && stream.device.at == end.at <= |end.data| && stream.device.data == end.data
            && stream.start + |net| == end.at && net == end.data[stream.start..end.at]
            && stream.ByteCount() == |net| + end.ahead
    ensures old(stream.device.data) <= stream.device.data
  {
    var given := 0;
    net := [];
    for k := 0 to |script|
      invariant stream.Valid() && given == stream.handed && Follows(stream, net)
      invariant stream.View() == Moves(old(stream.View()), script[..k])
    {
      net, given := PlayOne(stream, script[k], net, given);
      assert script[..k + 1][..k] == script[..k];
    }
    MovesKeepData(old(stream.View()), script);
    assert script[..|script|] == script;
    stream.Destroy();
  }

  // ----- the output stream -----

  class ZeroCopyOutputStream {
    const device: Device
    const buffer: array<byte>
    var pos: nat
    var bytesWritten: nat
    ghost const base: seq<byte>    // what the device held at construction
    ghost var flushed: seq<byte>   // what was written to it since

    ghost predicate Valid()
      reads this, device
    {
      && buffer.Length == BUFFER_SIZE && pos <= BUFFER_SIZE
      && device.data == base + flushed
      && bytesWritten == |flushed|
    }

    /** The part of the last chunk that was not given back. */
    ghost function Live(): seq<byte>
      requires Valid()
      reads this, device, buffer
    {
      buffer[..pos]
    }

    constructor (device: Device)
      ensures Valid() && this.device == device && base == device.data && flushed == [] && pos == 0 && fresh(buffer)
    {
      this.device := device;
      buffer := new byte[BUFFER_SIZE];
      pos, bytesWritten := 0, 0;
      base, flushed := device.data, [];
    }

    /** The whole buffer is handed out, after what was in it has been written.  `fails` says
        that the device refuses to write. */
    method Next(fails: bool) returns (ok: bool)
      requires Valid()
      modifies this, device`data
      ensures Valid() && (ok <==> old(pos) == 0 || !fails)
      ensures flushed == if ok then old(flushed) + old(Live()) else old(flushed)
      ensures pos == if ok then BUFFER_SIZE else old(pos)
    {
      if pos != 0 {
        if fails {
          return false;
        }
        device.Write(buffer[..pos]);
        bytesWritten := bytesWritten + pos;
        flushed := flushed + buffer[..pos];
        pos := 0;
      }
      pos := BUFFER_SIZE;
      return true;
    }

    /** The client writes into the chunk it was handed. */
    method Store(bytes: seq<byte>)
      requires Valid() && |bytes| <= pos
      modifies buffer
      ensures Valid() && Live() == bytes + old(Live())[|bytes|..]
    {
      forall i | 0 <= i < |bytes| {
        buffer[i] := bytes[i];
      }
    }

    /** Gives back the end of the chunk; asking for more than there is gives it all back. */
    method BackUp(count: nat)
      requires Valid()
      modifies `pos
      ensures Valid() && Live() == old(Live())[..if count > old(pos) then 0 else old(pos) - count]
    {
      pos := if pos < count then 0 else pos - count;
    }

    function ByteCount(): nat
      reads this
    {
      bytesWritten
    }

    /** The destructor writes what is left. */
    method Destroy()
      requires Valid()
      modifies device`data
      ensures device.data == base + flushed + old(Live())
    {
      if pos != 0 {
        device.Write(buffer[..pos]);
      }
    }
  }

  /** Before the destructor ByteCount is what the client was handed and kept exactly when no chunk
      is live. */
  lemma ByteCountIff(stream: ZeroCopyOutputStream)
    requires stream.Valid()
    ensures stream.ByteCount() == |stream.flushed + stream.Live()| <==> stream.Live() == []
  {
  }

  /** One chunk handed out and kept: none of its bytes is counted. */
  method ByteCountLags() returns (stream: ZeroCopyOutputStream)
    ensures stream.Valid() && stream.ByteCount() == 0 && |stream.Live()| == BUFFER_SIZE
  {
    var device := new Device([], 0);
    stream := new ZeroCopyOutputStream(device);
    var _ := stream.Next(false);
  }

  datatype OutCall =
    | OutNext
    | OutStore(bytes: seq<byte>)
    | OutBackUp(count: nat)

  ghost predicate WroteStep(f: seq<byte>, l: seq<byte>, call: OutCall, finished: seq<byte>, live: seq<byte>) {
    match call
    case OutNext => finished == f + l && |live| == BUFFER_SIZE
    case OutStore(bytes) => finished == f && live == if |bytes| <= |l| then bytes + l[|bytes|..] else l
    case OutBackUp(count) => finished == f && live == l[..if count > |l| then 0 else |l| - count]
  }

  /** What a run of calls should bring about: the chunks so far, each less its backed-up tail,
      and the live chunk, which starts as 4096 bytes of whatever the buffer holds. */
  ghost predicate Wrote(script: seq<OutCall>, finished: seq<byte>, live: seq<byte>)
    decreases |script|
  {
    if script == [] then finished == [] && live == []
    else
      var before, call := script[..|script| - 1], script[|script| - 1];
      exists f, l :: Wrote(before, f, l) && WroteStep(f, l, call, finished, live)
  }

  lemma WroteOn(script: seq<OutCall>, k: nat, f: seq<byte>, l: seq<byte>, finished: seq<byte>, live: seq<byte>)
    requires k < |script| && Wrote(script[..k], f, l) && WroteStep(f, l, script[k], finished, live)
    ensures Wrote(script[..k + 1], finished, live)
  {
    var s := script[..k + 1];
    assert s[..|s| - 1] == script[..k] && s[|s| - 1] == script[k];
  }

  /** After any run of calls on a fresh stream (stores that do not fit are left out, and the
      device writes), ByteCount counts the finished chunks, and after the destructor the device
      holds them and the live one. */
  method PlayOut(stream: ZeroCopyOutputStream, script: seq<OutCall>) returns (finished: seq<byte>, live: seq<byte>)
    requires stream.Valid() && stream.flushed == [] && stream.pos == 0
    modifies stream, stream.buffer, stream.device
    ensures Wrote(script, finished, live)
    ensures stream.ByteCount() == |finished|
    ensures stream.device.data == old(stream.device.data) + finished + live
  {
    finished, live := [], [];
    assert stream.Live() == [];
    for k := 0 to |script|
      invariant stream.Valid() && stream.flushed == finished && stream.Live() == live
      invariant Wrote(script[..k], finished, live)
    {
      ghost var f, l := finished, live;
      match script[k] {
        case OutNext =>
          var _ := stream.Next(false);
          finished := finished + live;
        case OutStore(bytes) =>
          if |bytes| <= stream.pos {
            stream.Store(bytes);
          }
        case OutBackUp(count) =>
          stream.BackUp(count);
      }
      live := stream.buffer[..stream.pos];
      WroteOn(script, k, f, l, finished, live);
    }
    assert script[..|script|] == script;
    stream.Destroy();
  }
}
