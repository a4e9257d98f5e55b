/** The client task (internal/client/client.go) as a sequential state
    machine: the reconnect loop with its backoff, the connect sequence
    (handshake, device info, protocol descriptor), and the rules by which a
    command's or a heartbeat's error tears the link down. Channels, locks,
    condition variables and timers are left out; each sleep is recorded as a
    value and each handled command or heartbeat is an input event. */
module Client {
  import opened Base
  import opened Text
  import opened Link
  import opened Descriptors
  import DeviceInfo

  // ------------------------------------------------------------ backoff

  /** The first wait of every reconnection cycle, in seconds. */
  const InitialBackoff: nat := 2

  /** After a failed attempt the wait doubles while it is under five
      minutes (backoff.Minutes() < 5). */
  function NextBackoff(b: nat): nat {
    if b < 300 then 2 * b else b
  }

  /** The wait before attempt k of a cycle (k = 0 is the first attempt). */
  function BackoffAt(k: nat): nat {
    if k == 0 then InitialBackoff else NextBackoff(BackoffAt(k - 1))
  }

  function Pow2(n: nat): nat {
    if n == 0 then 1 else 2 * Pow2(n - 1)
  }

  lemma {:induction false} Pow2Monotone(m: nat, n: nat)
    requires m <= n
    ensures Pow2(m) <= Pow2(n)
    decreases n
  {
    if m < n {
      Pow2Monotone(m, n - 1);
    }
  }

  /** The schedule: 2, 4, 8, ..., 256, 512 seconds, then 512 for ever. */
  lemma {:induction false} BackoffSchedule(k: nat)
    ensures BackoffAt(k) == if k < 8 then Pow2(k + 1) else 512
    decreases k
  {
    if k > 0 {
      BackoffSchedule(k - 1);
      if k < 8 {
        Pow2Monotone(k, 7);
        assert Pow2(7) == 128;
      } else if k == 8 {
        assert Pow2(8) == 256;
      }
    }
  }

  /** The waits of the first n attempts of a cycle, in order. */
  function Backoffs(n: nat): (r: seq<nat>)
    ensures |r| == n
  {
    if n == 0 then [] else Backoffs(n - 1) + [BackoffAt(n - 1)]
  }

  // --------------------------------------------------- error classification

  /** errors.Is(err, syscall.EPIPE): the error itself or, through
      errors.Join, the error it joins. The context of a join is a plain
      errors.New text and never EPIPE. */
  predicate IsBrokenPipe(e: Error) {
    e == BrokenPipe || (e.Joined? && IsBrokenPipe(e.cause))
  }

  /** isEofError: io.EOF itself (compared with ==, so an EOF inside a join
      does not count), or EPIPE anywhere in the join chain. */
  predicate IsEofError(e: Option<Error>) {
    e == Some(Eof) || (e.Some? && IsBrokenPipe(e.value))
  }

  /** isTimeoutError: the error is itself a net.Error reporting a timeout; a
      type assertion does not look inside a join. */
  predicate IsTimeoutError(e: Option<Error>) {
    e == Some(Timeout)
  }

  /** After a caller's command: EOF, EPIPE or a timeout end the link. */
  predicate TearsDownCommand(e: Option<Error>) {
    IsEofError(e) || IsTimeoutError(e)
  }

  /** After a heartbeat: only EOF or EPIPE end the link. */
  predicate TearsDownHeartbeat(e: Option<Error>) {
    IsEofError(e)
  }

  /** The two paths differ by timeouts alone: every error that ends the link
      after a heartbeat ends it after a command, and the only error that
      ends it after a command but not after a heartbeat is a timeout. No
      error at all never ends it, and neither does a short read. */
  lemma {:induction false} TeardownKinds(e: Option<Error>)
    ensures TearsDownHeartbeat(e) ==> TearsDownCommand(e)
    ensures TearsDownCommand(e) && !TearsDownHeartbeat(e) <==> e == Some(Timeout)
    ensures !TearsDownCommand(None) && !TearsDownCommand(Some(UnexpectedEof))
  {
    if e == Some(Timeout) {
      assert !IsBrokenPipe(Timeout);
    }
  }

  /** EPIPE is found however deep the joins go; io.EOF only unwrapped. */
  lemma {:induction false} JoinedTeardown(context: string, cause: Error)
    ensures TearsDownHeartbeat(Some(Joined(context, cause))) <==> IsBrokenPipe(cause)
    ensures TearsDownCommand(Some(Joined(context, cause))) <==> IsBrokenPipe(cause)
  {
  }

  // ---------------------------------------------------------- connecting

  /** What protocol.Connect yields on success: the datalogger's side of the
      new link, as the Device constructor takes it. */
  datatype Peer = Peer(incoming: seq<byte>, exhausted: Error, writeFailure: Option<Error>,
                       forwardAnswer: (nat, RawRequest) -> Result<seq<byte>>)

  /** The outcome of the device-info command on a fresh link to the peer. */
  function InfoOf(p: Peer): Result<DeviceInfo.Info> {
    if p.writeFailure.Some? then Err(p.writeFailure.value)
    else DeviceInfo.ReadInfoFrom(DeviceInfo.ReaderOf(p.exhausted), p.incoming, 0, DeviceInfo.EmptyInfo).0
  }

  /** The protocol name: DeviceProps up to its first comma. */
  function ProtocolName(props: string): string {
    UpToFirst(props, ',')
  }

  /** Where the protocol descriptor is loaded from. */
  function DescriptorPath(protoPath: string, props: string): string {
    protoPath + "/" + ProtocolName(props) + ".json"
  }

  /** A DeviceProps of the form "name,..." or just "name" gives the path
      protoPath/name.json. */
  lemma DescriptorPathOf(protoPath: string, name: string, rest: string)
    requires ',' !in name
    ensures DescriptorPath(protoPath, name + "," + rest) == protoPath + "/" + name + ".json"
    ensures DescriptorPath(protoPath, name) == protoPath + "/" + name + ".json"
  {
    UpToFirstConcat(name, ',', rest);
  }

  /** The descriptor the task keeps after LoadProtocolDescriptor: the
      checked descriptor, or nil when reading, decoding or the check
      failed (the failure is only logged). */
  function KeptDescriptor(parsed: Result<Descriptor>): (r: Option<Descriptor>)
    ensures r.Some? <==> CheckAddressing(parsed).Ok?
    ensures r.Some? ==> parsed == Ok(r.value)
  {
    var checked := CheckAddressing(parsed);
    if checked.Ok? then Some(checked.value) else None
  }

  // ------------------------------------------------------------ events

  /** What the command loop handles: a caller's command, with the error its
      handler returned (None on success), or a heartbeat after three quiet
      seconds, with the ping's error. */
  datatype Event = CommandDone(err: Option<Error>) | HeartbeatDone(err: Option<Error>)

  predicate TearsDown(ev: Event) {
    match ev
    case CommandDone(e) => TearsDownCommand(e)
    case HeartbeatDone(e) => TearsDownHeartbeat(e)
  }

  /** Where the link is lost: the first event that tears it down, |events|
      if none does. */
  function FirstTearDown(events: seq<Event>): (n: nat)
    ensures n <= |events|
    ensures n < |events| ==> TearsDown(events[n])
    ensures forall k | 0 <= k < n :: !TearsDown(events[k])
  {
    if events == [] then 0
    else if TearsDown(events[0]) then 0
    else 1 + FirstTearDown(events[1..])
  }

  /** The errors delivered to callers, in order: one per command, none per
      heartbeat. */
  function Delivered(events: seq<Event>): seq<Option<Error>> {
    if events == [] then []
    else
      var last := events[|events| - 1];
      Delivered(events[..|events| - 1]) + if last.CommandDone? then [last.err] else []
  }

  /** Heartbeats that fail by timing out or any other non-EOF error keep the
      link, and no caller hears of them. */
  lemma {:induction false} QuietHeartbeats(events: seq<Event>)
    requires forall k | 0 <= k < |events| :: events[k].HeartbeatDone? && !IsEofError(events[k].err)
    ensures FirstTearDown(events) == |events|
    ensures Delivered(events) == []
    decreases |events|
  {
    if events != [] {
      QuietHeartbeats(events[..|events| - 1]);
    }
  }

  // ------------------------------------------------------------- the task

  class ClientTask {
    const protoPath: string
    /** Attempt k of protocol.Connect (dial and handshake): the new link, or
        the error. */
    const dial: nat -> Result<Peer>
    /** The file read and JSON decoding of LoadProtocolDescriptor. */
    const parse: string -> Result<Descriptor>
    /** Connection attempts made so far. */
    var attempts: nat
    /** Every time.Sleep of the reconnect loop, in seconds. */
    var slept: seq<nat>
    var conn: Device?
    var desc: Option<Descriptor>
    var isConnected: bool

    /** The device-info exchange on a fresh link, held as a value so that the
        reconnect loop can reason about attempts without unfolding it. */
    const exchange: Peer -> Result<DeviceInfo.Info>

    /** The exchange is the device-info command of DeviceInfo. */
    ghost predicate Valid() {
      forall p {:trigger InfoOf(p)} :: exchange(p) == InfoOf(p)
    }

    constructor (protoPath: string, dial: nat -> Result<Peer>, parse: string -> Result<Descriptor>)
      ensures this.protoPath == protoPath && this.dial == dial && this.parse == parse && Valid()
      ensures attempts == 0 && slept == [] && conn == null && desc == None && !isConnected
    {
      this.protoPath := protoPath;
      this.dial := dial;
      this.parse := parse;
      exchange := InfoOf;
      attempts := 0;
      slept := [];
      conn := null;
      desc := None;
      isConnected := false;
    }

    /** Attempt k reaches the datalogger and reads its information. */
    predicate Succeeds(k: nat) {
      dial(k).Ok? && exchange(dial(k).value).Ok?
    }

    /** The descriptor kept after a successful attempt k. */
    function DescriptorAfter(k: nat): Option<Descriptor>
      requires Succeeds(k)
    {
      KeptDescriptor(parse(DescriptorPath(protoPath, exchange(dial(k).value).value.deviceProps)))
    }

    /** The link protocol.Connect hands over, and the device-info command
        run on it. */
    method ReadDeviceInfo(p: Peer) returns (dev: Device, info: Result<DeviceInfo.Info>)
      requires Valid()
      ensures fresh(dev) && fresh(dev.rx) && info == exchange(p)
    {
      dev := new Device(p.incoming, p.exhausted, p.writeFailure, p.forwardAnswer);
      info := DeviceInfo.Handle(dev);
      assert info == InfoOf(p);
    }

    /** clientTask.connect: dial, read the device information over the new
        link, derive the descriptor path from DeviceProps and load it, then
        publish link, descriptor and connected state. A failed dial or info
        read is returned and changes nothing. */
    method Connect() returns (err: Option<Error>)
      requires Valid()
      modifies this
      ensures attempts == old(attempts) + 1 && slept == old(slept)
      ensures err.None? <==> Succeeds(old(attempts))
      ensures dial(old(attempts)).Err? ==> err == Some(dial(old(attempts)).error)
      ensures dial(old(attempts)).Ok? && exchange(dial(old(attempts)).value).Err? ==>
        err == Some(exchange(dial(old(attempts)).value).error)
      ensures err.Some? ==> conn == old(conn) && desc == old(desc) && isConnected == old(isConnected)
      ensures err.None? ==> conn != null && fresh(conn) && isConnected && desc == DescriptorAfter(old(attempts))
    {
      var k := attempts;
      attempts := attempts + 1;
      var dialed := dial(k);
      if dialed.Err? {
        return Some(dialed.error);
      }
      var dev, info := ReadDeviceInfo(dialed.value);
      if info.Err? {
        return Some(info.error);
      }
      var path := DescriptorPath(protoPath, info.value.deviceProps);
      var loaded := CheckAddressing(parse(path));
      conn := dev;
      desc := if loaded.Ok? then Some(loaded.value) else None;
      isConnected := true;
      err := None;
    }

    /** The inner loop of eventLoop: sleep for the backoff, attempt to
        connect, on failure grow the backoff; the backoff starts at 2 s each
        time the loop is entered. `fuel` bounds the number of attempts (the
        source retries for ever). */
    method ConnectWithBackoff(fuel: nat) returns (connected: bool)
      requires Valid()
      modifies this
      ensures old(attempts) <= attempts <= old(attempts) + fuel
      ensures slept == old(slept) + Backoffs(attempts - old(attempts))
      ensures connected <==> attempts > old(attempts) && Succeeds(attempts - 1)
      ensures forall k | old(attempts) <= k < attempts - 1 :: !Succeeds(k)
      ensures !connected ==> attempts == old(attempts) + fuel && forall k | old(attempts) <= k < attempts :: !Succeeds(k)
      ensures connected ==> conn != null && isConnected && desc == DescriptorAfter(attempts - 1)
      ensures !connected ==> conn == old(conn) && desc == old(desc) && isConnected == old(isConnected)
    {
      ghost var first := attempts;
      var backoff := InitialBackoff;
      var tries := 0;
      connected := false;
      while tries < fuel && !connected
        invariant tries <= fuel && attempts == first + tries
        invariant !connected ==> backoff == BackoffAt(tries)
        invariant slept == old(slept) + Backoffs(tries)
        invariant connected ==> tries > 0 && Succeeds(attempts - 1)
        invariant connected ==> conn != null && isConnected && desc == DescriptorAfter(attempts - 1)
        invariant forall k | first <= k < attempts - 1 :: !Succeeds(k)
        invariant !connected ==> forall k | first <= k < attempts :: !Succeeds(k)
        invariant !connected ==> conn == old(conn) && desc == old(desc) && isConnected == old(isConnected)
      {
        slept := slept + [backoff];
        var err := Connect();
        tries := tries + 1;
        if err.Some? {
          backoff := NextBackoff(backoff);
        } else {
          connected := true;
        }
      }
    }

    /** The command loop of eventLoop on a live link: each command's error
        is delivered to its caller first; the link is closed at the first
        command that fails with EOF, EPIPE or a timeout, or the first
        heartbeat that fails with EOF or EPIPE, and the task is then marked
        disconnected. The descriptor stays as it was. Returns how many events
        were handled, the errors delivered, and the error the link was lost
        with. */
    method Serve(events: seq<Event>) returns (handled: nat, delivered: seq<Option<Error>>, lost: Option<Error>)
      requires conn != null
      modifies this
      ensures handled == if FirstTearDown(events) < |events| then FirstTearDown(events) + 1 else |events|
      ensures delivered == Delivered(events[..handled])
      ensures lost.Some? <==> FirstTearDown(events) < |events|
      ensures lost.Some? ==> Some(lost.value) == events[FirstTearDown(events)].err && conn == null && !isConnected
      ensures lost.None? ==> conn == old(conn) && isConnected == old(isConnected)
      ensures desc == old(desc) && attempts == old(attempts) && slept == old(slept)
    {
      handled, delivered, lost := 0, [], None;
      while handled < |events|
        invariant handled <= |events|
        invariant forall k | 0 <= k < handled :: !TearsDown(events[k])
        invariant delivered == Delivered(events[..handled])
        invariant conn == old(conn) && isConnected == old(isConnected)
        invariant desc == old(desc) && attempts == old(attempts) && slept == old(slept)
      {
        var ev := events[handled];
        assert events[..handled + 1][..handled] == events[..handled];
        if ev.CommandDone? {
          delivered := delivered + [ev.err];
        }
        handled := handled + 1;
        if TearsDown(ev) {
          lost := ev.err;
          conn := null;
          isConnected := false;
          FirstTearDownAt(events, handled - 1);
          return;
        }
      }
      FirstTearDownAt(events, handled);
    }
  }

  /** The first event that tears down is the first one found scanning
      left to right. */
  lemma {:induction false} FirstTearDownAt(events: seq<Event>, n: nat)
    requires n <= |events|
    requires forall k | 0 <= k < n :: !TearsDown(events[k])
    requires n < |events| ==> TearsDown(events[n])
    ensures FirstTearDown(events) == n
  {
    var m := FirstTearDown(events);
  }
}
