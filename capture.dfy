/** The packet capture of `sighub.capture`: a `Filter` that loads the text
    `tcpdump -dd` prints into a classic-BPF program, and a `Capture` that
    opens a raw socket, optionally attaches the filter, binds to an
    interface and registers a read handler with an event loop.

    The socket and the event loop are abstract: the socket is a state
    (none, open, closed), registration stores which of the two handlers was
    chosen, and the outside world shows up as a trace of events (frames
    handed to the callback, the filter descriptor attached, `on_stop`
    invoked). Every `Capture` method is specified by a step function on a
    `Session` value, and the properties of the capture are lemmas about
    those functions. */
module Capture {
  import opened PyText
  import opened Bpf

  /** `self.listener.recv(9000)`: at most this many bytes of a frame. */
  const RECV_SIZE := 9000
  /** The `num` a `Filter` uses for "capture forever". */
  const INFINITE := -1
  /** The `num` a `Filter` gets when none is given. */
  const DEFAULT_NUM := 100

  type Frame = seq<byte>

  /** `self.listener`: no socket yet, an open socket, or a closed one. */
  datatype Listener = NoSocket | Open | Closed

  /** The two read handlers `enable` can register: `_callback` reads one
      frame and passes it on, `_counter` counts it first. */
  datatype Handler = Plain | Counting

  datatype CaptureError =
    | NoEventLoop                      // NoEventLoopError from `enable`
    | FilterRejected(e: FilterError)   // `Filter.load` raised
    | NoListener                       // `self.listener` is still None
    | ReadFailed                       // `recv` on a closed socket
    | NotCallable                      // `self.next` is still None

  /** What the environment sees the capture do. */
  datatype Event =
    | SocketOpened
    | FilterAttached(descriptor: seq<byte>)
    | SocketBound(iface: string)
    | ReaderRegistered(handler: Handler)
    | Delivered(frame: Frame)          // the user's callback was called
    | SocketClosed
    | StopCalled                       // the user's `on_stop` was called

  /** The text and packet count of the `Filter` a capture holds. */
  datatype FilterSpec = FilterSpec(text: string, num: int)

  /** A snapshot of a `Capture`. `eventLoop` says whether one was set,
      `next` whether `self.next` holds `_callback`, `reader` the handler
      registered with the event loop. */
  datatype Session = Session(
    iface: string, onStop: bool, count: int, eventLoop: bool,
    filter: Option<FilterSpec>, listener: Listener, next: bool,
    reader: Option<Handler>, events: seq<Event>)

  /** The state after an operation, and whether it raised. */
  datatype Step = Step(after: Session, outcome: Outcome<CaptureError>)

  // ---------------------------------------------------------------------
  // Loading a filter

  /** What `Filter.load` returns for a filter text, the buffer being at
      `address`: the packed `(count, address)` descriptor. */
  function LoadResult(text: string, address: u64): Result<seq<byte>, FilterError> {
    match Instructions(text)
    case Err(e) => Err(e)
    case Ok(prog) =>
      if |prog| < 0x1_0000 then Ok(PackDescriptor(|prog|, address)) else Err(ProgramTooLong)
  }

  /** `ctypes.create_string_buffer(b''.join(_filter))`: the packed program
      and the terminating NUL `create_string_buffer` adds. */
  function Buffer(prog: seq<Instruction>): seq<byte> {
    Serialise(prog) + [0]
  }

  /** `load` succeeds exactly for the texts `Compile` accepts, and its
      descriptor counts the instructions and points at the buffer. */
  lemma LoadDescriptor(text: string, address: u64)
    ensures LoadResult(text, address).Ok? <==> Compile(text).Ok?
    ensures LoadResult(text, address).Err? ==> Compile(text) == Err(LoadResult(text, address).error)
    ensures LoadResult(text, address).Ok? ==>
      var d := LoadResult(text, address).value;
      && |d| == 16
      && LittleEndianValue(d[..2]) == |Compile(text).value|
      && LittleEndianValue(d[8..]) == address
  {
    if Instructions(text).Ok? && |Instructions(text).value| < 0x1_0000 {
      DescriptorFields(|Instructions(text).value|, address);
    }
  }

  /** The buffer holds 8 bytes per instruction and a NUL, and the kernel
      reads the program back from it unchanged. */
  lemma BufferLayout(prog: seq<Instruction>)
    ensures |Buffer(prog)| == 8 * |prog| + 1
    ensures Buffer(prog)[8 * |prog|] == 0
    ensures Deserialise(Buffer(prog)[..8 * |prog|]) == prog
    ensures forall k :: 0 <= k < |prog| ==> Buffer(prog)[8 * k..8 * k + 8] == Encode(prog[k])
  {
    assert Buffer(prog)[..8 * |prog|] == Serialise(prog);
    SerialiseRoundTrip(prog);
    forall k | 0 <= k < |prog| ensures Buffer(prog)[8 * k..8 * k + 8] == Encode(prog[k]) {
      SerialiseAt(prog, k);
      assert Buffer(prog)[8 * k..8 * k + 8] == Serialise(prog)[8 * k..8 * k + 8];
    }
  }

  /** An element whose finding fails to convert makes the whole conversion
      fail with its error, once everything before it converted. */
  lemma FailingElement<A, F, B, E>(xs: seq<A>, j: nat, pick: A -> Option<F>, conv: F -> Result<B, E>,
                                   done: seq<B>, e: E)
    requires j < |xs|
    requires ConvertAll(Keep(xs[..j], pick), conv) == Ok(done)
    requires pick(xs[j]).Some? && conv(pick(xs[j]).value) == Err(e)
    ensures ConvertAll(Keep(xs, pick), conv) == Err(e)
  {
    var f := pick(xs[j]).value;
    var tail := xs[j..];
    SplitAt(xs, j);
    KeepAppend(xs[..j], tail, pick);
    KeepHead(tail, pick);
    assert tail[0] == xs[j];
    HeadFails(f, Keep(tail[1..], pick), conv, e);
    ConvertAllAppend(Keep(xs[..j], pick), Keep(tail, pick), conv);
  }

  lemma KeepHead<A, F>(xs: seq<A>, pick: A -> Option<F>)
    requires xs != [] && pick(xs[0]).Some?
    ensures Keep(xs, pick) == [pick(xs[0]).value] + Keep(xs[1..], pick)
  {
  }

  lemma HeadFails<F, B, E>(f: F, rest: seq<F>, conv: F -> Result<B, E>, e: E)
    requires conv(f) == Err(e)
    ensures ConvertAll([f] + rest, conv) == Err(e)
  {
    assert ([f] + rest)[0] == f;
  }

  /** One more element: skipped when `pick` finds nothing, appended when
      its finding converts. */
  lemma ConvertOneMore<A, F, B, E>(xs: seq<A>, x: A, pick: A -> Option<F>, conv: F -> Result<B, E>,
                                   done: seq<B>)
    requires ConvertAll(Keep(xs, pick), conv) == Ok(done)
    ensures pick(x).None? ==> ConvertAll(Keep(xs + [x], pick), conv) == Ok(done)
    ensures pick(x).Some? && conv(pick(x).value).Ok? ==>
      ConvertAll(Keep(xs + [x], pick), conv) == Ok(done + [conv(pick(x).value).value])
  {
    KeepAppend(xs, [x], pick);
    assert [x][1..] == [];
    if pick(x).None? {
      assert Keep([x], pick) == [];
      assert Keep(xs, pick) + [] == Keep(xs, pick);
    } else if conv(pick(x).value).Ok? {
      var f := pick(x).value;
      assert Keep([x], pick) == [f];
      assert [f][1..] == [];
      assert ConvertAll([f][1..], conv) == Ok([]);
      assert [conv(f).value] + [] == [conv(f).value];
      assert ConvertAll([f], conv) == Ok([conv(f).value]);
      ConvertAllAppend(Keep(xs, pick), [f], conv);
    }
  }

  /** What line `j` does to the conversion of the lines before it. */
  lemma LoadStep<A, F, B, E>(lines: seq<A>, j: nat, pick: A -> Option<F>, conv: F -> Result<B, E>,
                             done: seq<B>)
    requires j < |lines|
    requires ConvertAll(Keep(lines[..j], pick), conv) == Ok(done)
    ensures pick(lines[j]).None? ==> ConvertAll(Keep(lines[..j + 1], pick), conv) == Ok(done)
    ensures pick(lines[j]).Some? && conv(pick(lines[j]).value).Ok? ==>
      ConvertAll(Keep(lines[..j + 1], pick), conv) == Ok(done + [conv(pick(lines[j]).value).value])
    ensures pick(lines[j]).Some? && conv(pick(lines[j]).value).Err? ==>
      ConvertAll(Keep(lines, pick), conv) == Err(conv(pick(lines[j]).value).error)
  {
    var line := lines[j];
    if pick(line).Some? && conv(pick(line).value).Err? {
      FailingElement(lines, j, pick, conv, done, conv(pick(line).value).error);
    } else {
      PrefixStep(lines, j);
      ConvertOneMore(lines[..j], line, pick, conv, done);
    }
  }

  /** A filter built from `tcpdump -dd` output: `c_filter` and `num` as
      given, `bpf` the buffer of the last successful `load`, and `prog`,
      which `load` never assigns. */
  class Filter {
    const cFilter: string
    const num: int
    var bpf: Option<seq<byte>>
    var prog: Option<seq<byte>>

    /** `num` defaults to 100 packets, as in `Filter(c_filter)`. */
    constructor(cFilter: string, num: int := DEFAULT_NUM)
      ensures this.cFilter == cFilter && this.num == num
      ensures bpf == None && prog == None
    {
      this.cFilter := cFilter;
      this.num := num;
      bpf := None;
      prog := None;
    }

    /** Parses every line, packs the instructions into a fresh buffer at
        `address` and returns the descriptor for `SO_ATTACH_FILTER`. A line
        that fails to convert aborts the load before the buffer is replaced;
        a program too long for the 16-bit count fails after it. */
    method Load(address: u64) returns (r: Result<seq<byte>, FilterError>)
      modifies this
      ensures r == LoadResult(cFilter, address)
      ensures Instructions(cFilter).Ok? ==> bpf == Some(Buffer(Instructions(cFilter).value))
      ensures Instructions(cFilter).Err? ==> bpf == old(bpf)
      ensures prog == old(prog)
    {
      var lines := Split(cFilter, '\n');
      var packed: seq<byte> := [];
      var count: nat := 0;
      ghost var done: seq<Instruction> := [];
      for j := 0 to |lines|
        invariant ConvertAll(Keep(lines[..j], Pick), ParseFields) == Ok(done)
        invariant packed == Serialise(done) && count == |done|
        invariant bpf == old(bpf) && prog == old(prog)
      {
        var line := lines[j];
        LoadStep(lines, j, Pick, ParseFields, done);
        // an empty line, or one that does not match the pattern, is skipped
        var m := Pick(line);
        if m.None? {
          continue;
        }
        var parsed := ParseFields(m.value);
        if parsed.Err? {
          return Err(parsed.error);
        }
        SerialiseAppend(done, [parsed.value]);
        SerialiseOne(parsed.value);
        packed := packed + Encode(parsed.value);
        count := count + 1;
        done := done + [parsed.value];
      }
      assert lines[..|lines|] == lines;
      bpf := Some(packed + [0]);
      if count >= 0x1_0000 {
        return Err(ProgramTooLong);
      }
      r := Ok(PackDescriptor(count, address));
    }

    /** `get_prog` returns `self.prog`. */
    method GetProg() returns (p: Option<seq<byte>>)
      ensures p == prog
    {
      p := prog;
    }
  }

  /** Nothing assigns `prog`, so `get_prog` returns None on a filter, also
      after `load`. */
  method GetProgAfterLoad(text: string, num: int, address: u64) returns (p: Option<seq<byte>>)
    ensures p == None
  {
    var f := new Filter(text, num);
    var _ := f.Load(address);
    p := f.GetProg();
  }

  // ---------------------------------------------------------------------
  // The session as a state machine

  function NewSession(iface: string, onStop: bool): (s: Session)
    ensures s.count == 0 && s.filter.None? && s.listener == NoSocket && !s.eventLoop
    ensures s.reader.None? && !s.next && s.events == []
  {
    Session(iface, onStop, 0, false, None, NoSocket, false, None, [])
  }

  /** `recv(9000)`: the frame, cut to the receive size. */
  function Truncate(frame: Frame): (r: Frame)
    ensures |r| <= RECV_SIZE && |r| <= |frame|
    ensures r == frame[..|r|]
    ensures |frame| <= RECV_SIZE ==> r == frame
    ensures |frame| > RECV_SIZE ==> |r| == RECV_SIZE
  {
    if |frame| <= RECV_SIZE then frame else frame[..RECV_SIZE]
  }

  /** The frames as the callback receives them. */
  function DeliveredAll(frames: seq<Frame>): (r: seq<Event>)
    ensures |r| == |frames|
    ensures forall k :: 0 <= k < |frames| ==> r[k] == Delivered(Truncate(frames[k]))
  {
    if frames == [] then [] else [Delivered(Truncate(frames[0]))] + DeliveredAll(frames[1..])
  }

  lemma {:induction false} DeliveredAllAppend(a: seq<Frame>, b: seq<Frame>)
    ensures DeliveredAll(a + b) == DeliveredAll(a) + DeliveredAll(b)
  {
    if a == [] {
      assert a + b == b;
    } else {
      assert (a + b)[0] == a[0];
      assert (a + b)[1..] == a[1..] + b;
      DeliveredAllAppend(a[1..], b);
    }
  }

  /** `status()`: the counter against the limit, or the infinite notice. */
  function StatusText(count: int, filter: Option<FilterSpec>): string {
    if filter.Some? && filter.value.num != INFINITE then
      "captured " + IntToString(count) + "/" + IntToString(filter.value.num) + " packets"
    else "capturing infinite packets!"
  }

  /** Reads the counter and the limit back out of a status text. */
  function ParseStatus(text: string): Option<(int, int)> {
    var prefix := "captured ";
    var suffix := " packets";
    if |text| < |prefix| + |suffix| || text[..|prefix|] != prefix || text[|text| - |suffix|..] != suffix then None
    else
      var middle := text[|prefix|..|text| - |suffix|];
      match IndexOf(middle, '/')
      case None => None
      case Some(i) =>
        match ParseInt(middle[..i], 10)
        case None => None
        case Some(c) =>
          match ParseInt(middle[i + 1..], 10)
          case None => None
          case Some(n) => Some((c, n))
  }

  /** A bounded capture reports exactly its counter and its limit; the
      infinite notice carries no numbers. */
  lemma StatusRoundTrip(count: int, filter: Option<FilterSpec>)
    ensures filter.Some? && filter.value.num != INFINITE ==>
      ParseStatus(StatusText(count, filter)) == Some((count, filter.value.num))
    ensures !(filter.Some? && filter.value.num != INFINITE) ==>
      StatusText(count, filter) == "capturing infinite packets!" && ParseStatus(StatusText(count, filter)) == None
  {
    if filter.Some? && filter.value.num != INFINITE {
      BoundedStatus(IntToString(count), IntToString(filter.value.num), StatusText(count, filter));
      IntToStringRoundTrip(count);
      IntToStringRoundTrip(filter.value.num);
      NoSlash(count);
    } else {
      InfiniteStatus();
    }
  }

  /** A bounded status text gives back the two written numbers. */
  lemma BoundedStatus(a: string, b: string, text: string)
    requires text == "captured " + a + "/" + b + " packets"
    requires '/' !in a
    ensures ParseStatus(text) == match ParseInt(a, 10)
      case None => None
      case Some(c) => match ParseInt(b, 10)
        case None => None
        case Some(n) => Some((c, n))
  {
    var middle := a + "/" + b;
    AppendAssoc("captured " + a, "/", b);
    AppendAssoc("captured ", a, "/" + b);
    AppendAssoc(a, "/", b);
    assert text == "captured " + middle + " packets";
    Framed("captured ", middle, " packets");
    IndexOfAfter(a, '/', b);
    Framed(a, "/", b);
  }

  lemma NoSlash(n: int)
    ensures '/' !in IntToString(n)
  {
    var a := IntToString(n);
    forall j | 0 <= j < |a| ensures a[j] != '/' {
      assert a[j] == '-' || '0' <= a[j] <= '9';
    }
  }

  lemma InfiniteStatus()
    ensures ParseStatus("capturing infinite packets!") == None
  {
    var text := "capturing infinite packets!";
    assert text[6] == 'i' && "captured "[6] == 'e';
    assert text[..9] != "captured ";
  }

  /** `set_event_loop`. */
  function WithEventLoop(s: Session): (t: Session)
    ensures t.eventLoop && t == s.(eventLoop := true)
  {
    s.(eventLoop := true)
  }

  /** `set_filter`: replaces any filter. */
  function WithFilter(s: Session, f: FilterSpec): (t: Session)
    ensures t.filter == Some(f) && t == s.(filter := Some(f))
  {
    s.(filter := Some(f))
  }

  /** Calls `on_stop` when there is one. */
  function Notify(s: Session): Session {
    if s.onStop then s.(events := s.events + [StopCalled]) else s
  }

  /** `stop()`: closes the socket, then calls `on_stop` if given. With no
      socket yet, `self.listener.close()` raises; closing a closed socket
      does nothing, but `on_stop` is called again. */
  function StopStep(s: Session): (r: Step)
    ensures s.listener == NoSocket ==> r == Step(s, Fail(NoListener))
    ensures s.listener != NoSocket ==> r.outcome == Pass && r.after.listener == Closed
    ensures s.listener != NoSocket ==>
      r.after.events == s.events + (if s.listener == Open then [SocketClosed] else []) + (if s.onStop then [StopCalled] else [])
    ensures r.after.(listener := s.listener, events := s.events) == s
  {
    match s.listener
    case NoSocket => Step(s, Fail(NoListener))
    case Open => Step(Notify(s.(listener := Closed, events := s.events + [SocketClosed])), Pass)
    case Closed => Step(Notify(s), Pass)
  }

  /** `_callback()`: reads one frame and hands it to the callback. */
  function ReadStep(s: Session, frame: Frame): (r: Step)
    ensures r.outcome.Pass? <==> s.listener == Open
    ensures r.outcome.Pass? ==> r.after == s.(events := s.events + [Delivered(Truncate(frame))])
    ensures r.outcome.Fail? ==> r.after == s
  {
    match s.listener
    case NoSocket => Step(s, Fail(NoListener))
    case Closed => Step(s, Fail(ReadFailed))
    case Open => Step(s.(events := s.events + [Delivered(Truncate(frame))]), Pass)
  }

  /** `_counter()`: counts first, then reads through `self.next`, then
      stops once the count has reached the filter's `num`. */
  function CounterStep(s: Session, frame: Frame): (r: Step)
    ensures r.after.count == s.count + 1
    ensures !s.next ==> r == Step(s.(count := s.count + 1), Fail(NotCallable))
    ensures s.next && s.listener != Open ==> r.outcome.Fail? && r.after.events == s.events
    ensures s.next && s.listener == Open ==>
      && r.outcome == Pass
      && (r.after.listener == Closed <==> s.filter.Some? && s.count + 1 >= s.filter.value.num)
    ensures s.next && s.listener == Open ==>
      r.after.events == s.events + [Delivered(Truncate(frame))]
        + (if s.filter.Some? && s.count + 1 >= s.filter.value.num
           then [SocketClosed] + (if s.onStop then [StopCalled] else [])
           else [])
  {
    var counted := s.(count := s.count + 1);
    if !counted.next then Step(counted, Fail(NotCallable))
    else
      var read := ReadStep(counted, frame);
      if read.outcome.Fail? then read
      else if counted.filter.Some? && counted.count >= counted.filter.value.num then StopStep(read.after)
      else read
  }

  /** The registered handler, called because the socket is readable. */
  function HandlerStep(s: Session, h: Handler, frame: Frame): Step {
    match h
    case Plain => ReadStep(s, frame)
    case Counting => CounterStep(s, frame)
  }

  /** `enable()`, the filter's buffer being placed at `address`. */
  function EnableStep(s: Session, address: u64): (r: Step)
    ensures r.after.count == s.count && r.after.filter == s.filter && r.after.eventLoop == s.eventLoop
    ensures r.outcome.Pass? <==>
      s.eventLoop && (s.filter.None? || LoadResult(s.filter.value.text, address).Ok?)
  {
    if !s.eventLoop then Step(s, Fail(NoEventLoop))
    else
      var withSocket := s.(listener := Open, events := s.events + [SocketOpened]);
      var attached: Result<Session, FilterError> :=
        if s.filter.None? then Ok(withSocket)
        else match LoadResult(s.filter.value.text, address)
          case Err(e) => Err(e)
          case Ok(d) => Ok(withSocket.(events := withSocket.events + [FilterAttached(d)]));
      if attached.Err? then Step(withSocket, Fail(FilterRejected(attached.error)))
      else
        var bound := attached.value.(events := attached.value.events + [SocketBound(s.iface)]);
        var counting := s.filter.Some? && s.filter.value.num != INFINITE;
        var h := if counting then Counting else Plain;
        Step(bound.(next := bound.next || counting, reader := Some(h),
                    events := bound.events + [ReaderRegistered(h)]), Pass)
  }

  /** The event loop calling the registered handler once per frame, until a
      call raises. */
  function Feed(s: Session, frames: seq<Frame>): Step
    decreases |frames|
  {
    if frames == [] || s.reader.None? then Step(s, Pass)
    else
      var r := HandlerStep(s, s.reader.value, frames[0]);
      if r.outcome.Fail? then r else Feed(r.after, frames[1..])
  }

  // ---------------------------------------------------------------------
  // Properties of the session

  /** Without an event loop `enable` raises and changes nothing, in
      particular it opens no socket. With one, it opens a socket, attaches
      the filter (if any) before binding, and registers the counting
      handler exactly when a filter with a finite `num` is set. */
  lemma EnableContract(s: Session, address: u64)
    ensures !s.eventLoop ==> EnableStep(s, address) == Step(s, Fail(NoEventLoop))
    ensures s.eventLoop && s.filter.Some? && LoadResult(s.filter.value.text, address).Err? ==>
      EnableStep(s, address) == Step(s.(listener := Open, events := s.events + [SocketOpened]),
        Fail(FilterRejected(LoadResult(s.filter.value.text, address).error)))
    ensures s.eventLoop && (s.filter.None? || LoadResult(s.filter.value.text, address).Ok?) ==>
      var t := EnableStep(s, address).after;
      var counting := s.filter.Some? && s.filter.value.num != INFINITE;
      && EnableStep(s, address).outcome == Pass
      && t.listener == Open
      && (t.reader == Some(Counting) <==> counting)
      && (t.reader == Some(Plain) <==> !counting)
      && (counting ==> t.next)
      && t.count == s.count
      && t.events == s.events + [SocketOpened]
           + (if s.filter.Some? then [FilterAttached(LoadResult(s.filter.value.text, address).value)] else [])
           + [SocketBound(s.iface), ReaderRegistered(t.reader.value)]
  {
    if s.eventLoop && (s.filter.None? || LoadResult(s.filter.value.text, address).Ok?) {
      var withSocket := s.(listener := Open, events := s.events + [SocketOpened]);
      var attached := if s.filter.None? then withSocket
        else withSocket.(events := withSocket.events + [FilterAttached(LoadResult(s.filter.value.text, address).value)]);
      var counting := s.filter.Some? && s.filter.value.num != INFINITE;
      var h := if counting then Counting else Plain;
      var t := attached.(events := attached.events + [SocketBound(s.iface)]);
      assert EnableStep(s, address) == Step(t.(next := t.next || counting, reader := Some(h),
                                               events := t.events + [ReaderRegistered(h)]), Pass);
    }
  }

  /** `enable` when loading the filter fails, as a whole new state. */
  lemma EnableRejects(s: Session, address: u64)
    requires s.eventLoop && s.filter.Some? && LoadResult(s.filter.value.text, address).Err?
    ensures EnableStep(s, address) == Step(s.(listener := Open, events := s.events + [SocketOpened]),
      Fail(FilterRejected(LoadResult(s.filter.value.text, address).error)))
  {
  }

  /** `enable` when the filter, if any, loads: the state once the socket is
      bound, and what registering the handler adds to it. */
  lemma EnableAccepts(s: Session, address: u64, bound: Session, h: Handler)
    requires s.eventLoop && (s.filter.None? || LoadResult(s.filter.value.text, address).Ok?)
    requires bound == s.(listener := Open, events := s.events + [SocketOpened]
      + (if s.filter.None? then [] else [FilterAttached(LoadResult(s.filter.value.text, address).value)])
      + [SocketBound(s.iface)])
    requires h == (if s.filter.Some? && s.filter.value.num != INFINITE then Counting else Plain)
    ensures EnableStep(s, address) == Step(bound.(next := bound.next || h == Counting, reader := Some(h),
      events := bound.events + [ReaderRegistered(h)]), Pass)
  {
    if s.filter.None? {
      AppendEmpty(s.events + [SocketOpened]);
    }
  }

  /** `stop` reports the close before `on_stop`, and calls `on_stop` once. */
  lemma StopContract(s: Session)
    requires s.listener == Open
    ensures StopStep(s).outcome == Pass
    ensures StopStep(s).after.listener == Closed
    ensures StopStep(s).after.events ==
      s.events + [SocketClosed] + (if s.onStop then [StopCalled] else [])
  {
  }

  /** Feeding frames in two batches is feeding them all. */
  lemma {:induction false} FeedAppend(s: Session, a: seq<Frame>, b: seq<Frame>)
    ensures Feed(s, a + b) ==
      if Feed(s, a).outcome.Fail? then Feed(s, a) else Feed(Feed(s, a).after, b)
    decreases |a|
  {
    if a == [] {
      assert a + b == b;
    } else if s.reader.Some? {
      assert (a + b)[0] == a[0];
      assert (a + b)[1..] == a[1..] + b;
      var r := HandlerStep(s, s.reader.value, a[0]);
      if r.outcome.Pass? {
        FeedAppend(r.after, a[1..], b);
      }
    }
  }

  /** One handler call that does not raise, then the rest of the frames. */
  lemma FeedStep(s: Session, frames: seq<Frame>)
    requires frames != [] && s.reader.Some?
    requires HandlerStep(s, s.reader.value, frames[0]).outcome.Pass?
    ensures Feed(s, frames) == Feed(HandlerStep(s, s.reader.value, frames[0]).after, frames[1..])
  {
  }

  /** A single frame: the handler's step is the whole result. */
  lemma FeedOne(s: Session, frame: Frame)
    requires s.reader.Some?
    ensures Feed(s, [frame]) == HandlerStep(s, s.reader.value, frame)
  {
    assert [frame][1..] == [];
  }

  /** The plain handler delivers every frame and never stops the capture. */
  lemma {:induction false} PlainNeverStops(s: Session, frames: seq<Frame>)
    requires s.listener == Open && s.reader == Some(Plain)
    ensures Feed(s, frames) == Step(s.(events := s.events + DeliveredAll(frames)), Pass)
    decreases |frames|
  {
    if frames != [] {
      var t := s.(events := s.events + [Delivered(Truncate(frames[0]))]);
      PlainRead(s, frames[0]);
      FeedStep(s, frames);
      PlainNeverStops(t, frames[1..]);
      EventsAfterOne(s.events, frames);
    } else {
      AppendEmpty(s.events);
    }
  }

  lemma PlainRead(s: Session, frame: Frame)
    requires s.listener == Open && s.reader == Some(Plain)
    ensures HandlerStep(s, Plain, frame) == Step(s.(events := s.events + [Delivered(Truncate(frame))]), Pass)
  {
  }

  lemma EventsAfterOne(events: seq<Event>, frames: seq<Frame>)
    requires frames != []
    ensures events + [Delivered(Truncate(frames[0]))] + DeliveredAll(frames[1..]) == events + DeliveredAll(frames)
  {
    assert DeliveredAll(frames) == [Delivered(Truncate(frames[0]))] + DeliveredAll(frames[1..]);
  }

  /** A session set up for counting: the counting handler is registered
      on an open socket, `next` is the plain reader and the filter has
      `num == n`. */
  ghost predicate CountingTo(s: Session, n: int) {
    s.listener == Open && s.reader == Some(Counting) && s.next
    && s.filter.Some? && s.filter.value.num == n
  }

  /** Below the limit, the counting handler delivers and counts each frame. */
  lemma {:induction false} CountingBelowLimit(s: Session, n: int, frames: seq<Frame>)
    requires CountingTo(s, n)
    requires s.count + |frames| < n
    ensures Feed(s, frames) ==
      Step(s.(count := s.count + |frames|, events := s.events + DeliveredAll(frames)), Pass)
    decreases |frames|
  {
    if frames != [] {
      var counted := s.(count := s.count + 1);
      var t := counted.(events := s.events + [Delivered(Truncate(frames[0]))]);
      assert ReadStep(counted, frames[0]) == Step(t, Pass);
      assert CounterStep(s, frames[0]) == Step(t, Pass);
      assert Feed(s, frames) == Feed(t, frames[1..]);
      CountingBelowLimit(t, n, frames[1..]);
      EventsAfterOne(s.events, frames);
      assert t.count + |frames[1..]| == s.count + |frames|;
      assert t.(count := t.count + |frames[1..]|, events := t.events + DeliveredAll(frames[1..]))
        == s.(count := s.count + |frames|, events := s.events + DeliveredAll(frames));
    } else {
      assert s.events + [] == s.events;
      assert s.(count := s.count + 0, events := s.events) == s;
    }
  }

  /** How many frames a counting session takes before it stops: the frames
      still missing to reach `n`, and at least one, because the check comes
      after the frame is counted and delivered. */
  function FramesToLimit(count: int, n: int): (j: nat)
    ensures j >= 1
    ensures count + j >= n
    ensures j > 1 ==> count + j == n
  {
    if n - count >= 1 then n - count else 1
  }

  /** The frame that makes the count reach `num` is delivered, then the
      capture stops. */
  lemma CountingLastFrame(m: Session, n: int, last: Frame)
    requires CountingTo(m, n) && m.count + 1 >= n
    ensures Feed(m, [last]) == Step(
      m.(count := m.count + 1, listener := Closed,
         events := m.events + [Delivered(Truncate(last))] + [SocketClosed]
                   + (if m.onStop then [StopCalled] else [])),
      Pass)
  {
    var delivered := m.(count := m.count + 1, events := m.events + [Delivered(Truncate(last))]);
    CounterAtLimit(m, n, last, delivered);
    FeedOne(m, last);
    StopOpen(delivered);
  }

  lemma CounterAtLimit(m: Session, n: int, last: Frame, delivered: Session)
    requires CountingTo(m, n) && m.count + 1 >= n
    requires delivered == m.(count := m.count + 1, events := m.events + [Delivered(Truncate(last))])
    ensures HandlerStep(m, Counting, last) == StopStep(delivered)
  {
    assert ReadStep(m.(count := m.count + 1), last) == Step(delivered, Pass);
  }

  /** `stop` on an open socket, as a whole new state. */
  lemma StopOpen(s: Session)
    requires s.listener == Open
    ensures StopStep(s) == Step(s.(listener := Closed,
      events := s.events + [SocketClosed] + (if s.onStop then [StopCalled] else [])), Pass)
  {
  }

  /** Once the socket is closed, the counting handler delivers nothing more. */
  lemma CountingAfterClose(s: Session, frames: seq<Frame>)
    requires s.listener == Closed && s.reader == Some(Counting) && s.next && frames != []
    ensures Feed(s, frames).outcome == Fail(ReadFailed)
    ensures Feed(s, frames).after.events == s.events
  {
    assert HandlerStep(s, Counting, frames[0]) == Step(s.(count := s.count + 1), Fail(ReadFailed));
  }

  /** Exactly the frames up to the limit: all are delivered, then the
      capture stops. */
  lemma CountingFeedToLimit(s: Session, n: int, frames: seq<Frame>)
    requires CountingTo(s, n)
    requires |frames| == FramesToLimit(s.count, n)
    ensures Feed(s, frames) == Step(
      s.(count := s.count + |frames|, listener := Closed,
         events := s.events + DeliveredAll(frames) + [SocketClosed]
                   + (if s.onStop then [StopCalled] else [])),
      Pass)
  {
    var j := |frames|;
    var first := frames[..j - 1];
    var last := frames[j - 1];
    assert frames == first + [last];
    var m := s.(count := s.count + |first|, events := s.events + DeliveredAll(first));
    if first == [] {
      assert s.events + [] == s.events;
      assert m == s;
    } else {
      CountingBelowLimit(s, n, first);
    }
    assert Feed(s, first) == Step(m, Pass);
    FeedAppend(s, first, [last]);
    assert Feed(s, frames) == Feed(m, [last]);
    assert CountingTo(m, n);
    CountingLastFrame(m, n, last);
    DeliveredAllAppend(first, [last]);
    assert DeliveredAll([last]) == [Delivered(Truncate(last))];
    var delivered := m.events + [Delivered(Truncate(last))];
    assert delivered == s.events + DeliveredAll(frames);
    assert m.count + 1 == s.count + |frames|;
  }

  /** The counting handler stops the capture on the frame that makes the
      count reach `num`, after handing that frame to the callback; a frame
      arriving after that is not delivered. */
  lemma CountingStopsAtLimit(s: Session, n: int, frames: seq<Frame>)
    requires CountingTo(s, n)
    requires FramesToLimit(s.count, n) <= |frames|
    ensures var j := FramesToLimit(s.count, n);
      Feed(s, frames[..j]) == Step(
        s.(count := s.count + j, listener := Closed,
           events := s.events + DeliveredAll(frames[..j]) + [SocketClosed]
                     + (if s.onStop then [StopCalled] else [])),
        Pass)
    ensures var j := FramesToLimit(s.count, n);
      j < |frames| ==> (Feed(s, frames).outcome == Fail(ReadFailed)
        && Feed(s, frames).after.events == Feed(s, frames[..j]).after.events)
  {
    var j := FramesToLimit(s.count, n);
    var head := frames[..j];
    assert |head| == j;
    CountingFeedToLimit(s, n, head);
    if j < |frames| {
      SplitAt(frames, j);
      CountingPastLimit(s, head, frames[j..]);
    }
  }

  /** Frames fed after the counting handler has closed the socket. */
  lemma CountingPastLimit(s: Session, head: seq<Frame>, tail: seq<Frame>)
    requires tail != []
    requires Feed(s, head).outcome == Pass
    requires Feed(s, head).after.listener == Closed
    requires Feed(s, head).after.reader == Some(Counting) && Feed(s, head).after.next
    ensures Feed(s, head + tail).outcome == Fail(ReadFailed)
    ensures Feed(s, head + tail).after.events == Feed(s, head).after.events
  {
    FeedAppend(s, head, tail);
    CountingAfterClose(Feed(s, head).after, tail);
  }

  /** From construction to the automatic stop: a capture with an event loop
      and a valid filter of `num == n >= 1` delivers exactly the first `n`
      frames, then closes the socket and calls `on_stop`. */
  lemma BoundedCapture(iface: string, onStop: bool, text: string, n: int, address: u64, frames: seq<Frame>)
    requires Compile(text).Ok? && n >= 1 && n <= |frames|
    ensures
      var enabled := EnableStep(WithFilter(WithEventLoop(NewSession(iface, onStop)), FilterSpec(text, n)), address);
      && enabled.outcome == Pass
      && enabled.after.reader == Some(Counting)
      && Feed(enabled.after, frames[..n]).outcome == Pass
      && Feed(enabled.after, frames[..n]).after.listener == Closed
      && Feed(enabled.after, frames[..n]).after.count == n
      && Feed(enabled.after, frames[..n]).after.events ==
           enabled.after.events + DeliveredAll(frames[..n]) + [SocketClosed] + (if onStop then [StopCalled] else [])
  {
    var s := WithFilter(WithEventLoop(NewSession(iface, onStop)), FilterSpec(text, n));
    LoadDescriptor(text, address);
    EnableContract(s, address);
    var enabled := EnableStep(s, address);
    assert CountingTo(enabled.after, n);
    CountingStopsAtLimit(enabled.after, n, frames);
  }

  /** With no filter, or a filter of `num == -1`, the capture never stops
      by itself. */
  lemma UnboundedCapture(s: Session, address: u64, frames: seq<Frame>)
    requires s.eventLoop
    requires s.filter.None? || (s.filter.value.num == INFINITE && LoadResult(s.filter.value.text, address).Ok?)
    ensures EnableStep(s, address).outcome == Pass
    ensures Feed(EnableStep(s, address).after, frames).outcome == Pass
    ensures Feed(EnableStep(s, address).after, frames).after.listener == Open
    ensures Feed(EnableStep(s, address).after, frames).after.events ==
      EnableStep(s, address).after.events + DeliveredAll(frames)
  {
    EnableContract(s, address);
    PlainNeverStops(EnableStep(s, address).after, frames);
  }

  // ---------------------------------------------------------------------
  // The capture object

  /** `Capture(iface, callback, on_stop)`. The callback and `on_stop` are
      not stored as code: calling them is recorded in `events`. */
  class Capture {
    var count: int
    var eventLoop: bool
    const iface: string
    const onStop: bool
    var bpf: Filter?
    var next: bool
    var listener: Listener
    var reader: Option<Handler>
    ghost var events: seq<Event>

    ghost function View(): Session
      reads this
    {
      Session(iface, onStop, count, eventLoop,
        if bpf == null then None else Some(FilterSpec(bpf.cFilter, bpf.num)),
        listener, next, reader, events)
    }

    constructor(iface: string, onStop: bool)
      ensures View() == NewSession(iface, onStop) && bpf == null
    {
      count := 0;
      eventLoop := false;
      this.iface := iface;
      this.onStop := onStop;
      bpf := null;
      next := false;
      listener := NoSocket;
      reader := None;
      events := [];
    }

    method SetEventLoop()
      modifies this
      ensures View() == WithEventLoop(old(View())) && bpf == old(bpf)
    {
      eventLoop := true;
    }

    method SetFilter(f: Filter)
      modifies this
      ensures bpf == f
      ensures View() == WithFilter(old(View()), FilterSpec(f.cFilter, f.num))
    {
      bpf := f;
    }

    /** `status()`. */
    function Status(): (text: string)
      reads this
      ensures bpf != null && bpf.num != INFINITE ==> ParseStatus(text) == Some((count, bpf.num))
      ensures !(bpf != null && bpf.num != INFINITE) ==>
        text == "capturing infinite packets!" && ParseStatus(text) == None
    {
      var filter := if bpf == null then None else Some(FilterSpec(bpf.cFilter, bpf.num));
      StatusRoundTrip(count, filter);
      StatusText(count, filter)
    }

    method Stop() returns (r: Outcome<CaptureError>)
      modifies this
      ensures Step(View(), r) == StopStep(old(View())) && bpf == old(bpf)
    {
      if listener == NoSocket {
        return Fail(NoListener);
      }
      if listener == Open {
        events := events + [SocketClosed];
      }
      listener := Closed;
      if onStop {
        events := events + [StopCalled];
      }
      r := Pass;
    }

    /** `_callback()`, the socket having `frame` ready. */
    method Callback(frame: Frame) returns (r: Outcome<CaptureError>)
      modifies this
      ensures Step(View(), r) == ReadStep(old(View()), frame) && bpf == old(bpf)
    {
      if listener == NoSocket {
        return Fail(NoListener);
      }
      if listener == Closed {
        return Fail(ReadFailed);
      }
      var received := if |frame| <= RECV_SIZE then frame else frame[..RECV_SIZE];
      events := events + [Delivered(received)];
      r := Pass;
    }

    /** `_counter()`. */
    method Counter(frame: Frame) returns (r: Outcome<CaptureError>)
      modifies this
      ensures Step(View(), r) == CounterStep(old(View()), frame) && bpf == old(bpf)
    {
      count := count + 1;
      if !next {
        return Fail(NotCallable);
      }
      r := Callback(frame);
      if r.Fail? {
        return;
      }
      if bpf != null && count >= bpf.num {
        r := Stop();
      }
    }

    /** `enable()`. The filter's buffer is placed at `address`. */
    method Enable(address: u64) returns (r: Outcome<CaptureError>)
      modifies this, bpf
      ensures Step(View(), r) == EnableStep(old(View()), address) && bpf == old(bpf)
      ensures bpf != null && old(eventLoop) && Instructions(bpf.cFilter).Ok? ==>
        bpf.bpf == Some(Buffer(Instructions(bpf.cFilter).value))
      ensures bpf != null && !(old(eventLoop) && Instructions(bpf.cFilter).Ok?) ==> bpf.bpf == old(bpf.bpf)
      ensures bpf != null ==> bpf.prog == old(bpf.prog)
    {
      ghost var s := View();
      if !eventLoop {
        return Fail(NoEventLoop);
      }
      // the socket is opened first; its events are collected and the
      // fields written once the outcome is known
      ghost var log := events + [SocketOpened];
      if bpf != null {
        var loaded := bpf.Load(address);
        if loaded.Err? {
          listener, events := Open, log;
          EnableRejects(s, address);
          return Fail(FilterRejected(loaded.error));
        }
        log := log + [FilterAttached(loaded.value)];
      }
      ghost var bound := s.(listener := Open, events := log + [SocketBound(iface)]);
      var first := Plain;
      if bpf != null && bpf.num != INFINITE {
        first := Counting;
      }
      listener, next, reader := Open, next || first == Counting, Some(first);
      events := log + [SocketBound(iface), ReaderRegistered(first)];
      r := Pass;
      assert events == bound.events + [ReaderRegistered(first)];
      EnableAccepts(s, address, bound, first);
    }

    /** The event loop calling the registered handler. */
    method OnReadable(frame: Frame) returns (r: Outcome<CaptureError>)
      requires reader.Some?
      modifies this
      ensures Step(View(), r) == HandlerStep(old(View()), old(reader).value, frame) && bpf == old(bpf)
    {
      if reader == Some(Plain) {
        r := Callback(frame);
      } else {
        r := Counter(frame);
      }
    }
  }
}
