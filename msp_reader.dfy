/** The streaming MSP frame decoder (`reader`): a byte-at-a-time state
    machine over fifteen states that resynchronises on framing errors and
    sends one message per completed frame, or a default `Fail` message when
    the stream ends. */
module MspReader {
  import opened MspCodec

  /** Position of the decoder within a frame (`States`). */
  datatype State =
    | Init | M | Dirn | Len | Cmd | Data | Crc
    | XHeader2 | XFlags | XId1 | XId2 | XLen1 | XLen2 | XData | XChecksum

  /** The variables `reader` keeps across reads: the state `n`, the running
      checksum `crc`, the payload byte counter `count`, whether the direction
      byte was `>` (`dirnok`), and the message being assembled. */
  datatype ReaderState = ReaderState(n: State, crc: bv8, count: uint16, dirnok: bool, msg: MspMsg)
  {
    /** What holds of these variables between any two bytes: while payload
        bytes are expected, the payload buffer has `len` bytes and fewer than
        `len` have been stored; while the high byte of the command or the
        length is expected, only its low byte has been stored. */
    predicate Valid()
    {
      && (n.Data? || n.XData? ==> count < msg.len == |msg.data|)
      && (n.XId2? ==> msg.cmd < 256)
      && (n.XLen2? ==> msg.len < 256)
    }
  }

  /** The variables as `reader` declares them. */
  const START: ReaderState := ReaderState(Init, 0, 0, false, DEFAULT_MSG)

  /** The variables after some input, and the messages sent meanwhile. */
  datatype Output = Output(st: ReaderState, sent: seq<MspMsg>)

  /** `vec![0; k]` */
  function Zeros(k: nat): (z: seq<bv8>)
    ensures |z| == k
  {
    seq(k, _ => 0)
  }

  /** The outcome stored when the checksum byte `e` arrives: `Ok` exactly
      when the checksum matches and the direction byte was `>`; never
      `Fail`. */
  function Verdict(crc: bv8, e: bv8, dirnok: bool): (r: MspRes)
    ensures r == Ok <==> crc == e && dirnok
    ensures r == MspRes.Crc <==> crc != e
    ensures r != Fail
  {
    if crc != e then MspRes.Crc else if dirnok then Ok else MspRes.Dirn
  }

  /** The states that recognise `$`, the format byte and the direction
      byte. */
  predicate IsSyncState(n: State)
  {
    n.Init? || n.M? || n.Dirn? || n.XHeader2?
  }

  /** The states of the MSPv1 header, payload and checksum. */
  predicate IsV1State(n: State)
  {
    n.Len? || n.Cmd? || n.Data? || n.Crc?
  }

  /** The states of the MSPv2 flags, command and low length byte. */
  predicate IsV2HeaderState(n: State)
  {
    n.XFlags? || n.XId1? || n.XId2? || n.XLen1?
  }

  /** The variables after the checksum byte `e`: back in `Init`, with the
      outcome of the frame stored in the message. */
  function Checked(s: ReaderState, e: bv8): (r: ReaderState)
  {
    var m := s.msg;
    ReaderState(Init, s.crc, s.count, s.dirnok, MspMsg(m.len, m.cmd, Verdict(s.crc, e, s.dirnok), m.data))
  }

  /** One iteration of the inner `for e in inp` loop: the arm of the match
      for the current state, applied to byte `e`. */
  function Transition(s: ReaderState, e: bv8): (r: ReaderState)
    requires s.Valid()
    ensures r.Valid()
  {
    if IsSyncState(s.n) then SyncTransition(s, e)
    else if IsV1State(s.n) then V1Transition(s, e)
    else if IsV2HeaderState(s.n) then V2HeaderTransition(s, e)
    else V2BodyTransition(s, e)
  }

  /** The arms for `Init`, `M`, `Dirn` and `XHeader2`. */
  function SyncTransition(s: ReaderState, e: bv8): (r: ReaderState)
    requires s.Valid() && IsSyncState(s.n)
    ensures r.Valid()
  {
    match s.n
    case Init =>
      if e == SYNC then ReaderState(M, s.crc, s.count, false, MspMsg(0, 0, Fail, s.msg.data))
      else s
    case M =>
      var n := if e == V1_MARK then State.Dirn else if e == V2_MARK then XHeader2 else Init;
      ReaderState(n, s.crc, s.count, s.dirnok, s.msg)
    case Dirn =>
      if e == ERROR_FROM_FC then ReaderState(Len, s.crc, s.count, s.dirnok, s.msg)
      else if e == FROM_FC then ReaderState(Len, s.crc, s.count, true, s.msg)
      else ReaderState(Init, s.crc, s.count, s.dirnok, s.msg)
    case XHeader2 =>
      if e == ERROR_FROM_FC then ReaderState(XFlags, s.crc, s.count, s.dirnok, s.msg)
      else if e == FROM_FC then ReaderState(XFlags, s.crc, s.count, true, s.msg)
      else ReaderState(Init, s.crc, s.count, s.dirnok, s.msg)
  }

  /** The arms for `Len`, `Cmd`, `Data` and `Crc`. */
  function V1Transition(s: ReaderState, e: bv8): (r: ReaderState)
    requires s.Valid() && IsV1State(s.n)
    ensures r.Valid()
  {
    var m := s.msg;
    match s.n
    case Len =>
      ReaderState(Cmd, e, s.count, s.dirnok, MspMsg(Widen(e), m.cmd, m.ok, m.data))
    case Cmd =>
      if m.len == 0 then
        ReaderState(State.Crc, s.crc ^ e, s.count, s.dirnok, MspMsg(m.len, Widen(e), m.ok, m.data))
      else
        ReaderState(Data, s.crc ^ e, 0, s.dirnok, MspMsg(m.len, Widen(e), m.ok, Zeros(m.len)))
    case Data =>
      var n := if s.count + 1 == m.len then State.Crc else Data;
      ReaderState(n, s.crc ^ e, s.count + 1, s.dirnok, MspMsg(m.len, m.cmd, m.ok, m.data[s.count := e]))
    case Crc =>
      Checked(s, e)
  }

  /** The arms for `XFlags`, `XId1`, `XId2` and `XLen1`. */
  function V2HeaderTransition(s: ReaderState, e: bv8): (r: ReaderState)
    requires s.Valid() && IsV2HeaderState(s.n)
    ensures r.Valid()
  {
    var m := s.msg;
    match s.n
    case XFlags =>
      ReaderState(XId1, Crc8(0, e), s.count, s.dirnok, m)
    case XId1 =>
      ReaderState(XId2, Crc8(s.crc, e), s.count, s.dirnok, MspMsg(m.len, Widen(e), m.ok, m.data))
    case XId2 =>
      // `cmd |= e << 8` while only the low byte is set
      ReaderState(XLen1, Crc8(s.crc, e), s.count, s.dirnok, MspMsg(m.len, m.cmd + Widen(e) * 256, m.ok, m.data))
    case XLen1 =>
      ReaderState(XLen2, Crc8(s.crc, e), s.count, s.dirnok, MspMsg(Widen(e), m.cmd, m.ok, m.data))
  }

  /** The arms for `XLen2`, `XData` and `XChecksum`. */
  function V2BodyTransition(s: ReaderState, e: bv8): (r: ReaderState)
    requires s.Valid() && (s.n.XLen2? || s.n.XData? || s.n.XChecksum?)
    ensures r.Valid()
  {
    var m := s.msg;
    match s.n
    case XLen2 =>
      // `len |= e << 8` while only the low byte is set
      var len := m.len + Widen(e) * 256;
      if len > 0 then
        ReaderState(XData, Crc8(s.crc, e), 0, s.dirnok, MspMsg(len, m.cmd, m.ok, Zeros(len)))
      else
        ReaderState(XChecksum, Crc8(s.crc, e), s.count, s.dirnok, MspMsg(len, m.cmd, m.ok, m.data))
    case XData =>
      var n := if s.count + 1 == m.len then XChecksum else XData;
      ReaderState(n, Crc8(s.crc, e), s.count + 1, s.dirnok, MspMsg(m.len, m.cmd, m.ok, m.data[s.count := e]))
    case XChecksum =>
      Checked(s, e)
  }

  /** The states whose arm sends `msg` over the channel: the checksum
      states. */
  predicate Sends(n: State)
  {
    n.Crc? || n.XChecksum?
  }

  /** The inner loop over the bytes of one read from position `i` on: the
      variables afterwards and the messages sent meanwhile. */
  function FeedFrom(s: ReaderState, bytes: seq<bv8>, i: nat): (r: Output)
    requires s.Valid() && i <= |bytes|
    ensures r.st.Valid()
    decreases |bytes| - i, 1
  {
    if i == |bytes| then Output(s, []) else Step(s, bytes, i)
  }

  /** Byte `i`, then the rest; the message is sent before the later bytes
      are looked at. */
  function Step(s: ReaderState, bytes: seq<bv8>, i: nat): (r: Output)
    requires s.Valid() && i < |bytes|
    ensures r.st.Valid()
    decreases |bytes| - i, 0
  {
    var t := Transition(s, bytes[i]);
    var b := FeedFrom(t, bytes, i + 1);
    if Sends(s.n) then Output(b.st, [t.msg] + b.sent) else b
  }

  /** All the bytes of one read, in order. */
  function FeedAll(s: ReaderState, bytes: seq<bv8>): (r: Output)
    requires s.Valid()
    ensures r.st.Valid()
  {
    FeedFrom(s, bytes, 0)
  }

  /** The result of one `sd.read`: some bytes (none at end of stream) or an
      error. */
  datatype ReadResult = Bytes(chunk: seq<bv8>) | ReadErr

  /** The outer loop: feed each read in turn; at end of stream or on a read
      error send the default message and stop. */
  function ReadAll(s: ReaderState, results: seq<ReadResult>): (r: Output)
    requires s.Valid()
    ensures r.st.Valid()
    decreases |results|
  {
    if results == [] then Output(s, [])
    else match results[0]
      case ReadErr => Output(s, [DEFAULT_MSG])
      case Bytes(chunk) =>
        if chunk == [] then Output(s, [DEFAULT_MSG])
        else
          var a := FeedAll(s, chunk);
          var b := ReadAll(a.st, results[1..]);
          Output(b.st, a.sent + b.sent)
  }

  /** `reader`: read until end of stream or an error; feed each byte of
      every read through the decoder; send a message per completed frame,
      and the default message before returning. The channel is the returned
      sequence; `st` holds the five variables the source keeps across
      reads. */
  method Reader(results: seq<ReadResult>) returns (sent: seq<MspMsg>)
    ensures sent == ReadAll(START, results).sent
  {
    var st := START;
    sent := [];
    var i := 0;
    while i < |results|
      invariant 0 <= i <= |results| && st.Valid()
      invariant ReadAll(START, results).sent == sent + ReadAll(st, results[i..]).sent
    {
      assert results[i..][0] == results[i] && results[i..][1..] == results[i + 1..];
      match results[i] {
        case ReadErr =>
          sent := sent + [DEFAULT_MSG];
          return;
        case Bytes(chunk) =>
          if |chunk| == 0 {
            sent := sent + [DEFAULT_MSG];
            return;
          }
          var out;
          ghost var rest := ReadAll(FeedAll(st, chunk).st, results[i + 1..]);
          st, out := FeedChunk(st, chunk);
          assert sent + (out + rest.sent) == (sent + out) + rest.sent;
          sent := sent + out;
      }
      i := i + 1;
    }
  }

  /** The inner `for e in inp.iter().take(nbytes)` loop over one read. */
  method FeedChunk(s: ReaderState, chunk: seq<bv8>) returns (t: ReaderState, out: seq<MspMsg>)
    requires s.Valid()
    ensures Output(t, out) == FeedAll(s, chunk)
  {
    t, out := s, [];
    for i := 0 to |chunk|
      invariant t.Valid()
      invariant FeedAll(s, chunk) == Output(FeedFrom(t, chunk, i).st, out + FeedFrom(t, chunk, i).sent)
    {
      var t' := Transition(t, chunk[i]);
      ghost var u := FeedFrom(t', chunk, i + 1);
      assert FeedFrom(t, chunk, i) == Step(t, chunk, i);
      if Sends(t.n) {
        assert out + ([t'.msg] + u.sent) == (out + [t'.msg]) + u.sent;
        out := out + [t'.msg];
      }
      t := t';
    }
  }

  // -----------------------------------------------------------------------
  // One byte

  /** The checksum arms: the decoder returns to `Init` and the message gets
      its outcome from the checksum and the direction byte; nothing else
      changes. */
  lemma ChecksumArm(s: ReaderState, e: bv8)
    requires s.Valid() && Sends(s.n)
    ensures Transition(s, e) == Checked(s, e)
  {
    match s.n {
      case Crc =>
      case XChecksum =>
    }
  }

  /** One byte sends at most one message, and sends one exactly in a
      checksum state; that message is the one assembled, with its outcome
      set, and the decoder is back in `Init` holding it. */
  lemma ByteSends(s: ReaderState, e: bv8)
    requires s.Valid()
    ensures var r := FeedAll(s, [e]);
      && r.st == Transition(s, e)
      && |r.sent| <= 1
      && (r.sent != [] <==> s.n.Crc? || s.n.XChecksum?)
      && (r.sent != [] ==>
            && r.st.n.Init?
            && r.sent == [r.st.msg]
            && r.st.msg == Checked(s, e).msg
            && r.st.msg.ok == Verdict(s.crc, e, s.dirnok))
  {
    assert FeedFrom(s, [e], 0) == Step(s, [e], 0);
    if Sends(s.n) {
      ChecksumArm(s, e);
    }
  }

  /** In `Init` every byte other than `$` is ignored; `$` starts a frame,
      clearing the outcome, length, command and direction flag but not the
      payload buffer. */
  lemma InitHunts(s: ReaderState, e: bv8)
    requires s.Valid() && s.n.Init?
    ensures e != SYNC ==> Transition(s, e) == s
    ensures e == SYNC ==>
      Transition(s, e) == ReaderState(M, s.crc, s.count, false, MspMsg(0, 0, Fail, s.msg.data))
  {
  }

  /** A byte that is not a valid format or direction byte sends the decoder
      back to `Init` with nothing else changed. */
  lemma FramingErrorResets(s: ReaderState, e: bv8)
    requires s.Valid()
    requires || (s.n.M? && e != V1_MARK && e != V2_MARK)
             || ((s.n.Dirn? || s.n.XHeader2?) && e != FROM_FC && e != ERROR_FROM_FC)
    ensures Transition(s, e) == ReaderState(Init, s.crc, s.count, s.dirnok, s.msg)
  {
  }

  /** Noise: from `Init`, bytes without `$` change nothing and send
      nothing. */
  lemma NoiseIgnored(s: ReaderState, bytes: seq<bv8>)
    requires s.Valid() && s.n.Init?
    requires forall i | 0 <= i < |bytes| :: bytes[i] != SYNC
    ensures FeedAll(s, bytes) == Output(s, [])
  {
    NoiseIgnoredFrom(s, bytes, 0);
  }

  lemma {:induction false} NoiseIgnoredFrom(s: ReaderState, bytes: seq<bv8>, i: nat)
    requires s.Valid() && s.n.Init? && i <= |bytes|
    requires forall j | i <= j < |bytes| :: bytes[j] != SYNC
    ensures FeedFrom(s, bytes, i) == Output(s, [])
    decreases |bytes| - i
  {
    if i < |bytes| {
      assert FeedFrom(s, bytes, i) == Step(s, bytes, i);
      InitHunts(s, bytes[i]);
      NoiseIgnoredFrom(s, bytes, i + 1);
    }
  }

  /** A lower bound on the bytes needed before anything is sent from this
      state: a
      zero-length MSPv1 frame `$M>` length command checksum from `Init`,
      the remaining payload and checksum once the length is known. */
  function Need(s: ReaderState): (k: nat)
    requires s.Valid()
    ensures k >= 1
    ensures k == 1 <==> Sends(s.n)
  {
    match s.n
    case Init => 6
    case M => 5
    case Dirn => 4
    case Len => 3
    case Cmd => s.msg.len + 2
    case Data => s.msg.len - s.count + 1
    case Crc => 1
    case XHeader2 => 7
    case XFlags => 6
    case XId1 => 5
    case XId2 => 4
    case XLen1 => 3
    case XLen2 => s.msg.len + 2
    case XData => s.msg.len - s.count + 1
    case XChecksum => 1
  }

  /** Each byte brings the frame at most one byte closer to completion. */
  lemma NeedStep(s: ReaderState, e: bv8)
    requires s.Valid()
    ensures Need(Transition(s, e)) + 1 >= Need(s)
  {
    if IsSyncState(s.n) {
      NeedStepSync(s, e);
    } else if IsV1State(s.n) {
      NeedStepV1(s, e);
    } else if IsV2HeaderState(s.n) {
      NeedStepV2Header(s, e);
    } else {
      NeedStepV2Body(s, e);
    }
  }

  lemma NeedStepSync(s: ReaderState, e: bv8)
    requires s.Valid() && IsSyncState(s.n)
    ensures Need(SyncTransition(s, e)) + 1 >= Need(s)
  {
  }

  lemma NeedStepV1(s: ReaderState, e: bv8)
    requires s.Valid() && IsV1State(s.n)
    ensures Need(V1Transition(s, e)) + 1 >= Need(s)
  {
    match s.n {
      case Len =>
      case Cmd =>
      case Data =>
      case Crc =>
    }
  }

  lemma NeedStepV2Header(s: ReaderState, e: bv8)
    requires s.Valid() && IsV2HeaderState(s.n)
    ensures Need(V2HeaderTransition(s, e)) + 1 >= Need(s)
  {
  }

  lemma NeedStepV2Body(s: ReaderState, e: bv8)
    requires s.Valid() && (s.n.XLen2? || s.n.XData? || s.n.XChecksum?)
    ensures Need(V2BodyTransition(s, e)) + 1 >= Need(s)
  {
    match s.n {
      case XLen2 =>
      case XData =>
      case XChecksum =>
    }
  }

  /** Fewer bytes than a frame needs never send anything. */
  lemma FeedShortSilent(s: ReaderState, bytes: seq<bv8>)
    requires s.Valid() && |bytes| < Need(s)
    ensures FeedAll(s, bytes).sent == []
  {
    FeedShortSilentFrom(s, bytes, 0);
  }

  lemma {:induction false} FeedShortSilentFrom(s: ReaderState, bytes: seq<bv8>, i: nat)
    requires s.Valid() && i <= |bytes| && |bytes| - i < Need(s)
    ensures FeedFrom(s, bytes, i).sent == []
    decreases |bytes| - i
  {
    if i < |bytes| {
      assert FeedFrom(s, bytes, i) == Step(s, bytes, i);
      NeedStep(s, bytes[i]);
      FeedShortSilentFrom(Transition(s, bytes[i]), bytes, i + 1);
    }
  }

  /** Every message a frame produces has outcome `Ok`, `Crc` or `Dirn`,
      never `Fail`. */
  lemma FramesNeverFail(s: ReaderState, bytes: seq<bv8>)
    requires s.Valid()
    ensures forall m | m in FeedAll(s, bytes).sent :: m.ok != Fail
  {
    FramesNeverFailFrom(s, bytes, 0);
  }

  lemma {:induction false} FramesNeverFailFrom(s: ReaderState, bytes: seq<bv8>, i: nat)
    requires s.Valid() && i <= |bytes|
    ensures forall m | m in FeedFrom(s, bytes, i).sent :: m.ok != Fail
    decreases |bytes| - i
  {
    if i < |bytes| {
      assert FeedFrom(s, bytes, i) == Step(s, bytes, i);
      FramesNeverFailFrom(Transition(s, bytes[i]), bytes, i + 1);
      if Sends(s.n) {
        ChecksumArm(s, bytes[i]);
      }
    }
  }

  // -----------------------------------------------------------------------
  // Splitting the input

  /** The bytes after a prefix are fed exactly as on their own. */
  lemma {:induction false} FeedFromShift(s: ReaderState, a: seq<bv8>, b: seq<bv8>, j: nat)
    requires s.Valid() && j <= |b|
    ensures FeedFrom(s, a + b, |a| + j) == FeedFrom(s, b, j)
    decreases |b| - j
  {
    if j < |b| {
      assert FeedFrom(s, a + b, |a| + j) == Step(s, a + b, |a| + j);
      assert FeedFrom(s, b, j) == Step(s, b, j);
      assert (a + b)[|a| + j] == b[j];
      FeedFromShift(Transition(s, b[j]), a, b, j + 1);
    }
  }

  lemma {:induction false} FeedFromAppend(s: ReaderState, a: seq<bv8>, b: seq<bv8>, i: nat)
    requires s.Valid() && i <= |a|
    ensures var x := FeedFrom(s, a, i); var y := FeedAll(x.st, b);
      FeedFrom(s, a + b, i) == Output(y.st, x.sent + y.sent)
    decreases |a| - i
  {
    if i == |a| {
      FeedFromShift(s, a, b, 0);
      assert [] + FeedAll(s, b).sent == FeedAll(s, b).sent;
    } else {
      assert FeedFrom(s, a + b, i) == Step(s, a + b, i);
      assert FeedFrom(s, a, i) == Step(s, a, i);
      assert (a + b)[i] == a[i];
      var t := Transition(s, a[i]);
      FeedFromAppend(t, a, b, i + 1);
      var x' := FeedFrom(t, a, i + 1);
      var y := FeedAll(x'.st, b);
      assert [t.msg] + (x'.sent + y.sent) == ([t.msg] + x'.sent) + y.sent;
    }
  }

  /** Feeding `a + b` is feeding `a`, then `b` from where `a` left off. */
  lemma FeedAllAppend(s: ReaderState, a: seq<bv8>, b: seq<bv8>)
    requires s.Valid()
    ensures var x := FeedAll(s, a); var y := FeedAll(x.st, b);
      FeedAll(s, a + b) == Output(y.st, x.sent + y.sent)
  {
    FeedFromAppend(s, a, b, 0);
  }

  /** The bytes delivered before the stream ends. */
  function Stream(results: seq<ReadResult>): seq<bv8>
    decreases |results|
  {
    if results == [] then []
    else match results[0]
      case ReadErr => []
      case Bytes(chunk) => if chunk == [] then [] else chunk + Stream(results[1..])
  }

  /** Whether some read reports end of stream or an error. */
  predicate Ends(results: seq<ReadResult>)
  {
    exists j | 0 <= j < |results| :: results[j] == ReadErr || results[j] == Bytes([])
  }

  /** How the bytes arrive in reads does not matter: the reader sends what
      feeding the whole stream sends, then the default message exactly when
      the stream ends. */
  lemma {:induction false} ReadAllIsFeedAll(s: ReaderState, results: seq<ReadResult>)
    requires s.Valid()
    ensures var f := FeedAll(s, Stream(results));
      ReadAll(s, results) == Output(f.st, f.sent + if Ends(results) then [DEFAULT_MSG] else [])
    decreases |results|
  {
    if results == [] {
      assert FeedAll(s, []) == Output(s, []);
    } else if results[0] == ReadErr || results[0] == Bytes([]) {
      assert FeedAll(s, []) == Output(s, []);
      assert Ends(results);
    } else {
      var chunk := results[0].chunk;
      var a := FeedAll(s, chunk);
      ReadAllIsFeedAll(a.st, results[1..]);
      FeedAllAppend(s, chunk, Stream(results[1..]));
      var y := FeedAll(a.st, Stream(results[1..]));
      var tail: seq<MspMsg> := if Ends(results[1..]) then [DEFAULT_MSG] else [];
      assert a.sent + (y.sent + tail) == (a.sent + y.sent) + tail;
      assert Ends(results) == Ends(results[1..]) by {
        if Ends(results[1..]) {
          var j :| 0 <= j < |results[1..]| && (results[1..][j] == ReadErr || results[1..][j] == Bytes([]));
          assert results[j + 1] == results[1..][j];
        }
        if Ends(results) {
          var j :| 0 <= j < |results| && (results[j] == ReadErr || results[j] == Bytes([]));
          assert j > 0 && results[1..][j - 1] == results[j];
        }
      }
    }
  }

  /** Two ways of cutting the same stream into reads send the same
      messages. */
  lemma ChunkingIrrelevant(s: ReaderState, r1: seq<ReadResult>, r2: seq<ReadResult>)
    requires s.Valid()
    requires Stream(r1) == Stream(r2) && Ends(r1) == Ends(r2)
    ensures ReadAll(s, r1) == ReadAll(s, r2)
  {
    ReadAllIsFeedAll(s, r1);
    ReadAllIsFeedAll(s, r2);
  }

  /** A `Fail` message is sent only at the end of the stream, exactly once,
      and it is the default message. */
  lemma FailOnlyAtEnd(s: ReaderState, results: seq<ReadResult>)
    requires s.Valid()
    ensures var out := ReadAll(s, results).sent;
      && (forall j | 0 <= j < |out| :: out[j].ok == Fail <==> Ends(results) && j == |out| - 1)
      && (Ends(results) ==> |out| > 0 && out[|out| - 1] == DEFAULT_MSG)
  {
    ReadAllIsFeedAll(s, results);
    var f := FeedAll(s, Stream(results));
    FramesNeverFail(s, Stream(results));
    var out := ReadAll(s, results).sent;
    forall j | 0 <= j < |out|
      ensures out[j].ok == Fail <==> Ends(results) && j == |out| - 1
    {
      if j < |f.sent| {
        assert out[j] == f.sent[j];
        assert out[j] in f.sent;
      }
    }
  }
}
