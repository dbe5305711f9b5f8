/** The request side of the MSP client: the encoder chosen by the protocol
    version, the first request, and the command requested after each
    message the reader thread delivers. */
module Session {
  import opened MspCodec
  import opened MspReader
  import opened MspFrames

  /** The protocol version used when the command line names none. */
  const DEFAULT_VERS: int := 2

  /** The frame the encoder closure builds: MSPv1 for version 1, MSPv2 for
      every other version. */
  function VersFrame(vers: int, cmd: uint16, payload: seq<bv8>): seq<bv8>
  {
    if vers == 1 then MspFrame(cmd, payload) else Msp2Frame(cmd, payload)
  }

  /** The closure `encode_msp_vers`. */
  method EncodeMspVers(vers: int, cmd: uint16, payload: seq<bv8>) returns (v: seq<bv8>)
    ensures v == VersFrame(vers, cmd, payload)
  {
    if vers == 1 {
      v := EncodeMsp(cmd, payload);
    } else {
      v := EncodeMsp2(cmd, payload);
    }
  }

  /** The version picks the marker byte and the frame size; the default
      version writes MSPv2. */
  lemma VersionSelects(vers: int, cmd: uint16, payload: seq<bv8>)
    ensures var v := VersFrame(vers, cmd, payload);
      && |v| == |payload| + (if vers == 1 then 6 else 9)
      && v[0] == SYNC && v[2] == TO_FC
      && (v[1] == V1_MARK <==> vers == 1)
      && (v[1] == V2_MARK <==> vers != 1)
    ensures VersFrame(DEFAULT_VERS, cmd, payload)[1] == V2_MARK
  {
    MspFrameLayout(cmd, payload);
    Msp2FrameLayout(cmd, payload);
    var w := Msp2Frame(cmd, payload);
    assert w[1] == w[..4][1];
    var u := MspFrame(cmd, payload);
    assert u[1] == u[..3][1];
  }

  /** Every request the client writes has an empty payload: its length field
      reads zero and its command field reads the command (only the low byte
      of it in MSPv1). */
  lemma EmptyRequest(vers: int, cmd: uint16)
    ensures var v := VersFrame(vers, cmd, []);
      if vers == 1 then
        |v| == 6 && Widen(v[3]) == 0 && Widen(v[4]) == cmd % 256
      else
        |v| == 9 && Widen(v[6]) + Widen(v[7]) * 256 == 0
        && Widen(v[4]) + Widen(v[5]) * 256 == cmd
  {
    if vers == 1 {
      MspFrameLayout(cmd, []);
      ByteValue(0);
      ByteValue(cmd % 256);
    } else {
      Msp2FrameLayout(cmd, []);
      LoHiSplit(0);
      LoHiSplit(cmd);
    }
  }

  /** A request echoed back by the controller with the reply direction `>`
      is read by the client as an `Ok` reply for the same command (its low
      byte in MSPv1), with length 0 and the previous frame's buffer. */
  lemma RequestEchoed(s: ReaderState, vers: int, cmd: uint16)
    requires s.Valid() && s.n.Init?
    ensures var m := MspMsg(0, if vers == 1 then cmd % 256 else cmd, Ok, s.msg.data);
      FeedAll(s, Reply(VersFrame(vers, cmd, []), FROM_FC)).sent == [m]
  {
    if vers == 1 {
      RoundTripV1(s, cmd, [], FROM_FC);
    } else {
      RoundTripV2(s, cmd, [], FROM_FC);
    }
  }

  // ---------------------------------------------------------------------
  // The next command

  /** The `match x.cmd` of the receive loop: the command requested after a
      message for `cmd` with outcome `ok` and length `len`. The next command
      starts as the message's own command; a listed command moves on only
      when the outcome is `Ok` (and, for API_VERSION, the length exceeds 2).
      Read against the table `WALK`: the next command moves along the walk
      exactly when the reply is `Ok` for a listed command (with more than 2
      bytes for API_VERSION), and is the reply's own command otherwise. */
  function NextCmd(cmd: uint16, ok: MspRes, len: uint16): (nxt: uint16)
    ensures var advances := ok == Ok && cmd in WALK && (cmd == MSG_API_VERSION ==> len > 2);
      && (advances ==> nxt == WALK[cmd])
      && (!advances ==> nxt == cmd)
      && (nxt != cmd <==> advances)
  {
    if cmd == MSG_IDENT then (if ok == Ok then MSG_NAME else cmd)
    else if cmd == MSG_NAME then (if ok == Ok then MSG_API_VERSION else cmd)
    else if cmd == MSG_API_VERSION then (if ok == Ok && len > 2 then MSG_FC_VARIANT else cmd)
    else if cmd == MSG_FC_VARIANT then (if ok == Ok then MSG_FC_VERSION else cmd)
    else if cmd == MSG_FC_VERSION then (if ok == Ok then MSG_BUILD_INFO else cmd)
    else if cmd == MSG_BUILD_INFO then (if ok == Ok then MSG_BOARD_INFO else cmd)
    else if cmd == MSG_BOARD_INFO then (if ok == Ok then MSG_WP_GETINFO else cmd)
    else if cmd == MSG_WP_GETINFO then (if ok == Ok then MSG_ANALOG else cmd)
    else if cmd == MSG_ANALOG then (if ok == Ok then MSG_RAW_GPS else cmd)
    else if cmd == MSG_RAW_GPS then (if ok == Ok then MSG_ANALOG else cmd)
    else if cmd == MSG_DEBUGMSG then (if ok == Ok then MSG_IDENT else cmd)
    else cmd
  }

  /** The walk as a table: the command that follows each listed command. */
  const WALK: map<uint16, uint16> := map[
    MSG_IDENT := MSG_NAME,
    MSG_NAME := MSG_API_VERSION,
    MSG_API_VERSION := MSG_FC_VARIANT,
    MSG_FC_VARIANT := MSG_FC_VERSION,
    MSG_FC_VERSION := MSG_BUILD_INFO,
    MSG_BUILD_INFO := MSG_BOARD_INFO,
    MSG_BOARD_INFO := MSG_WP_GETINFO,
    MSG_WP_GETINFO := MSG_ANALOG,
    MSG_ANALOG := MSG_RAW_GPS,
    MSG_RAW_GPS := MSG_ANALOG,
    MSG_DEBUGMSG := MSG_IDENT]

  /** A reply that is not `Ok` (a checksum error, a wrong direction, or the
      final default message) asks for the same command again; so does an
      `Ok` reply for a command off the walk. */
  lemma RetryUnlessOk(cmd: uint16, ok: MspRes, len: uint16)
    ensures ok != Ok ==> NextCmd(cmd, ok, len) == cmd
    ensures cmd !in WALK ==> NextCmd(cmd, ok, len) == cmd
    ensures NextCmd(DEFAULT_MSG.cmd, DEFAULT_MSG.ok, DEFAULT_MSG.len) == 0
  {
  }

  /** The commands requested when every request for `cmd` is answered `Ok`
      for that command with `len` bytes, `k` requests on. */
  function OkWalk(cmd: uint16, len: uint16, k: nat): uint16
    decreases k
  {
    if k == 0 then cmd else OkWalk(NextCmd(cmd, Ok, len), len, k - 1)
  }

  /** The identification requests, in the order the client makes them. */
  const IDENT_ORDER: seq<uint16> := [MSG_IDENT, MSG_NAME, MSG_API_VERSION,
    MSG_FC_VARIANT, MSG_FC_VERSION, MSG_BUILD_INFO, MSG_BOARD_INFO,
    MSG_WP_GETINFO]

  /** `j` further requests along an `Ok` walk. */
  lemma {:induction false} OkWalkAdd(cmd: uint16, len: uint16, i: nat, j: nat)
    ensures OkWalk(cmd, len, i + j) == OkWalk(OkWalk(cmd, len, i), len, j)
    decreases i
  {
    if i > 0 {
      OkWalkAdd(NextCmd(cmd, Ok, len), len, i - 1, j);
    }
  }

  /** Starting from ANALOG, `Ok` replies alternate ANALOG and RAW_GPS
      for ever. */
  lemma {:induction false} TelemetryLoop(len: uint16, j: nat)
    ensures OkWalk(MSG_ANALOG, len, 2 * j) == MSG_ANALOG
    ensures OkWalk(MSG_ANALOG, len, 2 * j + 1) == MSG_RAW_GPS
  {
    if j > 0 {
      TelemetryLoop(len, j - 1);
      OkWalkAdd(MSG_ANALOG, len, 2 * (j - 1), 2);
    }
  }

  /** Along the identification requests, each `Ok` reply longer than 2
      bytes asks for the next one. */
  lemma {:induction false} IdentSteps(len: uint16, i: nat, k: nat)
    requires len > 2 && i + k < |IDENT_ORDER|
    ensures OkWalk(IDENT_ORDER[i], len, k) == IDENT_ORDER[i + k]
    decreases k
  {
    if k > 0 {
      assert NextCmd(IDENT_ORDER[i], Ok, len) == IDENT_ORDER[i + 1];
      IdentSteps(len, i + 1, k - 1);
    }
  }

  /** With `Ok` replies longer than 2 bytes, the client walks the
      identification requests once, then polls ANALOG and RAW_GPS in turn. */
  lemma OkWalkFromIdent(len: uint16, k: nat)
    requires len > 2
    ensures k < |IDENT_ORDER| ==> OkWalk(MSG_IDENT, len, k) == IDENT_ORDER[k]
    ensures k >= |IDENT_ORDER| ==>
      OkWalk(MSG_IDENT, len, k) == (if k % 2 == 0 then MSG_ANALOG else MSG_RAW_GPS)
  {
    if k < |IDENT_ORDER| {
      IdentSteps(len, 0, k);
    } else {
      IdentSteps(len, 0, 7);
      OkWalkAdd(MSG_IDENT, len, 7, 1);
      OkWalkAdd(MSG_IDENT, len, 8, k - 8);
      TelemetryLoop(len, (k - 8) / 2);
    }
  }

  /** An API_VERSION reply of at most 2 bytes stalls the walk there: the
      client asks for API_VERSION for ever. */
  lemma {:induction false} ShortApiVersionStalls(len: uint16, k: nat)
    requires len <= 2
    ensures k >= 2 ==> OkWalk(MSG_IDENT, len, k) == MSG_API_VERSION
  {
    if k > 2 {
      ShortApiVersionStalls(len, k - 1);
      OkWalkAdd(MSG_IDENT, len, k - 1, 1);
    }
  }

  // ---------------------------------------------------------------------
  // The receive loop

  /** Whether the printing in the arm taken for `m` stays inside `m.data`;
      an index or slice past its end makes the loop panic. A reply that is
      not `Ok`, is for a command off the walk, or has at least 19 bytes never
      panics; BUILD_INFO needs all 19; with no bytes at all only NAME,
      DEBUGMSG, a zero-length IDENT and a short API_VERSION get through. */
  function InBounds(m: MspMsg): (b: bool)
    ensures m.ok != Ok || m.cmd !in WALK || |m.data| >= 19 ==> b
    ensures m.ok == Ok && m.cmd == MSG_BUILD_INFO ==> (b <==> |m.data| >= 19)
    ensures m.ok == Ok && m.cmd in WALK && m.data == [] ==>
      (b <==> || m.cmd == MSG_NAME || m.cmd == MSG_DEBUGMSG
              || (m.cmd == MSG_IDENT && m.len == 0)
              || (m.cmd == MSG_API_VERSION && m.len <= 2))
  {
    var n := |m.data|;
    if m.ok != Ok then true
    else if m.cmd == MSG_IDENT then m.len == 0 || n >= 1
    else if m.cmd == MSG_API_VERSION then m.len <= 2 || n >= 3
    else if m.cmd == MSG_FC_VARIANT then n >= 4
    else if m.cmd == MSG_FC_VERSION then n >= 3
    else if m.cmd == MSG_BUILD_INFO then n >= 19
    else if m.cmd == MSG_BOARD_INFO then (if m.len > 8 then n >= 9 else n >= 4)
    else if m.cmd == MSG_WP_GETINFO then n >= 4
    else if m.cmd == MSG_ANALOG then n >= 1
    else if m.cmd == MSG_RAW_GPS then n >= 16 && (m.len > 16 ==> n >= 18)
    else true
  }

  /** The command requested after `m`. */
  function NextOf(m: MspMsg): uint16
  {
    NextCmd(m.cmd, m.ok, m.len)
  }

  /** The commands requested in answer to `replies`, one per message, up to
      the first message whose arm panics. */
  function Answers(replies: seq<MspMsg>): (a: seq<uint16>)
    ensures |a| <= |replies|
    ensures forall i :: 0 <= i < |a| ==> InBounds(replies[i]) && a[i] == NextOf(replies[i])
    ensures |a| < |replies| ==> !InBounds(replies[|a|])
  {
    if replies == [] || !InBounds(replies[0]) then []
    else [NextOf(replies[0])] + Answers(replies[1..])
  }

  /** Every command the client requests: IDENT first, then the answers. */
  function Requests(replies: seq<MspMsg>): seq<uint16>
  {
    [MSG_IDENT] + Answers(replies)
  }

  /** The client once the reader thread runs: write the IDENT request, then
      for each message received write the request for the next command,
      until a message's arm panics (`panicked`). `replies` are the messages
      the channel delivers in order. */
  method Run(vers: int, replies: seq<MspMsg>) returns (writes: seq<seq<bv8>>, panicked: bool)
    ensures |writes| == |Requests(replies)|
    ensures forall i :: 0 <= i < |writes| ==> writes[i] == VersFrame(vers, Requests(replies)[i], [])
    ensures panicked <==> |Answers(replies)| < |replies|
  {
    var first := EncodeMspVers(vers, MSG_IDENT, []);
    writes := [first];
    var i := 0;
    panicked := false;
    ghost var a := Answers(replies);
    while i < |replies| && !panicked
      invariant 0 <= i <= |a|
      invariant panicked ==> i == |a| < |replies|
      invariant |writes| == i + 1
      invariant forall j :: 0 <= j < |writes| ==> writes[j] == VersFrame(vers, Requests(replies)[j], [])
      decreases |replies| - i, if panicked then 0 else 1
    {
      var x := replies[i];
      if !InBounds(x) {
        panicked := true;
      } else {
        var nxt := NextCmd(x.cmd, x.ok, x.len);
        var frame := EncodeMspVers(vers, nxt, []);
        writes := writes + [frame];
        i := i + 1;
      }
    }
  }

  /** An `Ok` reply longer than 2 bytes moves the walk on as a 3-byte one
      does: only API_VERSION looks at the length. */
  lemma OkLengthIrrelevant(cmd: uint16, len: uint16)
    requires len > 2
    ensures NextCmd(cmd, Ok, len) == NextCmd(cmd, Ok, 3)
  {
  }

  /** When the controller answers every request `Ok`, for the command
      requested, each reply with its own length (more than 2 bytes) that
      the printing can index, the client's requests follow the `Ok` walk
      from IDENT (`OkWalk` with any length above 2, here 3). */
  lemma {:induction false} HealthyRun(replies: seq<MspMsg>)
    requires forall i :: 0 <= i < |replies| ==>
      && replies[i].ok == Ok && replies[i].len > 2
      && replies[i].cmd == OkWalk(MSG_IDENT, 3, i) && InBounds(replies[i])
    ensures |Requests(replies)| == |replies| + 1
    ensures forall i :: 0 <= i < |Requests(replies)| ==> Requests(replies)[i] == OkWalk(MSG_IDENT, 3, i)
  {
    var r := Requests(replies);
    forall i | 0 <= i < |r|
      ensures r[i] == OkWalk(MSG_IDENT, 3, i)
    {
      if i > 0 {
        var m := replies[i - 1];
        assert r[i] == NextOf(m);
        OkLengthIrrelevant(m.cmd, m.len);
        OkWalkAdd(MSG_IDENT, 3, i - 1, 1);
        assert OkWalk(OkWalk(MSG_IDENT, 3, i - 1), 3, 1) == NextCmd(m.cmd, Ok, 3);
      }
    }
  }
}
