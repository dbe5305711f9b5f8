/** Whole frames through the decoder: a well-formed reply frame fed to
    `reader` from `Init` sends exactly one message, whose fields are read
    off the frame; the request frames the encoders build decode to what was
    encoded once their direction byte is turned into a reply's. */
module MspFrames {
  import opened MspCodec
  import opened MspReader

  /** The last byte of a frame, fed in a checksum state, sends the checked
      message and returns to `Init`. */
  lemma {:induction false} FeedLast(t: ReaderState, v: seq<bv8>)
    requires t.Valid() && Sends(t.n) && |v| > 0
    ensures var c := Checked(t, v[|v| - 1]);
      FeedFrom(t, v, |v| - 1) == Output(c, [c.msg])
  {
    ChecksumArm(t, v[|v| - 1]);
    assert FeedFrom(t, v, |v| - 1) == Step(t, v, |v| - 1);
  }

  lemma {:induction false} CrcFoldSnoc(c: bv8, a: seq<bv8>, x: bv8)
    ensures CrcFold(c, a + [x]) == Crc8(CrcFold(c, a), x)
  {
    CrcFoldAppend(c, a, [x]);
    assert [x][1..] == [];
  }

  lemma {:induction false} XorFoldSnoc(c: bv8, a: seq<bv8>, x: bv8)
    ensures XorFold(c, a + [x]) == XorFold(c, a) ^ x
  {
    XorFoldAppend(c, a, [x]);
    assert [x][1..] == [];
  }

  /** Storing the next payload byte into a partly filled buffer. */
  lemma {:induction false} FillOne(a: seq<bv8>, x: bv8, r: nat)
    ensures (a + Zeros(r + 1))[|a| := x] == (a + [x]) + Zeros(r)
  {
    assert (a + Zeros(r + 1))[|a| := x] == (a + [x]) + Zeros(r);
  }

  // -----------------------------------------------------------------------
  // MSPv2

  /** A complete MSPv2 reply frame: `$X`, a reply direction byte, flags,
      command and payload length little-endian, that many payload bytes and
      a checksum byte. */
  predicate V2Shaped(v: seq<bv8>)
  {
    && |v| >= 9 && v[0] == SYNC && v[1] == V2_MARK
    && (v[2] == FROM_FC || v[2] == ERROR_FROM_FC)
    && |v| == 9 + Widen(v[6]) + Widen(v[7]) * 256
  }

  /** The message an MSPv2 frame carries: its length and command fields,
      the outcome of checking its CRC and direction, and its payload, or
      for an empty payload whatever the buffer held before. */
  function V2Reply(s: ReaderState, v: seq<bv8>): MspMsg
    requires V2Shaped(v)
  {
    var l := |v| - 9;
    MspMsg(l, Widen(v[4]) + Widen(v[5]) * 256,
           Verdict(CrcFold(0, v[3..|v| - 1]), v[|v| - 1], v[2] == FROM_FC),
           if l == 0 then s.msg.data else v[8..|v| - 1])
  }

  /** The variables before the checksum byte of an MSPv2 frame. */
  function V2Ready(s: ReaderState, v: seq<bv8>): ReaderState
    requires V2Shaped(v)
  {
    var l := |v| - 9;
    ReaderState(XChecksum, CrcFold(0, v[3..|v| - 1]), if l == 0 then s.count else l, v[2] == FROM_FC,
                MspMsg(l, Widen(v[4]) + Widen(v[5]) * 256, Fail, if l == 0 then s.msg.data else v[8..|v| - 1]))
  }

  /** The variables after the first `k` bytes of an MSPv2 frame fed from
      `Init`; the checksum state is reached exactly before the last byte. */
  function V2Progress(s: ReaderState, v: seq<bv8>, k: nat): (r: ReaderState)
    requires s.Valid() && s.n.Init? && V2Shaped(v) && k < |v|
    ensures r.Valid()
    ensures Sends(r.n) <==> k == |v| - 1
  {
    var dir := v[2] == FROM_FC;
    var d := s.msg.data;
    var l := |v| - 9;
    var cmd := Widen(v[4]) + Widen(v[5]) * 256;
    if k == |v| - 1 then V2Ready(s, v)
    else if k == 0 then s
    else if k == 1 then ReaderState(M, s.crc, s.count, false, MspMsg(0, 0, Fail, d))
    else if k == 2 then ReaderState(XHeader2, s.crc, s.count, false, MspMsg(0, 0, Fail, d))
    else if k == 3 then ReaderState(XFlags, s.crc, s.count, dir, MspMsg(0, 0, Fail, d))
    else if k == 4 then ReaderState(XId1, CrcFold(0, v[3..k]), s.count, dir, MspMsg(0, 0, Fail, d))
    else if k == 5 then ReaderState(XId2, CrcFold(0, v[3..k]), s.count, dir, MspMsg(0, Widen(v[4]), Fail, d))
    else if k == 6 then ReaderState(XLen1, CrcFold(0, v[3..k]), s.count, dir, MspMsg(0, cmd, Fail, d))
    else if k == 7 then ReaderState(XLen2, CrcFold(0, v[3..k]), s.count, dir, MspMsg(Widen(v[6]), cmd, Fail, d))
    else
      var j := k - 8;
      ReaderState(XData, CrcFold(0, v[3..k]), j, dir, MspMsg(l, cmd, Fail, v[8..k] + Zeros(l - j)))
  }

  lemma {:induction false} V2StepSync(s: ReaderState, v: seq<bv8>, k: nat)
    requires s.Valid() && s.n.Init? && V2Shaped(v) && k < 3
    ensures Transition(V2Progress(s, v, k), v[k]) == V2Progress(s, v, k + 1)
  {
  }

  lemma {:induction false} V2StepFlags(s: ReaderState, v: seq<bv8>, k: nat)
    requires s.Valid() && s.n.Init? && V2Shaped(v) && k == 3
    ensures Transition(V2Progress(s, v, k), v[k]) == V2Progress(s, v, k + 1)
  {
    assert v[3..4] == [v[3]];
    assert CrcFold(0, [v[3]]) == Crc8(0, v[3]);
  }

  lemma {:induction false} V2StepId1(s: ReaderState, v: seq<bv8>, k: nat)
    requires s.Valid() && s.n.Init? && V2Shaped(v) && k == 4
    ensures Transition(V2Progress(s, v, k), v[k]) == V2Progress(s, v, k + 1)
  {
    assert v[3..5] == v[3..4] + [v[4]];
    CrcFoldSnoc(0, v[3..4], v[4]);
  }

  lemma {:induction false} V2StepId2(s: ReaderState, v: seq<bv8>, k: nat)
    requires s.Valid() && s.n.Init? && V2Shaped(v) && k == 5
    ensures Transition(V2Progress(s, v, k), v[k]) == V2Progress(s, v, k + 1)
  {
    assert v[3..6] == v[3..5] + [v[5]];
    CrcFoldSnoc(0, v[3..5], v[5]);
  }

  lemma {:induction false} V2StepLen1(s: ReaderState, v: seq<bv8>, k: nat)
    requires s.Valid() && s.n.Init? && V2Shaped(v) && k == 6
    ensures Transition(V2Progress(s, v, k), v[k]) == V2Progress(s, v, k + 1)
  {
    assert v[3..7] == v[3..6] + [v[6]];
    CrcFoldSnoc(0, v[3..6], v[6]);
  }

  lemma {:induction false} V2StepLen2(s: ReaderState, v: seq<bv8>, k: nat)
    requires s.Valid() && s.n.Init? && V2Shaped(v) && k == 7
    ensures Transition(V2Progress(s, v, k), v[k]) == V2Progress(s, v, k + 1)
  {
    assert v[3..8] == v[3..7] + [v[7]];
    CrcFoldSnoc(0, v[3..7], v[7]);
    if |v| > 9 {
      V2StepLen2Payload(s, v, k);
    }
  }

  lemma {:induction false} V2StepLen2Payload(s: ReaderState, v: seq<bv8>, k: nat)
    requires s.Valid() && s.n.Init? && V2Shaped(v) && |v| > 9 && k == 7
    requires Crc8(CrcFold(0, v[3..7]), v[7]) == CrcFold(0, v[3..8])
    ensures Transition(V2Progress(s, v, k), v[k]) == V2Progress(s, v, k + 1)
  {
    assert v[8..8] + Zeros(|v| - 9) == Zeros(|v| - 9);
  }

  lemma {:induction false} V2StepPayload(s: ReaderState, v: seq<bv8>, k: nat)
    requires s.Valid() && s.n.Init? && V2Shaped(v) && 8 <= k && k + 2 < |v|
    ensures Transition(V2Progress(s, v, k), v[k]) == V2Progress(s, v, k + 1)
  {
    assert v[3..k + 1] == v[3..k] + [v[k]];
    CrcFoldSnoc(0, v[3..k], v[k]);
    assert v[8..k + 1] == v[8..k] + [v[k]];
    FillOne(v[8..k], v[k], |v| - 10 - (k - 8));
  }

  lemma {:induction false} V2StepPayloadLast(s: ReaderState, v: seq<bv8>, k: nat)
    requires s.Valid() && s.n.Init? && V2Shaped(v) && |v| > 9 && k == |v| - 2
    ensures Transition(V2Progress(s, v, k), v[k]) == V2Progress(s, v, k + 1)
  {
    var l := |v| - 9;
    var t := ReaderState(XData, CrcFold(0, v[3..k]), l - 1, v[2] == FROM_FC,
                         MspMsg(l, Widen(v[4]) + Widen(v[5]) * 256, Fail, v[8..k] + Zeros(1)));
    assert V2Progress(s, v, k) == t;
    assert v[3..k + 1] == v[3..k] + [v[k]];
    CrcFoldSnoc(0, v[3..k], v[k]);
    assert v[8..k + 1] == v[8..k] + [v[k]];
    FillOne(v[8..k], v[k], 0);
    assert v[8..k + 1] + Zeros(0) == v[8..k + 1];
    V2StoreLast(s, v, t);
  }

  /** The last payload byte, stored into the buffer. */
  lemma {:induction false} V2StoreLast(s: ReaderState, v: seq<bv8>, t: ReaderState)
    requires s.Valid() && s.n.Init? && V2Shaped(v) && |v| > 9
    requires t == ReaderState(XData, CrcFold(0, v[3..|v| - 2]), |v| - 10, v[2] == FROM_FC,
                              MspMsg(|v| - 9, Widen(v[4]) + Widen(v[5]) * 256, Fail, v[8..|v| - 2] + Zeros(1)))
    requires Crc8(CrcFold(0, v[3..|v| - 2]), v[|v| - 2]) == CrcFold(0, v[3..|v| - 1])
    requires (v[8..|v| - 2] + Zeros(1))[|v| - 10 := v[|v| - 2]] == v[8..|v| - 1]
    ensures t.Valid() && Transition(t, v[|v| - 2]) == V2Ready(s, v)
  {
  }

  lemma {:induction false} V2Trans(s: ReaderState, v: seq<bv8>, k: nat)
    requires s.Valid() && s.n.Init? && V2Shaped(v) && k + 1 < |v|
    ensures Transition(V2Progress(s, v, k), v[k]) == V2Progress(s, v, k + 1)
  {
    if k < 3 {
      V2StepSync(s, v, k);
    } else if k == 3 {
      V2StepFlags(s, v, k);
    } else if k == 4 {
      V2StepId1(s, v, k);
    } else if k == 5 {
      V2StepId2(s, v, k);
    } else if k == 6 {
      V2StepLen1(s, v, k);
    } else if k == 7 {
      V2StepLen2(s, v, k);
    } else if k + 2 < |v| {
      V2StepPayload(s, v, k);
    } else {
      V2StepPayloadLast(s, v, k);
    }
  }

  lemma {:induction false} V2Step(s: ReaderState, v: seq<bv8>, k: nat)
    requires s.Valid() && s.n.Init? && V2Shaped(v) && k + 1 < |v|
    ensures FeedFrom(V2Progress(s, v, k), v, k) == FeedFrom(V2Progress(s, v, k + 1), v, k + 1)
  {
    var t := V2Progress(s, v, k);
    assert FeedFrom(t, v, k) == Step(t, v, k);
    V2Trans(s, v, k);
  }

  /** Feeding the first `k` bytes of an MSPv2 frame from `Init` sends
      nothing and leaves the variables `V2Progress` gives. */
  lemma {:induction false} V2Feed(s: ReaderState, v: seq<bv8>, k: nat)
    requires s.Valid() && s.n.Init? && V2Shaped(v) && k < |v|
    ensures FeedAll(s, v) == FeedFrom(V2Progress(s, v, k), v, k)
    decreases k
  {
    if k > 0 {
      V2Feed(s, v, k - 1);
      V2Step(s, v, k - 1);
    }
  }

  /** Up to the checksum byte of an MSPv2 frame nothing is sent. */
  lemma {:induction false} V2UpToChecksum(s: ReaderState, v: seq<bv8>)
    requires s.Valid() && s.n.Init? && V2Shaped(v)
    ensures FeedAll(s, v) == FeedFrom(V2Ready(s, v), v, |v| - 1)
  {
    V2Feed(s, v, |v| - 1);
  }

  /** Decoding an MSPv2 frame from `Init`: exactly one message is sent, the
      one the frame carries, and the decoder is back in `Init` holding it. */
  lemma {:induction false} DecodeV2(s: ReaderState, v: seq<bv8>)
    requires s.Valid() && s.n.Init? && V2Shaped(v)
    ensures var out := FeedAll(s, v);
      out.sent == [V2Reply(s, v)] && out.st.n.Init? && out.st.msg == V2Reply(s, v)
  {
    V2UpToChecksum(s, v);
    FeedLast(V2Ready(s, v), v);
  }

  // -----------------------------------------------------------------------
  // MSPv1

  /** A complete MSPv1 reply frame: `$M`, a reply direction byte, the
      payload length, the command, that many payload bytes and a checksum
      byte. */
  predicate V1Shaped(v: seq<bv8>)
  {
    && |v| >= 6 && v[0] == SYNC && v[1] == V1_MARK
    && (v[2] == FROM_FC || v[2] == ERROR_FROM_FC)
    && |v| == 6 + Widen(v[3])
  }

  /** The message an MSPv1 frame carries: its length and command bytes,
      the outcome of checking its XOR checksum and direction, and its
      payload, or for an empty payload whatever the buffer held before. */
  function V1Reply(s: ReaderState, v: seq<bv8>): MspMsg
    requires V1Shaped(v)
  {
    var l := |v| - 6;
    MspMsg(l, Widen(v[4]), Verdict(XorFold(0, v[3..|v| - 1]), v[|v| - 1], v[2] == FROM_FC),
           if l == 0 then s.msg.data else v[5..|v| - 1])
  }

  /** The variables before the checksum byte of an MSPv1 frame. */
  function V1Ready(s: ReaderState, v: seq<bv8>): ReaderState
    requires V1Shaped(v)
  {
    var l := |v| - 6;
    ReaderState(State.Crc, XorFold(0, v[3..|v| - 1]), if l == 0 then s.count else l, v[2] == FROM_FC,
                MspMsg(l, Widen(v[4]), Fail, if l == 0 then s.msg.data else v[5..|v| - 1]))
  }

  /** The variables after the first `k` bytes of an MSPv1 frame fed from
      `Init`; the checksum state is reached exactly before the last byte. */
  function V1Progress(s: ReaderState, v: seq<bv8>, k: nat): (r: ReaderState)
    requires s.Valid() && s.n.Init? && V1Shaped(v) && k < |v|
    ensures r.Valid()
    ensures Sends(r.n) <==> k == |v| - 1
  {
    var dir := v[2] == FROM_FC;
    var d := s.msg.data;
    var l := |v| - 6;
    if k == |v| - 1 then V1Ready(s, v)
    else if k == 0 then s
    else if k == 1 then ReaderState(M, s.crc, s.count, false, MspMsg(0, 0, Fail, d))
    else if k == 2 then ReaderState(State.Dirn, s.crc, s.count, false, MspMsg(0, 0, Fail, d))
    else if k == 3 then ReaderState(Len, s.crc, s.count, dir, MspMsg(0, 0, Fail, d))
    else if k == 4 then ReaderState(Cmd, XorFold(0, v[3..k]), s.count, dir, MspMsg(l, 0, Fail, d))
    else
      var j := k - 5;
      ReaderState(Data, XorFold(0, v[3..k]), j, dir, MspMsg(l, Widen(v[4]), Fail, v[5..k] + Zeros(l - j)))
  }

  lemma {:induction false} V1StepSync(s: ReaderState, v: seq<bv8>, k: nat)
    requires s.Valid() && s.n.Init? && V1Shaped(v) && k < 3
    ensures Transition(V1Progress(s, v, k), v[k]) == V1Progress(s, v, k + 1)
  {
  }

  lemma {:induction false} V1StepLen(s: ReaderState, v: seq<bv8>, k: nat)
    requires s.Valid() && s.n.Init? && V1Shaped(v) && k == 3
    ensures Transition(V1Progress(s, v, k), v[k]) == V1Progress(s, v, k + 1)
  {
    assert v[3..4] == [v[3]];
    assert XorFold(0, [v[3]]) == v[3];
  }

  lemma {:induction false} V1StepCmd(s: ReaderState, v: seq<bv8>, k: nat)
    requires s.Valid() && s.n.Init? && V1Shaped(v) && k == 4
    ensures Transition(V1Progress(s, v, k), v[k]) == V1Progress(s, v, k + 1)
  {
    assert v[3..5] == v[3..4] + [v[4]];
    XorFoldSnoc(0, v[3..4], v[4]);
    if |v| > 6 {
      V1StepCmdPayload(s, v, k);
    }
  }

  lemma {:induction false} V1StepCmdPayload(s: ReaderState, v: seq<bv8>, k: nat)
    requires s.Valid() && s.n.Init? && V1Shaped(v) && |v| > 6 && k == 4
    requires XorFold(0, v[3..4]) ^ v[4] == XorFold(0, v[3..5])
    ensures Transition(V1Progress(s, v, k), v[k]) == V1Progress(s, v, k + 1)
  {
    assert v[5..5] + Zeros(|v| - 6) == Zeros(|v| - 6);
  }

  lemma {:induction false} V1StepPayload(s: ReaderState, v: seq<bv8>, k: nat)
    requires s.Valid() && s.n.Init? && V1Shaped(v) && 5 <= k && k + 2 < |v|
    ensures Transition(V1Progress(s, v, k), v[k]) == V1Progress(s, v, k + 1)
  {
    assert v[3..k + 1] == v[3..k] + [v[k]];
    XorFoldSnoc(0, v[3..k], v[k]);
    assert v[5..k + 1] == v[5..k] + [v[k]];
    FillOne(v[5..k], v[k], |v| - 7 - (k - 5));
  }

  lemma {:induction false} V1StepPayloadLast(s: ReaderState, v: seq<bv8>, k: nat)
    requires s.Valid() && s.n.Init? && V1Shaped(v) && |v| > 6 && k == |v| - 2
    ensures Transition(V1Progress(s, v, k), v[k]) == V1Progress(s, v, k + 1)
  {
    var l := |v| - 6;
    var t := ReaderState(Data, XorFold(0, v[3..k]), l - 1, v[2] == FROM_FC,
                         MspMsg(l, Widen(v[4]), Fail, v[5..k] + Zeros(1)));
    assert V1Progress(s, v, k) == t;
    assert v[3..k + 1] == v[3..k] + [v[k]];
    XorFoldSnoc(0, v[3..k], v[k]);
    assert v[5..k + 1] == v[5..k] + [v[k]];
    FillOne(v[5..k], v[k], 0);
    assert v[5..k + 1] + Zeros(0) == v[5..k + 1];
    V1StoreLast(s, v, t);
  }

  /** The last payload byte, stored into the buffer. */
  lemma {:induction false} V1StoreLast(s: ReaderState, v: seq<bv8>, t: ReaderState)
    requires s.Valid() && s.n.Init? && V1Shaped(v) && |v| > 6
    requires t == ReaderState(Data, XorFold(0, v[3..|v| - 2]), |v| - 7, v[2] == FROM_FC,
                              MspMsg(|v| - 6, Widen(v[4]), Fail, v[5..|v| - 2] + Zeros(1)))
    requires XorFold(0, v[3..|v| - 2]) ^ v[|v| - 2] == XorFold(0, v[3..|v| - 1])
    requires (v[5..|v| - 2] + Zeros(1))[|v| - 7 := v[|v| - 2]] == v[5..|v| - 1]
    ensures t.Valid() && Transition(t, v[|v| - 2]) == V1Ready(s, v)
  {
  }

  lemma {:induction false} V1Trans(s: ReaderState, v: seq<bv8>, k: nat)
    requires s.Valid() && s.n.Init? && V1Shaped(v) && k + 1 < |v|
    ensures Transition(V1Progress(s, v, k), v[k]) == V1Progress(s, v, k + 1)
  {
    if k < 3 {
      V1StepSync(s, v, k);
    } else if k == 3 {
      V1StepLen(s, v, k);
    } else if k == 4 {
      V1StepCmd(s, v, k);
    } else if k + 2 < |v| {
      V1StepPayload(s, v, k);
    } else {
      V1StepPayloadLast(s, v, k);
    }
  }

  lemma {:induction false} V1Step(s: ReaderState, v: seq<bv8>, k: nat)
    requires s.Valid() && s.n.Init? && V1Shaped(v) && k + 1 < |v|
    ensures FeedFrom(V1Progress(s, v, k), v, k) == FeedFrom(V1Progress(s, v, k + 1), v, k + 1)
  {
    var t := V1Progress(s, v, k);
    assert FeedFrom(t, v, k) == Step(t, v, k);
    V1Trans(s, v, k);
  }

  /** Feeding the first `k` bytes of an MSPv1 frame from `Init` sends
      nothing and leaves the variables `V1Progress` gives. */
  lemma {:induction false} V1Feed(s: ReaderState, v: seq<bv8>, k: nat)
    requires s.Valid() && s.n.Init? && V1Shaped(v) && k < |v|
    ensures FeedAll(s, v) == FeedFrom(V1Progress(s, v, k), v, k)
    decreases k
  {
    if k > 0 {
      V1Feed(s, v, k - 1);
      V1Step(s, v, k - 1);
    }
  }

  /** Up to the checksum byte of an MSPv1 frame nothing is sent. */
  lemma {:induction false} V1UpToChecksum(s: ReaderState, v: seq<bv8>)
    requires s.Valid() && s.n.Init? && V1Shaped(v)
    ensures FeedAll(s, v) == FeedFrom(V1Ready(s, v), v, |v| - 1)
  {
    V1Feed(s, v, |v| - 1);
  }

  /** Decoding an MSPv1 frame from `Init`: exactly one message is sent, the
      one the frame carries, and the decoder is back in `Init` holding it. */
  lemma {:induction false} DecodeV1(s: ReaderState, v: seq<bv8>)
    requires s.Valid() && s.n.Init? && V1Shaped(v)
    ensures var out := FeedAll(s, v);
      out.sent == [V1Reply(s, v)] && out.st.n.Init? && out.st.msg == V1Reply(s, v)
  {
    V1UpToChecksum(s, v);
    FeedLast(V1Ready(s, v), v);
  }

  // -----------------------------------------------------------------------
  // Encoder and decoder together

  /** A request frame with its direction byte replaced by `d`. */
  function Reply(v: seq<bv8>, d: bv8): seq<bv8>
    requires |v| > 2
  {
    v[2 := d]
  }

  /** What the direction byte of a well-formed frame makes of a correct
      checksum. */
  function Direction(d: bv8): MspRes
  {
    if d == FROM_FC then Ok else MspRes.Dirn
  }

  lemma {:induction false} V2ReplyFrame(s: ReaderState, cmd: uint16, p: seq<bv8>, d: bv8)
    requires |p| < 0x1_0000 && (d == FROM_FC || d == ERROR_FROM_FC)
    ensures var v := Reply(Msp2Frame(cmd, p), d);
      && V2Shaped(v)
      && V2Reply(s, v) == MspMsg(|p|, cmd, Direction(d), if p == [] then s.msg.data else p)
  {
    var w := Msp2Frame(cmd, p);
    var v := Reply(w, d);
    Msp2FrameLayout(cmd, p);
    LoHiSplit(|p|);
    LoHiSplit(cmd);
    assert v[3..|v| - 1] == w[3..|p| + 8];
    assert v[8..|v| - 1] == p;
  }

  /** The MSPv2 round trip: a request frame built by `encode_msp2`, sent
      back with a reply direction byte, decodes to one message with the
      same command and payload; its outcome is `Ok` for `>` and `Dirn` for
      `!`. An empty payload leaves the buffer of the previous frame. */
  lemma {:induction false} RoundTripV2(s: ReaderState, cmd: uint16, p: seq<bv8>, d: bv8)
    requires s.Valid() && s.n.Init? && |p| < 0x1_0000
    requires d == FROM_FC || d == ERROR_FROM_FC
    ensures var m := MspMsg(|p|, cmd, Direction(d), if p == [] then s.msg.data else p);
      var out := FeedAll(s, Reply(Msp2Frame(cmd, p), d));
      out.sent == [m] && out.st.n.Init? && out.st.msg == m
  {
    V2ReplyFrame(s, cmd, p, d);
    DecodeV2(s, Reply(Msp2Frame(cmd, p), d));
  }

  lemma {:induction false} V1ReplyFrame(s: ReaderState, cmd: uint16, p: seq<bv8>, d: bv8)
    requires |p| < 0x100 && (d == FROM_FC || d == ERROR_FROM_FC)
    ensures var v := Reply(MspFrame(cmd, p), d);
      && V1Shaped(v)
      && V1Reply(s, v) == MspMsg(|p|, cmd % 256, Direction(d), if p == [] then s.msg.data else p)
  {
    var w := MspFrame(cmd, p);
    var v := Reply(w, d);
    MspFrameLayout(cmd, p);
    assert |p| % 256 == |p|;
    ByteValue(|p|);
    ByteValue(cmd % 256);
    assert v[3..|v| - 1] == w[3..|p| + 5];
    assert v[5..|v| - 1] == p;
  }

  /** The MSPv1 round trip: as for MSPv2, except that only the low byte of
      the command survives, and payloads are shorter than 256 bytes. */
  lemma {:induction false} RoundTripV1(s: ReaderState, cmd: uint16, p: seq<bv8>, d: bv8)
    requires s.Valid() && s.n.Init? && |p| < 0x100
    requires d == FROM_FC || d == ERROR_FROM_FC
    ensures var m := MspMsg(|p|, cmd % 256, Direction(d), if p == [] then s.msg.data else p);
      var out := FeedAll(s, Reply(MspFrame(cmd, p), d));
      out.sent == [m] && out.st.n.Init? && out.st.msg == m
  {
    V1ReplyFrame(s, cmd, p, d);
    DecodeV1(s, Reply(MspFrame(cmd, p), d));
  }

  /** Changing one payload byte of an MSPv2 frame keeps its shape and
      changes only the checksum outcome and that byte of the payload. */
  lemma {:induction false} V2ChangePayload(s: ReaderState, u: seq<bv8>, j: nat, x: bv8)
    requires V2Shaped(u) && 8 <= j < |u| - 1
    ensures V2Shaped(u[j := x])
    ensures var r := V2Reply(s, u);
      V2Reply(s, u[j := x]) ==
        MspMsg(r.len, r.cmd, Verdict(CrcFold(0, u[3..|u| - 1][j - 3 := x]), u[|u| - 1], u[2] == FROM_FC),
               u[8..|u| - 1][j - 8 := x])
  {
    var v := u[j := x];
    assert v[3..|v| - 1] == u[3..|u| - 1][j - 3 := x];
    assert v[8..|v| - 1] == u[8..|u| - 1][j - 8 := x];
  }

  lemma {:induction false} V2CorruptFrame(s: ReaderState, cmd: uint16, p: seq<bv8>, i: nat, x: bv8)
    requires |p| < 0x1_0000 && i < |p| && x != p[i]
    ensures var v := Reply(Msp2Frame(cmd, p), FROM_FC)[8 + i := x];
      && V2Shaped(v)
      && V2Reply(s, v) == MspMsg(|p|, cmd, MspRes.Crc, p[i := x])
  {
    var u := Reply(Msp2Frame(cmd, p), FROM_FC);
    V2ReplyFrame(s, cmd, p, FROM_FC);
    V2ChangePayload(s, u, 8 + i, x);
    var body := u[3..|u| - 1];
    assert body[5 + i] == u[8 + i] == u[8..|u| - 1][i];
    CrcFoldDetectsOneByte(0, body, 5 + i, x);
  }

  /** A payload byte changed in transit: the CRC catches it and the message
      is sent with outcome `Crc`. */
  lemma {:induction false} CorruptPayloadV2(s: ReaderState, cmd: uint16, p: seq<bv8>, i: nat, x: bv8)
    requires s.Valid() && s.n.Init? && |p| < 0x1_0000 && i < |p| && x != p[i]
    ensures FeedAll(s, Reply(Msp2Frame(cmd, p), FROM_FC)[8 + i := x]).sent
            == [MspMsg(|p|, cmd, MspRes.Crc, p[i := x])]
  {
    V2CorruptFrame(s, cmd, p, i, x);
    DecodeV2(s, Reply(Msp2Frame(cmd, p), FROM_FC)[8 + i := x]);
  }

  /** Changing the flags byte or a command byte of an MSPv2 frame that
      checks keeps its shape, length and payload, and fails the CRC. */
  lemma {:induction false} V2ChangeHeader(s: ReaderState, u: seq<bv8>, j: nat, x: bv8)
    requires V2Shaped(u) && V2Reply(s, u).ok == Ok
    requires 3 <= j < 6 && x != u[j]
    ensures V2Shaped(u[j := x])
    ensures var r := V2Reply(s, u); var r' := V2Reply(s, u[j := x]);
      r'.ok == MspRes.Crc && r'.len == r.len && r'.data == r.data && (j == 3 ==> r'.cmd == r.cmd)
  {
    var v := u[j := x];
    var body := u[3..|u| - 1];
    assert v[6] == u[6] && v[7] == u[7] && v[|v| - 1] == u[|u| - 1];
    assert v[8..|v| - 1] == u[8..|u| - 1];
    assert v[3..|v| - 1] == body[j - 3 := x];
    assert body[j - 3] == u[j];
    CrcFoldDetectsOneByte(0, body, j - 3, x);
  }

  /** Changing the checksum byte of an MSPv2 frame that checks keeps
      everything but the outcome, which becomes `Crc`. */
  lemma {:induction false} V2ChangeChecksum(s: ReaderState, u: seq<bv8>, x: bv8)
    requires V2Shaped(u) && V2Reply(s, u).ok == Ok && x != u[|u| - 1]
    ensures V2Shaped(u[|u| - 1 := x])
    ensures var r := V2Reply(s, u);
      V2Reply(s, u[|u| - 1 := x]) == MspMsg(r.len, r.cmd, MspRes.Crc, r.data)
  {
    var v := u[|u| - 1 := x];
    assert v[3..|v| - 1] == u[3..|u| - 1];
    assert v[8..|v| - 1] == u[8..|u| - 1];
  }

  /** Changing the flags byte, a command byte or the checksum byte of an
      MSPv2 frame that checks keeps its shape, its length and its payload,
      and makes the CRC comparison fail. */
  lemma {:induction false} V2ChangeChecked(s: ReaderState, u: seq<bv8>, j: nat, x: bv8)
    requires V2Shaped(u) && V2Reply(s, u).ok == Ok
    requires (3 <= j < 6 || j == |u| - 1) && x != u[j]
    ensures V2Shaped(u[j := x])
    ensures var r := V2Reply(s, u); var r' := V2Reply(s, u[j := x]);
      && r'.ok == MspRes.Crc && r'.len == r.len && r'.data == r.data
      && (j != 4 && j != 5 ==> r'.cmd == r.cmd)
  {
    if j < 6 {
      V2ChangeHeader(s, u, j, x);
    } else {
      V2ChangeChecksum(s, u, x);
    }
  }

  /** A flags, command or checksum byte changed in transit: the CRC catches
      it, and the message is sent with outcome `Crc`, the frame's length
      and payload, and the command unchanged unless a command byte was hit. */
  lemma {:induction false} CorruptCheckedV2(s: ReaderState, cmd: uint16, p: seq<bv8>, j: nat, x: bv8)
    requires s.Valid() && s.n.Init? && |p| < 0x1_0000
    requires (3 <= j < 6 || j == |p| + 8) && x != Reply(Msp2Frame(cmd, p), FROM_FC)[j]
    ensures var out := FeedAll(s, Reply(Msp2Frame(cmd, p), FROM_FC)[j := x]).sent;
      && |out| == 1 && out[0].ok == MspRes.Crc && out[0].len == |p|
      && out[0].data == (if p == [] then s.msg.data else p)
      && (j != 4 && j != 5 ==> out[0].cmd == cmd)
  {
    var u := Reply(Msp2Frame(cmd, p), FROM_FC);
    V2ReplyFrame(s, cmd, p, FROM_FC);
    V2ChangeChecked(s, u, j, x);
    DecodeV2(s, u[j := x]);
  }

  /** Changing one payload byte of an MSPv1 frame keeps its shape and
      changes only the checksum outcome and that byte of the payload. */
  lemma {:induction false} V1ChangePayload(s: ReaderState, u: seq<bv8>, j: nat, x: bv8)
    requires V1Shaped(u) && 5 <= j < |u| - 1
    ensures V1Shaped(u[j := x])
    ensures var r := V1Reply(s, u);
      V1Reply(s, u[j := x]) ==
        MspMsg(r.len, r.cmd, Verdict(XorFold(0, u[3..|u| - 1][j - 3 := x]), u[|u| - 1], u[2] == FROM_FC),
               u[5..|u| - 1][j - 5 := x])
  {
    var v := u[j := x];
    assert v[3..|v| - 1] == u[3..|u| - 1][j - 3 := x];
    assert v[5..|v| - 1] == u[5..|u| - 1][j - 5 := x];
  }

  lemma {:induction false} V1CorruptFrame(s: ReaderState, cmd: uint16, p: seq<bv8>, i: nat, x: bv8)
    requires |p| < 0x100 && i < |p| && x != p[i]
    ensures var v := Reply(MspFrame(cmd, p), FROM_FC)[5 + i := x];
      && V1Shaped(v)
      && V1Reply(s, v) == MspMsg(|p|, cmd % 256, MspRes.Crc, p[i := x])
  {
    var u := Reply(MspFrame(cmd, p), FROM_FC);
    V1ReplyFrame(s, cmd, p, FROM_FC);
    V1ChangePayload(s, u, 5 + i, x);
    var body := u[3..|u| - 1];
    assert body[2 + i] == u[5 + i] == u[5..|u| - 1][i];
    XorFoldDetectsOneByte(0, body, 2 + i, x);
  }

  /** The same for MSPv1: the XOR checksum catches any one changed payload
      byte. */
  lemma {:induction false} CorruptPayloadV1(s: ReaderState, cmd: uint16, p: seq<bv8>, i: nat, x: bv8)
    requires s.Valid() && s.n.Init? && |p| < 0x100 && i < |p| && x != p[i]
    ensures FeedAll(s, Reply(MspFrame(cmd, p), FROM_FC)[5 + i := x]).sent
            == [MspMsg(|p|, cmd % 256, MspRes.Crc, p[i := x])]
  {
    V1CorruptFrame(s, cmd, p, i, x);
    DecodeV1(s, Reply(MspFrame(cmd, p), FROM_FC)[5 + i := x]);
  }

  /** Changing the command byte of an MSPv1 frame that checks keeps its
      shape, length and payload, and fails the XOR checksum. */
  lemma {:induction false} V1ChangeCmd(s: ReaderState, u: seq<bv8>, x: bv8)
    requires V1Shaped(u) && V1Reply(s, u).ok == Ok && x != u[4]
    ensures V1Shaped(u[4 := x])
    ensures var r := V1Reply(s, u); var r' := V1Reply(s, u[4 := x]);
      r'.ok == MspRes.Crc && r'.len == r.len && r'.data == r.data
  {
    var v := u[4 := x];
    var body := u[3..|u| - 1];
    assert v[3] == u[3] && v[|v| - 1] == u[|u| - 1];
    assert v[5..|v| - 1] == u[5..|u| - 1];
    assert v[3..|v| - 1] == body[1 := x];
    assert body[1] == u[4];
    XorFoldDetectsOneByte(0, body, 1, x);
  }

  /** Changing the checksum byte of an MSPv1 frame that checks keeps
      everything but the outcome, which becomes `Crc`. */
  lemma {:induction false} V1ChangeChecksum(s: ReaderState, u: seq<bv8>, x: bv8)
    requires V1Shaped(u) && V1Reply(s, u).ok == Ok && x != u[|u| - 1]
    ensures V1Shaped(u[|u| - 1 := x])
    ensures var r := V1Reply(s, u);
      V1Reply(s, u[|u| - 1 := x]) == MspMsg(r.len, r.cmd, MspRes.Crc, r.data)
  {
    var v := u[|u| - 1 := x];
    assert v[3..|v| - 1] == u[3..|u| - 1];
    assert v[5..|v| - 1] == u[5..|u| - 1];
  }

  /** Changing the command byte or the checksum byte of an MSPv1 frame
      that checks keeps its shape, its length and its payload, and makes
      the checksum comparison fail. */
  lemma {:induction false} V1ChangeChecked(s: ReaderState, u: seq<bv8>, j: nat, x: bv8)
    requires V1Shaped(u) && V1Reply(s, u).ok == Ok
    requires (j == 4 || j == |u| - 1) && x != u[j]
    ensures V1Shaped(u[j := x])
    ensures var r := V1Reply(s, u); var r' := V1Reply(s, u[j := x]);
      && r'.ok == MspRes.Crc && r'.len == r.len && r'.data == r.data
      && (j != 4 ==> r'.cmd == r.cmd)
  {
    if j == 4 {
      V1ChangeCmd(s, u, x);
    } else {
      V1ChangeChecksum(s, u, x);
    }
  }

  /** A command or checksum byte of an MSPv1 reply changed in transit: the
      XOR checksum catches it, and the message is sent with outcome `Crc`,
      the frame's length and payload, and the command's low byte unless the
      command byte was hit. */
  lemma {:induction false} CorruptCheckedV1(s: ReaderState, cmd: uint16, p: seq<bv8>, j: nat, x: bv8)
    requires s.Valid() && s.n.Init? && |p| < 0x100
    requires (j == 4 || j == |p| + 5) && x != Reply(MspFrame(cmd, p), FROM_FC)[j]
    ensures var out := FeedAll(s, Reply(MspFrame(cmd, p), FROM_FC)[j := x]).sent;
      && |out| == 1 && out[0].ok == MspRes.Crc && out[0].len == |p|
      && out[0].data == (if p == [] then s.msg.data else p)
      && (j != 4 ==> out[0].cmd == cmd % 256)
  {
    var u := Reply(MspFrame(cmd, p), FROM_FC);
    V1ReplyFrame(s, cmd, p, FROM_FC);
    V1ChangeChecked(s, u, j, x);
    DecodeV1(s, u[j := x]);
  }

  /** A request echoed back unchanged: the `<` direction byte is a framing
      error, and the bytes after it are too few to complete a frame, so an
      empty-payload MSPv2 request sends nothing. */
  lemma {:induction false} EchoSilentV2(s: ReaderState, cmd: uint16)
    requires s.Valid() && s.n.Init?
    ensures FeedAll(s, Msp2Frame(cmd, [])).sent == []
  {
    var v := Msp2Frame(cmd, []);
    Msp2FrameLayout(cmd, []);
    assert v[0] == SYNC && v[1] == V2_MARK && v[2] == TO_FC && v[3] == 0 by {
      assert v[..4][0] == v[0] && v[..4][1] == v[1] && v[..4][2] == v[2] && v[..4][3] == v[3];
    }
    var m := MspMsg(0, 0, Fail, s.msg.data);
    var t1 := ReaderState(M, s.crc, s.count, false, m);
    var t2 := ReaderState(XHeader2, s.crc, s.count, false, m);
    var t3 := ReaderState(Init, s.crc, s.count, false, m);
    InitHunts(s, v[0]);
    assert FeedFrom(s, v, 0) == Step(s, v, 0);
    assert FeedFrom(t1, v, 1) == Step(t1, v, 1);
    FramingErrorResets(t2, v[2]);
    assert FeedFrom(t2, v, 2) == Step(t2, v, 2);
    InitHunts(t3, v[3]);
    assert FeedFrom(t3, v, 3) == Step(t3, v, 3);
    FeedShortSilentFrom(t3, v, 4);
  }

  /** The same for MSPv1. */
  lemma {:induction false} EchoSilentV1(s: ReaderState, cmd: uint16)
    requires s.Valid() && s.n.Init?
    ensures FeedAll(s, MspFrame(cmd, [])).sent == []
  {
    var v := MspFrame(cmd, []);
    MspFrameLayout(cmd, []);
    assert v[0] == SYNC && v[1] == V1_MARK && v[2] == TO_FC by {
      assert v[..3][0] == v[0] && v[..3][1] == v[1] && v[..3][2] == v[2];
    }
    var m := MspMsg(0, 0, Fail, s.msg.data);
    var t1 := ReaderState(M, s.crc, s.count, false, m);
    var t2 := ReaderState(State.Dirn, s.crc, s.count, false, m);
    var t3 := ReaderState(Init, s.crc, s.count, false, m);
    InitHunts(s, v[0]);
    assert FeedFrom(s, v, 0) == Step(s, v, 0);
    assert FeedFrom(t1, v, 1) == Step(t1, v, 1);
    FramingErrorResets(t2, v[2]);
    assert FeedFrom(t2, v, 2) == Step(t2, v, 2);
    FeedShortSilentFrom(t3, v, 3);
  }

  /** A frame with an empty payload after one with a payload: the second
      message carries the first one's payload, because a new frame does
      not clear the buffer. */
  lemma {:induction false} StaleDataV2(s: ReaderState, c1: uint16, p: seq<bv8>, c2: uint16)
    requires s.Valid() && s.n.Init? && 0 < |p| < 0x1_0000
    ensures FeedAll(s, Reply(Msp2Frame(c1, p), FROM_FC) + Reply(Msp2Frame(c2, []), FROM_FC)).sent
            == [MspMsg(|p|, c1, Ok, p), MspMsg(0, c2, Ok, p)]
  {
    var a := Reply(Msp2Frame(c1, p), FROM_FC);
    var b := Reply(Msp2Frame(c2, []), FROM_FC);
    FeedAllAppend(s, a, b);
    RoundTripV2(s, c1, p, FROM_FC);
    RoundTripV2(FeedAll(s, a).st, c2, [], FROM_FC);
  }
}
