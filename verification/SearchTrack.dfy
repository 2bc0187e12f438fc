/** The track of a search: every command goes out as a packet, bit by bit, to all decoders. */
module SearchTrack {
  import opened Bytes
  import opened Timing
  import opened Frame
  import opened Packets
  import opened BinaryTreeSearch
  import opened Receiver
  import opened TransferRates
  import opened SearchExchange
  import T = Transmitter
  import C = Command
  import P = TransmitterProofs

  // ----- a command on the track

  /** What a transmitter with only the last ackreq bit left to send goes on to send: that bit, the packet, and all its
      ackreq bits but the last. */
  function OnTrack(cfg: T.Config, pos: Byte): seq<SendBit>
    requires cfg.numAckreq > 0
  {
    SearchBits(cfg.numPreamble, pos) + Repeat(Ackreq, cfg.numAckreq - 1)
  }

  lemma {:induction false} HandedOver(s: T.Tx, pos: Byte)
    requires T.WellFormed(s) && T.Pending(s) == [Ackreq]
    ensures T.NextBit(s) == Ackreq && T.WellFormed(T.AfterTransmit(s))
    ensures var (sent, ok) := T.Ask(T.AfterTransmit(s), T.Send(PacketBits(s.cfg.numPreamble, SearchPacket(pos))));
            && ok && T.WellFormed(sent) && sent.cfg == s.cfg && sent.rate == s.rate
            && T.Pending(sent) == PacketBits(s.cfg.numPreamble, SearchPacket(pos)) + Repeat(Ackreq, s.cfg.numAckreq)
  {
    T.TransmitSendsPending(s);
    T.IdleWhenNothingPending(T.AfterTransmit(s));
  }

  /** One more crossing. */
  lemma {:induction false} NextCrossing(s: T.Tx, n: nat)
    ensures T.Run(s, T.CrossingsOnly(n + 1)) == T.AfterTransmit(T.Run(s, T.CrossingsOnly(n)))
    ensures var t := T.Run(s, T.CrossingsOnly(n));
            T.Sent(s, T.CrossingsOnly(n + 1)) == T.Sent(s, T.CrossingsOnly(n)) + [Nominal(T.NextBit(t), t.rate)]
  {
    assert T.CrossingsOnly(n + 1) == T.CrossingsOnly(n) + [T.Crossing];
    P.RunSnoc(s, T.CrossingsOnly(n), T.Crossing);
  }

  lemma {:induction false} CountOnly(n: nat)
    ensures T.Crossings(T.CrossingsOnly(n)) == n
  {
    if n > 0 {
      assert T.CrossingsOnly(n)[1..] == T.CrossingsOnly(n - 1);
      CountOnly(n - 1);
    }
  }

  /** After `n` crossings `n` bits are out and the others still pending. */
  lemma {:induction false} SentSoFar(s: T.Tx, n: nat)
    requires T.WellFormed(s) && n < |T.Pending(s)|
    ensures var t := T.Run(s, T.CrossingsOnly(n));
            && T.WellFormed(t) && t.cfg == s.cfg && t.rate == s.rate && T.Pending(t) == T.Pending(s)[n..]
            && T.Sent(s, T.CrossingsOnly(n)) == Durations(T.Pending(s)[..n], s.rate)
  {
    CountOnly(n);
    T.PendingGoesOut(s, T.CrossingsOnly(n));
  }

  /** A transmitter left alone for `n` crossings. */
  ghost predicate Went(s: T.Tx, n: nat, t: T.Tx, times: seq<nat>) {
    t == T.Run(s, T.CrossingsOnly(n)) && times == T.Sent(s, T.CrossingsOnly(n))
  }

  /** A search packet has been handed over and none of it sent. */
  ghost predicate Handed(s: T.Tx, pos: Byte) {
    && T.WellFormed(s) && s.cfg.numAckreq > 0
    && T.Pending(s) == PacketBits(s.cfg.numPreamble, SearchPacket(pos)) + Repeat(Ackreq, s.cfg.numAckreq)
  }

  /** How many bits of a search packet and its ackreq bits go out but for the last. */
  function Length(cfg: T.Config, pos: Byte): nat {
    cfg.numPreamble + 9 * |SearchPacket(pos)| + cfg.numAckreq
  }

  /** A packet just handed over goes out but for its last ackreq bit. */
  lemma {:induction false} SentOnTrack(sent: T.Tx, pos: Byte, t: T.Tx, times: seq<nat>)
    requires Handed(sent, pos) && Went(sent, Length(sent.cfg, pos), t, times)
    ensures T.WellFormed(t) && T.Pending(t) == [Ackreq] && t.cfg == sent.cfg && t.rate == sent.rate
    ensures [Nominal(Ackreq, sent.rate)] + times == Durations(OnTrack(sent.cfg, pos), sent.rate)
  {
    SearchPacketLength(pos);
    var pending, n := T.Pending(sent), Length(sent.cfg, pos);
    SentSoFar(sent, n);
    assert pending[n..] == [Ackreq];
    assert [Bit.Ackreq] + pending[..n] == OnTrack(sent.cfg, pos);
    DurationsConcat([Bit.Ackreq], pending[..n], sent.rate);
  }

  lemma {:induction false} NominalInWindows(bits: seq<SendBit>, rate: Rate)
    ensures InWindows(Durations(bits, rate), bits, rate)
  {
    forall i | 0 <= i < |bits| ensures InWindow(Durations(bits, rate)[i], bits[i], rate) {
      NominalIsUnderstood(bits[i], rate, rate);
    }
  }

  /** The next `n` durations. */
  method Crossings(tx: T.TimingsTransmitter, n: nat) returns (times: seq<nat>)
    requires tx.Valid()
    modifies tx
    ensures tx.Valid()
    ensures Went(old(tx.State()), n, tx.State(), times)
  {
    times := [];
    for k := 0 to n
      invariant tx.Valid() && Went(old(tx.State()), k, tx.State(), times)
    {
      NextCrossing(old(tx.State()), k);
      var time := tx.Transmit();
      times := times + [time];
    }
  }

  /** The last ackreq bit goes out and the packet is handed over. */
  method HandOver(tx: T.TimingsTransmitter, pos: Byte) returns (first: nat)
    requires tx.Valid() && T.Pending(tx.State()) == [Ackreq]
    modifies tx
    ensures tx.Valid() && tx.cfg == old(tx.cfg) && tx.rate == old(tx.rate)
    ensures first == Nominal(Ackreq, tx.rate)
    ensures Handed(tx.State(), pos)
  {
    HandedOver(tx.State(), pos);
    SearchPacketLength(pos);
    first := tx.Transmit();
    var _ := tx.Bytes(SearchPacket(pos));
  }

  /** Sends a search packet and all but the last of its ackreq bits. */
  method Send(tx: T.TimingsTransmitter, pos: Byte) returns (times: seq<nat>)
    requires tx.Valid() && T.Pending(tx.State()) == [Ackreq]
    modifies tx
    ensures tx.Valid() && T.Pending(tx.State()) == [Ackreq] && tx.cfg == old(tx.cfg) && tx.rate == old(tx.rate)
    ensures times == Durations(OnTrack(tx.cfg, pos), tx.rate)
  {
    var first := HandOver(tx, pos);
    ghost var sent := tx.State();
    var rest := Crossings(tx, Length(tx.cfg, pos));
    SentOnTrack(sent, pos, tx.State(), rest);
    times := [first] + rest;
  }

  /** What the decoders are about to hear: the command, and enough ackreq bits to answer in. */
  ghost predicate Hears(cfg: T.Config, rate: Rate, arriving: seq<nat>, answering: seq<nat>, code: Byte) {
    && cfg.numPreamble >= TX_MIN_PREAMBLE_BITS
    && InWindows(arriving, SearchBits(cfg.numPreamble, code), rate)
    && |answering| >= 8 && InWindows(answering, Repeat(Ackreq, |answering|), rate)
  }

  /** The first durations are the command, the others ackreq bits. */
  lemma {:induction false} Arriving(cfg: T.Config, rate: Rate, times: seq<nat>, k: nat, code: Byte)
    requires T.ValidConfig(cfg) && times == Durations(OnTrack(cfg, code), rate) && k == |times| - (cfg.numAckreq - 1)
    ensures Hears(cfg, rate, times[..k], times[k..], code)
  {
    var command, phase := SearchBits(cfg.numPreamble, code), Repeat(Ackreq, cfg.numAckreq - 1);
    DurationsConcat(command, phase, rate);
    NominalInWindows(command, rate);
    NominalInWindows(phase, rate);
    assert times[..k] == Durations(command, rate) && times[k..] == Durations(phase, rate);
  }

  // ----- the decoders on the track

  /** A decoder that is selected, has nothing to execute, understands what is sent at a rate, and takes part in the
      search or not. */
  ghost predicate Follows(base: Base, rate: Rate, ignoring: bool)
    reads base, base.parts
  {
    && base.Whole() && base.Valid() && Attentive(base.State()) && Hearing(base.State(), rate)
    && base.search.ignore == ignoring
  }

  /** Transmitter and decoders share nothing; `objects` are those of the decoders. */
  ghost predicate Apart(tx: T.TimingsTransmitter, decoders: seq<Base>, objects: set<object>) {
    && tx !in objects
    && (forall d :: 0 <= d < |decoders| ==>
          && decoders[d].cfg.Valid() && decoders[d].Whole()
          && decoders[d] in objects && decoders[d].parts <= objects)
    && forall d, e :: 0 <= d < |decoders| && 0 <= e < |decoders| && d != e ==>
         decoders[d] != decoders[e] && decoders[d] !in decoders[e].parts && decoders[d].parts !! decoders[e].parts
  }

  ghost function Numbers(decoders: seq<Base>): (ids: seq<Id>)
    requires forall d :: 0 <= d < |decoders| ==> decoders[d].cfg.Valid()
    ensures |ids| == |decoders|
  {
    seq(|decoders|, d requires 0 <= d < |decoders| => decoders[d].cfg.Number())
  }

  /** Who has dropped out once the first `n` decoders have heard a command. */
  ghost function After(ids: seq<Id>, was: seq<bool>, n: nat, pos: nat): (now: seq<bool>)
    requires |was| == |ids|
    ensures |now| == |was|
  {
    seq(|was|, d requires 0 <= d < |was| => if d < n then Ignores(was[d], ids[d], pos) else was[d])
  }

  /** Whether one of the first `n` decoders answers a command. */
  ghost predicate Any(ids: seq<Id>, was: seq<bool>, n: nat, pos: nat)
    requires n <= |was| == |ids|
  {
    n > 0 && (Any(ids, was, n - 1, pos) || Answer(was[n - 1], ids[n - 1], pos))
  }

  lemma {:induction false} AnyIsOne(ids: seq<Id>, was: seq<bool>, n: nat, pos: nat)
    requires n <= |was| == |ids|
    ensures Any(ids, was, n, pos) <==> exists d :: 0 <= d < n && Answer(was[d], ids[d], pos)
  {
    if n > 0 { AnyIsOne(ids, was, n - 1, pos); }
  }

  lemma AfterNone(ids: seq<Id>, was: seq<bool>, pos: nat)
    requires |was| == |ids|
    ensures After(ids, was, 0, pos) == was
  {
  }

  lemma AfterNext(ids: seq<Id>, was: seq<bool>, n: nat, pos: nat)
    requires n < |was| == |ids|
    ensures After(ids, was, n, pos)[n] == was[n]
    ensures After(ids, was, n, pos)[n := Ignores(was[n], ids[n], pos)] == After(ids, was, n + 1, pos)
  {
  }

  lemma {:induction false} NumbersJoin(decoders: seq<Base>)
    requires forall d :: 0 <= d < |decoders| ==> decoders[d].cfg.Valid()
    ensures forall x :: x in Numbers(decoders) <==> exists d :: 0 <= d < |decoders| && IsNumberOf(x, decoders[d].cfg)
  {
    forall x: Id, d | 0 <= d < |decoders| ensures x == Numbers(decoders)[d] <==> IsNumberOf(x, decoders[d].cfg) {
      NumberJoins(decoders[d].cfg, x);
    }
  }

  /** A transmitter and the decoders that hear it. */
  class Track {
    const tx: T.TimingsTransmitter
    const decoders: seq<Base>
    const env: Environment
    ghost const ids: seq<Id>
    ghost const objects: set<object>
    ghost var ignoring: seq<bool>

    constructor (tx: T.TimingsTransmitter, decoders: seq<Base>, env: Environment,
                 ghost objects: set<object>, ghost ignoring: seq<bool>)
      requires Apart(tx, decoders, objects) && tx.Valid() && T.Pending(tx.State()) == [Ackreq]
      requires |ignoring| == |decoders|
      requires forall d :: 0 <= d < |decoders| ==> Follows(decoders[d], tx.rate, ignoring[d])
      ensures Valid() && this.tx == tx && this.decoders == decoders && this.objects == objects
      ensures ids == Numbers(decoders)
    {
      this.tx, this.decoders, this.env := tx, decoders, env;
      this.ids, this.objects, this.ignoring := Numbers(decoders), objects, ignoring;
    }

    /** Who is on the track, which never changes. */
    ghost predicate Formed() {
      Apart(tx, decoders, objects) && this !in objects && ids == Numbers(decoders)
    }

    /** All decoders follow, and these have dropped out of the search. */
    ghost predicate Listening(now: seq<bool>, rate: Rate)
      reads objects
    {
      && Formed() && |now| == |decoders|
      && forall d :: 0 <= d < |decoders| ==> Follows(decoders[d], rate, now[d])
    }

    /** Of the packet before only the last ackreq bit is left. */
    ghost predicate TxReady()
      reads tx
    {
      tx.Valid() && T.Pending(tx.State()) == [Ackreq]
    }

    ghost predicate Valid()
      reads this, tx, objects
    {
      Listening(ignoring, tx.rate) && TxReady()
    }

    /** Sends one search command over the track to all decoders; any pulse is heard. */
    method Broadcast(pos: nat) returns (ack: bool)
      requires Valid() && pos < 256
      modifies this, tx, objects
      ensures Valid() && |old(ignoring)| == |ids|
      ensures ignoring == After(ids, old(ignoring), |ids|, pos)
      ensures ack == Any(ids, old(ignoring), |ids|, pos)
    {
      var code := ByteAt(pos);
      var times := Send(tx, code);
      var k := |times| - (tx.cfg.numAckreq - 1);
      Arriving(tx.cfg, tx.rate, times, k, code);
      ack := Deliver(times[..k], times[k..], code, ignoring);
      ignoring := After(ids, ignoring, |ids|, pos);
    }

    /** All decoders hear the command. */
    method Deliver(arriving: seq<nat>, answering: seq<nat>, code: Byte, ghost was: seq<bool>) returns (ack: bool)
      requires Listening(was, tx.rate) && Hears(tx.cfg, tx.rate, arriving, answering, code)
      modifies objects
      ensures Listening(After(ids, was, |ids|, ByteValue(code)), tx.rate)
      ensures ack == Any(ids, was, |ids|, ByteValue(code))
    {
      ack := false;
      AfterNone(ids, was, ByteValue(code));
      for n := 0 to |decoders|
        invariant Listening(After(ids, was, n, ByteValue(code)), tx.rate)
        invariant ack == Any(ids, was, n, ByteValue(code))
      {
        AfterNext(ids, was, n, ByteValue(code));
        var answer := DeliverTo(n, arriving, answering, code, After(ids, was, n, ByteValue(code)));
        ack := ack || answer;
      }
    }

    /** One of them does. */
    method HearOne(n: nat, arriving: seq<nat>, answering: seq<nat>, code: Byte, ghost was: bool) returns (ack: bool)
      requires Formed() && n < |decoders| && Follows(decoders[n], tx.rate, was)
      requires Hears(tx.cfg, tx.rate, arriving, answering, code)
      modifies decoders[n], decoders[n].parts
      ensures Follows(decoders[n], tx.rate, Ignores(was, ids[n], ByteValue(code)))
      ensures ack == Answer(was, ids[n], ByteValue(code))
    {
      ack := Hear(decoders[n], arriving, answering, env, tx.cfg.numPreamble, code, tx.rate);
    }

    /** And the others are left alone. */
    method DeliverTo(n: nat, arriving: seq<nat>, answering: seq<nat>, code: Byte, ghost was: seq<bool>)
      returns (ack: bool)
      requires Listening(was, tx.rate) && n < |decoders| && Hears(tx.cfg, tx.rate, arriving, answering, code)
      modifies objects
      ensures Listening(was[n := Ignores(was[n], ids[n], ByteValue(code))], tx.rate)
      ensures ack == Answer(was[n], ids[n], ByteValue(code))
    {
      assert tx != decoders[n] as object && tx !in decoders[n].parts;
      ack := HearOne(n, arriving, answering, code, was[n]);
      forall d | 0 <= d < |decoders| && d != n ensures Follows(decoders[d], tx.rate, was[d]) {
        assert decoders[d] != decoders[n] && decoders[d] !in decoders[n].parts && decoders[n] !in decoders[d].parts;
        assert decoders[d].parts !! decoders[n].parts;
      }
    }
  }

  // ----- a track from scratch

  /** A new transmitter after a packet, with the packet's last ackreq bit still to send. */
  method NewTransmitter() returns (tx: T.TimingsTransmitter)
    ensures fresh(tx) && tx.Valid() && T.Pending(tx.State()) == [Ackreq] && tx.rate == DEFAULT
  {
    tx := new T.TimingsTransmitter();
    T.IdleWhenNothingPending(tx.State());
    BusyPacketLength();
    var _ := tx.Bytes(BusyPacket());
    ghost var sent := tx.State();
    var _ := Crossings(tx, tx.cfg.numPreamble + 9 * |BusyPacket()| + tx.cfg.numAckreq);
    LastBitIsLeft(sent, BusyPacket(), tx.State());
  }

  lemma BusyPacketLength()
    ensures |BusyPacket()| == 5
  {
    C.CommandOfCode(C.Busy, []);
  }

  lemma {:induction false} LastBitIsLeft(sent: T.Tx, bytes: seq<Byte>, t: T.Tx)
    requires T.WellFormed(sent) && sent.cfg.numAckreq > 0 && bytes != []
    requires T.Pending(sent) == PacketBits(sent.cfg.numPreamble, bytes) + Repeat(Ackreq, sent.cfg.numAckreq)
    requires t == T.Run(sent, T.CrossingsOnly(sent.cfg.numPreamble + 9 * |bytes| + sent.cfg.numAckreq))
    ensures T.WellFormed(t) && T.Pending(t) == [Ackreq] && t.rate == sent.rate
  {
    SentSoFar(sent, sent.cfg.numPreamble + 9 * |bytes| + sent.cfg.numAckreq);
  }

  /** Decoders just switched on. */
  method NewDecoders(tx: T.TimingsTransmitter, cfgs: seq<Config>)
    returns (decoders: seq<Base>, ghost objects: set<object>)
    requires forall d :: 0 <= d < |cfgs| ==> cfgs[d].Valid()
    ensures fresh(objects) && |decoders| == |cfgs| && Apart(tx, decoders, objects)
    ensures forall d :: 0 <= d < |decoders| ==> decoders[d].cfg == cfgs[d] && Follows(decoders[d], DEFAULT, true)
  {
    decoders, objects := [], {};
    for n := 0 to |cfgs|
      invariant fresh(objects) && |decoders| == n && Apart(tx, decoders, objects)
      invariant forall d :: 0 <= d < n ==> decoders[d].cfg == cfgs[d] && Follows(decoders[d], DEFAULT, true)
    {
      var base := new Base(cfgs[n]);
      NewFollows(base.State());
      decoders := decoders + [base];
      objects := objects + {base} + base.parts;
    }
  }

  lemma NewFollows(s: Rx)
    requires s == POWER_UP
    ensures Attentive(s) && Hearing(s, DEFAULT) && s.ignore
  {
  }
}
