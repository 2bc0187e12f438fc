/** What a firmware update session guarantees over every command sequence. */
module ZsuProofs {
  import opened Addresses
  import opened Bytes
  import opened Crc
  import opened CrcProofs
  import opened Zsu

  /** The session after a whole command sequence. */
  function Run(events: seq<Event>): Session {
    if events == [] then POWER_UP
    else Execute(Run(events[..|events| - 1]), events[|events| - 1])
  }

  // ----- a reference history that knows nothing of registers and optional addresses

  datatype Written = Written(addr: Address, bytes: Block)

  /** The encrypted blocks accepted since the last erase: each successful update that starts the list or follows on its
      last block. */
  function History(events: seq<Event>): seq<Written> {
    if events == [] then []
    else
      var before := History(events[..|events| - 1]);
      var e := events[|events| - 1];
      match e.cmd
      case Erase(_, _) => []
      case Update(addr, bytes) =>
        if e.success && FollowsOn(before, addr) then before + [Written(addr, bytes)] else before
      case _ => before
  }

  predicate FollowsOn(written: seq<Written>, addr: Address) {
    written == [] || addr == Advance(written[|written| - 1].addr, BLOCK_SIZE)
  }

  /** The first address tried since the last erase, successfully or not. */
  function FirstTried(events: seq<Event>): Option<Address> {
    if events == [] then None
    else
      var before := FirstTried(events[..|events| - 1]);
      match events[|events| - 1].cmd
      case Erase(_, _) => None
      case Update(addr, _) => if before == None then Some(addr) else before
      case _ => before
  }

  function Joined(written: seq<Written>): seq<Byte> {
    if written == [] then [] else Joined(written[..|written| - 1]) + written[|written| - 1].bytes
  }

  /** The range a Crc32Start has to name. */
  predicate CoversHistory(events: seq<Event>, begin: Address, end: Address) {
    var written := History(events);
    && FirstTried(events) == Some(begin)
    && written != [] && Advance(written[|written| - 1].addr, BLOCK_SIZE) == Advance(end, 1)
  }

  /** Whether the latest Crc32Start since the last erase that named the range carried the checksum of what was written
      by then. */
  predicate Verified(events: seq<Event>) {
    events != [] &&
    var before := events[..|events| - 1];
    match events[|events| - 1].cmd
    case Erase(_, _) => false
    case Crc32Start(begin, end, crc) =>
      if CoversHistory(before, begin, end) then crc == Crc32Of(Joined(History(before))) else Verified(before)
    case _ => Verified(before)
  }

  /** The session's few registers say exactly what the history says. */
  ghost predicate Tells(s: Session, events: seq<Event>) {
    var written := History(events);
    && s.lastAddr == (if written == [] then None else Some(Advance(written[|written| - 1].addr, BLOCK_SIZE)))
    && s.firstAddr == FirstTried(events)
    && s.crc32 == Fold(Crc32Next, CRC32_INIT, Joined(written))
    && (s.crc32valid <==> Verified(events))
  }

  lemma {:induction false} SessionTellsHistory(events: seq<Event>)
    ensures Tells(Run(events), events)
  {
    if events != [] {
      var before, e := events[..|events| - 1], events[|events| - 1];
      SessionTellsHistory(before);
      SessionStep(before, e, events);
    }
  }

  lemma {:induction false} SessionStep(before: seq<Event>, e: Event, events: seq<Event>)
    requires events == before + [e] && Tells(Run(before), before)
    ensures Tells(Run(events), events)
  {
    match e.cmd {
      case Salsa20IV(_) => QuietStep(before, e, events);
      case Erase(_, _) => EraseStep(before, e, events);
      case Update(_, _) => UpdateStep(before, e, events);
      case Crc32Start(_, _, _) => Crc32StartStep(before, e, events);
      case Crc32Result => QuietStep(before, e, events);
      case Crc32ResultExit => QuietStep(before, e, events);
    }
  }

  lemma QuietStep(before: seq<Event>, e: Event, events: seq<Event>)
    requires events == before + [e] && Tells(Run(before), before)
    requires e.cmd.Salsa20IV? || e.cmd.Crc32Result? || e.cmd.Crc32ResultExit?
    ensures Tells(Run(events), events)
  {
    assert events[..|events| - 1] == before;
  }

  lemma EraseStep(before: seq<Event>, e: Event, events: seq<Event>)
    requires events == before + [e] && e.cmd.Erase?
    ensures Tells(Run(events), events)
  {
    assert events[..|events| - 1] == before;
  }

  lemma Crc32StartStep(before: seq<Event>, e: Event, events: seq<Event>)
    requires events == before + [e] && Tells(Run(before), before) && e.cmd.Crc32Start?
    ensures Tells(Run(events), events)
  {
    assert events[..|events| - 1] == before;
    assert AddressesMatch(Run(before), e.cmd.begin, e.cmd.end) <==> CoversHistory(before, e.cmd.begin, e.cmd.end);
  }

  lemma UpdateStep(before: seq<Event>, e: Event, events: seq<Event>)
    requires events == before + [e] && Tells(Run(before), before) && e.cmd.Update?
    ensures Tells(Run(events), events)
  {
    if e.success && FollowsOn(History(before), e.cmd.addr) {
      AcceptedUpdateStep(before, e, events);
    } else {
      RefusedUpdateStep(before, e, events);
    }
  }

  lemma RefusedUpdateStep(before: seq<Event>, e: Event, events: seq<Event>)
    requires events == before + [e] && Tells(Run(before), before) && e.cmd.Update?
    requires !e.success || !FollowsOn(History(before), e.cmd.addr)
    ensures Tells(Run(events), events)
  {
    assert events[..|events| - 1] == before;
    assert History(events) == History(before);
    assert Continues(Run(before), e.cmd.addr) <==> FollowsOn(History(before), e.cmd.addr);
  }

  lemma AcceptedUpdateStep(before: seq<Event>, e: Event, events: seq<Event>)
    requires events == before + [e] && Tells(Run(before), before) && e.cmd.Update?
    requires e.success && FollowsOn(History(before), e.cmd.addr)
    ensures Tells(Run(events), events)
  {
    assert events[..|events| - 1] == before;
    var written, w := History(before), Written(e.cmd.addr, e.cmd.bytes);
    assert History(events) == written + [w];
    var s, t := Run(before), Run(events);
    assert Continues(s, e.cmd.addr);
    JoinedSnoc(written, w);
    FoldConcat(Crc32Next, CRC32_INIT, Joined(written), e.cmd.bytes);
    assert t.crc32 == Fold(Crc32Next, CRC32_INIT, Joined(written + [w]));
    assert t.lastAddr == Some(Advance(e.cmd.addr, BLOCK_SIZE));
  }

  lemma JoinedSnoc(written: seq<Written>, w: Written)
    ensures Joined(written + [w]) == Joined(written) + w.bytes
  {
    assert (written + [w])[..|written|] == written;
  }

  /** Blocks written since an erase are consecutive. */
  lemma {:induction false} HistoryIsConsecutive(events: seq<Event>, i: nat)
    requires i + 1 < |History(events)|
    ensures History(events)[i + 1].addr == Advance(History(events)[i].addr, BLOCK_SIZE)
  {
    if events != [] {
      var before := events[..|events| - 1];
      if i + 1 < |History(before)| { HistoryIsConsecutive(before, i); }
    }
  }

  /** The firmware is left exactly when the latest matching checksum command since the erase carried the checksum of all
      blocks then written. */
  lemma {:induction false} ExitExactlyWhenVerified(keystream: Keystream, events: seq<Event>)
    ensures ExitZsu in Calls(keystream, Run(events), Crc32ResultExit) <==> Verified(events)
  {
    SessionTellsHistory(events);
  }

  // ----- the write log

  /** The writes that succeeded since the last erase command, as they were called for. */
  function Writes(keystream: Keystream, events: seq<Event>): seq<Written> {
    if events == [] then []
    else
      var before := events[..|events| - 1];
      var e := events[|events| - 1];
      match e.cmd
      case Erase(_, _) => []
      case Update(addr, bytes) =>
        var calls := Calls(keystream, Run(before), e.cmd);
        if calls != [] && e.success then Writes(keystream, before) + [Written(calls[0].addr, calls[0].bytes)]
        else Writes(keystream, before)
      case _ => Writes(keystream, before)
  }

  // ----- which keystream block each write takes

  /** An update that goes to the flash. */
  predicate Attempts(before: seq<Event>, e: Event) {
    e.cmd.Update? && FollowsOn(History(before), e.cmd.addr)
  }

  function LatestIv(events: seq<Event>): Option<seq<Byte>> {
    if events == [] then None
    else match events[|events| - 1].cmd
      case Salsa20IV(iv) => Some(iv)
      case _ => LatestIv(events[..|events| - 1])
  }

  /** How many attempts since the latest initialization vector succeeded, or failed. */
  function Count(events: seq<Event>, success: bool): nat {
    if events == [] then 0
    else
      var before := events[..|events| - 1];
      var e := events[|events| - 1];
      if e.cmd.Salsa20IV? then 0
      else Count(before, success) + if Attempts(before, e) && e.success == success then 1 else 0
  }

  /** When a block was accepted: under which vector, after how many writes and how many failed attempts. */
  datatype Place = Place(iv: Option<seq<Byte>>, writes: nat, failures: nat)

  /** The places of the blocks of the history. */
  function Places(events: seq<Event>): seq<Place> {
    if events == [] then []
    else
      var before := events[..|events| - 1];
      var e := events[|events| - 1];
      if e.cmd.Erase? then []
      else if Attempts(before, e) && e.success
        then Places(before) + [Place(LatestIv(before), Count(before, true), Count(before, false))]
      else Places(before)
  }

  function Decrypted(keystream: Keystream, w: Written, place: Place): Written {
    Written(w.addr, XorBlock(w.bytes, keystream(place.iv, place.writes + place.failures)))
  }

  /** The keystream moves with every attempt, failed ones included, over every command sequence. */
  lemma {:induction false} KeystreamCountsAttempts(events: seq<Event>)
    ensures Run(events).iv == LatestIv(events)
    ensures Run(events).position == Count(events, true) + Count(events, false)
  {
    if events != [] {
      var before, e := events[..|events| - 1], events[|events| - 1];
      KeystreamCountsAttempts(before);
      SessionTellsHistory(before);
      assert e.cmd.Update? ==> (Continues(Run(before), e.cmd.addr) <==> Attempts(before, e));
    }
  }

  /** One command adds the same to the flash as to history and places. */
  lemma {:induction false} WritesStep(keystream: Keystream, before: seq<Event>, e: Event)
    ensures var events := before + [e];
            if e.cmd.Erase? then Writes(keystream, events) == [] && History(events) == [] && Places(events) == []
            else if Attempts(before, e) && e.success then
              var w := Written(e.cmd.addr, e.cmd.bytes);
              var place := Place(LatestIv(before), Count(before, true), Count(before, false));
              && Writes(keystream, events) == Writes(keystream, before) + [Decrypted(keystream, w, place)]
              && History(events) == History(before) + [w] && Places(events) == Places(before) + [place]
            else
              && Writes(keystream, events) == Writes(keystream, before)
              && History(events) == History(before) && Places(events) == Places(before)
  {
    assert (before + [e])[..|before|] == before;
    if e.cmd.Update? {
      SessionTellsHistory(before);
      KeystreamCountsAttempts(before);
      assert Continues(Run(before), e.cmd.addr) <==> Attempts(before, e);
    }
  }

  /** Written are exactly the blocks of the history, in order, at their addresses, each one decrypted with the
      keystream block at the number of writes and failed attempts between the initialization vector and it. */
  lemma {:induction false} WritesFollowHistory(keystream: Keystream, events: seq<Event>)
    ensures |Writes(keystream, events)| == |History(events)| == |Places(events)|
    ensures forall i :: 0 <= i < |History(events)| ==>
              Writes(keystream, events)[i] == Decrypted(keystream, History(events)[i], Places(events)[i])
  {
    if events != [] {
      var before, e := events[..|events| - 1], events[|events| - 1];
      WritesFollowHistory(keystream, before);
      WritesStep(keystream, before, e);
      assert events == before + [e];
    }
  }

  // ----- an image sent over a channel that loses, repeats and reorders

  datatype Image = Image(base: Address, blocks: seq<Block>) {
    ghost predicate Fits() {
      base + BLOCK_SIZE * |blocks| < ADDRESS_SPACE
    }

    function BlockAddr(i: nat): Address
      requires Fits() && i <= |blocks|
    {
      base + BLOCK_SIZE * i
    }
  }

  /** Some block of the image, whether or not the flash takes it, or a checksum command. */
  ghost predicate Delivered(image: Image, e: Event)
    requires image.Fits()
  {
    match e.cmd
    case Update(addr, bytes) =>
      exists i :: 0 <= i < |image.blocks| && addr == image.BlockAddr(i) && bytes == image.blocks[i]
    case Crc32Start(_, _, _) => true
    case Crc32Result => true
    case Crc32ResultExit => true
    case _ => false
  }

  /** Ready for an image: erased, with an initialization vector and an unused keystream. */
  ghost predicate Prepared(setup: seq<Event>, iv: seq<Byte>) {
    && Run(setup).firstAddr == None && Run(setup).lastAddr == None
    && Run(setup).iv == Some(iv) && Run(setup).position == 0
  }

  /** `flash` holds the blocks `first` to `last` of the image, decrypted with the keystream from its start. */
  ghost predicate HoldsBlocks(keystream: Keystream, iv: seq<Byte>, image: Image, flash: seq<Written>, first: nat,
                              last: nat)
    requires image.Fits()
  {
    && first <= last <= |image.blocks| && |flash| == last - first
    && forall i :: 0 <= i < |flash| ==>
         flash[i] == Written(image.BlockAddr(first + i), XorBlock(image.blocks[first + i], keystream(Some(iv), i)))
  }

  /** The blocks accepted are a contiguous run of the image from block `first` on. */
  ghost predicate HoldsRun(image: Image, written: seq<Written>, first: nat)
    requires image.Fits()
  {
    && first + |written| <= |image.blocks|
    && forall i :: 0 <= i < |written| ==> written[i] == Written(image.BlockAddr(first + i), image.blocks[first + i])
  }

  /** Each was accepted after all before it and some of the failed attempts; the image's last block after all of
      them. */
  ghost predicate HoldsPlaces(image: Image, iv: seq<Byte>, places: seq<Place>, failures: nat, first: nat) {
    && (forall i :: 0 <= i < |places| ==>
          places[i].iv == Some(iv) && places[i].writes == i && places[i].failures <= failures)
    && (places != [] && first + |places| == |image.blocks| ==> places[|places| - 1].failures == failures)
  }

  /** The session over such a channel. */
  ghost predicate ChannelInv(iv: seq<Byte>, image: Image, events: seq<Event>, first: nat)
    requires image.Fits()
  {
    && LatestIv(events) == Some(iv)
    && Count(events, true) == |History(events)| == |Places(events)|
    && HoldsRun(image, History(events), first)
    && HoldsPlaces(image, iv, Places(events), Count(events, false), first)
    && (Count(events, false) == 0 ==>
          FirstTried(events) == if History(events) == [] then None else Some(image.BlockAddr(first)))
  }

  /** One delivery continues the run by the next block, fails, or changes nothing. */
  lemma {:induction false} DeliveryStep(iv: seq<Byte>, image: Image, before: seq<Event>, e: Event, first: nat)
    returns (next: nat)
    requires image.Fits() && Delivered(image, e) && ChannelInv(iv, image, before, first)
    ensures ChannelInv(iv, image, before + [e], next)
  {
    assert (before + [e])[..|before|] == before;
    next := first;
    if Attempts(before, e) {
      var i :| 0 <= i < |image.blocks| && e.cmd.addr == image.BlockAddr(i) && e.cmd.bytes == image.blocks[i];
      RunGoesOn(image, History(before), e.cmd.addr, first, i);
      if History(before) == [] { next := i; }
      AttemptStep(iv, image, before, e, next);
    } else if e.cmd.Update? {
      assert History(before) != [];
    }
  }

  /** Where a run ends. */
  lemma {:induction false} RunEnds(image: Image, written: seq<Written>, first: nat)
    requires image.Fits() && HoldsRun(image, written, first) && written != []
    ensures Advance(written[|written| - 1].addr, BLOCK_SIZE) == image.BlockAddr(first + |written|)
  {
    var last := |written| - 1;
    assert written[last].addr == image.BlockAddr(first + last);
  }

  /** The next block in a run is the only one of the image the session will try; after the last one there is none. */
  lemma {:induction false} RunGoesOn(image: Image, written: seq<Written>, addr: Address, first: nat, i: nat)
    requires image.Fits() && HoldsRun(image, written, first) && FollowsOn(written, addr)
    requires i < |image.blocks| && addr == image.BlockAddr(i)
    ensures written != [] ==> i == first + |written|
  {
    if written != [] { RunEnds(image, written, first); }
  }

  lemma {:induction false} AttemptStep(iv: seq<Byte>, image: Image, before: seq<Event>, e: Event, first: nat)
    requires image.Fits() && Attempts(before, e)
    requires ChannelInv(iv, image, before, first) || (History(before) == [] && ChannelInv(iv, image, before, 0))
    requires first + |History(before)| < |image.blocks|
    requires e.cmd.addr == image.BlockAddr(first + |History(before)|)
    requires e.cmd.bytes == image.blocks[first + |History(before)|]
    ensures ChannelInv(iv, image, before + [e], first)
  {
    var events := before + [e];
    assert events[..|before|] == before;
    if e.success {
      assert History(events) == History(before) + [Written(e.cmd.addr, e.cmd.bytes)];
      assert Places(events) == Places(before) + [Place(Some(iv), |History(before)|, Count(before, false))];
    } else {
      assert History(events) == History(before) && Places(events) == Places(before);
    }
  }

  lemma {:induction false} ChannelKeeps(iv: seq<Byte>, image: Image, setup: seq<Event>, deliveries: seq<Event>)
    returns (first: nat)
    requires image.Fits() && Prepared(setup, iv)
    requires forall e :: e in deliveries ==> Delivered(image, e)
    ensures ChannelInv(iv, image, setup + deliveries, first)
  {
    if deliveries == [] {
      assert setup + deliveries == setup;
      first := 0;
      SessionTellsHistory(setup);
      KeystreamCountsAttempts(setup);
      WritesFollowHistory((_, _) => ZeroBlock(), setup);
    } else {
      var front, e := deliveries[..|deliveries| - 1], deliveries[|deliveries| - 1];
      first := ChannelKeeps(iv, image, setup, front);
      first := DeliveryStep(iv, image, setup + front, e, first);
      assert setup + deliveries == setup + front + [e];
    }
  }

  /** The range of the whole image. */
  ghost predicate AcceptsImage(s: Session, image: Image)
    requires image.Fits() && image.blocks != []
  {
    AddressesMatch(s, image.base, image.base + BLOCK_SIZE * |image.blocks| - 1)
  }

  /** What accepting the image's range says about the blocks written. */
  lemma {:induction false} AcceptedRange(image: Image, events: seq<Event>)
    requires image.Fits() && image.blocks != [] && AcceptsImage(Run(events), image)
    ensures var written := History(events);
            && FirstTried(events) == Some(image.base) && written != []
            && Advance(written[|written| - 1].addr, BLOCK_SIZE) == image.BlockAddr(|image.blocks|)
  {
    SessionTellsHistory(events);
  }

  /** Accepted by its addresses, the run reaches the image's last block. */
  lemma {:induction false} AcceptedRunReachesEnd(iv: seq<Byte>, image: Image, events: seq<Event>, first: nat)
    requires image.Fits() && image.blocks != [] && ChannelInv(iv, image, events, first)
    requires AcceptsImage(Run(events), image)
    ensures History(events) != [] && first + |History(events)| == |image.blocks|
    ensures Count(events, false) == 0 ==> first == 0
  {
    AcceptedRange(image, events);
    RunEnds(image, History(events), first);
  }

  lemma {:induction false} BlockAsMeant(keystream: Keystream, iv: seq<Byte>, image: Image, events: seq<Event>, i: nat)
    requires image.Fits() && ChannelInv(iv, image, events, 0) && Count(events, false) == 0 && i < |History(events)|
    ensures i < |Writes(keystream, events)|
    ensures Writes(keystream, events)[i]
         == Written(image.BlockAddr(i), XorBlock(image.blocks[i], keystream(Some(iv), i)))
  {
    WritesFollowHistory(keystream, events);
    assert History(events)[i] == Written(image.BlockAddr(0 + i), image.blocks[0 + i]);
    assert Places(events)[i] == Place(Some(iv), i, 0);
  }

  /** Whatever the channel lost, repeated or reordered: once a Crc32Start for the whole image is accepted by its
      addresses and no write failed, the flash holds the whole image, in order, each block once, block i decrypted with
      keystream block i. */
  lemma {:induction false} AcceptedImageIsComplete(
    keystream: Keystream, iv: seq<Byte>, image: Image, setup: seq<Event>, deliveries: seq<Event>)
    requires image.Fits() && image.blocks != [] && Prepared(setup, iv)
    requires forall e :: e in deliveries ==> Delivered(image, e)
    requires AcceptsImage(Run(setup + deliveries), image) && Count(setup + deliveries, false) == 0
    ensures HoldsBlocks(keystream, iv, image, Writes(keystream, setup + deliveries), 0, |image.blocks|)
  {
    var events := setup + deliveries;
    var first := ChannelKeeps(iv, image, setup, deliveries);
    AcceptedRunReachesEnd(iv, image, events, first);
    WritesFollowHistory(keystream, events);
    assert |Writes(keystream, events)| == |image.blocks|;
    forall i | 0 <= i < |image.blocks|
      ensures Writes(keystream, events)[i]
           == Written(image.BlockAddr(i), XorBlock(image.blocks[i], keystream(Some(iv), i)))
    {
      BlockAsMeant(keystream, iv, image, events, i);
    }
  }

  /** The first `n` keystream blocks all differ. */
  ghost predicate Distinct(keystream: Keystream, iv: seq<Byte>, n: nat) {
    forall a, b :: 0 <= a < b < n ==> keystream(Some(iv), a) != keystream(Some(iv), b)
  }

  /** An image accepted by its addresses is complete and decrypted as meant exactly if no write ever failed on the way,
      although each failed one was answered and repeated: the keystream does not come back. */
  lemma {:induction false} DecryptedAsMeantExactly(
    keystream: Keystream, iv: seq<Byte>, image: Image, setup: seq<Event>, deliveries: seq<Event>)
    requires image.Fits() && image.blocks != [] && Prepared(setup, iv)
    requires forall e :: e in deliveries ==> Delivered(image, e)
    requires AcceptsImage(Run(setup + deliveries), image)
    requires Distinct(keystream, iv, Run(setup + deliveries).position)
    ensures HoldsBlocks(keystream, iv, image, Writes(keystream, setup + deliveries), 0, |image.blocks|)
       <==> Count(setup + deliveries, false) == 0
  {
    var events := setup + deliveries;
    if Count(events, false) == 0 {
      AcceptedImageIsComplete(keystream, iv, image, setup, deliveries);
    }
    if HoldsBlocks(keystream, iv, image, Writes(keystream, events), 0, |image.blocks|) {
      var last := |image.blocks| - 1;
      var first := ChannelKeeps(iv, image, setup, deliveries);
      AcceptedRunReachesEnd(iv, image, events, first);
      WritesFollowHistory(keystream, events);
      KeystreamCountsAttempts(events);
      LastBlockOf(iv, image, History(events), Places(events), Count(events, false));
      LastBlockShifted(keystream, iv, image, Writes(keystream, events), History(events)[last],
                       Places(events)[last], Count(events, false));
    }
  }

  /** A complete image's last block was decrypted as far on in the keystream as attempts failed: it is the block meant
      only if none did. */
  lemma {:induction false} LastBlockShifted(
    keystream: Keystream, iv: seq<Byte>, image: Image, flash: seq<Written>, w: Written, place: Place, failures: nat)
    requires image.Fits() && image.blocks != [] && |flash| == |image.blocks|
    requires w == Written(image.BlockAddr(|image.blocks| - 1), image.blocks[|image.blocks| - 1])
    requires place == Place(Some(iv), |image.blocks| - 1, failures)
    requires flash[|image.blocks| - 1] == Decrypted(keystream, w, place)
    requires Distinct(keystream, iv, |image.blocks| + failures)
    requires HoldsBlocks(keystream, iv, image, flash, 0, |image.blocks|)
    ensures failures == 0
  {
    var last := |image.blocks| - 1;
    assert flash[last]
        == Written(image.BlockAddr(0 + last), XorBlock(image.blocks[0 + last], keystream(Some(iv), last)));
    XorBlockInjective(image.blocks[last], keystream(Some(iv), last), keystream(Some(iv), last + failures));
  }

  lemma {:induction false} LastBlockOf(iv: seq<Byte>, image: Image, written: seq<Written>, places: seq<Place>,
                                       failures: nat)
    requires image.Fits() && image.blocks != [] && |written| == |places| == |image.blocks|
    requires HoldsRun(image, written, 0) && HoldsPlaces(image, iv, places, failures, 0)
    ensures var last := |image.blocks| - 1;
            && written[last] == Written(image.BlockAddr(last), image.blocks[last])
            && places[last] == Place(Some(iv), last, failures)
  {
    var last := |image.blocks| - 1;
    assert written[last] == Written(image.BlockAddr(0 + last), image.blocks[0 + last]);
  }

  /** An image accepted by its addresses lacks blocks exactly if the first address tried was not the first one
      written. */
  lemma {:induction false} AcceptedImageHasNoGapExactly(iv: seq<Byte>, image: Image, setup: seq<Event>,
                                                        deliveries: seq<Event>)
    requires image.Fits() && image.blocks != [] && Prepared(setup, iv)
    requires forall e :: e in deliveries ==> Delivered(image, e)
    requires AcceptsImage(Run(setup + deliveries), image)
    ensures var written := History(setup + deliveries);
            && 0 < |written| <= |image.blocks|
            && (|written| == |image.blocks| <==> FirstTried(setup + deliveries) == Some(written[0].addr))
  {
    var events := setup + deliveries;
    var first := ChannelKeeps(iv, image, setup, deliveries);
    AcceptedRunReachesEnd(iv, image, events, first);
    SessionTellsHistory(events);
    assert History(events)[0] == Written(image.BlockAddr(first + 0), image.blocks[first + 0]);
  }

  /** A failed first write does hide a gap: the address it tried stays, and the image is accepted by its addresses
      without its first block. The checksum register then covers the second block alone. */
  lemma {:induction false} FailedFirstWriteHidesGap(iv: seq<Byte>, image: Image)
    requires image.Fits() && |image.blocks| == 2
    ensures var events := [Event(Salsa20IV(iv), true), Event(Update(image.BlockAddr(0), image.blocks[0]), false),
                           Event(Update(image.BlockAddr(1), image.blocks[1]), true)];
            && AcceptsImage(Run(events), image)
            && History(events) == [Written(image.BlockAddr(1), image.blocks[1])]
            && Run(events).crc32 == Fold(Crc32Next, CRC32_INIT, image.blocks[1])
            && Acks(Run(events[..1]), events[1])
  {
    var e0 := Event(Salsa20IV(iv), true);
    var e1 := Event(Update(image.BlockAddr(0), image.blocks[0]), false);
    var e2 := Event(Update(image.BlockAddr(1), image.blocks[1]), true);
    assert [e0][..0] == [] && [e0, e1][..1] == [e0] && [e0, e1, e2][..2] == [e0, e1] && [e0, e1, e2][..1] == [e0];
    assert Run([e0]) == POWER_UP.(iv := Some(iv)) && History([e0]) == [];
    assert History([e0, e1]) == [];
  }

  // ----- reaching the exit

  /** Every checksum command names the image's range. */
  ghost predicate NamesImage(image: Image, e: Event)
    requires image.Fits() && image.blocks != []
  {
    e.cmd.Crc32Start? ==> e.cmd.begin == image.base && e.cmd.end == image.base + BLOCK_SIZE * |image.blocks| - 1
  }

  /** Once the range is accepted, no delivery moves the addresses any more. */
  lemma {:induction false} AcceptedStays(iv: seq<Byte>, image: Image, before: seq<Event>, e: Event, first: nat)
    requires image.Fits() && image.blocks != [] && ChannelInv(iv, image, before, first)
    requires Delivered(image, e) && AcceptsImage(Run(before), image)
    ensures AcceptsImage(Run(before + [e]), image)
  {
    assert (before + [e])[..|before|] == before;
    AcceptedRunReachesEnd(iv, image, before, first);
    if Attempts(before, e) {
      var i :| 0 <= i < |image.blocks| && e.cmd.addr == image.BlockAddr(i) && e.cmd.bytes == image.blocks[i];
      RunGoesOn(image, History(before), e.cmd.addr, first, i);
    }
    SessionTellsHistory(before);
    assert e.cmd.Update? ==> (Continues(Run(before), e.cmd.addr) <==> Attempts(before, e));
  }

  /** Only a checksum command that names an accepted range verifies. */
  lemma {:induction false} VerifiedStep(image: Image, before: seq<Event>, e: Event)
    requires image.Fits() && image.blocks != [] && NamesImage(image, e)
    ensures Verified(before + [e]) ==> Verified(before) || AcceptsImage(Run(before), image)
  {
    var events := before + [e];
    assert events[..|events| - 1] == before && events[|events| - 1] == e;
    if e.cmd.Crc32Start? {
      AcceptsWhatItCovers(image, before);
      assert e.cmd.begin == image.base && e.cmd.end == image.base + BLOCK_SIZE * |image.blocks| - 1;
    }
  }

  /** A checksum verified on the way stands for an accepted range. */
  lemma {:induction false} VerifiedIsAccepted(iv: seq<Byte>, image: Image, setup: seq<Event>, deliveries: seq<Event>)
    requires image.Fits() && image.blocks != [] && Prepared(setup, iv) && !Verified(setup)
    requires forall e :: e in deliveries ==> Delivered(image, e) && NamesImage(image, e)
    ensures Verified(setup + deliveries) ==> AcceptsImage(Run(setup + deliveries), image)
  {
    if deliveries == [] {
      assert setup + deliveries == setup;
    } else {
      var front, e := deliveries[..|deliveries| - 1], deliveries[|deliveries| - 1];
      var before := setup + front;
      assert setup + deliveries == before + [e];
      VerifiedIsAccepted(iv, image, setup, front);
      VerifiedStep(image, before, e);
      var first := ChannelKeeps(iv, image, setup, front);
      if AcceptsImage(Run(before), image) { AcceptedStays(iv, image, before, e, first); }
    }
  }

  lemma {:induction false} AcceptsWhatItCovers(image: Image, events: seq<Event>)
    requires image.Fits() && image.blocks != []
    ensures CoversHistory(events, image.base, image.base + BLOCK_SIZE * |image.blocks| - 1)
       <==> AcceptsImage(Run(events), image)
  {
    SessionTellsHistory(events);
  }

  /** Leaving the firmware after such a channel: the checksum over the ciphertext has been verified, and yet the flash
      holds the image as meant exactly if no attempt failed. The shifted keystream goes unnoticed. */
  lemma {:induction false} LeavesAsMeantExactly(
    keystream: Keystream, iv: seq<Byte>, image: Image, setup: seq<Event>, deliveries: seq<Event>)
    requires image.Fits() && image.blocks != [] && Prepared(setup, iv) && !Verified(setup)
    requires forall e :: e in deliveries ==> Delivered(image, e) && NamesImage(image, e)
    requires ExitZsu in Calls(keystream, Run(setup + deliveries), Crc32ResultExit)
    requires Distinct(keystream, iv, Run(setup + deliveries).position)
    ensures HoldsBlocks(keystream, iv, image, Writes(keystream, setup + deliveries), 0, |image.blocks|)
       <==> Count(setup + deliveries, false) == 0
  {
    ExitExactlyWhenVerified(keystream, setup + deliveries);
    VerifiedIsAccepted(iv, image, setup, deliveries);
    DecryptedAsMeantExactly(keystream, iv, image, setup, deliveries);
  }

  /** And it is left that way: one block, one failed attempt, the block again, the image's own checksum. */
  lemma {:induction false} ShiftedImageIsLeft(keystream: Keystream, iv: seq<Byte>, image: Image)
    requires image.Fits() && |image.blocks| == 1
    ensures var block := Update(image.BlockAddr(0), image.blocks[0]);
            var start := Crc32Start(image.base, image.base + BLOCK_SIZE - 1, Crc32Of(image.blocks[0]));
            var events := [Event(Salsa20IV(iv), true), Event(block, false), Event(block, true), Event(start, true)];
            && ExitZsu in Calls(keystream, Run(events), Crc32ResultExit)
            && Writes(keystream, events) == [Written(image.base, XorBlock(image.blocks[0], keystream(Some(iv), 1)))]
  {
    var block := Update(image.BlockAddr(0), image.blocks[0]);
    var e0, e1, e2 := Event(Salsa20IV(iv), true), Event(block, false), Event(block, true);
    var e3 := Event(Crc32Start(image.base, image.base + BLOCK_SIZE - 1, Crc32Of(image.blocks[0])), true);
    assert [e0][..0] == [] && [e0, e1][..1] == [e0] && [e0, e1, e2][..2] == [e0, e1];
    assert [e0, e1, e2, e3][..3] == [e0, e1, e2];
    var s1 := POWER_UP.(iv := Some(iv), position := 1, firstAddr := Some(image.base));
    assert Run([e0]) == POWER_UP.(iv := Some(iv)) && Writes(keystream, [e0]) == [];
    assert Run([e0, e1]) == s1 && Writes(keystream, [e0, e1]) == [];
    var w := Written(image.base, XorBlock(image.blocks[0], keystream(Some(iv), 1)));
    assert Calls(keystream, s1, block) == [WriteZsu(w.addr, w.bytes)];
    assert Writes(keystream, [e0, e1, e2]) == [w];
  }

  lemma XorByteCancels(a: Byte, x: Byte, y: Byte)
    requires XorByte(a, x) == XorByte(a, y)
    ensures x == y
  {
    XorCancels(x, y, a);
  }

  lemma {:induction false} XorBlockInjective(a: Block, x: Block, y: Block)
    ensures XorBlock(a, x) == XorBlock(a, y) <==> x == y
  {
    if XorBlock(a, x) == XorBlock(a, y) {
      forall i | 0 <= i < BLOCK_SIZE ensures x[i] == y[i] {
        assert XorBlock(a, x)[i] == XorBlock(a, y)[i];
        XorByteCancels(a[i], x[i], y[i]);
      }
      assert x == y;
    }
  }
}
