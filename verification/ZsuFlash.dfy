/** What the calls of a firmware session leave in the flash. */
module ZsuFlash {
  import opened Addresses
  import opened Bytes
  import opened Crc
  import opened FlashMemory
  import opened Zsu
  import opened ZsuProofs

  // ----- contents

  /** What a call does to the flash; one that fails leaves it as it is. */
  function Effect(memory: Memory, call: Call, success: bool): Memory {
    match call
    case EraseZsu(begin, end) => if success then Erased(memory, begin, end) else memory
    case WriteZsu(addr, bytes) => if success then Stored(memory, addr, bytes) else memory
    case ExitZsu => memory
  }

  function Effects(memory: Memory, calls: seq<Call>, success: bool): Memory {
    if calls == [] then memory
    else Effect(Effects(memory, calls[..|calls| - 1], success), calls[|calls| - 1], success)
  }

  /** What the calls made by a whole sequence leave in an empty flash. */
  function Contents(keystream: Keystream, events: seq<Event>): Memory {
    if events == [] then map[]
    else
      var before, e := events[..|events| - 1], events[|events| - 1];
      Effects(Contents(keystream, before), Calls(keystream, Run(before), e.cmd), e.success)
  }

  /** What the flash held right after the last erase command. */
  function AtErase(keystream: Keystream, events: seq<Event>): Memory {
    if events == [] then map[]
    else if events[|events| - 1].cmd.Erase? then Contents(keystream, events)
    else AtErase(keystream, events[..|events| - 1])
  }

  /** Blocks on top of what was there before. */
  function Patched(memory: Memory, written: seq<Written>): Memory {
    if written == [] then memory else Stored(memory, written[0].addr, Joined(written))
  }

  ghost predicate Consecutive(written: seq<Written>) {
    forall i :: 0 <= i < |written| - 1 ==> written[i + 1].addr == Advance(written[i].addr, BLOCK_SIZE)
  }

  lemma {:induction false} JoinedEnds(written: seq<Written>)
    requires Consecutive(written) && written != []
    ensures Advance(written[|written| - 1].addr, BLOCK_SIZE) == Advance(written[0].addr, |Joined(written)|)
  {
    var front, last := written[..|written| - 1], written[|written| - 1];
    if front == [] {
      assert Joined(written) == last.bytes;
    } else {
      JoinedEnds(front);
      assert last.addr == Advance(front[|front| - 1].addr, BLOCK_SIZE);
      AdvanceTwice(written[0].addr, |Joined(front)|, BLOCK_SIZE);
    }
  }

  lemma {:induction false} PatchedSnoc(memory: Memory, written: seq<Written>, w: Written)
    requires Consecutive(written + [w])
    ensures Patched(memory, written + [w]) == Stored(Patched(memory, written), w.addr, w.bytes)
  {
    assert (written + [w])[..|written|] == written;
    if written == [] {
      assert Joined([w]) == w.bytes;
    } else {
      assert (written + [w])[|written| - 1] == written[|written| - 1];
      forall i | 0 <= i < |written| - 1 ensures written[i + 1].addr == Advance(written[i].addr, BLOCK_SIZE) {
        assert (written + [w])[i + 1].addr == Advance((written + [w])[i].addr, BLOCK_SIZE);
      }
      JoinedEnds(written);
      StoredConcat(memory, written[0].addr, Joined(written), w.bytes);
    }
  }

  lemma {:induction false} WritesAreConsecutive(keystream: Keystream, events: seq<Event>)
    ensures Consecutive(Writes(keystream, events))
  {
    WritesFollowHistory(keystream, events);
    forall i | 0 <= i < |Writes(keystream, events)| - 1
      ensures Writes(keystream, events)[i + 1].addr == Advance(Writes(keystream, events)[i].addr, BLOCK_SIZE)
    {
      HistoryIsConsecutive(events, i);
    }
  }

  lemma EffectOfOne(memory: Memory, call: Call, success: bool)
    ensures Effects(memory, [call], success) == Effect(memory, call, success)
  {
    assert [call][..0] == [];
    assert Effects(memory, [call][..0], success) == memory;
  }

  /** The effect of one command. */
  lemma {:induction false} ContentsStep(keystream: Keystream, before: seq<Event>, e: Event)
    ensures var memory, after := Contents(keystream, before), Contents(keystream, before + [e]);
            var writes := Writes(keystream, before + [e]);
            if Attempts(before, e) && e.success then
              writes != [] && after == Stored(memory, e.cmd.addr, writes[|writes| - 1].bytes)
            else if e.cmd.Erase? && e.success then after == Erased(memory, e.cmd.begin, e.cmd.end)
            else after == memory
  {
    assert (before + [e])[..|before|] == before;
    SessionTellsHistory(before);
    assert e.cmd.Update? ==> (Continues(Run(before), e.cmd.addr) <==> Attempts(before, e));
    var calls := Calls(keystream, Run(before), e.cmd);
    if calls != [] {
      assert calls == [calls[0]];
      EffectOfOne(Contents(keystream, before), calls[0], e.success);
    }
  }

  /** Over every command sequence the flash holds exactly the blocks written since the last erase command, one after the
      other, on top of what that command left. */
  lemma {:induction false} ContentsTellHistory(keystream: Keystream, events: seq<Event>)
    ensures Contents(keystream, events) == Patched(AtErase(keystream, events), Writes(keystream, events))
  {
    if events != [] {
      var before, e := events[..|events| - 1], events[|events| - 1];
      assert events == before + [e];
      ContentsTellHistory(keystream, before);
      ContentsStep(keystream, before, e);
      WritesStep(keystream, before, e);
      if Attempts(before, e) && e.success {
        WritesAreConsecutive(keystream, events);
        var writes := Writes(keystream, events);
        PatchedSnoc(AtErase(keystream, before), Writes(keystream, before), writes[|writes| - 1]);
      }
    }
  }

  /** An erase that succeeds erases the range it names and nothing else; one that fails changes nothing. */
  lemma {:induction false} EraseErases(keystream: Keystream, events: seq<Event>, e: Event, a: Address)
    requires e.cmd.Erase?
    ensures var memory, after := Contents(keystream, events), Contents(keystream, events + [e]);
            && (a in after <==> a in memory && !(e.success && e.cmd.begin <= a < e.cmd.end))
            && (a in after ==> after[a] == memory[a])
  {
    ContentsStep(keystream, events, e);
  }

  // ----- what is called and answered, by the history

  /** When each call is made, over every command sequence, and with what. */
  lemma {:induction false} CalledExactly(keystream: Keystream, events: seq<Event>, cmd: Command, call: Call)
    ensures call in Calls(keystream, Run(events), cmd)
       <==> match call
            case EraseZsu(begin, end) => cmd == Erase(begin, end)
            case WriteZsu(addr, bytes) =>
              && cmd.Update? && cmd.addr == addr && FollowsOn(History(events), addr)
              && bytes == XorBlock(cmd.bytes, keystream(LatestIv(events), Count(events, true) + Count(events, false)))
            case ExitZsu => cmd == Crc32ResultExit && Verified(events)
    ensures |Calls(keystream, Run(events), cmd)| <= 1
  {
    SessionTellsHistory(events);
    if cmd.Update? { UpdateCalls(keystream, events, cmd); }
  }

  lemma {:induction false} UpdateCalls(keystream: Keystream, events: seq<Event>, cmd: Command)
    requires cmd.Update?
    ensures var position := Count(events, true) + Count(events, false);
            Calls(keystream, Run(events), cmd)
            == if FollowsOn(History(events), cmd.addr)
               then [WriteZsu(cmd.addr, XorBlock(cmd.bytes, keystream(LatestIv(events), position)))] else []
  {
    SessionTellsHistory(events);
    KeystreamCountsAttempts(events);
  }

  /** When the decoder answers in channel 2: to an erase or a write that fails, to a block that leaves a gap but to none
      that starts before the end of those accepted, to a checksum command that names another range, and to the question
      for a result that is not right. */
  lemma {:induction false} AnsweredExactly(events: seq<Event>, e: Event)
    ensures Acks(Run(events), e)
       <==> match e.cmd
            case Salsa20IV(_) => false
            case Erase(_, _) => !e.success
            case Update(addr, _) =>
              var written := History(events);
              if FollowsOn(written, addr) then !e.success
              else Advance(written[|written| - 1].addr, BLOCK_SIZE) < addr
            case Crc32Start(begin, end, _) => !CoversHistory(events, begin, end)
            case _ => !Verified(events)
  {
    SessionTellsHistory(events);
    assert e.cmd.Crc32Start? ==>
        (AddressesMatch(Run(events), e.cmd.begin, e.cmd.end) <==> CoversHistory(events, e.cmd.begin, e.cmd.end));
  }

  lemma {:induction false} HistoryAddress(events: seq<Event>, i: nat)
    requires i < |History(events)|
    ensures History(events)[i].addr == Advance(History(events)[0].addr, BLOCK_SIZE * i)
  {
    if i > 0 {
      HistoryAddress(events, i - 1);
      HistoryIsConsecutive(events, i - 1);
      AdvanceTwice(History(events)[0].addr, BLOCK_SIZE * (i - 1), BLOCK_SIZE);
    }
  }

  /** So a block that was accepted since the last erase is neither written nor answered when it comes again, provided
      the blocks do not wrap around the end of the address space. */
  lemma {:induction false} AcceptedBlockIsQuiet(keystream: Keystream, events: seq<Event>, i: nat, success: bool)
    requires i < |History(events)|
    requires History(events)[0].addr + BLOCK_SIZE * |History(events)| < ADDRESS_SPACE
    ensures var e := Event(Update(History(events)[i].addr, History(events)[i].bytes), success);
            Calls(keystream, Run(events), e.cmd) == [] && !Acks(Run(events), e)
  {
    HistoryAddress(events, i);
    HistoryAddress(events, |History(events)| - 1);
    SessionTellsHistory(events);
  }

  // ----- the image

  /** The blocks of an image decrypted as meant: block `i` with keystream block `i`. */
  function Plain(keystream: Keystream, iv: seq<Byte>, blocks: seq<Block>): (bytes: seq<Byte>)
    ensures |bytes| == BLOCK_SIZE * |blocks|
  {
    if blocks == [] then []
    else
      var n := |blocks| - 1;
      Plain(keystream, iv, blocks[..n]) + XorBlock(blocks[n], keystream(Some(iv), n))
  }

  /** Block `i` of a sequence of blocks put together. */
  function Slot(bytes: seq<Byte>, i: nat): (block: Block)
    requires BLOCK_SIZE * i + BLOCK_SIZE <= |bytes|
  {
    bytes[BLOCK_SIZE * i..BLOCK_SIZE * i + BLOCK_SIZE]
  }

  lemma SlotOfEnd(bytes: seq<Byte>, first: nat, i: nat)
    requires BLOCK_SIZE * (first + i) + BLOCK_SIZE <= |bytes|
    ensures Slot(bytes[BLOCK_SIZE * first..], i) == Slot(bytes, first + i)
  {
  }

  lemma SlotOfFront(bytes: seq<Byte>, n: nat, i: nat)
    requires i < n && BLOCK_SIZE * n <= |bytes|
    ensures Slot(bytes[..BLOCK_SIZE * n], i) == Slot(bytes, i)
  {
  }

  lemma {:induction false} PlainAt(keystream: Keystream, iv: seq<Byte>, blocks: seq<Block>, i: nat)
    requires i < |blocks|
    ensures Slot(Plain(keystream, iv, blocks), i) == XorBlock(blocks[i], keystream(Some(iv), i))
  {
    var n := |blocks| - 1;
    if i < n {
      PlainAt(keystream, iv, blocks[..n], i);
      assert Plain(keystream, iv, blocks)[..BLOCK_SIZE * n] == Plain(keystream, iv, blocks[..n]);
      SlotOfFront(Plain(keystream, iv, blocks), n, i);
    }
  }

  lemma {:induction false} JoinedLength(written: seq<Written>)
    ensures |Joined(written)| == BLOCK_SIZE * |written|
  {
    if written != [] { JoinedLength(written[..|written| - 1]); }
  }

  lemma {:induction false} SetupIsErased(keystream: Keystream, iv: seq<Byte>, image: Image, setup: seq<Event>,
                                         deliveries: seq<Event>)
    requires image.Fits() && Prepared(setup, iv)
    requires forall e :: e in deliveries ==> Delivered(image, e)
    ensures AtErase(keystream, setup + deliveries) == Contents(keystream, setup)
  {
    if deliveries == [] {
      assert setup + deliveries == setup;
      SessionTellsHistory(setup);
      WritesFollowHistory(keystream, setup);
      ContentsTellHistory(keystream, setup);
    } else {
      var front := deliveries[..|deliveries| - 1];
      SetupIsErased(keystream, iv, image, setup, front);
      var e := deliveries[|deliveries| - 1];
      assert Delivered(image, e) && !e.cmd.Erase?;
      assert setup + deliveries == setup + front + [e] && (setup + front + [e])[..|setup + front|] == setup + front;
    }
  }

  lemma {:induction false} SameKeystreamBlock(
    keystream: Keystream, iv: seq<Byte>, block: Block, a: nat, b: nat, n: nat)
    requires Distinct(keystream, iv, n) && a < n && b < n
    ensures XorBlock(block, keystream(Some(iv), a)) == XorBlock(block, keystream(Some(iv), b)) <==> a == b
  {
    XorBlockInjective(block, keystream(Some(iv), a), keystream(Some(iv), b));
  }

  /** A block written is the one meant iff it was decrypted with the keystream block of its place in the image. */
  lemma {:induction false} BlockMeantExactly(
    keystream: Keystream, iv: seq<Byte>, image: Image, w: Written, place: Place, first: nat, i: nat, n: nat)
    requires first + i < |image.blocks| <= n && Distinct(keystream, iv, n)
    requires w.bytes == image.blocks[first + i]
    requires place.iv == Some(iv) && place.writes == i && i + place.failures < n
    ensures Decrypted(keystream, w, place).bytes == Slot(Plain(keystream, iv, image.blocks), first + i)
       <==> place.failures == first
  {
    assert Decrypted(keystream, w, place).bytes == XorBlock(w.bytes, keystream(Some(iv), i + place.failures));
    assert Slot(Plain(keystream, iv, image.blocks), first + i) == XorBlock(w.bytes, keystream(Some(iv), first + i)) by {
      PlainAt(keystream, iv, image.blocks, first + i);
    }
    SameKeystreamBlock(keystream, iv, w.bytes, i + place.failures, first + i, n);
  }

  /** A block more. */
  lemma {:induction false} JoinedSplits(written: seq<Written>, bytes: seq<Byte>)
    requires written != [] && |bytes| == BLOCK_SIZE * |written|
    ensures var n := |written| - 1;
            Joined(written) == bytes
            <==> Joined(written[..n]) == bytes[..BLOCK_SIZE * n] && written[n].bytes == Slot(bytes, n)
  {
    var n := |written| - 1;
    JoinedLength(written[..n]);
    var front, last := Joined(written[..n]), written[n].bytes;
    assert Joined(written) == front + last;
    assert bytes == bytes[..BLOCK_SIZE * n] + Slot(bytes, n);
    assert (front + last)[..BLOCK_SIZE * n] == front && (front + last)[BLOCK_SIZE * n..] == last;
  }

  /** A run of blocks is the one meant iff each of them is. */
  lemma {:induction false} JoinedExactly(written: seq<Written>, bytes: seq<Byte>)
    requires |bytes| == BLOCK_SIZE * |written|
    ensures Joined(written) == bytes <==> forall i :: 0 <= i < |written| ==> written[i].bytes == Slot(bytes, i)
  {
    if written != [] {
      var n := |written| - 1;
      JoinedSplits(written, bytes);
      JoinedExactly(written[..n], bytes[..BLOCK_SIZE * n]);
      forall i | 0 <= i < n ensures Slot(bytes, i) == Slot(bytes[..BLOCK_SIZE * n], i) {
        SlotOfFront(bytes, n, i);
      }
    }
  }

  /** Every block written has its place in the image and among the attempts. */
  ghost predicate RunOf(keystream: Keystream, iv: seq<Byte>, image: Image, written: seq<Written>, places: seq<Place>,
                        first: nat, n: nat) {
    && |written| == |places| && first + |written| == |image.blocks| <= n
    && forall i :: 0 <= i < |written| ==>
         && places[i].iv == Some(iv) && places[i].writes == i && i + places[i].failures < n
         && exists w: Written :: w.bytes == image.blocks[first + i] && written[i] == Decrypted(keystream, w, places[i])
  }

  /** The blocks written from block `first` on are the end of the image as meant iff each was decrypted as many
      keystream blocks late as blocks are missing before the first. */
  lemma {:induction false} RunMeantExactly(keystream: Keystream, iv: seq<Byte>, image: Image, written: seq<Written>,
                                           places: seq<Place>, first: nat, n: nat)
    requires RunOf(keystream, iv, image, written, places, first, n) && Distinct(keystream, iv, n)
    ensures Joined(written) == Plain(keystream, iv, image.blocks)[BLOCK_SIZE * first..]
       <==> forall i :: 0 <= i < |places| ==> places[i].failures == first
  {
    var plain := Plain(keystream, iv, image.blocks);
    JoinedExactly(written, plain[BLOCK_SIZE * first..]);
    forall i | 0 <= i < |written|
      ensures written[i].bytes == Slot(plain[BLOCK_SIZE * first..], i) <==> places[i].failures == first
    {
      var w: Written :| w.bytes == image.blocks[first + i] && written[i] == Decrypted(keystream, w, places[i]);
      BlockMeantExactly(keystream, iv, image, w, places[i], first, i, n);
      SlotOfEnd(plain, first, i);
    }
  }

  lemma {:induction false} ChannelRun(
    keystream: Keystream, iv: seq<Byte>, image: Image, events: seq<Event>, first: nat, n: nat)
    requires image.Fits() && ChannelInv(iv, image, events, first) && first + |History(events)| == |image.blocks| <= n
    requires Run(events).position <= n
    ensures RunOf(keystream, iv, image, Writes(keystream, events), Places(events), first, n)
  {
    var written, places := Writes(keystream, events), Places(events);
    WritesFollowHistory(keystream, events);
    KeystreamCountsAttempts(events);
    forall i | 0 <= i < |written|
      ensures exists w: Written ::
                w.bytes == image.blocks[first + i] && written[i] == Decrypted(keystream, w, places[i])
    {
      var w := History(events)[i];
      assert w.bytes == image.blocks[first + i] && written[i] == Decrypted(keystream, w, places[i]);
    }
  }

  /** Enough keystream for the image and for all attempts. */
  function Used(image: Image, events: seq<Event>): nat {
    if Run(events).position < |image.blocks| then |image.blocks| else Run(events).position
  }

  /** The flash holds the image as meant, or its blocks up to some. */
  ghost predicate HoldsImage(memory: Memory, keystream: Keystream, iv: seq<Byte>, image: Image) {
    Has(memory, image.base, Plain(keystream, iv, image.blocks))
  }

  ghost predicate HoldsStart(memory: Memory, keystream: Keystream, iv: seq<Byte>, image: Image, first: nat)
    requires first <= |image.blocks|
  {
    Has(memory, image.base, Plain(keystream, iv, image.blocks)[..BLOCK_SIZE * first])
  }

  /** All blocks written came as many failures late. */
  ghost predicate AllLateBy(places: seq<Place>, failures: nat) {
    forall i :: 0 <= i < |places| ==> places[i].failures == failures
  }

  lemma {:induction false} FirstWrite(keystream: Keystream, image: Image, events: seq<Event>, first: nat)
    requires image.Fits() && HoldsRun(image, History(events), first) && History(events) != []
    ensures var written := Writes(keystream, events);
            && written != [] && written[0].addr == image.base + BLOCK_SIZE * first
            && |Joined(written)| == BLOCK_SIZE * |History(events)|
  {
    WritesFollowHistory(keystream, events);
    JoinedLength(Writes(keystream, events));
    assert History(events)[0] == Written(image.BlockAddr(first + 0), image.blocks[first + 0]);
  }

  lemma {:induction false} RunInFlash(memory: Memory, keystream: Keystream, iv: seq<Byte>, image: Image,
                                      written: seq<Written>, first: nat)
    requires image.Fits() && written != [] && first <= |image.blocks|
    requires written[0].addr == image.base + BLOCK_SIZE * first
    requires |Joined(written)| == BLOCK_SIZE * (|image.blocks| - first)
    ensures HoldsImage(Patched(memory, written), keystream, iv, image)
       <==> && Joined(written) == Plain(keystream, iv, image.blocks)[BLOCK_SIZE * first..]
            && HoldsStart(memory, keystream, iv, image, first)
  {
    var plain, from, end := Plain(keystream, iv, image.blocks), BLOCK_SIZE * first, Joined(written);
    assert Patched(memory, written) == Stored(memory, image.base + from, end);
    assert from + |end| == |plain|;
    HasStored(memory, image.base, plain, from, end);
  }

  /** The blocks written of an accepted image, from block `first` to its last. */
  ghost predicate RunToEnd(iv: seq<Byte>, image: Image, events: seq<Event>, first: nat)
    requires image.Fits()
  {
    && ChannelInv(iv, image, events, first) && History(events) != []
    && first + |History(events)| == |image.blocks|
    && (Count(events, false) == 0 ==> first == 0)
  }

  lemma {:induction false} AcceptedRun(iv: seq<Byte>, image: Image, setup: seq<Event>, deliveries: seq<Event>)
    returns (first: nat)
    requires image.Fits() && image.blocks != [] && Prepared(setup, iv)
    requires forall e :: e in deliveries ==> Delivered(image, e)
    requires AcceptsImage(Run(setup + deliveries), image)
    ensures RunToEnd(iv, image, setup + deliveries, first)
  {
    first := ChannelKeeps(iv, image, setup, deliveries);
    AcceptedRunReachesEnd(iv, image, setup + deliveries, first);
  }

  lemma {:induction false} ChannelInFlash(
    keystream: Keystream, iv: seq<Byte>, image: Image, events: seq<Event>, first: nat)
    requires image.Fits() && RunToEnd(iv, image, events, first)
    requires Distinct(keystream, iv, Used(image, events))
    ensures HoldsImage(Contents(keystream, events), keystream, iv, image)
       <==> HoldsStart(AtErase(keystream, events), keystream, iv, image, first) && AllLateBy(Places(events), first)
  {
    var written := Writes(keystream, events);
    FirstWrite(keystream, image, events, first);
    ContentsTellHistory(keystream, events);
    RunInFlash(AtErase(keystream, events), keystream, iv, image, written, first);
    ChannelRun(keystream, iv, image, events, first, Used(image, events));
    RunMeantExactly(keystream, iv, image, written, Places(events), first, Used(image, events));
  }

  /** Once the image's range is accepted, the flash holds the image as meant exactly if the blocks missing were there
      before, and every block written came as many failures late as blocks are missing. */
  lemma {:induction false} ImageInFlashExactly(
    keystream: Keystream, iv: seq<Byte>, image: Image, setup: seq<Event>, deliveries: seq<Event>)
    requires image.Fits() && image.blocks != [] && Prepared(setup, iv)
    requires forall e :: e in deliveries ==> Delivered(image, e)
    requires AcceptsImage(Run(setup + deliveries), image)
    requires Distinct(keystream, iv, Used(image, setup + deliveries))
    ensures var events := setup + deliveries;
            var missing := |image.blocks| - |History(events)|;
            && 0 <= missing < |image.blocks|
            && (HoldsImage(Contents(keystream, events), keystream, iv, image)
                <==> && HoldsStart(Contents(keystream, setup), keystream, iv, image, missing)
                     && AllLateBy(Places(events), missing))
  {
    var first := AcceptedRun(iv, image, setup, deliveries);
    ChannelInFlash(keystream, iv, image, setup + deliveries, first);
    SetupIsErased(keystream, iv, image, setup, deliveries);
  }

  /** What is late in an image of which nothing was there before. */
  lemma {:induction false} NothingMissing(
    keystream: Keystream, iv: seq<Byte>, image: Image, memory: Memory, places: seq<Place>, failures: nat, first: nat)
    requires image.Fits() && first + |places| == |image.blocks| && places != []
    requires HoldsPlaces(image, iv, places, failures, first) && (failures == 0 ==> first == 0)
    requires image.base !in memory
    ensures HoldsStart(memory, keystream, iv, image, first) && AllLateBy(places, first) <==> failures == 0
  {
    var plain := Plain(keystream, iv, image.blocks);
    if first > 0 {
      assert !HasByte(memory, image.base + 0, plain[..BLOCK_SIZE * first][0]);
    } else {
      assert plain[..0] == [];
      assert places[|places| - 1].failures == failures;
    }
  }

  /** Written into an erased flash, it does exactly if no attempt failed. */
  lemma {:induction false} ErasedImageInFlashExactly(
    keystream: Keystream, iv: seq<Byte>, image: Image, setup: seq<Event>, deliveries: seq<Event>)
    requires image.Fits() && image.blocks != [] && Prepared(setup, iv)
    requires forall e :: e in deliveries ==> Delivered(image, e)
    requires AcceptsImage(Run(setup + deliveries), image)
    requires Distinct(keystream, iv, Used(image, setup + deliveries))
    requires image.base !in Contents(keystream, setup)
    ensures HoldsImage(Contents(keystream, setup + deliveries), keystream, iv, image)
       <==> Count(setup + deliveries, false) == 0
  {
    var events := setup + deliveries;
    var first := AcceptedRun(iv, image, setup, deliveries);
    ChannelInFlash(keystream, iv, image, events, first);
    SetupIsErased(keystream, iv, image, setup, deliveries);
    NothingMissing(keystream, iv, image, Contents(keystream, setup), Places(events), Count(events, false), first);
  }

  /** So a decoder that leaves the firmware for an image written into an erased flash holds it exactly if no attempt
      failed. */
  lemma {:induction false} LeavesWithImageExactly(
    keystream: Keystream, iv: seq<Byte>, image: Image, setup: seq<Event>, deliveries: seq<Event>)
    requires image.Fits() && image.blocks != [] && Prepared(setup, iv) && !Verified(setup)
    requires forall e :: e in deliveries ==> Delivered(image, e) && NamesImage(image, e)
    requires ExitZsu in Calls(keystream, Run(setup + deliveries), Crc32ResultExit)
    requires Distinct(keystream, iv, Used(image, setup + deliveries))
    requires image.base !in Contents(keystream, setup)
    ensures HoldsImage(Contents(keystream, setup + deliveries), keystream, iv, image)
       <==> Count(setup + deliveries, false) == 0
  {
    ExitExactlyWhenVerified(keystream, setup + deliveries);
    VerifiedIsAccepted(iv, image, setup, deliveries);
    ErasedImageInFlashExactly(keystream, iv, image, setup, deliveries);
  }
}
