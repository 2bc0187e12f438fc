/** What a sound project update session guarantees over every command sequence. */
module ZppProofs {
  import opened Addresses
  import opened Bytes
  import opened FlashMemory
  import opened Zpp

  // ----- whole sequences

  /** Every command of the sequence is defined where it comes. */
  ghost predicate AllDefined(events: seq<Event>) {
    events == [] ||
    (&& AllDefined(events[..|events| - 1])
     && Defined(Run(events[..|events| - 1]), events[|events| - 1].cmd))
  }

  function Run(events: seq<Event>): Session {
    if events == [] then POWER_UP
    else Execute(Run(events[..|events| - 1]), events[|events| - 1])
  }

  // ----- a reference history of what was sent and how it was answered

  datatype Written = Written(addr: Address, bytes: seq<Byte>)

  /** Whether a project is valid, the first address tried and the pieces accepted since the last clear, and whether the
      latest end command that had pieces to confirm confirmed them. */
  datatype History = History(valid: bool, tried: Option<Address>, pieces: seq<Written>, confirmed: bool)

  predicate FollowsOn(pieces: seq<Written>, addr: Address) {
    pieces == [] || addr == EndOf(pieces)
  }

  function EndOf(pieces: seq<Written>): Address
    requires pieces != []
  {
    var last := pieces[|pieces| - 1];
    Advance(last.addr, |last.bytes|)
  }

  /** What clears: an erase, an end command that names the range, an exit that erases; all but the exit need a valid
      project. */
  predicate Clears(h: History, cmd: Command) {
    match cmd
    case Erase(_, _) => h.valid
    case UpdateEnd(begin, end) => h.valid && h.tried == Some(begin) && h.pieces != [] && end == EndOf(h.pieces)
    case Exit(_) => h.tried != None && !h.confirmed
    case _ => false
  }

  predicate Accepts(h: History, e: Event) {
    h.valid && e.cmd.Update? && e.success && FollowsOn(h.pieces, e.cmd.addr)
  }

  function After(h: History, e: Event): History {
    History(if e.cmd.ValidQuery? then e.success else h.valid,
            if Clears(h, e.cmd) then None
            else if h.valid && e.cmd.Update? && h.tried == None then Some(e.cmd.addr)
            else h.tried,
            if Clears(h, e.cmd) then []
            else if Accepts(h, e) then h.pieces + [Written(e.cmd.addr, e.cmd.bytes)]
            else h.pieces,
            if h.valid && e.cmd.Erase? then false
            else if h.valid && e.cmd.UpdateEnd? && h.pieces != [] then Clears(h, e.cmd)
            else h.confirmed)
  }

  function HistoryOf(events: seq<Event>): History {
    if events == [] then History(false, None, [], false)
    else After(HistoryOf(events[..|events| - 1]), events[|events| - 1])
  }

  /** The session's few fields say exactly what the history says. */
  ghost predicate Tells(s: Session, h: History) {
    && s.zppValid == h.valid
    && s.firstAddr == h.tried
    && s.lastAddr == (if h.pieces == [] then None else Some(EndOf(h.pieces)))
    && s.addrsValid == h.confirmed
    && (h.pieces != [] ==> h.tried != None)
  }

  lemma {:induction false} SessionTellsHistory(events: seq<Event>)
    ensures Tells(Run(events), HistoryOf(events))
  {
    if events != [] {
      SessionTellsHistory(events[..|events| - 1]);
    }
  }

  // ----- the flash

  /** What a call does to the flash; one that fails leaves it as it is. */
  function Effect(memory: Memory, call: Call, success: bool): Memory {
    match call
    case EraseZpp(begin, end) => if success then Erased(memory, begin, end) else memory
    case WriteZpp(addr, bytes) => if success then Stored(memory, addr, bytes) else memory
    case _ => memory
  }

  /** The calls of a command in turn; those of an exit fail up to the last. */
  function Effects(memory: Memory, calls: seq<Call>, e: Event): Memory {
    if calls == [] then memory
    else
      var n := |calls| - 1;
      Effect(Effects(memory, calls[..n], e), calls[n], if e.cmd.Exit? then n == e.failures else e.success)
  }

  /** What the calls made by a whole sequence leave in an empty flash. */
  function Contents(events: seq<Event>): Memory {
    if events == [] then map[]
    else
      var before, e := events[..|events| - 1], events[|events| - 1];
      if Defined(Run(before), e.cmd) then Effects(Contents(before), Calls(Run(before), e), e) else Contents(before)
  }

  /** What the flash held right after the last clear. */
  function AtClear(events: seq<Event>): Memory {
    if events == [] then map[]
    else if Clears(HistoryOf(events[..|events| - 1]), events[|events| - 1].cmd) then Contents(events)
    else AtClear(events[..|events| - 1])
  }

  function Concat(pieces: seq<Written>): seq<Byte> {
    if pieces == [] then [] else Concat(pieces[..|pieces| - 1]) + pieces[|pieces| - 1].bytes
  }

  /** Pieces on top of what was there before. */
  function Patched(memory: Memory, pieces: seq<Written>): Memory {
    if pieces == [] then memory else Stored(memory, pieces[0].addr, Concat(pieces))
  }

  lemma EffectOfOne(memory: Memory, call: Call, e: Event)
    requires !e.cmd.Exit?
    ensures Effects(memory, [call], e) == Effect(memory, call, e.success)
  {
    assert [call][..0] == [];
    assert Effects(memory, [call][..0], e) == memory;
  }

  /** Erasing until it succeeds is erasing once. */
  lemma {:induction false} ErasedInTheEnd(memory: Memory, begin: Address, end: Address, e: Event, n: nat)
    requires e.cmd.Exit? && n <= e.failures + 1
    ensures Effects(memory, Repeat(EraseZpp(begin, end), n), e)
         == if n == e.failures + 1 then Erased(memory, begin, end) else memory
  {
    if n > 0 {
      assert Repeat(EraseZpp(begin, end), n)[..n - 1] == Repeat(EraseZpp(begin, end), n - 1);
      ErasedInTheEnd(memory, begin, end, e, n - 1);
    }
  }

  /** The pieces accepted adjoin. */
  lemma {:induction false} PiecesAdjoin(events: seq<Event>)
    ensures var pieces := HistoryOf(events).pieces;
            pieces != [] ==> EndOf(pieces) == Advance(pieces[0].addr, |Concat(pieces)|)
  {
    if events != [] {
      var before, e := events[..|events| - 1], events[|events| - 1];
      PiecesAdjoin(before);
      var pieces := HistoryOf(before).pieces;
      if Accepts(HistoryOf(before), e) {
        assert (pieces + [Written(e.cmd.addr, e.cmd.bytes)])[..|pieces|] == pieces;
        if pieces != [] { AdvanceTwice(pieces[0].addr, |Concat(pieces)|, |e.cmd.bytes|); }
      }
    }
  }

  /** One more piece goes where the others end. */
  lemma {:induction false} PatchedSnoc(memory: Memory, pieces: seq<Written>, w: Written)
    requires pieces != [] ==> w.addr == EndOf(pieces) == Advance(pieces[0].addr, |Concat(pieces)|)
    ensures Patched(memory, pieces + [w]) == Stored(Patched(memory, pieces), w.addr, w.bytes)
  {
    assert (pieces + [w])[..|pieces|] == pieces;
    if pieces != [] {
      StoredConcat(memory, pieces[0].addr, Concat(pieces), w.bytes);
    } else {
      assert Concat(pieces + [w]) == w.bytes;
    }
  }

  /** The effect of one command, by the history before it. */
  lemma {:induction false} ContentsStep(before: seq<Event>, e: Event)
    ensures var h, memory := HistoryOf(before), Contents(before);
            Contents(before + [e])
            == if Accepts(h, e) then Stored(memory, e.cmd.addr, e.cmd.bytes)
               else if h.valid && e.cmd.Erase? && e.success then Erased(memory, e.cmd.begin, e.cmd.end)
               else if e.cmd.Exit? && h.tried.Some? && h.pieces != [] && !h.confirmed
                 then Erased(memory, h.tried.value, EndOf(h.pieces))
               else memory
  {
    SessionTellsHistory(before);
    var s, memory := Run(before), Contents(before);
    assert (before + [e])[..|before|] == before;
    if e.cmd.Exit? {
      if Defined(s, e.cmd) { ExitEffects(memory, s, e); }
    } else {
      OtherEffects(memory, s, e);
      assert e.cmd.Update? ==> (Continues(s, e.cmd.addr) <==> FollowsOn(HistoryOf(before).pieces, e.cmd.addr));
    }
  }

  lemma {:induction false} ExitEffects(memory: Memory, s: Session, e: Event)
    requires e.cmd.Exit? && Defined(s, e.cmd)
    ensures Effects(memory, Calls(s, e), e)
         == if Leaves(s) then memory else Erased(memory, s.firstAddr.value, s.lastAddr.value)
  {
    if Leaves(s) {
      assert [ExitZpp(e.cmd.resetCvs)][..0] == [];
      assert Effects(memory, [], e) == memory;
    } else {
      ErasedInTheEnd(memory, s.firstAddr.value, s.lastAddr.value, e, e.failures + 1);
    }
  }

  lemma {:induction false} OtherEffects(memory: Memory, s: Session, e: Event)
    requires !e.cmd.Exit?
    ensures Effects(memory, Calls(s, e), e)
         == if s.zppValid && e.success && e.cmd.Update? && Continues(s, e.cmd.addr)
              then Stored(memory, e.cmd.addr, e.cmd.bytes)
            else if s.zppValid && e.success && e.cmd.Erase? then Erased(memory, e.cmd.begin, e.cmd.end)
            else memory
  {
    if Calls(s, e) != [] {
      assert Calls(s, e) == [Calls(s, e)[0]];
      EffectOfOne(memory, Calls(s, e)[0], e);
    }
  }

  /** Over every command sequence the flash holds exactly the pieces accepted since the last clear, one after the other,
      on top of what was there at that clear. */
  lemma {:induction false} ContentsTellHistory(events: seq<Event>)
    ensures Contents(events) == Patched(AtClear(events), HistoryOf(events).pieces)
  {
    if events != [] {
      var before, e := events[..|events| - 1], events[|events| - 1];
      assert events == before + [e];
      ContentsTellHistory(before);
      ContentsStep(before, e);
      SessionTellsHistory(before);
      if Accepts(HistoryOf(before), e) {
        PiecesAdjoin(before);
        PatchedSnoc(AtClear(before), HistoryOf(before).pieces, Written(e.cmd.addr, e.cmd.bytes));
      }
    }
  }

  /** An erase that succeeds in a valid project erases the range it names and nothing else; any other changes
      nothing. */
  lemma {:induction false} EraseErases(events: seq<Event>, e: Event, a: Address)
    requires e.cmd.Erase?
    ensures var memory, after := Contents(events), Contents(events + [e]);
            && (a in after <==> a in memory && !(HistoryOf(events).valid && e.success && e.cmd.begin <= a < e.cmd.end))
            && (a in after ==> after[a] == memory[a])
  {
    ContentsStep(events, e);
  }

  // ----- leaving

  /** An exit reads a missing address exactly when something was tried since the last clear, nothing was accepted,
      and no range is confirmed. */
  lemma {:induction false} ExitUndefinedExactly(events: seq<Event>, resetCvs: bool)
    ensures var h := HistoryOf(events);
            !Defined(Run(events), Exit(resetCvs)) <==> h.tried != None && h.pieces == [] && !h.confirmed
  {
    SessionTellsHistory(events);
  }

  /** An exit leaves exactly with a confirmed range, or with nothing tried since the last clear. */
  lemma {:induction false} ExitExactly(events: seq<Event>, e: Event)
    requires e.cmd.Exit? && Defined(Run(events), e.cmd)
    ensures var h := HistoryOf(events);
            ExitZpp(e.cmd.resetCvs) in Calls(Run(events), e) <==> h.confirmed || h.tried == None
  {
    SessionTellsHistory(events);
  }

  /** An exit leaves with pieces in the flash that no end command confirmed exactly when an earlier range was confirmed
      and pieces were accepted since. */
  lemma {:induction false} ExitKeepsUnconfirmedExactly(events: seq<Event>, e: Event)
    requires e.cmd.Exit? && Defined(Run(events), e.cmd)
    ensures var h := HistoryOf(events);
            && Contents(events) == Patched(AtClear(events), h.pieces)
            && (ExitZpp(e.cmd.resetCvs) in Calls(Run(events), e) && h.pieces != [] <==> h.confirmed && h.pieces != [])
            && (ExitZpp(e.cmd.resetCvs) in Calls(Run(events), e) ==> Contents(events + [e]) == Contents(events))
  {
    SessionTellsHistory(events);
    ContentsTellHistory(events);
    ContentsStep(events, e);
  }

  /** A range written and confirmed, and then another piece written. */
  function WrittenAfterEnd(zppId: seq<Byte>, flashSize: nat, a: Written, b: Written): seq<Event> {
    [Event(ValidQuery(zppId, flashSize), true, 0),
     Event(Update(a.addr, a.bytes), true, 0),
     Event(UpdateEnd(a.addr, EndOf([a])), true, 0),
     Event(Update(b.addr, b.bytes), true, 0)]
  }

  /** Two pieces written, the second one as the first since a clear. */
  lemma {:induction false} ContentsOfTwo(before: seq<Event>, first: Event, between: Event, second: Event)
    requires Contents(before) == map[] && Accepts(HistoryOf(before), first)
    requires between.cmd.UpdateEnd? && Accepts(HistoryOf(before + [first] + [between]), second)
    ensures Contents(before + [first] + [between] + [second])
         == Stored(Stored(map[], first.cmd.addr, first.cmd.bytes), second.cmd.addr, second.cmd.bytes)
  {
    ContentsStep(before, first);
    ContentsStep(before + [first], between);
    ContentsStep(before + [first] + [between], second);
  }

  lemma {:induction false} ContentsOfQuery(e: Event)
    requires e.cmd.ValidQuery?
    ensures Contents([e]) == map[]
  {
    ContentsStep([], e);
    assert [] + [e] == [e];
  }

  lemma {:induction false} HistoryAfterEnd(zppId: seq<Byte>, flashSize: nat, a: Written, b: Written)
    ensures var events := WrittenAfterEnd(zppId, flashSize, a, b);
            && HistoryOf([events[0]]) == History(true, None, [], false)
            && HistoryOf([events[0]] + [events[1]] + [events[2]]) == History(true, None, [], true)
            && HistoryOf(events) == History(true, Some(b.addr), [b], true)
  {
    var events := WrittenAfterEnd(zppId, flashSize, a, b);
    var e0, e1, e2 := events[0], events[1], events[2];
    var one, two, three := [e0], [e0] + [e1], [e0] + [e1] + [e2];
    assert events[..3] == three && three[..2] == two && two[..1] == one && one[..0] == [];
    assert HistoryOf(one) == History(true, None, [], false);
    assert HistoryOf(two) == History(true, Some(a.addr), [a], false);
    assert HistoryOf(three) == History(true, None, [], true);
  }

  /** Which happens: the exit then leaves with the last piece in the flash and unconfirmed. */
  lemma {:induction false} WritesAfterEndAreKept(zppId: seq<Byte>, flashSize: nat, a: Written, b: Written,
                                                 resetCvs: bool)
    ensures var events := WrittenAfterEnd(zppId, flashSize, a, b);
            && Defined(Run(events), Exit(resetCvs))
            && ExitZpp(resetCvs) in Calls(Run(events), Event(Exit(resetCvs), true, 0))
            && HistoryOf(events).pieces == [b]
            && Contents(events) == Stored(Stored(map[], a.addr, a.bytes), b.addr, b.bytes)
  {
    var events := WrittenAfterEnd(zppId, flashSize, a, b);
    HistoryAfterEnd(zppId, flashSize, a, b);
    ExitUndefinedExactly(events, resetCvs);
    ExitKeepsUnconfirmedExactly(events, Event(Exit(resetCvs), true, 0));
    ContentsOfQuery(events[0]);
    ContentsOfTwo([events[0]], events[1], events[2], events[3]);
    assert [events[0]] + [events[1]] + [events[2]] + [events[3]] == events;
  }

  /** Every other exit erases: the whole range from the first address tried to the end of the last piece accepted. */
  lemma {:induction false} ExitErasesRange(events: seq<Event>, e: Event)
    requires e.cmd.Exit? && Defined(Run(events), e.cmd) && ExitZpp(e.cmd.resetCvs) !in Calls(Run(events), e)
    ensures var h := HistoryOf(events);
            && h.tried.Some? && h.pieces != []
            && Calls(Run(events), e) == Repeat(EraseZpp(h.tried.value, EndOf(h.pieces)), e.failures + 1)
            && HistoryOf(events + [e]).pieces == []
            && Contents(events + [e]) == Erased(Contents(events), h.tried.value, EndOf(h.pieces))
  {
    SessionTellsHistory(events);
    ContentsStep(events, e);
    assert (events + [e])[..|events|] == events;
    ExitExactly(events, e);
  }

  /** That state is reached by a validated project whose first block cannot be written. */
  lemma FailedFirstWriteLeavesNoExit(zppId: seq<Byte>, flashSize: nat, addr: Address, bytes: seq<Byte>, resetCvs: bool)
    ensures var events := [Event(ValidQuery(zppId, flashSize), true, 0), Event(Update(addr, bytes), false, 0)];
            AllDefined(events) && !Defined(Run(events), Exit(resetCvs))
  {
    var events := [Event(ValidQuery(zppId, flashSize), true, 0), Event(Update(addr, bytes), false, 0)];
    var first := events[..1];
    assert first == [events[0]] && first[..0] == [];
    assert AllDefined(first[..0]) && Run(first[..0]) == POWER_UP;
    assert AllDefined(first) && Run(first) == POWER_UP.(zppValid := true);
  }

  // ----- an image sent over a channel that loses, repeats and reorders

  datatype Image = Image(base: Address, bytes: seq<Byte>) {
    ghost predicate Fits() {
      base + |bytes| < ADDRESS_SPACE
    }

    function At(offset: nat): Address
      requires Fits() && offset <= |bytes|
    {
      base + offset
    }
  }

  /** Any piece of the image, whether or not the flash takes it, and any other command short of leaving. */
  ghost predicate Delivered(image: Image, e: Event)
    requires image.Fits()
  {
    match e.cmd
    case Update(addr, bytes) =>
      exists from, to :: 0 <= from <= to <= |image.bytes| && addr == image.At(from) && bytes == image.bytes[from..to]
    case Exit(_) => false
    case _ => true
  }

  /** Pieces that follow on one another and make up the image between two offsets. */
  ghost predicate HoldsPieces(image: Image, flash: seq<Written>, from: nat, to: nat)
    requires image.Fits()
  {
    && from <= to <= |image.bytes|
    && Concat(flash) == image.bytes[from..to]
    && forall i :: 0 <= i < |flash| ==> flash[i].addr == image.base + from + |Concat(flash[..i])|
  }

  /** What the pieces accepted over such a channel are. */
  ghost predicate ChannelInv(image: Image, pieces: seq<Written>, from: nat, to: nat)
    requires image.Fits()
  {
    && HoldsPieces(image, pieces, from, to)
    && (pieces != [] ==> pieces[0].addr == image.At(from) && EndOf(pieces) == image.At(to))
  }

  lemma {:induction false} WriteStep(image: Image, flash: seq<Written>, from: nat, to: nat, next: nat)
    requires image.Fits() && HoldsPieces(image, flash, from, to) && to <= next <= |image.bytes|
    ensures HoldsPieces(image, flash + [Written(image.At(to), image.bytes[to..next])], from, next)
  {
    var more := flash + [Written(image.At(to), image.bytes[to..next])];
    assert more[..|flash|] == flash;
    assert image.bytes[from..next] == image.bytes[from..to] + image.bytes[to..next];
    forall i | 0 <= i < |more| ensures more[i].addr == image.base + from + |Concat(more[..i])| {
      if i < |flash| { assert more[..i] == flash[..i]; }
    }
  }

  /** A piece that continues the run is appended to it. */
  lemma {:induction false} PieceStep(image: Image, pieces: seq<Written>, from: nat, to: nat, next: nat)
    requires image.Fits() && ChannelInv(image, pieces, from, to) && to <= next <= |image.bytes|
    requires pieces == [] ==> from == to
    ensures ChannelInv(image, pieces + [Written(image.At(to), image.bytes[to..next])], from, next)
  {
    WriteStep(image, pieces, from, to, next);
    AdvanceWithin(image.At(to), next - to);
  }

  /** An empty run may start anywhere in the image. */
  lemma {:induction false} EmptyRun(image: Image, start: nat)
    requires image.Fits() && start <= |image.bytes|
    ensures ChannelInv(image, [], start, start)
  {
    assert Concat([]) == image.bytes[start..start];
  }

  /** One delivery continues the run, clears it or leaves it as it is. */
  lemma {:induction false} DeliveryStep(image: Image, h: History, e: Event, from: nat, to: nat)
    returns (nextFrom: nat, nextTo: nat)
    requires image.Fits() && Delivered(image, e) && ChannelInv(image, h.pieces, from, to)
    ensures ChannelInv(image, After(h, e).pieces, nextFrom, nextTo)
  {
    nextFrom, nextTo := from, to;
    if Clears(h, e.cmd) {
      EmptyRun(image, from);
      nextTo := from;
    } else if Accepts(h, e) {
      var f, t :| 0 <= f <= t <= |image.bytes| && e.cmd.addr == image.At(f) && e.cmd.bytes == image.bytes[f..t];
      if h.pieces == [] {
        EmptyRun(image, f);
        nextFrom := f;
      }
      PieceStep(image, h.pieces, nextFrom, f, t);
      nextTo := t;
    }
  }

  /** Nothing accepted since the last clear. */
  ghost predicate Prepared(setup: seq<Event>) {
    Run(setup).lastAddr == None
  }

  lemma {:induction false} ChannelKeeps(image: Image, setup: seq<Event>, deliveries: seq<Event>)
    returns (from: nat, to: nat)
    requires image.Fits() && Prepared(setup)
    requires forall e :: e in deliveries ==> Delivered(image, e)
    ensures ChannelInv(image, HistoryOf(setup + deliveries).pieces, from, to)
  {
    if deliveries == [] {
      assert setup + deliveries == setup;
      SessionTellsHistory(setup);
      from, to := 0, 0;
      EmptyRun(image, 0);
    } else {
      var front, e := deliveries[..|deliveries| - 1], deliveries[|deliveries| - 1];
      var before := setup + front;
      assert setup + deliveries == before + [e] && (before + [e])[..|before|] == before;
      from, to := ChannelKeeps(image, setup, front);
      from, to := DeliveryStep(image, HistoryOf(before), e, from, to);
    }
  }

  /** The end command for the range of the whole image. */
  function EndOfImage(image: Image, success: bool): Event
    requires image.Fits()
  {
    Event(UpdateEnd(image.base, image.At(|image.bytes|)), success, 0)
  }

  /** What an end command for the image's range finds. */
  lemma {:induction false} EndFinds(s: Session, h: History, begin: Address, end: Address, success: bool)
    requires Tells(s, h)
    ensures EndZpp in Calls(s, Event(UpdateEnd(begin, end), success, 0))
       <==> h.valid && h.tried == Some(begin) && h.pieces != [] && EndOf(h.pieces) == end
  {
  }

  /** A run of pieces up to the image's last byte is the whole image exactly if it starts at the first. */
  lemma {:induction false} RunToEnd(image: Image, pieces: seq<Written>, from: nat, to: nat)
    requires image.Fits() && ChannelInv(image, pieces, from, to)
    requires pieces != [] && EndOf(pieces) == image.At(|image.bytes|)
    ensures HoldsPieces(image, pieces, from, |image.bytes|)
    ensures Concat(pieces) == image.bytes <==> pieces[0].addr == image.base
  {
    assert to == |image.bytes|;
    WholeFromFirst(image, from);
  }

  /** What the pieces are when endZpp is called for the image's range. */
  lemma {:induction false} EndedRun(image: Image, setup: seq<Event>, deliveries: seq<Event>, success: bool)
    returns (from: nat)
    requires image.Fits() && Prepared(setup)
    requires forall e :: e in deliveries ==> Delivered(image, e)
    requires EndZpp in Calls(Run(setup + deliveries), EndOfImage(image, success))
    ensures var h := HistoryOf(setup + deliveries);
            && h.pieces != [] && h.tried == Some(image.base)
            && HoldsPieces(image, h.pieces, from, |image.bytes|) && h.pieces[0].addr == image.base + from
  {
    var events := setup + deliveries;
    var to;
    from, to := ChannelKeeps(image, setup, deliveries);
    SessionTellsHistory(events);
    EndFinds(Run(events), HistoryOf(events), image.base, image.At(|image.bytes|), success);
    RunToEnd(image, HistoryOf(events).pieces, from, to);
  }

  /** Whatever the channel lost, repeated or reordered: once endZpp is called for the image's range, the pieces written
      follow on one another up to its last byte, and they are the whole image exactly if the first address tried was the
      first one written. */
  lemma {:induction false} EndedImageIsCompleteExactly(image: Image, setup: seq<Event>, deliveries: seq<Event>,
                                                       success: bool)
    requires image.Fits() && Prepared(setup)
    requires forall e :: e in deliveries ==> Delivered(image, e)
    requires EndZpp in Calls(Run(setup + deliveries), EndOfImage(image, success))
    ensures var pieces := HistoryOf(setup + deliveries).pieces;
            && pieces != []
            && (exists from :: HoldsPieces(image, pieces, from, |image.bytes|))
            && (Concat(pieces) == image.bytes <==> HistoryOf(setup + deliveries).tried == Some(pieces[0].addr))
  {
    var from := EndedRun(image, setup, deliveries, success);
    WholeFromFirst(image, from);
  }

  /** The flash then holds the whole image exactly if what lies before the first piece written was there already at the
      last clear. */
  lemma {:induction false} EndedImageInFlashExactly(image: Image, setup: seq<Event>, deliveries: seq<Event>,
                                                    success: bool)
    requires image.Fits() && Prepared(setup)
    requires forall e :: e in deliveries ==> Delivered(image, e)
    requires EndZpp in Calls(Run(setup + deliveries), EndOfImage(image, success))
    ensures var events := setup + deliveries;
            var pieces := HistoryOf(events).pieces;
            && pieces != []
            && var first := pieces[0].addr - image.base;
            && 0 <= first <= |image.bytes|
            && (Has(Contents(events), image.base, image.bytes)
                <==> Has(AtClear(events), image.base, image.bytes[..first]))
  {
    var from := EndedRun(image, setup, deliveries, success);
    ContentsTellHistory(setup + deliveries);
    RunInFlash(AtClear(setup + deliveries), image, HistoryOf(setup + deliveries).pieces, from);
  }

  /** A run of pieces up to the image's last byte makes the flash hold the image if it holds what comes before. */
  lemma {:induction false} RunInFlash(memory: Memory, image: Image, pieces: seq<Written>, from: nat)
    requires image.Fits() && pieces != [] && HoldsPieces(image, pieces, from, |image.bytes|)
    requires pieces[0].addr == image.base + from
    ensures Has(Patched(memory, pieces), image.base, image.bytes) <==> Has(memory, image.base, image.bytes[..from])
  {
    assert image.bytes[from..|image.bytes|] == image.bytes[from..];
    HasStored(memory, image.base, image.bytes, from, Concat(pieces));
  }

  lemma {:induction false} WholeFromFirst(image: Image, from: nat)
    requires from <= |image.bytes|
    ensures image.bytes[from..|image.bytes|] == image.bytes <==> from == 0
  {
    assert |image.bytes[from..|image.bytes|]| == |image.bytes| - from;
    assert image.bytes[0..|image.bytes|] == image.bytes;
  }

  /** While no write fails, the first address tried is the first one written. */
  lemma {:induction false} TriedIsWritten(setup: seq<Event>, deliveries: seq<Event>)
    requires Run(setup).firstAddr == None && Run(setup).lastAddr == None
    requires forall e :: e in deliveries ==> !e.cmd.Exit? && (e.cmd.Update? ==> e.success)
    ensures var h := HistoryOf(setup + deliveries);
            h.tried == if h.pieces == [] then None else Some(h.pieces[0].addr)
  {
    if deliveries == [] {
      assert setup + deliveries == setup;
      SessionTellsHistory(setup);
    } else {
      var front, e := deliveries[..|deliveries| - 1], deliveries[|deliveries| - 1];
      var before := setup + front;
      assert setup + deliveries == before + [e] && (before + [e])[..|before|] == before;
      TriedIsWritten(setup, front);
    }
  }

  /** So if no write fails, endZpp is called for the image's range only when the pieces are the whole image, in order,
      and the flash holds it. */
  lemma {:induction false} EndedImageIsComplete(image: Image, setup: seq<Event>, deliveries: seq<Event>, success: bool)
    requires image.Fits() && Prepared(setup) && Run(setup).firstAddr == None
    requires forall e :: e in deliveries ==> Delivered(image, e) && (e.cmd.Update? ==> e.success)
    requires EndZpp in Calls(Run(setup + deliveries), EndOfImage(image, success))
    ensures HoldsPieces(image, HistoryOf(setup + deliveries).pieces, 0, |image.bytes|)
    ensures Has(Contents(setup + deliveries), image.base, image.bytes)
  {
    var pieces := HistoryOf(setup + deliveries).pieces;
    EndedImageIsCompleteExactly(image, setup, deliveries, success);
    TriedIsWritten(setup, deliveries);
    var from :| HoldsPieces(image, pieces, from, |image.bytes|);
    WholeFromFirst(image, from);
    assert pieces[0].addr == image.base + from + |Concat(pieces[..0])|;
    EndedImageInFlashExactly(image, setup, deliveries, success);
  }

  /** A first write that fails, and another that does not. */
  function FailedThenWritten(zppId: seq<Byte>, flashSize: nat, a: Written, b: Written): seq<Event> {
    [Event(ValidQuery(zppId, flashSize), true, 0),
     Event(Update(a.addr, a.bytes), false, 0),
     Event(Update(b.addr, b.bytes), true, 0)]
  }

  lemma {:induction false} FailedAddressStays(zppId: seq<Byte>, flashSize: nat, a: Written, b: Written)
    ensures var events := FailedThenWritten(zppId, flashSize, a, b);
            && HistoryOf([events[0]] + [events[1]]) == History(true, Some(a.addr), [], false)
            && HistoryOf(events) == History(true, Some(a.addr), [b], false) && Acks(Run(events[..1]), events[1])
  {
    var events := FailedThenWritten(zppId, flashSize, a, b);
    var one, two := [events[0]], [events[0]] + [events[1]];
    assert events[..2] == two && two[..1] == one && events[..1] == one && one[..0] == [];
    assert HistoryOf(one) == History(true, None, [], false);
    assert HistoryOf(two) == History(true, Some(a.addr), [], false);
    SessionTellsHistory(one);
  }

  lemma {:induction false} OnlySecondWritten(zppId: seq<Byte>, flashSize: nat, a: Written, b: Written)
    ensures Contents(FailedThenWritten(zppId, flashSize, a, b)) == Stored(map[], b.addr, b.bytes)
  {
    var events := FailedThenWritten(zppId, flashSize, a, b);
    FailedAddressStays(zppId, flashSize, a, b);
    ContentsOfQuery(events[0]);
    ContentsStep([events[0]], events[1]);
    ContentsStep([events[0]] + [events[1]], events[2]);
    assert [events[0]] + [events[1]] + [events[2]] == events;
  }

  /** A failed first write does let endZpp be called with that piece missing: the address tried stays. */
  lemma {:induction false} FailedFirstWriteEndsGap(zppId: seq<Byte>, flashSize: nat, image: Image, k: nat,
                                                   success: bool)
    requires image.Fits() && 0 < k <= |image.bytes|
    ensures var a, b := Written(image.base, image.bytes[..k]), Written(image.At(k), image.bytes[k..]);
            var events := FailedThenWritten(zppId, flashSize, a, b);
            && EndZpp in Calls(Run(events), EndOfImage(image, success))
            && Contents(events) == Stored(map[], b.addr, b.bytes)
            && Acks(Run(events[..1]), events[1])
  {
    var a, b := Written(image.base, image.bytes[..k]), Written(image.At(k), image.bytes[k..]);
    FailedAddressStays(zppId, flashSize, a, b);
    AdvanceWithin(image.At(k), |image.bytes| - k);
    LastPieceEnds(FailedThenWritten(zppId, flashSize, a, b), a.addr, b, image.At(|image.bytes|), success);
    OnlySecondWritten(zppId, flashSize, a, b);
  }

  lemma {:induction false} LastPieceEnds(events: seq<Event>, begin: Address, b: Written, end: Address, success: bool)
    requires HistoryOf(events) == History(true, Some(begin), [b], false) && Advance(b.addr, |b.bytes|) == end
    ensures EndZpp in Calls(Run(events), Event(UpdateEnd(begin, end), success, 0))
  {
    SessionTellsHistory(events);
    EndFinds(Run(events), HistoryOf(events), begin, end, success);
  }

  lemma AdvanceWithin(addr: Address, n: nat)
    requires addr + n < ADDRESS_SPACE
    ensures Advance(addr, n) == addr + n
  {
  }

  // ----- what is called and answered, by the history

  /** When each call is made, over every command sequence; the addresses and bytes are those of the command. */
  lemma {:induction false} CalledExactly(events: seq<Event>, e: Event, call: Call)
    requires Defined(Run(events), e.cmd)
    ensures var h := HistoryOf(events);
            call in Calls(Run(events), e)
            <==> match call
                 case ZppValid(zppId, flashSize) => e.cmd == ValidQuery(zppId, flashSize)
                 case LoadCodeValid(developerCode) => h.valid && e.cmd == LcDcQuery(developerCode)
                 case EraseZpp(begin, end) =>
                   || (h.valid && e.cmd == Erase(begin, end))
                   || (&& e.cmd.Exit? && !h.confirmed && h.tried == Some(begin)
                       && h.pieces != [] && EndOf(h.pieces) == end)
                 case WriteZpp(addr, bytes) => h.valid && e.cmd == Update(addr, bytes) && FollowsOn(h.pieces, addr)
                 case EndZpp => e.cmd.UpdateEnd? && Clears(h, e.cmd)
                 case ExitZpp(resetCvs) => e.cmd == Exit(resetCvs) && (h.confirmed || h.tried == None)
    ensures |Calls(Run(events), e)| <= if e.cmd.Exit? then e.failures + 1 else 1
  {
    SessionTellsHistory(events);
    if e.cmd.Exit? && !Leaves(Run(events)) {
      var erase := EraseZpp(Run(events).firstAddr.value, Run(events).lastAddr.value);
      assert Repeat(erase, e.failures + 1)[0] == erase;
    }
  }

  /** When the decoder answers in channel 2: before a project is valid always, to a hook that fails, to a range that
      does not match, and to a piece that leaves a gap, but to none that starts before the end of those accepted. */
  lemma {:induction false} AnsweredExactly(events: seq<Event>, e: Event)
    requires Defined(Run(events), e.cmd)
    ensures var h := HistoryOf(events);
            Acks(Run(events), e)
            <==> match e.cmd
                 case ValidQuery(_, _) => !e.success
                 case Exit(_) => !h.confirmed && h.tried != None
                 case Update(addr, _) =>
                   !h.valid || (if FollowsOn(h.pieces, addr) then !e.success else EndOf(h.pieces) < addr)
                 case UpdateEnd(_, _) => !h.valid || (h.pieces != [] && (!Clears(h, e.cmd) || !e.success))
                 case Other => !h.valid
                 case _ => !h.valid || !e.success
  {
    SessionTellsHistory(events);
  }

  /** Each piece starts where those before it end. */
  lemma {:induction false} PieceAt(events: seq<Event>, i: nat)
    requires i < |HistoryOf(events).pieces|
    ensures var pieces := HistoryOf(events).pieces;
            pieces[i].addr == Advance(pieces[0].addr, |Concat(pieces[..i])|)
            && |Concat(pieces[..i])| + |pieces[i].bytes| <= |Concat(pieces)|
  {
    var before, e := events[..|events| - 1], events[|events| - 1];
    var pieces, all := HistoryOf(before).pieces, HistoryOf(events).pieces;
    PiecesAdjoin(before);
    if Accepts(HistoryOf(before), e) { assert all[..|pieces|] == pieces; }
    if i < |pieces| {
      PieceAt(before, i);
      assert all[..i] == pieces[..i];
    } else {
      assert all[..i] == pieces;
    }
  }

  /** So a piece that was accepted since the last clear is neither written nor answered when it comes again, provided it
      is not empty and the pieces do not wrap around the end of the address space. */
  lemma {:induction false} AcceptedPieceIsQuiet(events: seq<Event>, i: nat, success: bool)
    requires HistoryOf(events).valid && i < |HistoryOf(events).pieces| && HistoryOf(events).pieces[i].bytes != []
    requires HistoryOf(events).pieces[0].addr + |Concat(HistoryOf(events).pieces)| < ADDRESS_SPACE
    ensures var piece := HistoryOf(events).pieces[i];
            var e := Event(Update(piece.addr, piece.bytes), success, 0);
            Calls(Run(events), e) == [] && !Acks(Run(events), e)
  {
    var pieces := HistoryOf(events).pieces;
    PieceAt(events, i);
    PiecesAdjoin(events);
    AdvanceWithin(pieces[0].addr, |Concat(pieces)|);
    AdvanceWithin(pieces[0].addr, |Concat(pieces[..i])|);
    SessionTellsHistory(events);
  }

  // ----- repeated commands

  /** A repeated update changes nothing; it is written a second time iff its block ends where it began. */
  lemma {:induction false} RepeatedUpdate(s: Session, e: Event, again: Event)
    requires s.zppValid && e.cmd.Update? && e.success && Continues(s, e.cmd.addr)
    requires again.cmd == e.cmd && again.success
    ensures Execute(Execute(s, e), again) == Execute(s, e)
    ensures Calls(Execute(s, e), again) == [] <==> |e.cmd.bytes| % ADDRESS_SPACE != 0
  {
    var addr, n := e.cmd.addr, |e.cmd.bytes|;
    assert Advance(addr, n) == addr <==> n % ADDRESS_SPACE == 0 by {
      AdvanceReturns(addr, n);
    }
  }

  lemma AdvanceReturns(addr: Address, n: nat)
    ensures Advance(addr, n) == addr <==> n % ADDRESS_SPACE == 0
  {
    var q, r := n / ADDRESS_SPACE, n % ADDRESS_SPACE;
    assert addr + n == q * ADDRESS_SPACE + (addr + r);
    if addr + r < ADDRESS_SPACE {
      assert (addr + n) / ADDRESS_SPACE == q;
    } else {
      assert (addr + n) / ADDRESS_SPACE == q + 1;
    }
  }

  /** A repeated end command changes nothing and calls nothing, and always answers that all is well:
      a failure of endZpp is reported once and never again. */
  lemma RepeatedEnd(s: Session, e: Event, again: Event)
    requires s.zppValid && e.cmd.UpdateEnd? && AddressesMatch(s, e.cmd.begin, e.cmd.end) && again.cmd == e.cmd
    ensures Execute(Execute(s, e), again) == Execute(s, e)
    ensures Calls(Execute(s, e), again) == [] && !Acks(Execute(s, e), again)
    ensures Acks(s, e) <==> !e.success
  {
  }
}
