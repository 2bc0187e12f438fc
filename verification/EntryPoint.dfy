/** The helper that recognises the update entry sequences among DCC CV verify commands. */
module EntryPoint {
  import opened Bytes

  datatype Verify = Verify(cvAddr: nat, byte: Byte)

  datatype Hook = ZppEntry | ZsuEntry

  /** Serial number and decoder id are four bytes each, most significant first. */
  datatype Config = Config(serialNumber: seq<Byte>, decoderId: seq<Byte>) {
    ghost predicate Valid() {
      |serialNumber| == 4 && |decoderId| == 4
    }
  }

  const MAX_SIZE: nat := 9

  /** Four bytes verified against CV105 and CV106 in turn; addresses count from 0. */
  function Sequence(bytes: seq<Byte>): (r: seq<Verify>)
    requires |bytes| == 4
    ensures |r| == 4
  {
    [Verify(104, bytes[0]), Verify(105, bytes[1]), Verify(104, bytes[2]), Verify(105, bytes[3])]
  }

  function ZppSequence(): (r: seq<Verify>)
    ensures |r| == 4
  {
    Sequence([0xAA, 0x55, 0x55, 0xAA])
  }

  function ZeroSequence(): (r: seq<Verify>)
    ensures |r| == 4
  {
    Sequence([0x00, 0x00, 0x00, 0x00])
  }

  const ZPP_START: Verify := Verify(7, 0xFE)
  const ZSU_START: Verify := Verify(7, 0xFF)

  predicate IsCvAddr(cvAddr: nat) {
    cvAddr == 7 || cvAddr == 104 || cvAddr == 105
  }

  // ----- the entry words

  /** The sequences that enter an update: a start, four fixed or id values, four serial number values; zeros stand for
      anyone. */
  ghost predicate IsWord(cfg: Config, hook: Hook, w: seq<Verify>)
    requires cfg.Valid()
  {
    && |w| == MAX_SIZE
    && (w[5..] == Sequence(cfg.serialNumber) || w[5..] == ZeroSequence())
    && match hook
       case ZppEntry => w[0] == ZPP_START && w[1..5] == ZppSequence()
       case ZsuEntry => w[0] == ZSU_START && (w[1..5] == Sequence(cfg.decoderId) || w[1..5] == ZeroSequence())
  }

  ghost predicate IsPrefix(cfg: Config, p: seq<Verify>)
    requires cfg.Valid()
  {
    exists hook, w :: IsWord(cfg, hook, w) && p <= w
  }

  /** Whether a call repeats the one before. */
  predicate Repeats(deque: seq<Verify>, v: Verify) {
    deque != [] && deque[|deque| - 1] == v
  }

  /** What the recogniser remembers after a call: the longest word beginning, or nothing. */
  ghost function Remember(cfg: Config, deque: seq<Verify>, v: Verify): seq<Verify>
    requires cfg.Valid()
  {
    if !IsCvAddr(v.cvAddr) then []
    else if Repeats(deque, v) then deque
    else if IsPrefix(cfg, deque + [v]) then deque + [v]
    else []
  }

  /** Whether a call completes a word. */
  ghost predicate Fires(cfg: Config, deque: seq<Verify>, v: Verify, hook: Hook)
    requires cfg.Valid()
  {
    IsCvAddr(v.cvAddr) && !Repeats(deque, v) && IsWord(cfg, hook, deque + [v])
  }

  /** Every part of a word past its start is verified at CV105 or CV106, in turn. */
  lemma {:induction false} WordAddresses(cfg: Config, hook: Hook, w: seq<Verify>, i: nat)
    requires cfg.Valid() && IsWord(cfg, hook, w) && i < |w|
    ensures w[i].cvAddr == if i == 0 then 7 else if i % 2 == 1 then 104 else 105
  {
    assert 0 < i < 5 ==> w[i] == w[1..5][i - 1];
    assert i >= 5 ==> w[i] == w[5..][i - 5];
  }

  /** Five calls and four, each by its value; CV8 first, then CV105 and CV106 in turn, counted from 0. */
  predicate Spells(w: seq<Verify>, values: seq<Byte>)
    requires |w| == 9 && |values| == 9
  {
    && w[0] == Verify(7, values[0])
    && w[1] == Verify(104, values[1]) && w[2] == Verify(105, values[2])
    && w[3] == Verify(104, values[3]) && w[4] == Verify(105, values[4])
    && w[5] == Verify(104, values[5]) && w[6] == Verify(105, values[6])
    && w[7] == Verify(104, values[7]) && w[8] == Verify(105, values[8])
  }

  lemma {:induction false} SpellsHalves(w: seq<Verify>, start: Byte, half: seq<Byte>, number: seq<Byte>)
    requires |w| == 9 && |half| == |number| == 4
    ensures Spells(w, [start] + half + number)
       <==> w[0] == Verify(7, start) && w[1..5] == Sequence(half) && w[5..] == Sequence(number)
  {
    var values := [start] + half + number;
    assert values[1..5] == half && values[5..] == number;
    forall i | 0 <= i < 4 ensures w[1..5][i] == w[i + 1] && w[5..][i] == w[i + 5] && values[i + 1] == half[i] {
      assert values[i + 1] == values[1..5][i];
    }
    forall i | 0 <= i < 4 ensures values[i + 5] == number[i] {
      assert values[i + 5] == values[5..][i];
    }
  }

  /** Both words call by call: 254, 170, 85, 85, 170 and the serial number or zeros for a project; 255, the decoder id
      or zeros and the serial number or zeros for the firmware. */
  lemma {:induction false} WordsInNumbers(cfg: Config, w: seq<Verify>)
    requires cfg.Valid() && |w| == 9
    ensures IsWord(cfg, ZppEntry, w)
       <==> || Spells(w, [254] + [170, 85, 85, 170] + cfg.serialNumber)
            || Spells(w, [254] + [170, 85, 85, 170] + [0, 0, 0, 0])
    ensures IsWord(cfg, ZsuEntry, w)
       <==> || Spells(w, [255] + cfg.decoderId + cfg.serialNumber)
            || Spells(w, [255] + cfg.decoderId + [0, 0, 0, 0])
            || Spells(w, [255] + [0, 0, 0, 0] + cfg.serialNumber)
            || Spells(w, [255] + [0, 0, 0, 0] + [0, 0, 0, 0])
  {
    SpellsHalves(w, 254, [170, 85, 85, 170], cfg.serialNumber);
    SpellsHalves(w, 254, [170, 85, 85, 170], [0, 0, 0, 0]);
    SpellsHalves(w, 255, cfg.decoderId, cfg.serialNumber);
    SpellsHalves(w, 255, cfg.decoderId, [0, 0, 0, 0]);
    SpellsHalves(w, 255, [0, 0, 0, 0], cfg.serialNumber);
    SpellsHalves(w, 255, [0, 0, 0, 0], [0, 0, 0, 0]);
  }

  // ----- the conditions of the code, which look at one half of a word only

  predicate Begins(part: seq<Verify>, whole: seq<Verify>) {
    |part| <= |whole| && part == whole[..|part|]
  }

  /** The half under way: the first up to five calls, the second from then on. */
  predicate ZppFits(cfg: Config, deque: seq<Verify>)
    requires |cfg.serialNumber| == 4 && deque != []
  {
    if |deque| <= 5 then Begins(deque[1..], ZppSequence())
    else Begins(deque[5..], Sequence(cfg.serialNumber)) || Begins(deque[5..], ZeroSequence())
  }

  predicate ZsuFits(cfg: Config, deque: seq<Verify>)
    requires |cfg.serialNumber| == 4 && |cfg.decoderId| == 4 && deque != []
  {
    if |deque| <= 5 then Begins(deque[1..], Sequence(cfg.decoderId)) || Begins(deque[1..], ZeroSequence())
    else Begins(deque[5..], Sequence(cfg.serialNumber)) || Begins(deque[5..], ZeroSequence())
  }

  /** A start and a fitting first half followed by zeros are a word. */
  lemma ZerosComplete(cfg: Config, hook: Hook, half: seq<Verify>)
    requires cfg.Valid() && |half| == 4
    requires hook == ZppEntry ==> half == ZppSequence()
    requires hook == ZsuEntry ==> half == Sequence(cfg.decoderId) || half == ZeroSequence()
    ensures IsWord(cfg, hook, [StartOf(hook)] + half + ZeroSequence())
  {
    var w := [StartOf(hook)] + half + ZeroSequence();
    assert w[1..5] == half && w[5..] == ZeroSequence();
  }

  lemma {:induction false} FirstHalfExtends(cfg: Config, hook: Hook, d: seq<Verify>, half: seq<Verify>)
    requires cfg.Valid() && 1 <= |d| <= 5 && |half| == 4 && Begins(d[1..], half) && d[0] == StartOf(hook)
    requires hook == ZppEntry ==> half == ZppSequence()
    requires hook == ZsuEntry ==> half == Sequence(cfg.decoderId) || half == ZeroSequence()
    ensures IsPrefix(cfg, d)
  {
    ZerosComplete(cfg, hook, half);
    var w := [StartOf(hook)] + half + ZeroSequence();
    assert d == [d[0]] + half[..|d| - 1];
    assert d == w[..|d|];
  }

  lemma {:induction false} SecondHalfExtends(cfg: Config, d: seq<Verify>, v: Verify, half: seq<Verify>)
    requires cfg.Valid() && 5 <= |d| < MAX_SIZE && IsPrefix(cfg, d) && |half| == 4 && Begins((d + [v])[5..], half)
    requires half == Sequence(cfg.serialNumber) || half == ZeroSequence()
    ensures IsPrefix(cfg, d + [v])
    ensures forall hook :: |d| + 1 == MAX_SIZE && d[0] == StartOf(hook) ==> IsWord(cfg, hook, d + [v])
  {
    var hook, u :| IsWord(cfg, hook, u) && d <= u;
    var e := d + [v];
    var w := u[..5] + half;
    assert w[5..] == half && w[0] == u[0] && w[1..5] == u[1..5];
    assert IsWord(cfg, hook, w);
    assert e == d[..5] + e[5..] && d[..5] == u[..5];
    assert e == w[..|e|];
  }

  function StartOf(hook: Hook): Verify {
    if hook == ZppEntry then ZPP_START else ZSU_START
  }

  /** A word's beginning passes the code's test for its start. */
  lemma {:induction false} PrefixFits(cfg: Config, d: seq<Verify>)
    requires cfg.Valid() && d != [] && IsPrefix(cfg, d)
    ensures |d| <= MAX_SIZE && (d[0] == ZPP_START || d[0] == ZSU_START)
    ensures d[0] == ZPP_START ==> ZppFits(cfg, d)
    ensures d[0] == ZSU_START ==> ZsuFits(cfg, d)
  {
    var hook, w :| IsWord(cfg, hook, w) && d <= w;
    assert d == w[..|d|];
    if |d| <= 5 {
      assert d[1..] == w[1..5][..|d| - 1];
    } else {
      assert d[5..] == w[5..][..|d| - 5];
    }
  }

  /** With a proper beginning before it, a call passes the code's test exactly if the beginning goes on. */
  lemma {:induction false} FitsIffPrefix(cfg: Config, d: seq<Verify>, v: Verify)
    requires cfg.Valid() && |d| < MAX_SIZE && (d == [] || IsPrefix(cfg, d))
    ensures var e := d + [v];
            IsPrefix(cfg, e) <==> (e[0] == ZPP_START && ZppFits(cfg, e)) || (e[0] == ZSU_START && ZsuFits(cfg, e))
  {
    var e := d + [v];
    if IsPrefix(cfg, e) {
      PrefixFits(cfg, e);
    } else if |e| <= 5 {
      if e[0] == ZPP_START && ZppFits(cfg, e) { FirstHalfExtends(cfg, ZppEntry, e, ZppSequence()); }
      if e[0] == ZSU_START && Begins(e[1..], Sequence(cfg.decoderId)) {
        FirstHalfExtends(cfg, ZsuEntry, e, Sequence(cfg.decoderId));
      }
      if e[0] == ZSU_START && Begins(e[1..], ZeroSequence()) { FirstHalfExtends(cfg, ZsuEntry, e, ZeroSequence()); }
    } else {
      if Begins(e[5..], Sequence(cfg.serialNumber)) { SecondHalfExtends(cfg, d, v, Sequence(cfg.serialNumber)); }
      if Begins(e[5..], ZeroSequence()) { SecondHalfExtends(cfg, d, v, ZeroSequence()); }
    }
  }

  /** Nine calls of a beginning are a word. */
  lemma {:induction false} FullPrefixIsWord(cfg: Config, d: seq<Verify>)
    requires cfg.Valid() && |d| == MAX_SIZE && IsPrefix(cfg, d)
    ensures forall hook :: IsWord(cfg, hook, d) <==> d[0] == StartOf(hook)
  {
    var hook, w :| IsWord(cfg, hook, w) && d <= w;
    assert d == w;
  }

  class Point {
    const cfg: Config
    var deque: seq<Verify>
    var hooks: seq<Hook>

    constructor (cfg: Config)
      requires cfg.Valid()
      ensures this.cfg == cfg && deque == [] && hooks == [] && Valid()
    {
      this.cfg, deque, hooks := cfg, [], [];
    }

    ghost predicate Valid()
      reads this
    {
      cfg.Valid() && (deque == [] || IsPrefix(cfg, deque))
    }

    /** One DCC CV verify; a word that is complete must not be extended. */
    method VerifyCv(v: Verify)
      requires Valid()
      requires |deque| < MAX_SIZE || !IsCvAddr(v.cvAddr) || Repeats(deque, v)
      modifies this
      ensures Valid() && deque == Remember(cfg, old(deque), v)
      ensures hooks == old(hooks) + if Fires(cfg, old(deque), v, ZppEntry) then [ZppEntry]
                                    else if Fires(cfg, old(deque), v, ZsuEntry) then [ZsuEntry]
                                    else []
    {
      // Not what we're looking for
      if !IsCvAddr(v.cvAddr) {
        deque := [];
        return;
      }
      // Repetitions
      if |deque| > 0 && deque[|deque| - 1] == v { return; }

      FitsIffPrefix(cfg, deque, v);
      deque := deque + [v];
      if IsPrefix(cfg, deque) && |deque| == MAX_SIZE { FullPrefixIsWord(cfg, deque); }
      WordIsPrefix(cfg, deque);

      if deque[0] == ZPP_START {
        if ZppFits(cfg, deque) {
          if |deque| == MAX_SIZE { hooks := hooks + [ZppEntry]; }
          return;
        }
      } else if deque[0] == ZSU_START {
        if ZsuFits(cfg, deque) {
          if |deque| == MAX_SIZE { hooks := hooks + [ZsuEntry]; }
          return;
        }
      }
      deque := [];
    }
  }

  lemma WordIsPrefix(cfg: Config, d: seq<Verify>)
    requires cfg.Valid()
    ensures forall hook :: IsWord(cfg, hook, d) ==> IsPrefix(cfg, d)
  {
  }
}
