/** The command station side of the decoder search: the 1-Wire search over all decoders on the track. */
module TreeSearch {
  import opened BinaryTreeSearch
  import opened Receiver
  import opened SearchExchange
  import opened SearchTrack

  /** Bits 0 to 62 are searched; bit 63 of every id is clear. */
  const WIDTH: nat := 63

  ghost predicate ValidIds(ids: seq<Id>) {
    forall i :: 0 <= i < |ids| ==> !ids[i][WIDTH]
  }

  // ----- the order of discovery: bit 0 decides first

  ghost predicate DiffersAt(x: Id, y: Id, j: nat) {
    j < WIDTH && x[..j] == y[..j] && !x[j] && y[j]
  }

  /** `x` comes before `y`, decided within the first `depth` bits. */
  ghost predicate LessWithin(x: Id, y: Id, depth: nat) {
    exists j: nat :: j < depth && DiffersAt(x, y, j)
  }

  ghost predicate Less(x: Id, y: Id) {
    exists j: nat :: DiffersAt(x, y, j)
  }

  lemma {:induction false} LessOrEqualOrGreater(x: Id, y: Id, j: nat)
    requires !x[WIDTH] && !y[WIDTH] && j <= WIDTH && x[..j] == y[..j]
    ensures x == y || Less(x, y) || Less(y, x)
    decreases WIDTH - j
  {
    if j == WIDTH {
      assert x == x[..WIDTH] + [false] && y == y[..WIDTH] + [false];
    } else if x[j] == y[j] {
      assert x[..j + 1] == x[..j] + [x[j]] && y[..j + 1] == y[..j] + [y[j]];
      LessOrEqualOrGreater(x, y, j + 1);
    } else {
      assert DiffersAt(x, y, j) || DiffersAt(y, x, j);
    }
  }

  lemma {:induction false} LessIsTransitive(x: Id, y: Id, z: Id)
    requires Less(x, y) && Less(y, z)
    ensures Less(x, z)
  {
    var j: nat :| DiffersAt(x, y, j);
    var k: nat :| DiffersAt(y, z, k);
    var m := if j < k then j else k;
    assert x[..m] == x[..j][..m] == y[..m] && y[..m] == y[..k][..m] == z[..m];
    assert j < k ==> z[j] == z[..k][j] == y[..k][j];
    assert k < j ==> x[k] == x[..j][k] == y[..j][k];
    assert DiffersAt(x, z, m);
  }

  lemma {:induction false} LessIsStrict(x: Id, y: Id)
    requires Less(x, y)
    ensures !Less(y, x) && x != y
  {
    var j: nat :| DiffersAt(x, y, j);
    forall k: nat ensures !DiffersAt(y, x, k) {
      if j < k < WIDTH { assert x[..k][j] != y[..k][j]; }
      if k < j { assert x[..j][k] == y[..j][k]; }
    }
  }

  // ----- branches of the tree of ids

  /** Some id leaves the path to `c` at bit `k` towards one while `c` goes towards zero. */
  ghost predicate Branch(ids: seq<Id>, c: Id, k: nat)
    requires k < WIDTH
  {
    exists x :: x in ids && DiffersAt(c, x, k)
  }

  /** `last` is one past the deepest branch among the first `depth` bits of the path to `c`, or 0. */
  ghost predicate DeepestBranch(ids: seq<Id>, c: Id, last: nat, depth: nat)
    requires depth <= WIDTH
  {
    && last <= depth
    && (last > 0 ==> Branch(ids, c, last - 1))
    && forall k :: last <= k < depth ==> !Branch(ids, c, k)
  }

  /** Without a branch left, the id found is the greatest. */
  lemma {:induction false} NoBranchNoSuccessor(ids: seq<Id>, c: Id, x: Id)
    requires DeepestBranch(ids, c, 0, WIDTH) && x in ids
    ensures !Less(c, x)
  {
    if Less(c, x) {
      var j: nat :| DiffersAt(c, x, j);
      assert Branch(ids, c, j);
    }
  }

  /** How far a search pass has come: `id` is the path chosen over the first `i` bits, starting from the
      id `prev` of the previous pass whose deepest branch was `last`. */
  ghost predicate Pass(ids: seq<Id>, prev: Id, last: nat, id: Id, lastZero: nat, i: nat)
    requires i <= WIDTH && last <= WIDTH
  {
    && id[i..] == prev[i..]
    && (i < last ==> id[..i] == prev[..i])
    && (0 < last <= i ==> id[..last - 1] == prev[..last - 1] && id[last - 1])
    && (exists x :: x in ids && x[..i] == id[..i])
    && DeepestBranch(ids, id, lastZero, i)
    && (last <= i ==> forall x :: x in ids && x[..last] == id[..last] ==> x[..i] == id[..i] || LessWithin(id, x, i))
  }

  /** What the master reads at bit `i`: does some decoder still taking part have this bit set, or clear? */
  ghost predicate Reads(ids: seq<Id>, id: Id, i: nat, bit: bool)
    requires i < WIDTH
  {
    exists x :: x in ids && x[..i] == id[..i] && x[i] == bit
  }

  /** The direction the search takes, from the two bits read. */
  function Direction(idBit: bool, cmpIdBit: bool, number: nat, last: nat, id: Id): bool
    requires 0 < number <= WIDTH
  {
    if idBit != cmpIdBit then idBit
    else if number < last then id[number - 1]
    else number == last
  }

  function LastZero(idBit: bool, cmpIdBit: bool, number: nat, direction: bool, lastZero: nat): nat {
    if idBit == cmpIdBit && !direction then number else lastZero
  }

  /** Both bits cannot be silent, and the path chosen stays on the tree: the facts behind one bit of a pass. */
  lemma {:induction false} DirectionStaysOnTree(ids: seq<Id>, prev: Id, last: nat, id: Id, lastZero: nat, i: nat)
    requires i < WIDTH && last <= WIDTH && Pass(ids, prev, last, id, lastZero, i)
    requires last > 0 ==> prev in ids && Branch(ids, prev, last - 1)
    ensures Reads(ids, id, i, true) || Reads(ids, id, i, false)
    ensures var d := Direction(Reads(ids, id, i, true), Reads(ids, id, i, false), i + 1, last, id);
            && Reads(ids, id, i, d)
            && (i + 1 < last ==> d == prev[i])
            && (i + 1 == last ==> d)
  {
    var x :| x in ids && x[..i] == id[..i];
    assert Reads(ids, id, i, x[i]);
    if i + 1 < last {
      assert id[i] == prev[i] by { assert id[i..][0] == prev[i..][0]; }
      assert Reads(ids, id, i, prev[i]);
    } else if i + 1 == last {
      var y :| y in ids && DiffersAt(prev, y, i);
      assert Reads(ids, id, i, true);
    }
  }

  lemma {:induction false} BranchesOfPrefix(ids: seq<Id>, c: Id, d: Id, i: nat)
    requires i <= WIDTH && c[..i] == d[..i]
    ensures forall k :: 0 <= k < i ==> (Branch(ids, c, k) <==> Branch(ids, d, k))
  {
    forall k, x | 0 <= k < i ensures DiffersAt(c, x, k) <==> DiffersAt(d, x, k) {
      assert c[..k] == c[..i][..k] == d[..k] && c[k] == c[..i][k] == d[k];
    }
  }

  /** Taking one direction notes a branch exactly when both were open and zero was taken. */
  lemma {:induction false} StepNotesBranch(ids: seq<Id>, id: Id, lastZero: nat, i: nat, d: bool)
    requires i < WIDTH && DeepestBranch(ids, id, lastZero, i)
    requires Reads(ids, id, i, true) || Reads(ids, id, i, false)
    requires Reads(ids, id, i, d)
    ensures DeepestBranch(ids, id[i := d],
                          LastZero(Reads(ids, id, i, true), Reads(ids, id, i, false), i + 1, d, lastZero), i + 1)
  {
    var next := id[i := d];
    assert next[..i] == id[..i];
    BranchesOfPrefix(ids, id, next, i);
    assert Branch(ids, next, i) <==> !d && Reads(ids, id, i, true) by {
      if !d && Reads(ids, id, i, true) {
        var x :| x in ids && x[..i] == id[..i] && x[i];
        assert DiffersAt(next, x, i);
      }
    }
  }

  /** One bit of a pass. */
  lemma {:induction false} PassStep(ids: seq<Id>, prev: Id, last: nat, id: Id, lastZero: nat, i: nat)
    requires i < WIDTH && last <= WIDTH && Pass(ids, prev, last, id, lastZero, i)
    requires last > 0 ==> prev in ids && Branch(ids, prev, last - 1)
    ensures var one, zero := Reads(ids, id, i, true), Reads(ids, id, i, false);
            var d := Direction(one, zero, i + 1, last, id);
            (one || zero) && Pass(ids, prev, last, id[i := d], LastZero(one, zero, i + 1, d, lastZero), i + 1)
  {
    var one, zero := Reads(ids, id, i, true), Reads(ids, id, i, false);
    var d := Direction(one, zero, i + 1, last, id);
    var next := id[i := d];
    DirectionStaysOnTree(ids, prev, last, id, lastZero, i);
    StepNotesBranch(ids, id, lastZero, i, d);
    assert next[..i] == id[..i] && next[..i + 1] == id[..i] + [d];
    assert next[i + 1..] == id[i..][1..] == prev[i..][1..];
    assert prev[..i + 1] == prev[..i] + [prev[i]];
    var x :| x in ids && x[..i] == id[..i] && x[i] == d;
    assert x[..i + 1] == x[..i] + [d];
    if last <= i { PassStaysLeast(ids, prev, last, id, lastZero, i); }
    if 0 < last <= i { assert next[..last - 1] == id[..last - 1]; }
  }

  /** Below the old branch the pass keeps to the least ids. */
  lemma {:induction false} PassStaysLeast(ids: seq<Id>, prev: Id, last: nat, id: Id, lastZero: nat, i: nat)
    requires last <= i < WIDTH && Pass(ids, prev, last, id, lastZero, i)
    ensures var d := Direction(Reads(ids, id, i, true), Reads(ids, id, i, false), i + 1, last, id);
            forall x :: x in ids && x[..last] == id[i := d][..last] ==>
              x[..i + 1] == id[i := d][..i + 1] || LessWithin(id[i := d], x, i + 1)
  {
    var d := Direction(Reads(ids, id, i, true), Reads(ids, id, i, false), i + 1, last, id);
    var next := id[i := d];
    assert next[..i] == id[..i] && next[..last] == id[..last] && next[..i + 1] == id[..i] + [d];
    forall x | x in ids && x[..last] == next[..last]
      ensures x[..i + 1] == next[..i + 1] || LessWithin(next, x, i + 1)
    {
      if x[..i] == id[..i] {
        assert Reads(ids, id, i, x[i]);
        assert x[..i + 1] == x[..i] + [x[i]];
        assert x[i] != d ==> DiffersAt(next, x, i);
      } else {
        var j: nat :| j < i && DiffersAt(id, x, j);
        assert next[..j] == id[..j];
        assert DiffersAt(next, x, j);
      }
    }
  }

  // ----- what a whole pass finds

  /** A pass ends at an id of the population. */
  lemma {:induction false} PassFindsId(ids: seq<Id>, prev: Id, last: nat, id: Id, lastZero: nat)
    requires ValidIds(ids) && last <= WIDTH && Pass(ids, prev, last, id, lastZero, WIDTH) && !prev[WIDTH]
    ensures id in ids && !id[WIDTH]
  {
    var x :| x in ids && x[..WIDTH] == id[..WIDTH];
    assert id[WIDTH] == id[WIDTH..][0] == prev[WIDTH..][0];
    assert x == x[..WIDTH] + [x[WIDTH]] && id == id[..WIDTH] + [id[WIDTH]];
  }

  lemma LessWithinIsLess(x: Id, y: Id, depth: nat)
    requires LessWithin(x, y, depth)
    ensures Less(x, y)
  {
  }

  /** The first pass finds the least id. */
  lemma {:induction false} FirstPassFindsLeast(ids: seq<Id>, prev: Id, id: Id, lastZero: nat, x: Id)
    requires ValidIds(ids) && Pass(ids, prev, 0, id, lastZero, WIDTH) && !prev[WIDTH] && x in ids
    ensures x == id || Less(id, x)
  {
    PassFindsId(ids, prev, 0, id, lastZero);
    assert x[..0] == id[..0];
    if x[..WIDTH] == id[..WIDTH] { LessOrEqualOrGreater(x, id, WIDTH); }
    else { LessWithinIsLess(id, x, WIDTH); }
  }

  /** Every later pass finds the successor of the id before. */
  lemma {:induction false} PassFindsSuccessor(ids: seq<Id>, prev: Id, last: nat, id: Id, lastZero: nat, x: Id)
    requires ValidIds(ids) && 0 < last <= WIDTH && Pass(ids, prev, last, id, lastZero, WIDTH)
    requires prev in ids && !prev[WIDTH] && DeepestBranch(ids, prev, last, WIDTH)
    requires x in ids
    ensures Less(prev, id)
    ensures Less(prev, x) ==> x == id || Less(id, x)
  {
    PassFindsId(ids, prev, last, id, lastZero);
    var b := last - 1;
    assert !prev[b] by { var y :| y in ids && DiffersAt(prev, y, b); }
    assert DiffersAt(prev, id, b);
    if Less(prev, x) {
      var j: nat :| DiffersAt(prev, x, j);
      assert Branch(ids, prev, j);
      if j < b {
        assert id[..j] == id[..b][..j] == prev[..j] && id[j] == id[..b][j] == prev[j];
        assert DiffersAt(id, x, j);
      } else {
        assert x[..last] == x[..b] + [true] && id[..last] == id[..b] + [true];
        if x[..WIDTH] == id[..WIDTH] { LessOrEqualOrGreater(x, id, WIDTH); }
        else { LessWithinIsLess(id, x, WIDTH); }
      }
    }
  }

  // ----- the search itself

  ghost predicate Ascending(found: seq<Id>) {
    forall i, j :: 0 <= i < j < |found| ==> Less(found[i], found[j])
  }

  /** Between passes: all ids up to the last one found are listed, and `last` is its deepest branch. */
  ghost predicate Listed(ids: seq<Id>, found: seq<Id>, last: nat) {
    && last <= WIDTH && found != [] && Ascending(found)
    && (forall x :: x in found ==> x in ids)
    && var c := found[|found| - 1];
       && DeepestBranch(ids, c, last, WIDTH)
       && forall x :: x in ids ==> x in found || Less(c, x)
  }

  lemma {:induction false} FirstPassLists(ids: seq<Id>, prev: Id, id: Id, lastZero: nat)
    requires ValidIds(ids) && Pass(ids, prev, 0, id, lastZero, WIDTH) && !prev[WIDTH]
    ensures Listed(ids, [id], lastZero)
  {
    PassFindsId(ids, prev, 0, id, lastZero);
    forall x | x in ids ensures x in [id] || Less(id, x) {
      FirstPassFindsLeast(ids, prev, id, lastZero, x);
    }
  }

  lemma {:induction false} PassLists(ids: seq<Id>, found: seq<Id>, last: nat, id: Id, lastZero: nat)
    requires ValidIds(ids) && Listed(ids, found, last) && last > 0
    requires Pass(ids, found[|found| - 1], last, id, lastZero, WIDTH)
    ensures Listed(ids, found + [id], lastZero) && id !in found
  {
    var prev := found[|found| - 1];
    assert prev in ids;
    PassFindsId(ids, prev, last, id, lastZero);
    PassFindsSuccessor(ids, prev, last, id, lastZero, id);
    forall i | 0 <= i < |found| ensures Less(found[i], id) && found[i] != id {
      if i < |found| - 1 { LessIsTransitive(found[i], prev, id); }
      LessIsStrict(found[i], id);
    }
    forall x | x in ids ensures x in found + [id] || Less(id, x) {
      if x !in found { PassFindsSuccessor(ids, prev, last, id, lastZero, x); }
    }
  }

  /** Between two passes, the first one included. */
  ghost predicate Between(ids: seq<Id>, found: seq<Id>, prev: Id, last: nat) {
    if found == [] then last == 0
    else last > 0 && Listed(ids, found, last) && prev == found[|found| - 1]
  }

  /** The id a pass finds is the next in the list. */
  lemma {:induction false} NextIsListed(
    ids: seq<Id>, found: seq<Id>, prev: Id, last: nat, id: Id, lastZero: nat)
    requires ValidIds(ids) && last <= WIDTH && !prev[WIDTH] && Between(ids, found, prev, last)
    requires Pass(ids, prev, last, id, lastZero, WIDTH)
    ensures Listed(ids, found + [id], lastZero) && !id[WIDTH] && id in ids && id !in found
  {
    PassFindsId(ids, prev, last, id, lastZero);
    if found == [] {
      FirstPassLists(ids, prev, id, lastZero);
      assert found + [id] == [id];
    } else {
      PassLists(ids, found, last, id, lastZero);
    }
  }

  lemma {:induction false} ListedIsComplete(ids: seq<Id>, found: seq<Id>, x: Id)
    requires Listed(ids, found, 0)
    ensures x in found <==> x in ids
  {
    if x in ids { NoBranchNoSuccessor(ids, found[|found| - 1], x); }
  }

  ghost function Missing(ids: seq<Id>, found: seq<Id>): set<Id> {
    set x | x in ids && x !in found
  }

  lemma {:induction false} OneLessMissing(ids: seq<Id>, found: seq<Id>, id: Id)
    requires id in ids && id !in found
    ensures |Missing(ids, found + [id])| < |Missing(ids, found)|
  {
    assert Missing(ids, found + [id]) == Missing(ids, found) - {id};
  }

  /** What is listed in the end are the numbers of the decoders. */
  lemma {:induction false} AllListed(decoders: seq<Base>, found: seq<Id>)
    requires forall d :: 0 <= d < |decoders| ==> decoders[d].cfg.Valid()
    requires Listed(Numbers(decoders), found, 0)
    ensures forall x :: x in found <==> exists d :: 0 <= d < |decoders| && IsNumberOf(x, decoders[d].cfg)
  {
    NumbersJoin(decoders);
    forall x ensures x in found <==> x in Numbers(decoders) {
      ListedIsComplete(Numbers(decoders), found, x);
    }
  }

  // ----- what the commands make of the decoders taking part

  ghost predicate OnPath(ids: seq<Id>, ignoring: seq<bool>, id: Id, i: nat)
    requires i <= WIDTH
  {
    |ignoring| == |ids| && forall d :: 0 <= d < |ids| ==> (ignoring[d] <==> ids[d][..i] != id[..i])
  }

  /** A bit is heard iff a decoder on the path has it, and nobody drops out. */
  lemma {:induction false} BitIsRead(ids: seq<Id>, was: seq<bool>, id: Id, pos: nat, bit: bool)
    requires pos < WIDTH && OnPath(ids, was, id, pos)
    ensures var command := pos + if bit then 0 else 64;
            Any(ids, was, |ids|, command) == Reads(ids, id, pos, bit) && After(ids, was, |ids|, command) == was
  {
    var command := pos + if bit then 0 else 64;
    AnyIsOne(ids, was, |ids|, command);
    forall d | 0 <= d < |ids|
      ensures Answer(was[d], ids[d], command) <==> ids[d][..pos] == id[..pos] && ids[d][pos] == bit
    {
    }
    if Reads(ids, id, pos, bit) {
      var x :| x in ids && x[..pos] == id[..pos] && x[pos] == bit;
      var d :| 0 <= d < |ids| && ids[d] == x;
      assert Answer(was[d], ids[d], command);
    }
    if Any(ids, was, |ids|, command) {
      var d :| 0 <= d < |ids| && Answer(was[d], ids[d], command);
      assert ids[d] in ids;
    }
  }

  /** Told the direction, the decoders off the longer path drop out. */
  lemma {:induction false} OthersDropOut(ids: seq<Id>, was: seq<bool>, id: Id, pos: nat)
    requires pos < WIDTH && OnPath(ids, was, id, pos)
    ensures OnPath(ids, After(ids, was, |ids|, pos + if !id[pos] then 128 else 192), id, pos + 1)
  {
    var now := After(ids, was, |ids|, pos + if !id[pos] then 128 else 192);
    forall d | 0 <= d < |ids| ensures now[d] <==> ids[d][..pos + 1] != id[..pos + 1] {
      assert ids[d][..pos + 1] == ids[d][..pos] + [ids[d][pos]] && id[..pos + 1] == id[..pos] + [id[pos]];
    }
  }

  /** The command station. */
  class CommandStation {
    const track: Track
    var foundIds: seq<Id>

    constructor (track: Track)
      ensures this.track == track && foundIds == []
    {
      this.track, foundIds := track, [];
    }

    ghost predicate Valid()
      reads track, track.tx, track.objects
    {
      track.Valid() && this !in track.objects
    }

    /** The decoders still taking part are those on the path to `id` down to bit `i`. */
    ghost predicate Searching(id: Id, i: nat)
      requires i <= WIDTH
      reads track
    {
      OnPath(track.ids, track.ignoring, id, i)
    }

    method Reset(ghost id: Id)
      requires Valid()
      modifies track, track.tx, track.objects
      ensures Valid() && Searching(id, 0)
    {
      var _ := track.Broadcast(SEARCH_RESET);
    }

    method ReadBit(pos: nat, bit: bool, ghost id: Id) returns (ack: bool)
      requires Valid() && pos < WIDTH && Searching(id, pos)
      modifies track, track.tx, track.objects
      ensures ack == Reads(track.ids, id, pos, bit)
      ensures Valid() && Searching(id, pos)
    {
      BitIsRead(track.ids, track.ignoring, id, pos, bit);
      ack := track.Broadcast(pos + if bit then 0 else 64);
    }

    method SetSearchDirection(pos: nat, bit: bool, ghost id: Id)
      requires Valid() && pos < WIDTH && Searching(id, pos) && id[pos] == bit
      modifies track, track.tx, track.objects
      ensures Valid() && Searching(id, pos + 1)
    {
      OthersDropOut(track.ids, track.ignoring, id, pos);
      var _ := track.Broadcast(pos + if !bit then 128 else 192);
    }

    /** One pass over all bits, steered by the id found before and its deepest branch. */
    method SearchPass(prev: Id, lastDiscrepancy: nat) returns (id: Id, lastZero: nat)
      requires Valid() && track.ids != [] && lastDiscrepancy <= WIDTH
      requires lastDiscrepancy > 0 ==> prev in track.ids && Branch(track.ids, prev, lastDiscrepancy - 1)
      modifies track, track.tx, track.objects
      ensures Valid() && Pass(track.ids, prev, lastDiscrepancy, id, lastZero, WIDTH)
    {
      id, lastZero := prev, 0;
      Reset(id);
      assert track.ids[0] in track.ids && track.ids[0][..0] == id[..0];
      for idBitNumber := 1 to 64
        invariant Pass(track.ids, prev, lastDiscrepancy, id, lastZero, idBitNumber - 1)
        invariant Valid() && Searching(id, idBitNumber - 1)
      {
        id, lastZero := SearchBit(idBitNumber, lastDiscrepancy, id, lastZero, prev);
      }
    }

    /** One turn of the loop over the bits: read the bit and its complement, choose, tell the decoders. */
    method SearchBit(idBitNumber: nat, lastDiscrepancy: nat, id: Id, lastZero: nat, ghost prev: Id)
      returns (next: Id, nextZero: nat)
      requires Valid() && 1 <= idBitNumber <= WIDTH && lastDiscrepancy <= WIDTH
      requires lastDiscrepancy > 0 ==> prev in track.ids && Branch(track.ids, prev, lastDiscrepancy - 1)
      requires Pass(track.ids, prev, lastDiscrepancy, id, lastZero, idBitNumber - 1)
      requires Searching(id, idBitNumber - 1)
      modifies track, track.tx, track.objects
      ensures Pass(track.ids, prev, lastDiscrepancy, next, nextZero, idBitNumber)
      ensures Valid() && Searching(next, idBitNumber)
    {
      var i := idBitNumber - 1;
      var idBit, cmpIdBit := ReadBits(i, id);
      var searchDirection;
      searchDirection, nextZero := Choose(idBit, cmpIdBit, idBitNumber, lastDiscrepancy, id, lastZero, track.ids, prev);
      next := id[i := searchDirection];
      SetDirection(i, searchDirection, id);
    }

    /** The bit and its complement. */
    method ReadBits(i: nat, ghost id: Id) returns (idBit: bool, cmpIdBit: bool)
      requires Valid() && i < WIDTH && Searching(id, i)
      modifies track, track.tx, track.objects
      ensures Valid() && Searching(id, i)
      ensures idBit == Reads(track.ids, id, i, true) && cmpIdBit == Reads(track.ids, id, i, false)
    {
      idBit := ReadBit(i, true, id);
      cmpIdBit := ReadBit(i, false, id);
    }

    /** The direction; the bit and its complement cannot both be silent. */
    static method Choose(idBit: bool, cmpIdBit: bool, idBitNumber: nat, lastDiscrepancy: nat, id: Id, lastZero: nat,
                         ghost ids: seq<Id>, ghost prev: Id) returns (searchDirection: bool, nextZero: nat)
      requires 1 <= idBitNumber <= WIDTH && lastDiscrepancy <= WIDTH
      requires lastDiscrepancy > 0 ==> prev in ids && Branch(ids, prev, lastDiscrepancy - 1)
      requires Pass(ids, prev, lastDiscrepancy, id, lastZero, idBitNumber - 1)
      requires idBit == Reads(ids, id, idBitNumber - 1, true) && cmpIdBit == Reads(ids, id, idBitNumber - 1, false)
      ensures Pass(ids, prev, lastDiscrepancy, id[idBitNumber - 1 := searchDirection], nextZero, idBitNumber)
    {
      PassStep(ids, prev, lastDiscrepancy, id, lastZero, idBitNumber - 1);
      assert idBit || cmpIdBit;
      nextZero := lastZero;
      if idBit != cmpIdBit {
        searchDirection := idBit;
      } else {
        searchDirection :=
          if idBitNumber < lastDiscrepancy then id[idBitNumber - 1] else idBitNumber == lastDiscrepancy;
        if !searchDirection { nextZero := idBitNumber; }
      }
    }

    method SetDirection(i: nat, searchDirection: bool, ghost id: Id)
      requires Valid() && i < WIDTH && Searching(id, i)
      modifies track, track.tx, track.objects
      ensures Valid() && Searching(id[i := searchDirection], i + 1)
    {
      assert id[i := searchDirection][..i] == id[..i];
      SetSearchDirection(i, searchDirection, id[i := searchDirection]);
    }

    /** One turn of the loop over the passes: the next id is listed. */
    method NextId(prev: Id, lastDiscrepancy: nat) returns (id: Id, lastZero: nat)
      requires Valid() && track.ids != [] && ValidIds(track.ids) && lastDiscrepancy <= WIDTH && !prev[WIDTH]
      requires Between(track.ids, foundIds, prev, lastDiscrepancy)
      modifies this, track, track.tx, track.objects
      ensures Valid() && !id[WIDTH] && foundIds == old(foundIds) + [id] && Listed(track.ids, foundIds, lastZero)
      ensures id in track.ids && id !in old(foundIds)
    {
      id, lastZero := SearchPass(prev, lastDiscrepancy);
      NextIsListed(track.ids, foundIds, prev, lastDiscrepancy, id, lastZero);
      foundIds := foundIds + [id];
    }

    /** The whole search over the track: it ends, and lists the number of every decoder exactly once, decoder id above
        serial number, in ascending order, and nothing else. */
    method OneWireSearch()
      requires Valid() && track.decoders != [] && ValidIds(track.ids) && foundIds == []
      modifies this, track, track.tx, track.objects
      ensures Ascending(foundIds)
      ensures forall x :: x in foundIds
                     <==> exists d :: 0 <= d < |track.decoders| && IsNumberOf(x, track.decoders[d].cfg)
    {
      var id: Id := seq(64, _ => false);
      var lastDiscrepancy: nat := 0;
      var lastDevice := false;

      while !lastDevice
        invariant Valid() && lastDiscrepancy <= WIDTH && !id[WIDTH]
        invariant if lastDevice then Listed(track.ids, foundIds, 0)
                  else Between(track.ids, foundIds, id, lastDiscrepancy)
        decreases |Missing(track.ids, foundIds)|, !lastDevice
      {
        ghost var found := foundIds;
        id, lastDiscrepancy := NextId(id, lastDiscrepancy);
        OneLessMissing(track.ids, found, id);
        if lastDiscrepancy == 0 { lastDevice := true; }
      }
      AllListed(track.decoders, foundIds);
    }
  }

  /** A search over decoders just switched on. */
  method SearchNewTrack(cfgs: seq<Config>, env: Environment) returns (found: seq<Id>)
    requires cfgs != [] && forall d :: 0 <= d < |cfgs| ==> cfgs[d].Valid() && !cfgs[d].Number()[WIDTH]
    ensures Ascending(found)
    ensures forall x :: x in found <==> exists d :: 0 <= d < |cfgs| && IsNumberOf(x, cfgs[d])
  {
    var tx := NewTransmitter();
    ghost var objects;
    var decoders;
    decoders, objects := NewDecoders(tx, cfgs);
    var track := new Track(tx, decoders, env, objects, seq(|decoders|, _ => true));
    var station := new CommandStation(track);
    station.OneWireSearch();
    found := station.foundIds;
  }
}
