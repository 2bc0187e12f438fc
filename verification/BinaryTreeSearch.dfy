/** The decoder side of the search for connected decoders: an automaton with one bit of memory. */
module BinaryTreeSearch {
  /** A 64-bit number by its bits, bit 0 (the least significant) first. */
  type Id = w: seq<bool> | |w| == 64 witness seq(64, _ => false)

  const SEARCH_RESET: nat := 255

  /** The answer to a search command. */
  function Answer(ignore: bool, number: Id, pos: nat): bool {
    if pos == SEARCH_RESET then true
    else if ignore then false
    else if pos <= 62 then number[pos]
    else if 64 <= pos <= 64 + 62 then !number[pos - 64]
    else false
  }

  /** Whether the decoder has dropped out after a search command. */
  function Ignores(ignore: bool, number: Id, pos: nat): bool {
    if pos == SEARCH_RESET then false
    else if ignore then true
    else if 128 <= pos <= 128 + 62 then number[pos - 128]
    else if 192 <= pos <= 192 + 62 then !number[pos - 192]
    else false
  }

  /** Only a reset and a read of a bit that matches are ever answered; a decoder drops out only where it is told to and
      its bit matches, and comes back by a reset alone. */
  lemma OnlyReadsAreAnswered(ignore: bool, number: Id, pos: nat)
    ensures Answer(ignore, number, pos)
       <==> pos == 255
            || (!ignore && exists b :: 0 <= b < 63 && ((pos == b && number[b]) || (pos == 64 + b && !number[b])))
    ensures Ignores(ignore, number, pos)
       <==> && pos != 255
            && (ignore || exists b :: 0 <= b < 63 && ((pos == 128 + b && number[b]) || (pos == 192 + b && !number[b])))
  {
  }

  class Decoder {
    var ignore: bool

    constructor ()
      ensures ignore
    {
      ignore := true;
    }

    method Search(number: Id, pos: nat) returns (ack: bool)
      modifies this
      ensures ack == Answer(old(ignore), number, pos)
      ensures ignore == Ignores(old(ignore), number, pos)
    {
      if pos == SEARCH_RESET {
        ignore := false;
        return true;
      }
      if ignore { return false; }
      if pos <= 62 { return number[pos]; }
      else if pos >= 64 && pos <= 64 + 62 { return !number[pos - 64]; }
      else if pos >= 128 && pos <= 128 + 62 { ignore := number[pos - 128]; }
      else if pos >= 192 && pos <= 192 + 62 { ignore := !number[pos - 192]; }
      return false;
    }
  }
}
