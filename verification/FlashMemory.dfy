/** A flash by its contents: what it holds at every address. */
module FlashMemory {
  import opened Addresses
  import opened Bytes

  /** The bytes written since they were erased. */
  type Memory = map<Address, Byte>

  /** The range up to, and without, `end` erased. */
  function Erased(memory: Memory, begin: Address, end: Address): Memory {
    map a | a in memory && !(begin <= a < end) :: memory[a]
  }

  /** Bytes written from an address on. */
  function Stored(memory: Memory, addr: Address, bytes: seq<Byte>): Memory {
    if bytes == [] then memory
    else
      var n := |bytes| - 1;
      Stored(memory, addr, bytes[..n])[Advance(addr, n) := bytes[n]]
  }

  /** What a run of bytes below the end of the address space leaves where. */
  lemma {:induction false} StoredAt(memory: Memory, addr: Address, bytes: seq<Byte>, a: Address)
    requires addr + |bytes| <= ADDRESS_SPACE
    ensures var after := Stored(memory, addr, bytes);
            if addr <= a < addr + |bytes| then a in after && after[a] == bytes[a - addr]
            else (a in after <==> a in memory) && (a in memory ==> after[a] == memory[a])
  {
    if bytes != [] {
      var n := |bytes| - 1;
      StoredAt(memory, addr, bytes[..n], a);
      assert Advance(addr, n) == addr + n;
    }
  }

  /** Two runs that follow on one another are one. */
  lemma {:induction false} StoredConcat(memory: Memory, addr: Address, a: seq<Byte>, b: seq<Byte>)
    ensures Stored(Stored(memory, addr, a), Advance(addr, |a|), b) == Stored(memory, addr, a + b)
  {
    if b == [] {
      assert a + b == a;
    } else {
      var n := |b| - 1;
      StoredConcat(memory, addr, a, b[..n]);
      assert (a + b)[..|a| + n] == a + b[..n];
      AdvanceTwice(addr, |a|, n);
    }
  }

  lemma AdvanceTwice(addr: Address, m: nat, n: nat)
    ensures Advance(Advance(addr, m), n) == Advance(addr, m + n)
  {
  }

  predicate HasByte(memory: Memory, addr: nat, byte: Byte) {
    addr < ADDRESS_SPACE && addr in memory && memory[addr] == byte
  }

  /** The bytes are there. */
  ghost predicate Has(memory: Memory, addr: Address, bytes: seq<Byte>) {
    forall k :: 0 <= k < |bytes| ==> HasByte(memory, addr + k, bytes[k])
  }

  /** With something written up to a run's end, the whole run is there iff that is its end and its beginning was there
      before. */
  lemma {:induction false} HasStored(memory: Memory, addr: Address, bytes: seq<Byte>, from: nat, end: seq<Byte>)
    requires addr + |bytes| < ADDRESS_SPACE && from + |end| == |bytes|
    ensures Has(Stored(memory, addr + from, end), addr, bytes)
       <==> end == bytes[from..] && Has(memory, addr, bytes[..from])
  {
    var after := Stored(memory, addr + from, end);
    forall k | 0 <= k < |bytes|
      ensures HasByte(after, addr + k, bytes[k])
         <==> if k >= from then end[k - from] == bytes[k] else HasByte(memory, addr + k, bytes[k])
    {
      StoredAt(memory, addr + from, end, addr + k);
    }
    assert forall k :: 0 <= k < from ==> bytes[..from][k] == bytes[k];
    if Has(after, addr, bytes) {
      forall k | 0 <= k < |end| ensures end[k] == bytes[from..][k] {
        assert HasByte(after, addr + (from + k), bytes[from + k]);
      }
    }
  }
}
