// The emulator's memory as the GUI sees it through `read_mem` and `write_mem`: a flat 64 KiB
// byte space where a write replaces a span and leaves every other byte alone
// (run_emulator_gui.py).
module Memory {
  import opened Codec

  /** The emulator's address space. */
  const MemSize := 0x10000

  /** `write_mem(addr, data)`: data spliced in at addr, every other byte as it was. */
  function Splice(m: seq<Byte>, addr: nat, data: seq<Byte>): (r: seq<Byte>)
    requires addr + |data| <= |m|
    ensures |r| == |m|
  {
    seq(|m|, i requires 0 <= i < |m| => if addr <= i < addr + |data| then data[i - addr] else m[i])
  }

  /** Byte i after the write: from the data inside the written span, as before outside it. */
  lemma SpliceAt(m: seq<Byte>, addr: nat, data: seq<Byte>, i: int)
    requires addr + |data| <= |m| && 0 <= i < |m|
    ensures Splice(m, addr, data)[i] == if addr <= i < addr + |data| then data[i - addr] else m[i]
  {
  }

  lemma SpliceRead(m: seq<Byte>, addr: nat, data: seq<Byte>)
    requires addr + |data| <= |m|
    ensures Splice(m, addr, data)[addr..addr + |data|] == data
  {
  }

  /** A span that does not meet the written one reads as before. */
  lemma SpliceElsewhere(m: seq<Byte>, addr: nat, data: seq<Byte>, b: nat, n: nat)
    requires addr + |data| <= |m| && b + n <= |m|
    requires b + n <= addr || addr + |data| <= b
    ensures Splice(m, addr, data)[b..b + n] == m[b..b + n]
  {
    var r := Splice(m, addr, data);
    forall i | b <= i < b + n
      ensures r[i] == m[i]
    {
      SpliceAt(m, addr, data, i);
    }
    assert r[b..b + n] == m[b..b + n];
  }
}
