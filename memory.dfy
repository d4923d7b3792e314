/** Byte-addressable memory of MEM_SIZE bytes with bounds-checked byte and
    little-endian word access.  A failed access reports an error and changes
    nothing. */
module Memories {
  import opened Words

  /** Capacity in bytes (MAX_MEM_SIZE of the TypeScript port). */
  const MEM_SIZE: nat := 0x20000

  predicate ByteInBounds(addr: int) {
    0 <= addr < MEM_SIZE
  }

  /** The whole span [addr, addr + 8) fits; the test is written as
      addr <= MEM_SIZE - 8 so that no sum can wrap. */
  predicate WordInBounds(addr: int) {
    0 <= addr <= MEM_SIZE - 8
  }

  /** Every byte zero, as after reset. */
  function Zeroed(): (s: seq<Byte>)
    ensures |s| == MEM_SIZE && forall i :: 0 <= i < MEM_SIZE ==> s[i] == 0
  {
    seq(MEM_SIZE, _ => 0)
  }

  /** The word stored little-endian at addr. */
  function LoadWord(s: seq<Byte>, addr: int): Word
    requires |s| == MEM_SIZE && WordInBounds(addr)
  {
    WordFromBytes(s[addr..addr + 8])
  }

  /** Memory after storing w little-endian at addr. */
  function StoreWord(s: seq<Byte>, addr: int, w: Word): (r: seq<Byte>)
    requires |s| == MEM_SIZE && WordInBounds(addr)
    ensures |r| == MEM_SIZE
    ensures forall i :: 0 <= i < MEM_SIZE ==>
              r[i] == if addr <= i < addr + 8 then ByteOf(w, i - addr) else s[i]
  {
    s[..addr] + WordBytes(w) + s[addr + 8..]
  }

  /** A word read straight after it was written is the written word. */
  lemma LoadStoreSame(s: seq<Byte>, addr: int, w: Word)
    requires |s| == MEM_SIZE && WordInBounds(addr)
    ensures LoadWord(StoreWord(s, addr, w), addr) == w
  {
    assert StoreWord(s, addr, w)[addr..addr + 8] == WordBytes(w);
    WordBytesRoundTrip(w);
  }

  /** A store leaves every word that does not overlap it unchanged. */
  lemma LoadStoreOther(s: seq<Byte>, addr: int, other: int, w: Word)
    requires |s| == MEM_SIZE && WordInBounds(addr) && WordInBounds(other)
    requires other + 8 <= addr || addr + 8 <= other
    ensures LoadWord(StoreWord(s, addr, w), other) == LoadWord(s, other)
  {
    assert StoreWord(s, addr, w)[other..other + 8] == s[other..other + 8];
  }

  /** Writing back the word just read changes nothing. */
  lemma StoreLoadSame(s: seq<Byte>, addr: int)
    requires |s| == MEM_SIZE && WordInBounds(addr)
    ensures StoreWord(s, addr, LoadWord(s, addr)) == s
  {
    BytesWordRoundTrip(s[addr..addr + 8]);
    assert WordBytes(LoadWord(s, addr)) == s[addr..addr + 8];
    assert s == s[..addr] + s[addr..addr + 8] + s[addr + 8..];
  }

  /** The memory after writeByte(addr, bytes[0]), writeByte(addr + 1, bytes[1]),
      … stopping at the first write out of bounds; false when one was (the
      bytes before it are written). */
  function WriteBytes(addr: nat, bytes: seq<Byte>, s: seq<Byte>): (r: (bool, seq<Byte>))
    requires |s| == MEM_SIZE
    ensures |r.1| == MEM_SIZE
    decreases |bytes|
  {
    if bytes == [] then (true, s)
    else if !ByteInBounds(addr) then (false, s)
    else WriteBytes(addr + 1, bytes[1..], s[addr := bytes[0]])
  }

  /** The writes stop short exactly when the bytes run past the end of memory. */
  lemma {:induction false} WriteBytesOk(addr: nat, bytes: seq<Byte>, s: seq<Byte>)
    requires |s| == MEM_SIZE
    ensures WriteBytes(addr, bytes, s).0 <==> bytes == [] || addr + |bytes| <= MEM_SIZE
    decreases |bytes|
  {
    if bytes != [] && ByteInBounds(addr) {
      WriteBytesOk(addr + 1, bytes[1..], s[addr := bytes[0]]);
    }
  }

  /** Writing a run of bytes fails exactly when it runs past the end of memory;
      byte j lands at addr + j whenever that is in bounds, and nothing outside
      [addr, addr + |bytes|) changes. */
  lemma {:induction false} WriteBytesEffect(addr: nat, bytes: seq<Byte>, s: seq<Byte>)
    requires |s| == MEM_SIZE
    ensures var (ok, r) := WriteBytes(addr, bytes, s);
            (ok <==> bytes == [] || addr + |bytes| <= MEM_SIZE)
            && (forall j :: 0 <= j < |bytes| && addr + j < MEM_SIZE ==> r[addr + j] == bytes[j])
            && (forall i :: 0 <= i < MEM_SIZE && !(addr <= i < addr + |bytes|) ==> r[i] == s[i])
    decreases |bytes|
  {
    if bytes != [] && ByteInBounds(addr) {
      var s1 := s[addr := bytes[0]];
      WriteBytesEffect(addr + 1, bytes[1..], s1);
      var r := WriteBytes(addr + 1, bytes[1..], s1).1;
      forall j | 0 <= j < |bytes| && addr + j < MEM_SIZE
        ensures r[addr + j] == bytes[j]
      {
        if j > 0 {
          assert bytes[j] == bytes[1..][j - 1];
        }
      }
    }
  }

  class Memory {
    const data: array<Byte>

    ghost predicate Valid()
      reads this
    {
      data.Length == MEM_SIZE
    }

    constructor ()
      ensures Valid() && fresh(data)
      ensures data[..] == Zeroed()
    {
      data := new Byte[MEM_SIZE](_ => 0);
    }

    /** Zero every byte. */
    method Reset()
      requires Valid()
      modifies data
      ensures data[..] == Zeroed()
    {
      forall i | 0 <= i < data.Length {
        data[i] := 0;
      }
    }

    /** Returns true (failure) when addr is out of bounds; otherwise stores val. */
    method WriteByte(addr: int, val: Byte) returns (failed: bool)
      requires Valid()
      modifies data
      ensures failed == !ByteInBounds(addr)
      ensures data[..] == if failed then old(data[..]) else old(data[..])[addr := val]
    {
      if addr < 0 || addr >= MEM_SIZE {
        return true;
      }
      data[addr] := val;
      return false;
    }

    method ReadByte(addr: int) returns (val: Byte, error: bool)
      requires Valid()
      ensures error == !ByteInBounds(addr)
      ensures error ==> val == 0
      ensures !error ==> val == data[addr]
    {
      if addr < 0 || addr >= MEM_SIZE {
        return 0, true;
      }
      return data[addr], false;
    }

    /** Returns true (failure) unless all eight bytes fit; otherwise stores val
        little-endian, byte i being (val >> 8*i) & 0xFF. */
    method WriteWord(addr: int, val: Word) returns (failed: bool)
      requires Valid()
      modifies data
      ensures failed == !WordInBounds(addr)
      ensures data[..] == if failed then old(data[..]) else StoreWord(old(data[..]), addr, val)
    {
      if addr < 0 || addr > MEM_SIZE - 8 {
        return true;
      }
      for i := 0 to 8
        invariant forall k :: 0 <= k < MEM_SIZE ==>
                    data[k] == if addr <= k < addr + i then ByteOf(val, k - addr) else old(data[k])
      {
        data[addr + i] := ByteOf(val, i);
      }
      return false;
    }

    /** Assembles the eight bytes at addr, the byte at addr + i supplying bits
        8*i .. 8*i+7; the source ORs each shifted byte in, which is addition here
        because the shifted bytes do not overlap. */
    method ReadWord(addr: int) returns (val: Word, error: bool)
      requires Valid()
      ensures error == !WordInBounds(addr)
      ensures error ==> val == 0
      ensures !error ==> val == LoadWord(data[..], addr)
    {
      if addr < 0 || addr > MEM_SIZE - 8 {
        return 0, true;
      }
      var value: nat := 0;
      for i := 0 to 8
        invariant value == LittleEndian(data[addr..addr + i])
      {
        assert data[addr..addr + i + 1][..i] == data[addr..addr + i];
        value := value + data[addr + i] * Pow256(i);
      }
      Pow256Eight();
      return value, false;
    }
  }
}
