/** The C++ loader: reads `.yo` object text, one `ADDR: HEXBYTES | comment`
    record per line, into a freshly cleared memory.

    A line is skipped when it has no ':', when the text before the first ':'
    (trimmed of spaces and tabs) is empty or does not read as a number, or when
    the hex region (after the ':', up to a '|' or the end of the line, trimmed)
    is empty.  Otherwise the region is cut into two-character pairs, written to
    consecutive addresses from the line's address; a pair that does not read as
    a number abandons the rest of the line, and a byte out of bounds ends the
    load with false.  Any other outcome is true, even when nothing was written. */
module CppLoader {
  import opened Words
  import opened Memories
  import opened Text

  /** A line that survives the skips: its address and trimmed hex region. */
  datatype Record = Record(addr: Word, region: string)

  /** std::stoull(s, nullptr, 16); None where it throws (no digits, or a
      magnitude beyond 64 bits).  A minus sign negates modulo 2^64. */
  function Stoull(s: string): (r: Option<Word>)
    ensures s == [] ==> r == None
  {
    match ParseCHex(s)
    case None => None
    case Some((neg, v)) =>
      if v >= TWO64 then None else Some(if neg then AsUint64(-(v as int)) else v)
  }

  /** static_cast<uint8_t>(std::stoi(s, nullptr, 16)); None where stoi throws
      (no digits, or a value outside 32-bit int). */
  function StoiByte(s: string): (r: Option<Byte>)
    ensures s == [] ==> r == None
  {
    match ParseCHex(s)
    case None => None
    case Some((neg, v)) =>
      var x: int := if neg then -(v as int) else v;
      if x < -0x8000_0000 || x > 0x7FFF_FFFF then None else Some(x % 256)
  }

  /** "0x" followed by hex digits reads as their value, when it fits 64 bits. */
  lemma StoullHexAddress(s: string)
    requires |s| > 2 && s[0] == '0' && (s[1] == 'x' || s[1] == 'X') && AllHex(s[2..])
    requires ParseHex(s[2..]) < TWO64
    ensures Stoull(s) == Some(ParseHex(s[2..]))
  {
    ParseCHexPrefixed(s);
  }

  /** Two hex digits read as the byte they spell. */
  lemma StoiHexPair(s: string)
    requires |s| == 2 && AllHex(s)
    ensures StoiByte(s) == Some(16 * HexValue(s[0]) + HexValue(s[1]))
  {
    ParseCHexPlain(s);
    assert ParseHex(s[..1]) == HexValue(s[0]) by {
      assert s[..1][..0] == [];
    }
  }

  /** The record of a line, or None when Loader::load skips it. */
  function LineRecord(line: string): (r: Option<Record>)
    ensures ':' !in line ==> r == None
    ensures r.Some? ==> r.value.region != []
  {
    var colon := Find(line, ':');
    if colon < 0 then None
    else
      var pipe := Find(line, '|');
      // A '|' before the ':' makes the length end - colon - 1 wrap around,
      // so the region runs to the end of the line.
      var end := if pipe > colon then pipe else |line|;
      var addrText := Trim(line[..colon]);
      if addrText == [] then None
      else
        match Stoull(addrText)
        case None => None
        case Some(addr) =>
          var region := Trim(line[colon + 1..end]);
          if region == [] then None else Some(Record(addr, region))
  }

  /** How a line `a:d` followed by nothing or a '|' comment reads: skipped
      when the trimmed address is empty or no number, or the trimmed region
      is empty; otherwise that number and that region. */
  lemma LineRecordOf(a: string, d: string, c: string)
    requires ':' !in a && '|' !in a && '|' !in d
    requires c == [] || c[0] == '|'
    ensures LineRecord(a + ":" + d + c)
            == if Trim(a) == [] || Stoull(Trim(a)).None? || Trim(d) == [] then None
               else Some(Record(Stoull(Trim(a)).value, Trim(d)))
  {
    var line := a + ":" + d + c;
    assert line == a + (":" + d + c);
    FindAfter(a, ":" + d + c, ':');
    assert Find(line, ':') == |a|;
    assert line == (a + ":" + d) + c;
    assert '|' !in a + ":" + d;
    FindAfter(a + ":" + d, c, '|');
    var pipe := Find(line, '|');
    assert pipe < 0 || pipe == |a| + 1 + |d|;
    assert line[..|a|] == a;
    if pipe < 0 {
      assert c == [];
      assert line[|a| + 1..|line|] == d;
    } else {
      assert line[|a| + 1..pipe] == d;
    }
  }

  /** With a '|' before the first ':', the region runs to the end of the line. */
  lemma LineRecordPipeFirst(a: string, d: string)
    requires ':' !in a && '|' in a
    ensures LineRecord(a + ":" + d)
            == if Trim(a) == [] || Stoull(Trim(a)).None? || Trim(d) == [] then None
               else Some(Record(Stoull(Trim(a)).value, Trim(d)))
  {
    var line := a + ":" + d;
    assert line == a + (":" + d);
    FindAfter(a, ":" + d, ':');
    assert Find(line, ':') == |a|;
    assert Find(a, '|') >= 0;
    assert Find(line, '|') == Find(a, '|') by {
      var i := Find(a, '|');
      assert line[i] == '|';
      assert line[..i] == a[..i];
    }
    assert line[..|a|] == a;
    assert line[|a| + 1..|line|] == d;
  }

  /** One line's effect: nothing for a skipped line, else its bytes written
      from its address; false when a byte fell out of bounds. */
  function LoadLine(line: string, s: seq<Byte>): (r: (bool, seq<Byte>))
    requires |s| == MEM_SIZE
    ensures |r.1| == MEM_SIZE
  {
    match LineRecord(line)
    case None => (true, s)
    case Some(rec) => WriteBytes(rec.addr, PairBytes(rec.region, 0, StoiByte), s)
  }

  /** The lines in order, stopping at the first that fails. */
  function LoadLines(lines: seq<string>, s: seq<Byte>): (r: (bool, seq<Byte>))
    requires |s| == MEM_SIZE
    ensures |r.1| == MEM_SIZE
    decreases |lines|
  {
    if lines == [] then (true, s)
    else
      var (ok, s1) := LoadLine(lines[0], s);
      if !ok then (false, s1) else LoadLines(lines[1..], s1)
  }

  /** What Loader::load leaves: it clears memory first, so the outcome depends
      on the text alone. */
  function LoadSpec(content: string): (r: (bool, seq<Byte>))
    ensures |r.1| == MEM_SIZE
  {
    LoadLines(GetLines(content), Zeroed())
  }

  /** Whether a line's bytes run past the end of memory. */
  predicate Overruns(line: string) {
    match LineRecord(line)
    case None => false
    case Some(rec) =>
      var b := PairBytes(rec.region, 0, StoiByte);
      b != [] && rec.addr + |b| > MEM_SIZE
  }

  /** No line's bytes run past the end of memory. */
  predicate NoOverrun(lines: seq<string>) {
    lines == [] || (!Overruns(lines[0]) && NoOverrun(lines[1..]))
  }

  /** A line loads without error exactly when it does not overrun memory. */
  lemma LineOk(line: string, s: seq<Byte>)
    requires |s| == MEM_SIZE
    ensures LoadLine(line, s).0 <==> !Overruns(line)
  {
    var rec := LineRecord(line);
    if rec.Some? {
      WriteBytesOk(rec.value.addr, PairBytes(rec.value.region, 0, StoiByte), s);
    }
  }

  /** Loading fails exactly when some line's bytes run past the end of memory. */
  lemma {:induction false} LoadOkIff(lines: seq<string>, s: seq<Byte>)
    requires |s| == MEM_SIZE
    ensures LoadLines(lines, s).0 <==> NoOverrun(lines)
    decreases |lines|
  {
    if lines != [] {
      LineOk(lines[0], s);
      LoadOkIff(lines[1..], LoadLine(lines[0], s).1);
    }
  }

  /** LoadLines from line k on: a skipped line is passed over; a record
      writes its bytes, and the load stops if they overran. */
  lemma LoadLinesAt(lines: seq<string>, k: nat, s: seq<Byte>)
    requires k < |lines| && |s| == MEM_SIZE
    ensures LoadLines(lines[k..], s)
            == match LineRecord(lines[k])
               case None => LoadLines(lines[k + 1..], s)
               case Some(rec) =>
                 var (ok, s1) := WriteBytes(rec.addr, PairBytes(rec.region, 0, StoiByte), s);
                 if !ok then (false, s1) else LoadLines(lines[k + 1..], s1)
  {
    assert lines[k..][0] == lines[k] && lines[k..][1..] == lines[k + 1..];
  }

  /** Text in which no line survives the skips loads as all zeroes, successfully. */
  lemma {:induction false} LoadNothing(lines: seq<string>, s: seq<Byte>)
    requires |s| == MEM_SIZE
    requires forall k :: 0 <= k < |lines| ==> LineRecord(lines[k]) == None
    ensures LoadLines(lines, s) == (true, s)
    decreases |lines|
  {
    if lines != [] {
      assert LineRecord(lines[0]) == None;
      LoadNothing(lines[1..], s);
    }
  }

  /** What a line that survives the skips does, when it stays in bounds: the
      byte read from pair j lands at address + j, and no other byte changes. */
  lemma RecordEffect(rec: Record, s: seq<Byte>)
    requires |s| == MEM_SIZE
    requires var n := |PairBytes(rec.region, 0, StoiByte)|; n == 0 || rec.addr + n <= MEM_SIZE
    ensures var b := PairBytes(rec.region, 0, StoiByte);
            var (ok, r) := WriteBytes(rec.addr, b, s);
            ok
            && (forall j :: 0 <= j < |b| ==> PairReads(rec.region, 2 * j, r[rec.addr + j], StoiByte))
            && (forall i :: 0 <= i < MEM_SIZE && !(rec.addr <= i < rec.addr + |b|) ==> r[i] == s[i])
  {
    WritePairsEffect(rec.addr, rec.region, StoiByte, s);
  }

  /** Loader::load. */
  method Load(content: string, mem: Memory) returns (ok: bool)
    requires mem.Valid()
    modifies mem.data
    ensures (ok, mem.data[..]) == LoadSpec(content)
  {
    mem.Reset();
    var lines := GetLines(content);
    var k := 0;
    while k < |lines|
      invariant 0 <= k <= |lines|
      invariant LoadLines(lines[k..], mem.data[..]) == LoadSpec(content)
    {
      LoadLinesAt(lines, k, mem.data[..]);
      var rec := LineRecord(lines[k]);
      if rec.Some? {
        var written := WritePairs(rec.value.addr, rec.value.region, mem);
        if !written {
          return false;
        }
      }
      k := k + 1;
    }
    return true;
  }

  /** The pair loop of Loader::load for one record: each pair that reads is
      written at the next address; the first that does not read ends the
      line; a write out of bounds returns false at once. */
  method WritePairs(addr0: Word, region: string, mem: Memory) returns (ok: bool)
    requires mem.Valid()
    modifies mem.data
    ensures (ok, mem.data[..]) == WriteBytes(addr0, PairBytes(region, 0, StoiByte), old(mem.data[..]))
  {
    var addr: nat := addr0;
    var i := 0;
    while i < |region|
      invariant WriteBytes(addr, PairBytes(region, i, StoiByte), mem.data[..])
                == WriteBytes(addr0, PairBytes(region, 0, StoiByte), old(mem.data[..]))
      decreases |region| - i
    {
      var b := StoiByte(Pair(region, i));
      if b.None? {
        break;
      }
      var failed := mem.WriteByte(addr, b.value);
      if failed {
        return false;
      }
      addr := addr + 1;
      i := i + 2;
    }
    return true;
  }
}
