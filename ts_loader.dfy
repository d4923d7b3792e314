/** The TypeScript loader: the same `.yo` text read line by line with a
    regular expression, writing into memory as it stands (no clearing first).

    A line is used when it matches /^\s*0x([0-9a-fA-F]+)\s*:\s*([0-9a-fA-F]+)/:
    optional white space, a lower-case "0x", hex digits (the address), optional
    white space, ':', optional white space and hex digits (the data).  The data
    is cut into two-character pairs written from the address on; the first
    byte out of bounds ends the load with false.  Otherwise the load is true
    exactly when at least one line matched. */
module TsLoader {
  import opened Words
  import opened Memories
  import opened Text

  /** The characters the regex class \s matches in JavaScript. */
  predicate IsJsSpace(c: char) {
    c == ' ' || c == '\t' || c == '\n' || c == '\U{000B}' || c == '\U{000C}' || c == '\r'
    || c == '\U{00A0}' || c == '\U{1680}' || ('\U{2000}' <= c <= '\U{200A}')
    || c == '\U{2028}' || c == '\U{2029}' || c == '\U{202F}' || c == '\U{205F}'
    || c == '\U{3000}' || c == '\U{FEFF}'
  }

  predicate AllJsSpace(s: string) {
    forall i :: 0 <= i < |s| ==> IsJsSpace(s[i])
  }

  /** The longest prefix of s made of \s, and what follows it. */
  function LeadingSpace(s: string): (r: (string, string))
    ensures s == r.0 + r.1 && AllJsSpace(r.0)
    ensures r.1 == [] || !IsJsSpace(r.1[0])
  {
    if s == [] || !IsJsSpace(s[0]) then ([], s)
    else
      var (w, t) := LeadingSpace(s[1..]);
      assert s == [s[0]] + s[1..];
      assert [s[0]] + (w + t) == ([s[0]] + w) + t;
      ([s[0]] + w, t)
  }

  /** The longest prefix of s made of hex digits, and what follows it. */
  function LeadingHex(s: string): (r: (string, string))
    ensures s == r.0 + r.1 && AllHex(r.0)
    ensures r.1 == [] || !IsHexDigit(r.1[0])
  {
    if s == [] || !IsHexDigit(s[0]) then ([], s)
    else
      var (d, t) := LeadingHex(s[1..]);
      assert s == [s[0]] + s[1..];
      assert [s[0]] + (d + t) == ([s[0]] + d) + t;
      ([s[0]] + d, t)
  }

  /** The split LeadingSpace makes is the only one with its two properties. */
  lemma {:induction false} LeadingSpaceUnique(w: string, t: string)
    requires AllJsSpace(w) && (t == [] || !IsJsSpace(t[0]))
    ensures LeadingSpace(w + t) == (w, t)
  {
    if w == [] {
      assert w + t == t;
    } else {
      assert (w + t)[0] == w[0];
      assert (w + t)[1..] == w[1..] + t;
      LeadingSpaceUnique(w[1..], t);
      assert [w[0]] + w[1..] == w;
    }
  }

  /** The split LeadingHex makes is the only one with its two properties. */
  lemma {:induction false} LeadingHexUnique(d: string, t: string)
    requires AllHex(d) && (t == [] || !IsHexDigit(t[0]))
    ensures LeadingHex(d + t) == (d, t)
  {
    if d == [] {
      assert d + t == t;
    } else {
      assert (d + t)[0] == d[0];
      assert (d + t)[1..] == d[1..] + t;
      LeadingHexUnique(d[1..], t);
      assert [d[0]] + d[1..] == d;
    }
  }

  /** The two capture groups of a match. */
  datatype Groups = Groups(addr: string, data: string)

  /** The regex applied to a line: None when it does not match, else the
      address and data groups.  Each greedy run in the pattern is followed by
      a character the run cannot hold ('0' after \s*, white space or ':' after
      the address digits, a hex digit after \s*), so only the longest run can
      lead to a match. */
  function MatchRecord(line: string): (r: Option<Groups>)
    ensures r.Some? ==> r.value.addr != [] && AllHex(r.value.addr)
    ensures r.Some? ==> r.value.data != [] && AllHex(r.value.data)
  {
    var (_, t1) := LeadingSpace(line);
    if |t1| < 2 || t1[0] != '0' || t1[1] != 'x' then None
    else
      var (a, t2) := LeadingHex(t1[2..]);
      var (_, t3) := LeadingSpace(t2);
      if a == [] || t3 == [] || t3[0] != ':' then None
      else
        var (_, t4) := LeadingSpace(t3[1..]);
        var (d, _) := LeadingHex(t4);
        if d == [] then None else Some(Groups(a, d))
  }

  /** The line layout the two lemmas below share, written inside out. */
  lemma Layout(w1: string, addr: string, w2: string, w3: string, data: string, rest: string)
    ensures w1 + "0x" + addr + w2 + ":" + w3 + data + rest
            == w1 + ("0x" + (addr + (w2 + (":" + (w3 + (data + rest))))))
  {
  }

  /** A match is the line cut as white space, "0x", the address digits, white
      space, ':', white space, the data digits and a rest that does not start
      with a hex digit. */
  lemma MatchSound(line: string) returns (w1: string, w2: string, w3: string, rest: string)
    requires MatchRecord(line).Some?
    ensures var g := MatchRecord(line).value;
            line == w1 + "0x" + g.addr + w2 + ":" + w3 + g.data + rest
            && AllJsSpace(w1) && AllJsSpace(w2) && AllJsSpace(w3)
            && (rest == [] || !IsHexDigit(rest[0]))
  {
    var p1 := LeadingSpace(line);
    var t1 := p1.1;
    var p2 := LeadingHex(t1[2..]);
    var t2 := p2.1;
    var p3 := LeadingSpace(t2);
    var t3 := p3.1;
    var p4 := LeadingSpace(t3[1..]);
    var t4 := p4.1;
    var p5 := LeadingHex(t4);
    w1, w2, w3, rest := p1.0, p3.0, p4.0, p5.1;
    assert t3 == ":" + (w3 + (p5.0 + rest));
    assert t1 == "0x" + (p2.0 + (w2 + t3));
    Layout(w1, p2.0, w2, w3, p5.0, rest);
  }

  /** Every line so cut matches, with those groups. */
  lemma MatchComplete(w1: string, addr: string, w2: string, w3: string, data: string, rest: string)
    requires AllJsSpace(w1) && AllJsSpace(w2) && AllJsSpace(w3)
    requires addr != [] && AllHex(addr) && data != [] && AllHex(data)
    requires rest == [] || !IsHexDigit(rest[0])
    ensures MatchRecord(w1 + "0x" + addr + w2 + ":" + w3 + data + rest) == Some(Groups(addr, data))
  {
    var t4 := data + rest;
    var t3 := ":" + (w3 + t4);
    var t2 := w2 + t3;
    var t1 := "0x" + (addr + t2);
    Layout(w1, addr, w2, w3, data, rest);
    LeadingHexUnique(data, rest);
    LeadingSpaceUnique(w3, t4);
    assert t3[1..] == w3 + t4;
    LeadingSpaceUnique(w2, t3);
    assert t1[2..] == addr + t2;
    LeadingHexUnique(addr, t2);
    LeadingSpaceUnique(w1, t1);
  }

  /** parseInt(pair, 16) on one or two hex digits, as the byte writeByte keeps
      (val & 0xFF). */
  function PairByte(pair: string): (r: Option<Byte>)
    ensures |pair| <= 2 && AllHex(pair) && pair != [] ==> r.Some?
  {
    if AllHex(pair) && pair != [] then Some(ParseHex(pair) % 256) else None
  }

  /** One line's effect on memory, and whether it matched. */
  function LoadLine(line: string, s: seq<Byte>): (r: (bool, seq<Byte>))
    requires |s| == MEM_SIZE
    ensures |r.1| == MEM_SIZE
  {
    match MatchRecord(line)
    case None => (true, s)
    case Some(g) => WriteBytes(ParseHex(g.addr), PairBytes(g.data, 0, PairByte), s)
  }

  /** The lines in order; `found` says whether an earlier line matched. */
  function LoadLines(lines: seq<string>, s: seq<Byte>, found: bool): (r: (bool, seq<Byte>))
    requires |s| == MEM_SIZE
    ensures |r.1| == MEM_SIZE
    decreases |lines|
  {
    if lines == [] then (found, s)
    else
      var (ok, s1) := LoadLine(lines[0], s);
      if !ok then (false, s1)
      else LoadLines(lines[1..], s1, found || MatchRecord(lines[0]).Some?)
  }

  /** LoadLines from line k on: a line that does not match is passed over;
      one that matches writes its bytes, and the load stops if they overran. */
  lemma LoadLinesAt(lines: seq<string>, k: nat, s: seq<Byte>, found: bool)
    requires k < |lines| && |s| == MEM_SIZE
    ensures LoadLines(lines[k..], s, found)
            == match MatchRecord(lines[k])
               case None => LoadLines(lines[k + 1..], s, found)
               case Some(g) =>
                 var (ok, s1) := WriteBytes(ParseHex(g.addr), PairBytes(g.data, 0, PairByte), s);
                 if !ok then (false, s1) else LoadLines(lines[k + 1..], s1, true)
  {
    assert lines[k..][0] == lines[k] && lines[k..][1..] == lines[k + 1..];
  }

  /** What Loader.load leaves, starting from memory s. */
  function LoadSpec(content: string, s: seq<Byte>): (r: (bool, seq<Byte>))
    requires |s| == MEM_SIZE
    ensures |r.1| == MEM_SIZE
  {
    LoadLines(Split(content, '\n'), s, false)
  }

  /** Whether a matching line's bytes run past the end of memory. */
  predicate Overruns(line: string) {
    match MatchRecord(line)
    case None => false
    case Some(g) => ParseHex(g.addr) + |PairBytes(g.data, 0, PairByte)| > MEM_SIZE
  }

  /** Every pair of a data group reads, so the line writes one byte per pair. */
  lemma DataBytes(g: Groups)
    requires g.data != [] && AllHex(g.data)
    ensures |PairBytes(g.data, 0, PairByte)| == (|g.data| + 1) / 2
  {
    forall k | 0 <= k < |g.data| ensures PairByte(Pair(g.data, k)).Some? {
      var p := Pair(g.data, k);
      assert forall j :: 0 <= j < |p| ==> p[j] == g.data[k + j];
    }
    PairBytesAll(g.data, 0, PairByte);
  }

  /** No line overruns memory. */
  predicate NoOverrun(lines: seq<string>) {
    lines == [] || (!Overruns(lines[0]) && NoOverrun(lines[1..]))
  }

  /** Some line matches. */
  predicate AnyMatch(lines: seq<string>) {
    lines != [] && (MatchRecord(lines[0]).Some? || AnyMatch(lines[1..]))
  }

  /** A line loads without error exactly when it does not overrun memory. */
  lemma LineOk(line: string, s: seq<Byte>)
    requires |s| == MEM_SIZE
    ensures LoadLine(line, s).0 <==> !Overruns(line)
  {
    var g := MatchRecord(line);
    if g.Some? {
      DataBytes(g.value);
      WriteBytesOk(ParseHex(g.value.addr), PairBytes(g.value.data, 0, PairByte), s);
    }
  }

  /** What a matching line does when it fits in memory: one byte per pair
      of its data, the byte read from pair j at address + j, and no other
      byte changed. */
  lemma LineEffect(line: string, s: seq<Byte>)
    requires |s| == MEM_SIZE && MatchRecord(line).Some? && !Overruns(line)
    ensures var g := MatchRecord(line).value;
            var addr := ParseHex(g.addr);
            var r := LoadLine(line, s);
            r.0 && |PairBytes(g.data, 0, PairByte)| == (|g.data| + 1) / 2
            && (forall j :: 0 <= j < (|g.data| + 1) / 2 ==> PairReads(g.data, 2 * j, r.1[addr + j], PairByte))
            && (forall i :: 0 <= i < MEM_SIZE && !(addr <= i < addr + (|g.data| + 1) / 2) ==> r.1[i] == s[i])
  {
    var g := MatchRecord(line).value;
    DataBytes(g);
    WritePairsEffect(ParseHex(g.addr), g.data, PairByte, s);
  }

  /** Load succeeds exactly when no matching line overruns memory and some
      line matched (or one already had). */
  lemma {:induction false} LoadOkIff(lines: seq<string>, s: seq<Byte>, found: bool)
    requires |s| == MEM_SIZE
    ensures LoadLines(lines, s, found).0 <==> NoOverrun(lines) && (found || AnyMatch(lines))
    decreases |lines|
  {
    if lines != [] {
      LineOk(lines[0], s);
      var s1 := LoadLine(lines[0], s).1;
      LoadOkIff(lines[1..], s1, found || MatchRecord(lines[0]).Some?);
    }
  }

  /** Text in which no line matches leaves memory as it was and loads as false
      (unless an earlier line matched). */
  lemma {:induction false} LoadNoMatch(lines: seq<string>, s: seq<Byte>, found: bool)
    requires |s| == MEM_SIZE
    requires forall k :: 0 <= k < |lines| ==> MatchRecord(lines[k]) == None
    ensures LoadLines(lines, s, found) == (found, s)
    decreases |lines|
  {
    if lines != [] {
      assert MatchRecord(lines[0]) == None;
      LoadNoMatch(lines[1..], s, found);
    }
  }

  /** Loader.load. */
  method Load(content: string, mem: Memory) returns (ok: bool)
    requires mem.Valid()
    modifies mem.data
    ensures (ok, mem.data[..]) == LoadSpec(content, old(mem.data[..]))
  {
    var lines := Split(content, '\n');
    var found := false;
    var k := 0;
    while k < |lines|
      invariant 0 <= k <= |lines|
      invariant LoadLines(lines[k..], mem.data[..], found) == LoadSpec(content, old(mem.data[..]))
    {
      LoadLinesAt(lines, k, mem.data[..], found);
      var g := MatchRecord(lines[k]);
      if g.Some? {
        var written := WritePairs(ParseHex(g.value.addr), g.value.data, mem);
        if !written {
          return false;
        }
        found := true;
      }
      k := k + 1;
    }
    return found;
  }

  /** The pair loop of Loader.load for one matching line: the regex's data
      group is all hex digits, so every pair parses. */
  method WritePairs(addr0: nat, data: string, mem: Memory) returns (ok: bool)
    requires mem.Valid()
    requires AllHex(data)
    modifies mem.data
    ensures (ok, mem.data[..]) == WriteBytes(addr0, PairBytes(data, 0, PairByte), old(mem.data[..]))
  {
    var addr := addr0;
    var i := 0;
    while i < |data|
      invariant WriteBytes(addr, PairBytes(data, i, PairByte), mem.data[..])
                == WriteBytes(addr0, PairBytes(data, 0, PairByte), old(mem.data[..]))
      decreases |data| - i
    {
      var pair := Pair(data, i);
      assert AllHex(pair) by {
        forall k | 0 <= k < |pair| ensures IsHexDigit(pair[k]) {
          assert pair[k] == data[i + k];
        }
      }
      var b := PairByte(pair).value;
      var failed := mem.WriteByte(addr, b);
      if failed {
        return false;
      }
      addr := addr + 1;
      i := i + 2;
    }
    return true;
  }
}
