/** Character-level helpers shared by the two loaders: splitting text into
    lines, searching, trimming, hexadecimal digits, and the C library's
    number parsing (strtoull / strtol in base 16) that std::stoull and
    std::stoi rely on. */
module Text {
  import opened Words
  import opened Memories

  /** The parts of s between occurrences of sep, as String.prototype.split
      with a one-character separator: never empty, one more part than
      separators, and no part holds sep. */
  function Split(s: string, sep: char): (parts: seq<string>)
    ensures |parts| >= 1
    ensures forall k :: 0 <= k < |parts| ==> sep !in parts[k]
    ensures Join(parts, sep) == s
  {
    if s == [] then [""]
    else
      var rest := Split(s[1..], sep);
      if s[0] == sep then [""] + rest
      else [[s[0]] + rest[0]] + rest[1..]
  }

  /** The parts glued back with sep between neighbours. */
  function Join(parts: seq<string>, sep: char): string
    requires |parts| >= 1
  {
    if |parts| == 1 then parts[0] else parts[0] + [sep] + Join(parts[1..], sep)
  }

  /** Splitting the joined parts gives the parts back, when none holds sep. */
  lemma {:induction false} SplitJoin(parts: seq<string>, sep: char)
    requires |parts| >= 1 && forall k :: 0 <= k < |parts| ==> sep !in parts[k]
    ensures Split(Join(parts, sep), sep) == parts
  {
    if |parts| == 1 {
      JoinlessSplit(parts[0], sep);
    } else {
      SplitJoin(parts[1..], sep);
      SplitPrefix(parts[0], Join(parts[1..], sep), sep);
      assert parts == [parts[0]] + parts[1..];
    }
  }

  lemma {:induction false} JoinlessSplit(s: string, sep: char)
    requires sep !in s
    ensures Split(s, sep) == [s]
  {
    if s != [] {
      JoinlessSplit(s[1..], sep);
    }
  }

  /** Splitting a + [sep] + b with sep not in a gives a, then the parts of b. */
  lemma {:induction false} SplitPrefix(a: string, b: string, sep: char)
    requires sep !in a
    ensures Split(a + [sep] + b, sep) == [a] + Split(b, sep)
  {
    if a == [] {
      assert ([] + [sep] + b)[1..] == b;
    } else {
      var x := a + [sep] + b;
      assert x[0] == a[0] != sep;
      assert x[1..] == a[1..] + [sep] + b;
      SplitPrefix(a[1..], b, sep);
      assert [x[0]] + a[1..] == a;
    }
  }

  /** The lines std::getline reads from s: the parts between newlines, except
      that text ending in a newline has no empty line after it. */
  function GetLines(s: string): (lines: seq<string>)
    ensures forall k :: 0 <= k < |lines| ==> '\n' !in lines[k]
    ensures s == [] ==> lines == []
    ensures s != [] ==> |lines| >= 1
    ensures s != [] ==> Join(lines + (if s[|s| - 1] == '\n' then [""] else []), '\n') == s
  {
    var parts := Split(s, '\n');
    SplitLast(s, '\n');
    DropEmptyLast(parts, s);
    if parts[|parts| - 1] == "" then parts[..|parts| - 1] else parts
  }

  /** Dropping an empty last part loses exactly the final separator. */
  lemma DropEmptyLast(parts: seq<string>, s: string)
    requires |parts| >= 1 && Join(parts, '\n') == s
    requires parts[|parts| - 1] == "" <==> s == [] || s[|s| - 1] == '\n'
    ensures var n := |parts|;
            var lines := if parts[n - 1] == "" then parts[..n - 1] else parts;
            s != [] ==> |lines| >= 1 && Join(lines + (if s[|s| - 1] == '\n' then [""] else []), '\n') == s
  {
    var n := |parts|;
    if s != [] {
      if parts[n - 1] == "" {
        assert parts[..n - 1] + [""] == parts;
      } else {
        assert parts + [] == parts;
      }
    }
  }

  /** The last part is empty exactly when s is empty or ends in sep. */
  lemma SplitLast(s: string, sep: char)
    ensures var parts := Split(s, sep);
            parts[|parts| - 1] == "" <==> s == [] || s[|s| - 1] == sep
  {
    var parts := Split(s, sep);
    var n := |parts|;
    if n > 1 {
      JoinLast(parts, sep);
      var p := parts[n - 1];
      assert s == Join(parts[..n - 1], sep) + [sep] + p;
      if p != "" {
        assert s[|s| - 1] == p[|p| - 1];
      }
    }
  }

  /** Joining peels off the last part behind the last separator. */
  lemma {:induction false} JoinLast(parts: seq<string>, sep: char)
    requires |parts| > 1
    ensures Join(parts, sep) == Join(parts[..|parts| - 1], sep) + [sep] + parts[|parts| - 1]
  {
    if |parts| > 2 {
      JoinLast(parts[1..], sep);
      assert parts[1..][..|parts| - 2] == parts[..|parts| - 1][1..];
    }
  }

  /** First index of c in s, or -1 (std::string::find, indexOf). */
  function Find(s: string, c: char): (r: int)
    ensures -1 <= r < |s|
    ensures r == -1 <==> c !in s
    ensures r >= 0 ==> s[r] == c && c !in s[..r]
  {
    if s == [] then -1
    else if s[0] == c then 0
    else
      var r := Find(s[1..], c);
      assert s[1..][..if r < 0 then 0 else r] == s[1..1 + if r < 0 then 0 else r];
      if r < 0 then -1 else r + 1
  }

  /** Searching x + y for a character x lacks finds it in y, shifted by |x|. */
  lemma {:induction false} FindAfter(x: string, y: string, c: char)
    requires c !in x
    ensures Find(x + y, c) == if Find(y, c) < 0 then -1 else |x| + Find(y, c)
  {
    if x == [] {
      assert x + y == y;
    } else {
      assert (x + y)[0] == x[0] != c;
      assert (x + y)[1..] == x[1..] + y;
      FindAfter(x[1..], y, c);
    }
  }

  /** The blanks trim removes: space and tab. */
  predicate IsBlank(c: char) {
    c == ' ' || c == '\t'
  }

  /** Where the trimmed text starts and ends: everything before a and from b
      on is blank, and when anything is left its first and last characters
      are not. */
  function TrimBounds(s: string): (r: (nat, nat))
    ensures r.0 <= r.1 <= |s|
    ensures forall i :: 0 <= i < r.0 ==> IsBlank(s[i])
    ensures forall i :: r.1 <= i < |s| ==> IsBlank(s[i])
    ensures r.0 < r.1 ==> !IsBlank(s[r.0]) && !IsBlank(s[r.1 - 1])
  {
    var a := FirstNotBlank(s, 0);
    if a == |s| then (0, 0) else (a, LastNotBlank(s, a, |s|) + 1)
  }

  /** Index of the first non-blank at or after i, |s| when there is none
      (find_first_not_of). */
  function FirstNotBlank(s: string, i: nat): (j: nat)
    requires i <= |s|
    ensures i <= j <= |s|
    ensures forall k :: i <= k < j ==> IsBlank(s[k])
    ensures j < |s| ==> !IsBlank(s[j])
    decreases |s| - i
  {
    if i == |s| || !IsBlank(s[i]) then i else FirstNotBlank(s, i + 1)
  }

  /** Index of the last non-blank before j, given one at a (find_last_not_of). */
  function LastNotBlank(s: string, a: nat, j: nat): (k: nat)
    requires a < j <= |s| && !IsBlank(s[a])
    ensures a <= k < j && !IsBlank(s[k])
    ensures forall i :: k < i < j ==> IsBlank(s[i])
  {
    if !IsBlank(s[j - 1]) then j - 1 else LastNotBlank(s, a, j - 1)
  }

  /** s without its leading and trailing spaces and tabs. */
  function Trim(s: string): (r: string)
    ensures r == s[TrimBounds(s).0..TrimBounds(s).1]
    ensures |r| <= |s|
    ensures r == [] || (!IsBlank(r[0]) && !IsBlank(r[|r| - 1]))
    ensures r == [] <==> forall i :: 0 <= i < |s| ==> IsBlank(s[i])
  {
    var (a, b) := TrimBounds(s);
    s[a..b]
  }

  /** Trim takes off exactly the blank margins: text with blank runs on both
      sides trims to what lies between, when that starts and ends with
      non-blanks. */
  lemma TrimOf(w1: string, x: string, w2: string)
    requires forall i :: 0 <= i < |w1| ==> IsBlank(w1[i])
    requires forall i :: 0 <= i < |w2| ==> IsBlank(w2[i])
    requires x == [] || (!IsBlank(x[0]) && !IsBlank(x[|x| - 1]))
    ensures Trim(w1 + x + w2) == x
  {
    var s := w1 + x + w2;
    var (a, b) := TrimBounds(s);
    if x == [] {
      assert forall i :: 0 <= i < |s| ==> IsBlank(s[i]) by {
        forall i | 0 <= i < |s| ensures IsBlank(s[i]) {
          if i < |w1| { assert s[i] == w1[i]; } else { assert s[i] == w2[i - |w1|]; }
        }
      }
    } else {
      assert s[|w1|] == x[0];
      assert s[|w1| + |x| - 1] == x[|x| - 1];
      assert a == |w1|;
      assert b == |w1| + |x|;
      assert s[a..b] == x;
    }
  }

  predicate IsHexDigit(c: char) {
    '0' <= c <= '9' || 'a' <= c <= 'f' || 'A' <= c <= 'F'
  }

  function HexValue(c: char): (v: nat)
    requires IsHexDigit(c)
    ensures v < 16
  {
    if '0' <= c <= '9' then c as int - '0' as int
    else if 'a' <= c <= 'f' then c as int - 'a' as int + 10
    else c as int - 'A' as int + 10
  }

  predicate AllHex(s: string) {
    forall i :: 0 <= i < |s| ==> IsHexDigit(s[i])
  }

  function Pow16(n: nat): (p: nat)
    ensures p > 0
  {
    if n == 0 then 1 else 16 * Pow16(n - 1)
  }

  /** The value of a string of hex digits, most significant first. */
  function ParseHex(s: string): (v: nat)
    requires AllHex(s)
    ensures v < Pow16(|s|)
  {
    if s == [] then 0
    else
      var n := |s| - 1;
      var high := ParseHex(s[..n]);
      assert high <= Pow16(n) - 1;
      assert 16 * high + HexValue(s[n]) <= 16 * (Pow16(n) - 1) + 15;
      16 * high + HexValue(s[n])
  }

  /** The first index at or after i that does not hold a hex digit. */
  function HexEnd(s: string, i: nat): (j: nat)
    requires i <= |s|
    ensures i <= j <= |s|
    ensures AllHex(s[i..j])
    ensures j < |s| ==> !IsHexDigit(s[j])
    decreases |s| - i
  {
    if i == |s| || !IsHexDigit(s[i]) then i
    else
      var j := HexEnd(s, i + 1);
      assert s[i..j] == [s[i]] + s[i + 1..j];
      j
  }

  /** The white space isspace accepts in the C locale. */
  predicate IsCSpace(c: char) {
    c == ' ' || c == '\t' || c == '\n' || c == '\U{000B}' || c == '\U{000C}' || c == '\r'
  }

  function CSpaceEnd(s: string, i: nat): (j: nat)
    requires i <= |s|
    ensures i <= j <= |s|
    ensures forall k :: i <= k < j ==> IsCSpace(s[k])
    ensures j < |s| ==> !IsCSpace(s[j])
    decreases |s| - i
  {
    if i == |s| || !IsCSpace(s[i]) then i else CSpaceEnd(s, i + 1)
  }

  /** A number as the C library reads one in base 16 from the front of s:
      leading white space, an optional sign, an optional 0x or 0X, then the
      longest run of hex digits.  The result is the sign and the magnitude;
      None when no digit was read (std::stoi / std::stoull then throw
      invalid_argument).  A "0x" followed by no hex digit reads as the 0
      alone; anything after the digits is ignored. */
  function ParseCHex(s: string): (r: Option<(bool, nat)>)
    ensures s == [] ==> r == None
  {
    var i := CSpaceEnd(s, 0);
    var neg := i < |s| && s[i] == '-';
    var d := if i < |s| && (s[i] == '+' || s[i] == '-') then i + 1 else i;
    if d + 1 < |s| && s[d] == '0' && (s[d + 1] == 'x' || s[d + 1] == 'X') then
      var e := HexEnd(s, d + 2);
      Some((neg, if e == d + 2 then 0 else ParseHex(s[d + 2..e])))
    else
      var e := HexEnd(s, d);
      if e == d then None else Some((neg, ParseHex(s[d..e])))
  }

  /** A plain run of hex digits reads as its value. */
  lemma ParseCHexPlain(s: string)
    requires s != [] && AllHex(s)
    ensures ParseCHex(s) == Some((false, ParseHex(s)))
  {
    assert CSpaceEnd(s, 0) == 0;
    assert !IsHexDigit('x') && !IsHexDigit('X');
    assert HexEnd(s, 0) == |s|;
    assert s[0..|s|] == s;
  }

  /** 0x or 0X followed by hex digits reads as the value of the digits. */
  lemma ParseCHexPrefixed(s: string)
    requires |s| > 2 && s[0] == '0' && (s[1] == 'x' || s[1] == 'X') && AllHex(s[2..])
    ensures ParseCHex(s) == Some((false, ParseHex(s[2..])))
  {
    assert CSpaceEnd(s, 0) == 0;
    assert forall i :: 2 <= i < |s| ==> s[i] == s[2..][i - 2];
    assert s[2..|s|] == s[2..];
  }

  /** Nothing but white space, or a sign alone, reads as no number. */
  lemma ParseCHexNoDigits(s: string)
    requires forall i :: 0 <= i < |s| ==> !IsHexDigit(s[i])
    ensures ParseCHex(s) == None
  {
  }

  /** The one- or two-character pair at i: substr(i, 2) and substring(i, i + 2). */
  function Pair(region: string, i: nat): (p: string)
    requires i < |region|
    ensures 1 <= |p| <= 2 && i + |p| <= |region| && p == region[i..i + |p|]
    ensures i + 2 <= |region| ==> |p| == 2
  {
    if i + 2 <= |region| then region[i..i + 2] else region[i..]
  }

  /** The bytes read from the pairs at i, i + 2, …, up to the end of the
      region or the first pair that `read` rejects. */
  function PairBytes(region: string, i: nat, read: string -> Option<Byte>): (b: seq<Byte>)
    decreases |region| - i
  {
    if i >= |region| then []
    else
      match read(Pair(region, i))
      case None => []
      case Some(v) => [v] + PairBytes(region, i + 2, read)
  }

  /** The pair at i reads as byte v. */
  predicate PairReads(region: string, i: nat, v: Byte, read: string -> Option<Byte>) {
    i < |region| && read(Pair(region, i)) == Some(v)
  }

  /** Byte j of the run comes from the pair at i + 2j. */
  lemma {:induction false} PairBytesAt(region: string, i: nat, j: nat, read: string -> Option<Byte>)
    requires j < |PairBytes(region, i, read)|
    ensures PairReads(region, i + 2 * j, PairBytes(region, i, read)[j], read)
    decreases j
  {
    if j > 0 {
      PairBytesAt(region, i + 2, j - 1, read);
      assert i + 2 * j == (i + 2) + 2 * (j - 1);
    }
  }

  /** Writing the bytes of a region's pairs from addr, when they fit: the byte
      read from pair j lands at addr + j, and no other byte changes. */
  lemma WritePairsEffect(addr: nat, region: string, read: string -> Option<Byte>, s: seq<Byte>)
    requires |s| == MEM_SIZE
    requires var n := |PairBytes(region, 0, read)|; n == 0 || addr + n <= MEM_SIZE
    ensures var b := PairBytes(region, 0, read);
            var (ok, r) := WriteBytes(addr, b, s);
            ok
            && (forall j :: 0 <= j < |b| ==> PairReads(region, 2 * j, r[addr + j], read))
            && (forall i :: 0 <= i < MEM_SIZE && !(addr <= i < addr + |b|) ==> r[i] == s[i])
  {
    var b := PairBytes(region, 0, read);
    WriteBytesEffect(addr, b, s);
    var r := WriteBytes(addr, b, s).1;
    forall j | 0 <= j < |b| ensures PairReads(region, 2 * j, r[addr + j], read) {
      PairBytesAt(region, 0, j, read);
      assert r[addr + j] == b[j];
    }
  }

  /** The run stops only at the end of the region or at a pair that does not read. */
  lemma {:induction false} PairBytesStop(region: string, i: nat, read: string -> Option<Byte>)
    ensures var n := |PairBytes(region, i, read)|;
            i + 2 * n < |region| ==> read(Pair(region, i + 2 * n)) == None
    decreases |region| - i
  {
    if i < |region| && read(Pair(region, i)).Some? {
      PairBytesStop(region, i + 2, read);
    }
  }

  /** When every pair reads, there is one byte per pair. */
  lemma {:induction false} PairBytesAll(region: string, i: nat, read: string -> Option<Byte>)
    requires forall k :: i <= k < |region| ==> read(Pair(region, k)).Some?
    ensures |PairBytes(region, i, read)| == (if i >= |region| then 0 else (|region| - i + 1) / 2)
    decreases |region| - i
  {
    if i < |region| {
      PairBytesAll(region, i + 2, read);
    }
  }

  datatype Option<T> = None | Some(value: T)
}
