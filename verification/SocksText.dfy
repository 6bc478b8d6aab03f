/** The text handling behind SOCKS addresses: `split`, `join`, hexadecimal and decimal numbers, and IPv6 text
    (`src/protocol/address.ts`). */
module SocksTexts {
  import opened Common

  // --------------------------------------------------------- split and join

  /** `s.split(c)` for a one-character separator. */
  function Split(s: string, c: char): (r: seq<string>)
    ensures |r| >= 1
  {
    if s == "" then [""]
    else
      var rest := Split(s[1..], c);
      if s[0] == c then [""] + rest else [[s[0]] + rest[0]] + rest[1..]
  }

  /** `s.split("::")`. */
  function SplitDouble(s: string): (r: seq<string>)
    ensures |r| >= 1
  {
    if |s| < 2 then [s]
    else if s[0] == ':' && s[1] == ':' then [""] + SplitDouble(s[2..])
    else
      var rest := SplitDouble(s[1..]);
      [[s[0]] + rest[0]] + rest[1..]
  }

  /** `parts.join(c)`. */
  function Join(parts: seq<string>, c: char): string {
    if parts == [] then ""
    else if |parts| == 1 then parts[0]
    else parts[0] + [c] + Join(parts[1..], c)
  }

  lemma {:induction false} SplitNone(p: string, c: char)
    requires c !in p
    ensures Split(p, c) == [p]
  {
    if p != "" {
      SplitNone(p[1..], c);
      assert [p[0]] + p[1..] == p;
    }
  }

  lemma {:induction false} SplitFirst(p: string, rest: string, c: char)
    requires c !in p
    ensures Split(p + [c] + rest, c) == [p] + Split(rest, c)
  {
    var s := p + [c] + rest;
    if p == "" {
      assert s == [c] + rest && s[1..] == rest;
    } else {
      SplitFirst(p[1..], rest, c);
      assert s[1..] == p[1..] + [c] + rest && [p[0]] + p[1..] == p;
    }
  }

  /** Splitting undoes joining when no part contains the separator. */
  lemma {:induction false} SplitJoin(parts: seq<string>, c: char)
    requires parts != [] && forall i :: 0 <= i < |parts| ==> c !in parts[i]
    ensures Split(Join(parts, c), c) == parts
  {
    if |parts| == 1 {
      SplitNone(parts[0], c);
    } else {
      SplitJoin(parts[1..], c);
      SplitFirst(parts[0], Join(parts[1..], c), c);
    }
  }

  /** No two colons in a row. */
  predicate NoDouble(s: string) {
    forall i :: 0 <= i < |s| - 1 ==> !(s[i] == ':' && s[i + 1] == ':')
  }

  lemma NoDoubleLater(s: string, t: string)
    requires NoDouble(s) && s != "" && t == s[1..]
    ensures NoDouble(t)
  {
    forall i | 0 <= i < |t| - 1 ensures !(t[i] == ':' && t[i + 1] == ':') {
      assert t[i] == s[i + 1] && t[i + 1] == s[i + 1 + 1];
    }
  }

  lemma {:induction false} SplitDoubleNone(s: string)
    requires NoDouble(s)
    ensures SplitDouble(s) == [s]
  {
    if |s| >= 2 {
      assert !(s[0] == ':' && s[0 + 1] == ':');
      var t := s[1..];
      NoDoubleLater(s, t);
      SplitDoubleNone(t);
      assert [s[0]] + t == s;
    }
  }

  lemma {:induction false} SplitDoubleFirst(a: string, b: string)
    requires NoDouble(a) && (a != "" ==> a[|a| - 1] != ':')
    ensures SplitDouble(a + "::" + b) == [a] + SplitDouble(b)
  {
    var s := a + "::" + b;
    if a == "" {
      assert s == "::" + b && s[2..] == b;
    } else {
      var rest := a[1..];
      assert s[1..] == rest + "::" + b;
      assert !(s[0] == ':' && s[1] == ':') by {
        assert |a| > 1 ==> s[0] == a[0] && s[1] == a[0 + 1];
      }
      NoDoubleLater(a, rest);
      SplitDoubleFirst(rest, b);
      assert [a[0]] + rest == a;
    }
  }

  // ---------------------------------------------------------------- numbers

  function Digit(d: nat): char
    requires d < 16
  {
    if d < 10 then ('0' as int + d) as char else ('a' as int + d - 10) as char
  }

  /** `n.toString(base)` for base 10 or 16. */
  function NumberText(n: nat, base: nat): (s: string)
    requires base == 10 || base == 16
    ensures s != ""
  {
    if n < base then [Digit(n)] else NumberText(n / base, base) + [Digit(n % base)]
  }

  /** The decimal texts of bytes, whose joining by dots is an IPv4 address. */
  function OctetTexts(octets: bytes): (r: seq<string>)
    ensures |r| == |octets| && forall i :: 0 <= i < |r| ==> r[i] == NumberText(octets[i], 10)
  {
    seq(|octets|, i requires 0 <= i < |octets| => NumberText(octets[i], 10))
  }

  function HexDigit(c: char): Option<nat> {
    if '0' <= c <= '9' then Some(c as int - '0' as int)
    else if 'a' <= c <= 'f' then Some(c as int - 'a' as int + 10)
    else if 'A' <= c <= 'F' then Some(c as int - 'A' as int + 10)
    else None
  }

  /** `/^[0-9a-fA-F]{1,4}$/`. */
  predicate IsGroup(s: string) {
    1 <= |s| <= 4 && forall i :: 0 <= i < |s| ==> HexDigit(s[i]).Some?
  }

  predicate AllGroups(parts: seq<string>) {
    forall i :: 0 <= i < |parts| ==> IsGroup(parts[i])
  }

  /** `Number.parseInt(s, 16)` of hexadecimal digits. */
  function HexValue(s: string): nat
    requires forall i :: 0 <= i < |s| ==> HexDigit(s[i]).Some?
  {
    if s == "" then 0 else 16 * HexValue(s[..|s| - 1]) + HexDigit(s[|s| - 1]).value
  }

  lemma {:induction false} GroupFits(s: string)
    requires |s| <= 4 && forall i :: 0 <= i < |s| ==> HexDigit(s[i]).Some?
    ensures HexValue(s) < if |s| == 4 then 65536 else if |s| == 3 then 4096 else if |s| == 2 then 256 else 16
  {
    if s != "" {
      GroupFits(s[..|s| - 1]);
    }
  }

  lemma {:induction false} DigitsRead(n: nat, base: nat)
    requires base == 10 || base == 16
    ensures var s := NumberText(n, base);
      && (forall i :: 0 <= i < |s| ==> HexDigit(s[i]).Some?)
      && (base == 16 ==> HexValue(s) == n)
  {
    var s := NumberText(n, base);
    if n >= base {
      DigitsRead(n / base, base);
      assert s[..|s| - 1] == NumberText(n / base, base);
    } else {
      assert s[..|s| - 1] == "";
    }
  }

  /** The number a decimal text stands for. */
  function Decimal(s: string): int {
    if s == "" then 0 else 10 * Decimal(s[..|s| - 1]) + (s[|s| - 1] as int - '0' as int)
  }

  /** The decimal text of a number has digits only, no zero in front but for zero itself, and stands for it. */
  lemma {:induction false} DecimalReads(n: nat)
    ensures var s := NumberText(n, 10);
      && (forall i :: 0 <= i < |s| ==> '0' <= s[i] <= '9') && (s[0] == '0' ==> n == 0) && Decimal(s) == n
  {
    var s := NumberText(n, 10);
    if n >= 10 {
      DecimalReads(n / 10);
      assert s[..|s| - 1] == NumberText(n / 10, 10);
    } else {
      assert s[..|s| - 1] == "";
    }
  }

  /** A number's text holds digits only. */
  lemma NoSuchDigit(n: nat, base: nat, c: char)
    requires (base == 10 || base == 16) && HexDigit(c).None?
    ensures c !in NumberText(n, base)
  {
    DigitsRead(n, base);
  }

  /** A 16-bit number written in hexadecimal is a group, and reads back. */
  lemma GroupReads(g: nat)
    requires g < 65536
    ensures var s := NumberText(g, 16); IsGroup(s) && HexValue(s) == g && ':' !in s
  {
    DigitsRead(g, 16);
    var s := NumberText(g, 16);
    assert |s| <= 4 by {
      assert g / 16 < 4096 && g / 16 / 16 < 256 && g / 16 / 16 / 16 < 16;
      assert g >= 16 ==> |s| == |NumberText(g / 16, 16)| + 1;
      assert g / 16 >= 16 ==> |NumberText(g / 16, 16)| == |NumberText(g / 16 / 16, 16)| + 1;
      assert g / 16 / 16 >= 16 ==> |NumberText(g / 16 / 16, 16)| == |NumberText(g / 16 / 16 / 16, 16)| + 1;
    }
    assert HexDigit(':').None?;
  }

  // -------------------------------------------------------------- IPv6 text

  datatype TextError = InvalidIpv4 | InvalidIpv6 | InvalidGroup | NameTooLong

  type Word = x: int | 0 <= x < 65536

  /** `parseIpv6Groups` after the split: every part a group. */
  function ReadGroups(parts: seq<string>): (r: Result<seq<Word>, TextError>)
    ensures r.Ok? ==> |r.value| == |parts|
  {
    if parts == [] then Ok([])
    else if !IsGroup(parts[0]) then Err(InvalidGroup)
    else
      GroupFits(parts[0]);
      match ReadGroups(parts[1..])
      case Err(e) => Err(e)
      case Ok(rest) => Ok([HexValue(parts[0])] + rest)
  }

  /** `parseIpv6Groups`. */
  function ParseIpv6Groups(input: string): Result<seq<Word>, TextError> {
    if input == "" then Ok([]) else ReadGroups(Split(input, ':'))
  }

  function Zeros(n: nat): (z: seq<Word>)
    ensures |z| == n && forall i :: 0 <= i < n ==> z[i] == 0
  {
    seq(n, i => 0)
  }

  /** The groups an IPv6 text stands for (the first half of `ipv6ToBytes`). */
  function Ipv6Groups(host: string): (r: Result<seq<Word>, TextError>)
    ensures r.Ok? ==> |r.value| == 8
  {
    var parts := SplitDouble(host);
    if |parts| > 2 then Err(InvalidIpv6)
    else
      match ParseIpv6Groups(parts[0])
      case Err(e) => Err(e)
      case Ok(head) =>
        match ParseIpv6Groups(if |parts| == 2 then parts[1] else "")
        case Err(e) => Err(e)
        case Ok(tail) =>
          var missing := 8 - |head| - |tail|;
          var groups := if |parts| == 2 then head + Zeros(if missing < 0 then 0 else missing) + tail else head;
          if |groups| != 8 || missing < 0 then Err(InvalidIpv6) else Ok(groups)
  }

  /** The big-endian bytes of 16-bit words. */
  function WordBytes(words: seq<Word>): (b: bytes)
    ensures |b| == 2 * |words|
  {
    if words == [] then [] else [words[0] / 256, words[0] % 256] + WordBytes(words[1..])
  }

  /** `(high << 8) + low`. */
  function BigEndian(high: int, low: int): (w: int)
    ensures 0 <= high < 256 && 0 <= low < 256 ==> 0 <= w < 65536
  {
    high * 256 + low
  }

  lemma BytesOfBigEndian(high: byte, low: byte)
    ensures BigEndian(high, low) / 256 == high && BigEndian(high, low) % 256 == low
  {
    var h: int, l: int := high, low;
    assert h * 256 + l == BigEndian(high, low);
  }

  /** The 16-bit words in big-endian bytes. */
  function BytesWords(b: bytes): (words: seq<Word>)
    requires |b| % 2 == 0
    ensures |words| == |b| / 2
  {
    if b == [] then [] else [BigEndian(b[0], b[1])] + BytesWords(b[2..])
  }

  lemma {:induction false} WordsOfBytes(words: seq<Word>)
    ensures BytesWords(WordBytes(words)) == words
  {
    if words != [] {
      WordsOfBytes(words[1..]);
      var b := WordBytes(words);
      assert b[2..] == WordBytes(words[1..]);
    }
  }

  lemma {:induction false} BytesOfWords(b: bytes)
    requires |b| % 2 == 0
    ensures WordBytes(BytesWords(b)) == b
  {
    if b != [] {
      BytesOfWords(b[2..]);
      BytesOfBigEndian(b[0], b[1]);
      assert b == [b[0], b[1]] + b[2..];
      var words := BytesWords(b);
      assert words[1..] == BytesWords(b[2..]);
    }
  }

  lemma {:induction false} WordBytesAt(words: seq<Word>, k: nat)
    requires k < |words|
    ensures WordBytes(words)[2 * k] == words[k] / 256 && WordBytes(words)[2 * k + 1] == words[k] % 256
  {
    if k > 0 {
      WordBytesAt(words[1..], k - 1);
    }
  }

  /** `ipv6ToBytes`: the groups of the text, two bytes each, written into a buffer. */
  method Ipv6ToBytes(host: string) returns (r: Result<bytes, TextError>)
    ensures r == match Ipv6Groups(host) case Err(e) => Err(e) case Ok(groups) => Ok(WordBytes(groups))
  {
    var parsed := Ipv6Groups(host);
    if parsed.Err? {
      return Err(parsed.error);
    }
    var groups := parsed.value;
    var output := new byte[16](i => 0);
    for index := 0 to 8
      invariant forall k :: 0 <= k < index ==> output[2 * k] == groups[k] / 256 && output[2 * k + 1] == groups[k] % 256
    {
      output[index * 2] := groups[index] / 256;
      output[index * 2 + 1] := groups[index] % 256;
    }
    ghost var b := WordBytes(groups);
    forall i | 0 <= i < 16 ensures output[i] == b[i] {
      WordBytesAt(groups, i / 2);
      assert i == 2 * (i / 2) || i == 2 * (i / 2) + 1;
    }
    assert output[..] == b;
    return Ok(output[..]);
  }

  /** The texts of groups, in the form decoding writes: hexadecimal without leading zeros. */
  function GroupTexts(groups: seq<Word>): (r: seq<string>)
    ensures |r| == |groups| && forall i :: 0 <= i < |r| ==> r[i] == NumberText(groups[i], 16)
  {
    seq(|groups|, i requires 0 <= i < |groups| => NumberText(groups[i], 16))
  }

  /** Colons separate, and neither lead nor trail nor double. */
  predicate Clean(s: string) {
    s != "" && s[0] != ':' && s[|s| - 1] != ':' && NoDouble(s)
  }

  lemma {:induction false} JoinedIsClean(parts: seq<string>)
    requires parts != [] && forall i :: 0 <= i < |parts| ==> parts[i] != "" && ':' !in parts[i]
    ensures Clean(Join(parts, ':'))
  {
    var p := parts[0];
    assert p[0] in p && p[|p| - 1] in p;
    if |parts| > 1 {
      JoinedIsClean(parts[1..]);
      var rest := Join(parts[1..], ':');
      var s := p + ":" + rest;
      assert s[|p|] == ':' && s[|p| + 1] == rest[0];
      forall i | 0 <= i < |s| - 1 ensures !(s[i] == ':' && s[i + 1] == ':') {
        if i < |p| {
          assert s[i] == p[i] && p[i] in p;
        } else if i > |p| {
          assert s[i] == rest[i - |p| - 1] && s[i + 1] == rest[i - |p| - 1 + 1];
        }
      }
    }
  }

  /** The words a list of group texts stands for. */
  function Words(parts: seq<string>): (words: seq<Word>)
    requires AllGroups(parts)
    ensures |words| == |parts|
  {
    if parts == [] then [] else GroupFits(parts[0]); [HexValue(parts[0])] + Words(parts[1..])
  }

  lemma {:induction false} WordsAt(parts: seq<string>, k: nat)
    requires AllGroups(parts)
    requires k < |parts|
    ensures Words(parts)[k] == HexValue(parts[k])
  {
    if k > 0 {
      WordsAt(parts[1..], k - 1);
    }
  }

  lemma GroupIsPlain(s: string)
    requires IsGroup(s)
    ensures s != "" && ':' !in s
  {
    assert HexDigit(':').None?;
  }

  lemma {:induction false} GroupsRead(parts: seq<string>)
    requires AllGroups(parts)
    ensures ReadGroups(parts) == Ok(Words(parts))
  {
    if parts != [] {
      GroupsRead(parts[1..]);
    }
  }

  /** Reading groups from any spelling: upper or lower case, with or without leading zeros. */
  lemma SpellingReads(parts: seq<string>)
    requires AllGroups(parts)
    ensures ParseIpv6Groups(Join(parts, ':')) == Ok(Words(parts))
    ensures parts != [] ==> Clean(Join(parts, ':'))
  {
    GroupsRead(parts);
    if parts != [] {
      forall i | 0 <= i < |parts| ensures parts[i] != "" && ':' !in parts[i] {
        GroupIsPlain(parts[i]);
      }
      JoinedIsClean(parts);
      SplitJoin(parts, ':');
    }
  }

  /** Compressed text: any groups, a double colon, any groups, eight at most. The double colon stands for the zeros
      that are missing, and may stand for none. */
  lemma CompressedReads(head: seq<string>, tail: seq<string>)
    requires AllGroups(head) && AllGroups(tail)
    ensures Ipv6Groups(Join(head, ':') + "::" + Join(tail, ':')) ==
      if |head| + |tail| > 8 then Err(InvalidIpv6) else Ok(Words(head) + Zeros(8 - |head| - |tail|) + Words(tail))
  {
    SpellingReads(head);
    SpellingReads(tail);
    var a, b := Join(head, ':'), Join(tail, ':');
    DoubleSplits(a, b);
    BothHalvesRead(a + "::" + b, a, b, Words(head), Words(tail));
  }

  lemma BothHalvesRead(host: string, a: string, b: string, head: seq<Word>, tail: seq<Word>)
    requires SplitDouble(host) == [a, b]
    requires ParseIpv6Groups(a) == Ok(head) && ParseIpv6Groups(b) == Ok(tail)
    ensures Ipv6Groups(host) ==
      if |head| + |tail| > 8 then Err(InvalidIpv6) else Ok(head + Zeros(8 - |head| - |tail|) + tail)
  {
  }

  lemma DoubleSplits(a: string, b: string)
    requires (a == "" || Clean(a)) && (b == "" || Clean(b))
    ensures SplitDouble(a + "::" + b) == [a, b]
  {
    SplitDoubleFirst(a, b);
    SplitDoubleNone(b);
  }

  /** Full text: read if and only if there are eight groups. */
  lemma FullReads(parts: seq<string>)
    requires AllGroups(parts)
    ensures Ipv6Groups(Join(parts, ':')) == if |parts| == 8 then Ok(Words(parts)) else Err(InvalidIpv6)
  {
    SpellingReads(parts);
    SplitDoubleNone(Join(parts, ':'));
    assert ParseIpv6Groups("") == Ok([]);
  }

  // ------------------------------------------- exactly which texts are read

  lemma {:induction false} JoinSplit(s: string, c: char)
    ensures Join(Split(s, c), c) == s
  {
    if s != "" {
      JoinSplit(s[1..], c);
      var rest := Split(s[1..], c);
      assert s == [s[0]] + s[1..];
      if s[0] == c {
        assert ([""] + rest)[1..] == rest;
      } else {
        var parts := [[s[0]] + rest[0]] + rest[1..];
        assert parts[1..] == rest[1..];
      }
    }
  }

  function JoinDouble(parts: seq<string>): string {
    if parts == [] then ""
    else if |parts| == 1 then parts[0]
    else parts[0] + "::" + JoinDouble(parts[1..])
  }

  lemma InFront(c: char, rest: seq<string>)
    requires rest != []
    ensures JoinDouble([[c] + rest[0]] + rest[1..]) == [c] + JoinDouble(rest)
  {
    assert ([[c] + rest[0]] + rest[1..])[1..] == rest[1..];
  }

  lemma {:induction false} JoinSplitDouble(s: string)
    ensures JoinDouble(SplitDouble(s)) == s
  {
    if |s| >= 2 {
      if s[0] == ':' && s[1] == ':' {
        var later := s[2..];
        JoinSplitDouble(later);
        assert s == "::" + later;
        assert ([""] + SplitDouble(later))[1..] == SplitDouble(later);
      } else {
        var later := s[1..];
        JoinSplitDouble(later);
        var rest := SplitDouble(later);
        assert s == [s[0]] + later;
        InFront(s[0], rest);
      }
    }
  }

  lemma {:induction false} ReadMeansGroups(parts: seq<string>)
    requires ReadGroups(parts).Ok?
    ensures AllGroups(parts)
  {
    if parts != [] {
      ReadMeansGroups(parts[1..]);
      assert forall i :: 1 <= i < |parts| ==> parts[i] == parts[1..][i - 1];
    }
  }

  /** The groups a text between double colons is made of. */
  lemma HalfIsGroups(text: string) returns (parts: seq<string>)
    requires ParseIpv6Groups(text).Ok?
    ensures AllGroups(parts) && text == Join(parts, ':') && |parts| == |ParseIpv6Groups(text).value|
  {
    if text == "" {
      return [];
    }
    JoinSplit(text, ':');
    parts := Split(text, ':');
    ReadMeansGroups(parts);
  }

  /** Eight groups between single colons, or at most eight around one double colon. */
  ghost predicate IsFull(host: string) {
    exists parts :: AllGroups(parts) && |parts| == 8 && host == Join(parts, ':')
  }

  ghost predicate IsCompressed(host: string) {
    exists head, tail :: AllGroups(head) && AllGroups(tail) && |head| + |tail| <= 8
      && host == Join(head, ':') + "::" + Join(tail, ':')
  }

  /** Main result on text: these are the IPv6 texts the encoder takes, and no others. */
  lemma Ipv6TextsAccepted(host: string)
    ensures Ipv6Groups(host).Ok? <==> IsFull(host) || IsCompressed(host)
  {
    if Ipv6Groups(host).Ok? {
      AcceptedIsWritten(host);
    }
    if IsFull(host) {
      var parts :| AllGroups(parts) && |parts| == 8 && host == Join(parts, ':');
      FullReads(parts);
    }
    if IsCompressed(host) {
      var head, tail :| AllGroups(head) && AllGroups(tail) && |head| + |tail| <= 8
        && host == Join(head, ':') + "::" + Join(tail, ':');
      CompressedReads(head, tail);
    }
  }

  lemma AcceptedIsWritten(host: string)
    requires Ipv6Groups(host).Ok?
    ensures IsFull(host) || IsCompressed(host)
  {
    var parts := SplitDouble(host);
    JoinSplitDouble(host);
    var head := HalfIsGroups(parts[0]);
    if |parts| == 2 {
      var tail := HalfIsGroups(parts[1]);
      assert JoinDouble(parts[1..]) == parts[1];
      assert IsCompressed(host);
    } else {
      assert IsFull(host);
    }
  }

  /** The text decoding writes for eight groups reads back as those groups. */
  lemma Ipv6TextReads(groups: seq<Word>)
    requires |groups| == 8
    ensures Ipv6Groups(Join(GroupTexts(groups), ':')) == Ok(groups)
  {
    var texts := GroupTexts(groups);
    forall i | 0 <= i < 8 ensures IsGroup(texts[i]) && HexValue(texts[i]) == groups[i] {
      GroupReads(groups[i]);
    }
    FullReads(texts);
    forall i | 0 <= i < 8 ensures Words(texts)[i] == groups[i] {
      WordsAt(texts, i);
    }
    assert Words(texts) == groups;
  }
}
