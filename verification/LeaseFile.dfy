/** The text of the DHCP lease file: reading it line by line (`fgets`) and splitting a line into
    fields (`sscanf`), against the way a lease is written. */
module LeaseFile {
  import opened Text

  const CAPACITY := 512
  const MAC_WIDTH := 63
  const IP_WIDTH := 45
  const HOST_WIDTH := 63

  /** A line after `sscanf`: fewer than three fields, or the fields read and the time. */
  datatype Line =
    | Short
    | Fields(expires: int, mac: string, ip: string, host: Option<string>, now: int)

  /** `clock(i)` is the time when line `i` is parsed. */
  datatype File = File(text: string, clock: nat -> int)

  /** What the calls to `fgets` return, one after the other. */
  function Chunks(text: string): seq<string> {
    if text == "" then []
    else
      var n := FgetsLength(text, CAPACITY - 1);
      [text[..n]] + Chunks(text[n..])
  }

  lemma NextChunk(chunks: seq<string>, k: nat, rest: string)
    requires k <= |chunks| && chunks[k..] == Chunks(rest) && rest != ""
    ensures var n := FgetsLength(rest, CAPACITY - 1);
            k < |chunks| && chunks[k] == rest[..n] && chunks[k + 1..] == Chunks(rest[n..])
  {
    assert chunks[k..][0] == chunks[k] && chunks[k + 1..] == chunks[k..][1..];
  }

  function Lines(f: File): seq<Line> {
    seq(|Chunks(f.text)|, i requires 0 <= i < |Chunks(f.text)| => ScanLine(Chunks(f.text)[i], f.clock(i)))
  }

  // ----- sscanf(line, "%ld %63s %45s %63s", ...)

  function SkipSpace(s: string): (r: string)
    ensures |r| <= |s|
  {
    if s != "" && IsSpace(s[0]) then SkipSpace(s[1..]) else s
  }

  predicate IsDigit(c: char) {
    '0' <= c <= '9'
  }

  /** How many characters at the start are digits. */
  function DigitsLength(s: string): (n: nat)
    ensures n <= |s|
  {
    if s == "" || !IsDigit(s[0]) then 0 else 1 + DigitsLength(s[1..])
  }

  function Decimal(s: string): int {
    if s == "" then 0 else Decimal(s[..|s| - 1]) * 10 + (s[|s| - 1] as int - '0' as int)
  }

  /** `%ld`: the number and what follows it. */
  function ScanLong(s: string): Option<(int, string)> {
    var t := SkipSpace(s);
    var signed := t != "" && (t[0] == '-' || t[0] == '+');
    var u := if signed then t[1..] else t;
    var n := DigitsLength(u);
    if n == 0 then None
    else Some((if signed && t[0] == '-' then -Decimal(u[..n]) else Decimal(u[..n]), u[n..]))
  }

  /** How many characters `%s` takes: at most `width`, and no white space. */
  function WordLength(s: string, width: nat): (n: nat)
    ensures n <= |s| && n <= width
  {
    if s == "" || width == 0 || IsSpace(s[0]) then 0 else 1 + WordLength(s[1..], width - 1)
  }

  /** `%s` with a width: the word, which is empty if there is none, and what follows it. */
  function ScanWord(s: string, width: nat): (string, string) {
    var t := SkipSpace(s);
    var n := WordLength(t, width);
    (t[..n], t[n..])
  }

  function ScanLine(s: string, now: int): Line {
    match ScanLong(s)
    case None => Short
    case Some((expires, r)) =>
      var (mac, r') := ScanWord(r, MAC_WIDTH);
      var (ip, r'') := ScanWord(r', IP_WIDTH);
      var (host, _) := ScanWord(r'', HOST_WIDTH);
      if mac == "" || ip == "" then Short
      else Fields(expires, mac, ip, if host == "" then None else Some(host), now)
  }

  // ----- How a lease is written

  /** `host` is empty if the line ends with the address; `tail` is the client id with a blank before
      it, or nothing. */
  datatype Lease = Lease(expires: string, mac: string, ip: string, host: string, tail: string)

  predicate IsWord(s: string) {
    s != "" && forall i :: 0 <= i < |s| ==> !IsSpace(s[i])
  }

  predicate IsNumber(s: string) {
    s != "" && forall i :: 0 <= i < |s| ==> IsDigit(s[i])
  }

  predicate IsBlank(s: string) {
    forall i :: 0 <= i < |s| ==> IsSpace(s[i])
  }

  function AfterAddress(l: Lease): string {
    if l.host == "" then "\n" else " " + (l.host + (l.tail + "\n"))
  }

  function Written(l: Lease): string {
    l.expires + (" " + (l.mac + (" " + (l.ip + AfterAddress(l)))))
  }

  predicate WellWritten(l: Lease) {
    && IsNumber(l.expires) && IsWord(l.mac) && IsWord(l.ip) && (l.host != "" ==> IsWord(l.host))
    && |l.mac| <= 63 && |l.ip| <= 45
    && (l.tail != "" ==> l.tail[0] == ' ') && '\n' !in l.tail
    && |Written(l)| <= 511
  }

  function AllWritten(ls: seq<Lease>): string {
    if ls == [] then "" else Written(ls[0]) + AllWritten(ls[1..])
  }

  /** A host name is cut to 63 characters. */
  function NameRead(host: string): string {
    if |host| <= 63 then host else host[..63]
  }

  /** The line as it is read. */
  function AsRead(l: Lease, now: int): Line {
    Fields(Decimal(l.expires), l.mac, l.ip, if l.host == "" then None else Some(NameRead(l.host)), now)
  }

  // ----- Numbers

  function Power10(n: nat): nat {
    if n == 0 then 1 else 10 * Power10(n - 1)
  }

  /** What a run of digits means: each digit its own value, ten times that one place further left. */
  lemma {:induction false} DecimalMeans(a: string, b: string)
    ensures Decimal(a + b) == Decimal(a) * Power10(|b|) + Decimal(b)
    ensures Decimal("") == 0
  {
    if b == "" {
      assert a + b == a;
    } else {
      var front, last := b[..|b| - 1], b[|b| - 1];
      DecimalMeans(a, front);
      assert (a + b)[..|a + b| - 1] == a + front;
      assert Decimal(a) * Power10(|b|) == 10 * (Decimal(a) * Power10(|front|));
    }
  }

  lemma DigitTable(v: nat)
    requires v < 10
    ensures IsDigit("0123456789"[v]) && Decimal(["0123456789"[v]]) == v
    ensures forall c :: IsDigit(c) <==> c in "0123456789"
  {
    var s := ["0123456789"[v]];
    assert s[..|s| - 1] == "" && Decimal(s) == Decimal("") * 10 + (s[0] as int - '0' as int);
  }

  // ----- Round trip

  lemma {:induction false} DigitsTaken(s: string, rest: string)
    requires (forall i :: 0 <= i < |s| ==> IsDigit(s[i]))
    requires rest != "" && !IsDigit(rest[0])
    ensures DigitsLength(s + rest) == |s|
  {
    if s == "" {
      assert s + rest == rest;
    } else {
      assert (s + rest)[1..] == s[1..] + rest;
      DigitsTaken(s[1..], rest);
    }
  }

  lemma {:induction false} WordTaken(s: string, rest: string, width: nat)
    requires forall i :: 0 <= i < |s| ==> !IsSpace(s[i])
    requires rest != "" && IsSpace(rest[0])
    ensures WordLength(s + rest, width) == if |s| <= width then |s| else width
  {
    if s == "" {
      assert s + rest == rest;
    } else if width > 0 {
      assert (s + rest)[1..] == s[1..] + rest;
      WordTaken(s[1..], rest, width - 1);
    }
  }

  lemma {:induction false} BlankSkipped(gap: string, rest: string)
    requires IsBlank(gap) && (rest != "" ==> !IsSpace(rest[0]))
    ensures SkipSpace(gap + rest) == rest
  {
    if gap == "" {
      assert gap + rest == rest;
    } else {
      assert (gap + rest)[1..] == gap[1..] + rest;
      BlankSkipped(gap[1..], rest);
    }
  }

  lemma {:induction false} WordEnds(s: string, width: nat)
    requires forall i :: 0 <= i < |s| ==> !IsSpace(s[i])
    ensures WordLength(s, width) == if |s| <= width then |s| else width
  {
    if s == "" || width == 0 {
    } else {
      WordEnds(s[1..], width - 1);
    }
  }

  /** A word after any white space is read up to the next white space or the width. */
  lemma WordRead(gap: string, s: string, rest: string, width: nat)
    requires IsBlank(gap) && IsWord(s) && (rest != "" ==> IsSpace(rest[0]))
    ensures |s| <= width ==> ScanWord(gap + (s + rest), width) == (s, rest)
    ensures ScanWord(gap + (s + rest), width).0 == if |s| <= width then s else s[..width]
  {
    var t := s + rest;
    BlankSkipped(gap, t);
    if rest == "" {
      assert t == s;
      WordEnds(s, width);
    } else {
      WordTaken(s, rest, width);
    }
    assert t[..|s|] == s && t[|s|..] == rest;
    assert |s| > width ==> t[..width] == s[..width];
  }

  lemma NoWord(gap: string, width: nat)
    requires IsBlank(gap)
    ensures ScanWord(gap, width) == ("", "")
  {
    BlankSkipped(gap, "");
    assert gap + "" == gap;
  }

  /** A number after any white space, with a sign or without. */
  lemma NumberRead(gap: string, sign: string, s: string, rest: string)
    requires IsBlank(gap) && (sign == "" || sign == "-" || sign == "+")
    requires IsNumber(s) && rest != "" && !IsDigit(rest[0])
    ensures ScanLong(gap + (sign + (s + rest))) == Some((if sign == "-" then -Decimal(s) else Decimal(s), rest))
  {
    var u := s + rest;
    var t := sign + u;
    assert u[0] == s[0];
    BlankSkipped(gap, t);
    DigitsTaken(s, rest);
    assert u[..|s|] == s && u[|s|..] == rest;
    if sign == "" {
      assert t == u;
    } else {
      assert t[1..] == u;
    }
  }

  /** Words with white space before each of them, and white space at the end. */
  function Joined(words: seq<(string, string)>, trail: string): string {
    if words == [] then trail else words[0].0 + (words[0].1 + Joined(words[1..], trail))
  }

  ghost predicate Separate(words: seq<(string, string)>, trail: string) {
    && (forall i :: 0 <= i < |words| ==> words[i].0 != "" && IsBlank(words[i].0) && IsWord(words[i].1))
    && IsBlank(trail)
  }

  lemma JoinedStarts(words: seq<(string, string)>, trail: string)
    requires Separate(words, trail)
    ensures Joined(words, trail) != "" ==> IsSpace(Joined(words, trail)[0])
  {
  }

  /** The first word, if there is one, and what is left. */
  lemma JoinedRead(words: seq<(string, string)>, trail: string, width: nat)
    requires Separate(words, trail)
    ensures words == [] ==> ScanWord(Joined(words, trail), width) == ("", "")
    ensures words != [] && |words[0].1| <= width ==>
              ScanWord(Joined(words, trail), width) == (words[0].1, Joined(words[1..], trail))
    ensures words != [] ==> ScanWord(Joined(words, trail), width).0 ==
                            if |words[0].1| <= width then words[0].1 else words[0].1[..width]
  {
    if words == [] {
      NoWord(trail, width);
    } else {
      assert Separate(words[1..], trail);
      JoinedStarts(words[1..], trail);
      WordRead(words[0].0, words[0].1, Joined(words[1..], trail), width);
    }
  }

  /** What a line with a number and words says, whatever the white space: the second and third
      field are the address and the IP, the fourth, if there is one, is the name, and with less
      than three fields it is not a lease. */
  lemma LineMeans(gap: string, sign: string, number: string, words: seq<(string, string)>, trail: string, now: int)
    requires IsBlank(gap) && (sign == "" || sign == "-" || sign == "+") && IsNumber(number)
    requires Separate(words, trail) && Joined(words, trail) != ""
    requires (|words| > 0 ==> |words[0].1| <= 63) && (|words| > 1 ==> |words[1].1| <= 45)
    ensures ScanLine(gap + (sign + (number + Joined(words, trail))), now) ==
            if |words| < 2 then Short
            else Fields(if sign == "-" then -Decimal(number) else Decimal(number), words[0].1, words[1].1,
                        if |words| == 2 then None else Some(NameRead(words[2].1)), now)
  {
    JoinedStarts(words, trail);
    NumberRead(gap, sign, number, Joined(words, trail));
    JoinedRead(words, trail, MAC_WIDTH);
    if |words| > 0 {
      JoinedRead(words[1..], trail, IP_WIDTH);
      assert words[1..] != [] ==> words[1..][0] == words[1];
    }
    if |words| > 1 {
      assert words[1..][1..] == words[2..];
      JoinedRead(words[2..], trail, HOST_WIDTH);
    }
  }

  lemma WordSpills(gap: string, s: string, rest: string, width: nat)
    requires IsBlank(gap) && IsWord(s) && |s| > width > 0 && (rest != "" ==> IsSpace(rest[0]))
    ensures ScanWord(gap + (s + rest), width) == (s[..width], s[width..] + rest)
  {
    var t := s + rest;
    BlankSkipped(gap, t);
    if rest == "" {
      assert t == s;
      WordEnds(s, width);
    } else {
      WordTaken(s, rest, width);
    }
    assert t[..width] == s[..width] && t[width..] == s[width..] + rest;
  }

  lemma BlankBefore(s: string, width: nat)
    ensures ScanWord(" " + s, width) == ScanWord(s, width)
  {
    assert (" " + s)[1..] == s;
  }

  /** A word too long for its field is read as if there were a blank where the field ends: after 63
      characters of the second field. */
  lemma LongMacSpills(number: string, gap: string, s: string, rest: string, now: int)
    requires IsNumber(number) && gap != "" && IsBlank(gap) && IsWord(s) && |s| > 63
    requires rest != "" ==> IsSpace(rest[0])
    ensures ScanLine(number + (gap + (s + rest)), now) ==
            ScanLine(number + (gap + (s[..63] + (" " + (s[63..] + rest)))), now)
  {
    var first, tail := s[..63], s[63..] + rest;
    PlainNumberRead(number, gap + (s + rest));
    PlainNumberRead(number, gap + (first + (" " + tail)));
    WordSpills(gap, s, rest, MAC_WIDTH);
    WordRead(gap, first, " " + tail, MAC_WIDTH);
    BlankBefore(tail, IP_WIDTH);
  }

  /** And after 45 characters of the third. */
  lemma LongIpSpills(number: string, gap: string, mac: string, s: string, rest: string, now: int)
    requires IsNumber(number) && gap != "" && IsBlank(gap) && IsWord(mac) && |mac| <= 63 && IsWord(s) && |s| > 45
    requires rest != "" ==> IsSpace(rest[0])
    ensures ScanLine(number + (gap + (mac + (" " + (s + rest)))), now) ==
            ScanLine(number + (gap + (mac + (" " + (s[..45] + (" " + (s[45..] + rest)))))), now)
  {
    var first, tail := s[..45], s[45..] + rest;
    var r, r' := " " + (s + rest), " " + (first + (" " + tail));
    PlainNumberRead(number, gap + (mac + r));
    PlainNumberRead(number, gap + (mac + r'));
    WordRead(gap, mac, r, MAC_WIDTH);
    WordRead(gap, mac, r', MAC_WIDTH);
    WordSpills(" ", s, rest, IP_WIDTH);
    WordRead(" ", first, " " + tail, IP_WIDTH);
    BlankBefore(tail, HOST_WIDTH);
  }

  /** A line without a number in front is not a lease. */
  lemma NoNumberIsShort(gap: string, rest: string, now: int)
    requires IsBlank(gap) && (rest == "" || !(IsSpace(rest[0]) || IsDigit(rest[0]) || rest[0] == '-' || rest[0] == '+'))
    ensures ScanLine(gap + rest, now) == Short
  {
    BlankSkipped(gap, rest);
  }

  /** A line is split into the fields it was written with. */
  lemma LineRoundTrip(l: Lease, now: int)
    requires WellWritten(l)
    ensures ScanLine(Written(l), now) == AsRead(l, now)
  {
    var r3 := AfterAddress(l);
    var r2 := " " + (l.ip + r3);
    var r1 := " " + (l.mac + r2);
    PlainNumberRead(l.expires, r1);
    WordRead(" ", l.mac, r2, MAC_WIDTH);
    WordRead(" ", l.ip, r3, IP_WIDTH);
    NameTaken(l);
  }

  lemma PlainNumberRead(s: string, rest: string)
    requires IsNumber(s) && rest != "" && !IsDigit(rest[0])
    ensures ScanLong(s + rest) == Some((Decimal(s), rest))
  {
    NumberRead("", "", s, rest);
    assert "" + ("" + (s + rest)) == s + rest;
  }

  lemma NameTaken(l: Lease)
    requires WellWritten(l)
    ensures ScanWord(AfterAddress(l), HOST_WIDTH).0 == NameRead(l.host)
  {
    if l.host == "" {
      NoWord("\n", HOST_WIDTH);
    } else {
      WordRead(" ", l.host, l.tail + "\n", HOST_WIDTH);
    }
  }

  /** `fgets` with enough room takes a line and its line feed. */
  lemma {:induction false} LineTaken(s: string, rest: string, room: nat)
    requires '\n' !in s && |s| < room
    ensures FgetsLength(s + ("\n" + rest), room) == |s| + 1
  {
    var text := s + ("\n" + rest);
    if s == "" {
      assert text[0] == '\n';
    } else {
      assert text[0] == s[0] && text[1..] == s[1..] + ("\n" + rest);
      LineTaken(s[1..], rest, room - 1);
    }
  }

  lemma WordHasNoLineFeed(s: string)
    requires IsWord(s)
    ensures '\n' !in s
  {
    assert IsSpace('\n');
  }

  lemma WrittenIsLine(l: Lease)
    requires WellWritten(l)
    ensures var line := Written(l);
            line != "" && '\n' !in line[..|line| - 1] && line[|line| - 1] == '\n'
  {
    WordHasNoLineFeed(l.mac);
    WordHasNoLineFeed(l.ip);
    assert '\n' !in l.expires;
    var end, line := AfterAddress(l), Written(l);
    if l.host != "" {
      WordHasNoLineFeed(l.host);
      assert end[..|end| - 1] == " " + (l.host + l.tail);
    }
    assert '\n' !in end[..|end| - 1] && end[|end| - 1] == '\n';
    assert line[..|line| - 1] == l.expires + (" " + (l.mac + (" " + (l.ip + end[..|end| - 1]))));
  }

  lemma FirstLine(s: string, rest: string)
    requires '\n' !in s && |s| <= 510
    ensures Chunks(s + ("\n" + rest)) == [s + "\n"] + Chunks(rest)
  {
    var text := s + ("\n" + rest);
    LineTaken(s, rest, CAPACITY - 1);
    assert text[..|s| + 1] == s + "\n" && text[|s| + 1..] == rest;
  }

  /** A line that does not fit is cut to 511 characters, and what is left is read as a line. */
  lemma LongLineIsCut(s: string)
    requires |s| > 511 && forall k :: 0 <= k < 511 ==> s[k] != '\n'
    ensures Chunks(s) == [s[..511]] + Chunks(s[511..])
  {
    FgetsStops(s, 511);
    assert FgetsLength(s, 511) == 511;
  }

  lemma CutLast(line: string, rest: string)
    requires line != ""
    ensures line == line[..|line| - 1] + [line[|line| - 1]]
    ensures line + rest == line[..|line| - 1] + ([line[|line| - 1]] + rest)
  {
  }

  lemma FirstChunk(l: Lease, rest: string)
    requires WellWritten(l)
    ensures Chunks(Written(l) + rest) == [Written(l)] + Chunks(rest)
  {
    WrittenIsLine(l);
    CutLast(Written(l), rest);
    FirstLine(Written(l)[..|Written(l)| - 1], rest);
  }

  lemma {:induction false} ChunksAreLines(ls: seq<Lease>)
    requires forall i :: 0 <= i < |ls| ==> WellWritten(ls[i])
    ensures |Chunks(AllWritten(ls))| == |ls|
    ensures forall i :: 0 <= i < |ls| ==> Chunks(AllWritten(ls))[i] == Written(ls[i])
  {
    if ls == [] {
    } else {
      FirstChunk(ls[0], AllWritten(ls[1..]));
      ChunksAreLines(ls[1..]);
    }
  }

  /** A file of leases is read back line by line. */
  lemma FileRoundTrip(ls: seq<Lease>, clock: nat -> int)
    requires forall i :: 0 <= i < |ls| ==> WellWritten(ls[i])
    ensures var lines := Lines(File(AllWritten(ls), clock));
            |lines| == |ls| && forall i :: 0 <= i < |ls| ==> lines[i] == AsRead(ls[i], clock(i))
  {
    ChunksAreLines(ls);
    forall i | 0 <= i < |ls|
      ensures Lines(File(AllWritten(ls), clock))[i] == AsRead(ls[i], clock(i))
    {
      LineRoundTrip(ls[i], clock(i));
    }
  }
}
