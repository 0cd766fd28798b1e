/** The session cookie of the web application: printing and parsing the signed payload.
    The signature is an arbitrary function of the payload. */
module Session {
  import opened Text

  type byte = x: int | 0 <= x < 256

  type Bytes = seq<byte>

  const BAR: byte := 124    // '|'
  const DOT: byte := 46     // '.'
  const MINUS: byte := 45
  const PLUS: byte := 43

  // ----- Unpadded base64url (section 5 of RFC 4648)

  function Letter(v: int): byte
    requires 0 <= v < 64
  {
    if v < 26 then 65 + v else if v < 52 then 71 + v else if v < 62 then v - 4 else if v == 62 then 45 else 95
  }

  function Value(c: byte): Option<int> {
    if 65 <= c <= 90 then Some(c - 65)
    else if 97 <= c <= 122 then Some(c - 71)
    else if 48 <= c <= 57 then Some(c + 4)
    else if c == 45 then Some(62)
    else if c == 95 then Some(63)
    else None
  }

  type Sextet = x: int | 0 <= x < 64

  /** The sextets of three bytes. */
  function Sextet0(x: byte): Sextet { x / 4 }

  function Sextet1(x: byte, y: byte): Sextet { x % 4 * 16 + y / 16 }

  function Sextet2(y: byte, z: byte): Sextet { y % 16 * 4 + z / 64 }

  function Sextet3(z: byte): Sextet { z % 64 }

  /** Three bytes make four sextets; one or two bytes left over make two or three. */
  function Split(b: Bytes): seq<Sextet> {
    if b == [] then []
    else if |b| == 1 then [Sextet0(b[0]), Sextet1(b[0], 0)]
    else if |b| == 2 then [Sextet0(b[0]), Sextet1(b[0], b[1]), Sextet2(b[1], 0)]
    else [Sextet0(b[0]), Sextet1(b[0], b[1]), Sextet2(b[1], b[2]), Sextet3(b[2])] + Split(b[3..])
  }

  /** `base64.RawURLEncoding.EncodeToString` */
  function Encode(b: Bytes): Bytes {
    var v := Split(b);
    seq(|v|, i requires 0 <= i < |v| => Letter(v[i]))
  }

  predicate IsLineBreak(c: byte) {
    c == 10 || c == 13
  }

  /** The decoder skips line breaks wherever they stand. */
  function Unbroken(s: Bytes): Bytes {
    if s == [] then [] else (if IsLineBreak(s[0]) then [] else [s[0]]) + Unbroken(s[1..])
  }

  function Sextets(s: Bytes): Option<seq<Sextet>> {
    if s == [] then Some([])
    else
      match (Value(s[0]), Sextets(s[1..]))
      case (Some(v), Some(rest)) => Some([v] + rest)
      case _ => None
  }

  function FirstByte(u: Sextet, v: Sextet): byte { u * 4 + v / 16 }

  function SecondByte(u: Sextet, v: Sextet): byte { u % 16 * 16 + v / 4 }

  function ThirdByte(u: Sextet, v: Sextet): byte { u % 4 * 64 + v }

  /** The bytes of a run of sextets; the spare bits of a short last group are not checked. */
  function Join(v: seq<Sextet>): Option<Bytes> {
    if v == [] then Some([])
    else if |v| == 1 then None
    else if |v| == 2 then Some([FirstByte(v[0], v[1])])
    else if |v| == 3 then Some([FirstByte(v[0], v[1]), SecondByte(v[1], v[2])])
    else
      match Join(v[4..])
      case None => None
      case Some(rest) => Some([FirstByte(v[0], v[1]), SecondByte(v[1], v[2]), ThirdByte(v[2], v[3])] + rest)
  }

  /** `base64.RawURLEncoding.DecodeString`: None where it returns an error. */
  function Decode(s: Bytes): Option<Bytes> {
    match Sextets(Unbroken(s))
    case None => None
    case Some(v) => Join(v)
  }

  lemma LetterValue(v: Sextet)
    ensures Value(Letter(v)) == Some(v) && !IsLineBreak(Letter(v)) && Letter(v) != DOT
  {
  }

  lemma {:induction false} UnbrokenLetters(s: Bytes)
    requires forall i :: 0 <= i < |s| ==> Value(s[i]).Some?
    ensures Unbroken(s) == s
  {
    if s == [] {
    } else {
      UnbrokenLetters(s[1..]);
      assert [s[0]] + s[1..] == s;
    }
  }

  lemma {:induction false} SextetsOfLetters(s: Bytes, v: seq<Sextet>)
    requires |s| == |v| && forall i :: 0 <= i < |s| ==> s[i] == Letter(v[i])
    ensures Sextets(s) == Some(v)
  {
    if s == [] {
    } else {
      LetterValue(v[0]);
      SextetsOfLetters(s[1..], v[1..]);
      assert [v[0]] + v[1..] == v;
    }
  }

  lemma BytesReturn(x: byte, y: byte, z: byte)
    ensures FirstByte(Sextet0(x), Sextet1(x, y)) == x
    ensures SecondByte(Sextet1(x, y), Sextet2(y, z)) == y
    ensures ThirdByte(Sextet2(y, z), Sextet3(z)) == z
  {
  }

  lemma JoinGroup(s: Sextet, t: Sextet, u: Sextet, v: Sextet, rest: seq<Sextet>)
    ensures Join([s, t, u, v] + rest) == match Join(rest)
              case None => None
              case Some(b) => Some([FirstByte(s, t), SecondByte(t, u), ThirdByte(u, v)] + b)
  {
    assert ([s, t, u, v] + rest)[4..] == rest;
  }

  lemma JoinSplitOne(x: byte, y: byte)
    ensures Join([Sextet0(x), Sextet1(x, y)]) == Some([x])
  {
    BytesReturn(x, y, y);
    assert Join([Sextet0(x), Sextet1(x, y)]) == Some([FirstByte(Sextet0(x), Sextet1(x, y))]);
  }

  lemma JoinSplitTwo(x: byte, y: byte, z: byte)
    ensures Join([Sextet0(x), Sextet1(x, y), Sextet2(y, z)]) == Some([x, y])
  {
    BytesReturn(x, y, z);
    assert Join([Sextet0(x), Sextet1(x, y), Sextet2(y, z)]) ==
           Some([FirstByte(Sextet0(x), Sextet1(x, y)), SecondByte(Sextet1(x, y), Sextet2(y, z))]);
  }

  lemma JoinSplitGroup(x: byte, y: byte, z: byte, v: seq<Sextet>, b: Bytes)
    requires Join(v) == Some(b)
    ensures Join([Sextet0(x), Sextet1(x, y), Sextet2(y, z), Sextet3(z)] + v) == Some([x, y, z] + b)
  {
    BytesReturn(x, y, z);
    JoinGroup(Sextet0(x), Sextet1(x, y), Sextet2(y, z), Sextet3(z), v);
  }

  lemma {:induction false} JoinSplit(b: Bytes)
    ensures Join(Split(b)) == Some(b)
  {
    if |b| == 1 {
      JoinSplitOne(b[0], 0);
      assert b == [b[0]];
    } else if |b| == 2 {
      JoinSplitTwo(b[0], b[1], 0);
      assert b == [b[0], b[1]];
    } else if |b| >= 3 {
      JoinSplit(b[3..]);
      JoinSplitGroup(b[0], b[1], b[2], Split(b[3..]), b[3..]);
      assert [b[0], b[1], b[2]] + b[3..] == b;
    }
  }

  /** Decoding undoes encoding, and an encoded text holds no dot. */
  lemma Base64RoundTrip(b: Bytes)
    ensures Decode(Encode(b)) == Some(b) && DOT !in Encode(b)
  {
    var s, v := Encode(b), Split(b);
    forall i | 0 <= i < |s|
      ensures Value(s[i]) == Some(v[i]) && s[i] != DOT
    {
      LetterValue(v[i]);
    }
    UnbrokenLetters(s);
    SextetsOfLetters(s, v);
    JoinSplit(b);
  }

  /** The alphabet: capital letters, small letters, digits, '-' and '_'. */
  lemma AlphabetMeans(v: Sextet, c: byte)
    ensures Letter(v) == if v < 26 then 'A' as int + v else if v < 52 then 'a' as int + (v - 26)
                         else if v < 62 then '0' as int + (v - 52) else if v == 62 then '-' as int else '_' as int
    ensures Value(c).Some? <==> exists u: Sextet :: Letter(u) == c
  {
    if Value(c).Some? {
      assert Letter(Value(c).value) == c;
    }
    if u: Sextet :| Letter(u) == c {
      LetterValue(u);
    }
  }

  function Bits(base: int, a: int, b: int, c: int): int {
    (a * base + b) * base + c
  }

  /** Three bytes and their four sextets are the same 24 bits. */
  lemma GroupMeans(x: byte, y: byte, z: byte, rest: Bytes)
    ensures var v := Split([x, y, z] + rest);
            && |v| == 4 + |Split(rest)| && v[4..] == Split(rest)
            && Bits(64, v[0], v[1], v[2]) * 64 + v[3] == Bits(256, x, y, z)
    ensures Split([x, y]) == Split([x, y, 0])[..3] && Split([x]) == Split([x, 0, 0])[..2]
  {
    var b := [x, y, z] + rest;
    assert b[3..] == rest && b[0] == x && b[1] == y && b[2] == z;
    assert Split(b) == [Sextet0(x), Sextet1(x, y), Sextet2(y, z), Sextet3(z)] + Split(rest);
  }

  function LetterCount(s: Bytes): nat {
    if s == [] then 0 else (if s[0] == 10 || s[0] == 13 then 0 else 1) + LetterCount(s[1..])
  }

  lemma {:induction false} UnbrokenMeans(s: Bytes)
    ensures |Unbroken(s)| == LetterCount(s)
    ensures forall c :: c in Unbroken(s) <==> c in s && !IsLineBreak(c)
  {
    if s == [] {
    } else {
      UnbrokenMeans(s[1..]);
      assert s == [s[0]] + s[1..];
    }
  }

  lemma {:induction false} SextetsIff(s: Bytes)
    ensures Sextets(s).Some? <==> forall c :: c in s ==> Value(c).Some?
    ensures Sextets(s).Some? ==> |Sextets(s).value| == |s|
  {
    if s == [] {
    } else {
      SextetsIff(s[1..]);
      assert s == [s[0]] + s[1..];
    }
  }

  lemma {:induction false} JoinIff(v: seq<Sextet>)
    ensures Join(v).Some? <==> |v| % 4 != 1
  {
    if |v| < 4 {
      assert |v| == 0 || |v| == 1 || |v| == 2 || |v| == 3;
    } else {
      var rest := v[4..];
      JoinIff(rest);
      assert v == [v[0], v[1], v[2], v[3]] + rest;
      JoinGroup(v[0], v[1], v[2], v[3], rest);
      assert |rest| % 4 == |v| % 4;
    }
  }

  /** A text is decoded exactly if it holds letters of the alphabet and line breaks only, and the
      number of its letters does not leave one over from groups of four. */
  lemma DecodesIff(s: Bytes)
    ensures Decode(s).Some? <==>
            (forall c :: c in s ==> Value(c).Some? || c == 10 || c == 13) && LetterCount(s) % 4 != 1
  {
    UnbrokenMeans(s);
    SextetsIff(Unbroken(s));
    if Sextets(Unbroken(s)).Some? {
      JoinIff(Sextets(Unbroken(s)).value);
    }
  }

  // ----- Decimal numbers

  predicate IsDigit(c: byte) {
    48 <= c <= 57
  }

  function PrintNat(n: nat): Bytes {
    if n < 10 then [48 + n] else PrintNat(n / 10) + [48 + n % 10]
  }

  /** `%d` */
  function PrintInt(n: int): Bytes {
    if n < 0 then [MINUS] + PrintNat(-n) else PrintNat(n)
  }

  /** The value of a run of digits. */
  function ReadNat(s: Bytes): Option<nat> {
    if s == [] || !IsDigit(s[|s| - 1]) then None
    else if |s| == 1 then Some(s[0] - 48)
    else
      match ReadNat(s[..|s| - 1])
      case None => None
      case Some(n) => Some(10 * n + (s[|s| - 1] - 48))
  }

  predicate IsInt64(n: int) {
    -0x8000_0000_0000_0000 <= n < 0x8000_0000_0000_0000
  }

  /** `strconv.ParseInt(s, 10, 64)`: an optional sign and digits, within range. */
  function ParseInt(s: Bytes): Option<int> {
    var signed := s != [] && (s[0] == MINUS || s[0] == PLUS);
    match ReadNat(if signed then s[1..] else s)
    case None => None
    case Some(n) =>
      var m: int := n;
      var v := if signed && s[0] == MINUS then -m else m;
      if IsInt64(v) then Some(v) else None
  }

  lemma {:induction false} ReadPrintNat(n: nat)
    ensures PrintNat(n) != [] && ReadNat(PrintNat(n)) == Some(n)
    ensures forall c :: c in PrintNat(n) ==> IsDigit(c)
  {
    if n < 10 {
    } else {
      ReadPrintNat(n / 10);
      var s := PrintNat(n);
      assert s[..|s| - 1] == PrintNat(n / 10);
    }
  }

  lemma {:induction false} PrintNatMeans(n: nat)
    ensures PrintNat(n) != [] && (forall c :: c in PrintNat(n) ==> 48 <= c <= 57)
    ensures PrintNat(n)[0] == 48 <==> n == 0
    ensures n == 0 ==> PrintNat(n) == [48]
  {
    if n < 10 {
    } else {
      PrintNatMeans(n / 10);
    }
  }

  /** A number is printed with digits only and no leading zero, and a negative one with a minus sign
      before its digits. */
  lemma PrintMeans(n: int)
    ensures n >= 0 ==> PrintInt(n) != [] && forall c :: c in PrintInt(n) ==> '0' as int <= c <= '9' as int
    ensures n > 0 ==> PrintInt(n)[0] != '0' as int
    ensures n == 0 ==> PrintInt(n) == ['0' as int]
    ensures n < 0 ==> PrintInt(n) == ['-' as int] + PrintInt(-n)
  {
    PrintNatMeans(if n < 0 then -n else n);
  }

  function Zeros(k: nat): Bytes {
    seq(k, _ => 48)
  }

  lemma {:induction false} ReadZeros(k: nat)
    requires k > 0
    ensures ReadNat(Zeros(k)) == Some(0)
  {
    if k == 1 {
    } else {
      ReadZeros(k - 1);
      assert Zeros(k)[..k - 1] == Zeros(k - 1);
    }
  }

  lemma {:induction false} ReadPadded(k: nat, n: nat)
    ensures ReadNat(Zeros(k) + PrintNat(n)) == Some(n)
  {
    var s := Zeros(k) + PrintNat(n);
    if n < 10 {
      assert s[..|s| - 1] == Zeros(k);
      if k > 0 {
        ReadZeros(k);
      }
    } else {
      ReadPadded(k, n / 10);
      assert s[..|s| - 1] == Zeros(k) + PrintNat(n / 10);
    }
  }

  lemma {:induction false} ReadIsPadded(s: Bytes) returns (k: nat)
    requires ReadNat(s).Some?
    ensures s == Zeros(k) + PrintNat(ReadNat(s).value)
  {
    var n, c := |s| - 1, s[|s| - 1];
    assert s == s[..n] + [c];
    if n == 0 {
      k := 0;
    } else {
      k := ReadIsPadded(s[..n]);
      if ReadNat(s[..n]).value == 0 {
        assert s[..n] == Zeros(k + 1);
        k := k + 1;
      }
    }
  }

  /** A printed number with leading zeros and a sign that goes with it. */
  ghost predicate Spells(s: Bytes, n: int, sign: Bytes, k: nat) {
    && (sign == [] || sign == [PLUS] || sign == [MINUS]) && (n < 0 ==> sign == [MINUS]) && (n > 0 ==> sign != [MINUS])
    && s == sign + (Zeros(k) + PrintNat(if n < 0 then -n else n))
  }

  lemma ParseSigned(sign: Bytes, digits: Bytes, n: int)
    requires (sign == [] || sign == [PLUS] || sign == [MINUS]) && digits != [] && IsDigit(digits[0])
    requires ReadNat(digits) == Some(if n < 0 then -n else n)
    requires (n < 0 ==> sign == [MINUS]) && (n > 0 ==> sign != [MINUS])
    ensures ParseInt(sign + digits) == if IsInt64(n) then Some(n) else None
  {
    var s := sign + digits;
    if sign == [] {
      assert s == digits;
    } else {
      assert s[1..] == digits && s[0] == sign[0];
    }
  }

  lemma ParseSpelled(s: Bytes, n: int, sign: Bytes, k: nat)
    requires Spells(s, n, sign, k)
    ensures ParseInt(s) == if IsInt64(n) then Some(n) else None
  {
    var m := if n < 0 then -n else n;
    var digits := Zeros(k) + PrintNat(m);
    ReadPadded(k, m);
    PrintNatMeans(m);
    assert k > 0 ==> digits[0] == 48;
    assert k == 0 ==> digits[0] == PrintNat(m)[0] && PrintNat(m)[0] in PrintNat(m);
    ParseSigned(sign, digits, n);
  }

  lemma ParsedIsSpelled(s: Bytes) returns (sign: Bytes, k: nat)
    requires ParseInt(s).Some?
    ensures Spells(s, ParseInt(s).value, sign, k)
  {
    var signed := s != [] && (s[0] == MINUS || s[0] == PLUS);
    sign := if signed then [s[0]] else [];
    var digits := if signed then s[1..] else s;
    assert s == sign + digits;
    k := ReadIsPadded(digits);
  }

  /** `ParseInt` reads a printed number with any leading zeros and an optional sign, provided it has
      64 bits, and nothing else. */
  lemma ParseIntIff(s: Bytes, n: int)
    ensures ParseInt(s) == Some(n) <==>
            -9223372036854775808 <= n <= 9223372036854775807 && exists sign, k :: Spells(s, n, sign, k)
  {
    if ParseInt(s) == Some(n) {
      var sign, k := ParsedIsSpelled(s);
    }
    if sign, k :| Spells(s, n, sign, k) {
      ParseSpelled(s, n, sign, k);
    }
  }

  /** Reading back a printed number of 64 bits gives the number. */
  lemma ParsePrintInt(n: int)
    requires IsInt64(n)
    ensures ParseInt(PrintInt(n)) == Some(n) && BAR !in PrintInt(n)
  {
    ReadPrintNat(if n < 0 then -n else n);
    if n < 0 {
      assert PrintInt(n)[1..] == PrintNat(-n);
    } else {
      assert PrintInt(n)[0] in PrintInt(n);
    }
  }

  lemma {:induction false} ReadNatIsDigits(s: Bytes, c: byte)
    requires ReadNat(s).Some? && c in s
    ensures IsDigit(c)
  {
    if |s| == 1 || c == s[|s| - 1] {
    } else {
      assert s == s[..|s| - 1] + [s[|s| - 1]];
      ReadNatIsDigits(s[..|s| - 1], c);
    }
  }

  /** A text with a bar in it is no number. */
  lemma BarIsNoNumber(s: Bytes)
    requires BAR in s
    ensures ParseInt(s) == None
  {
    var signed := s[0] == MINUS || s[0] == PLUS;
    var digits := if signed then s[1..] else s;
    assert BAR in digits by {
      assert s == [s[0]] + s[1..];
    }
    if ReadNat(digits).Some? {
      ReadNatIsDigits(digits, BAR);
    }
  }

  // ----- The cookie

  /** `strings.SplitN(s, c, 2)`: what stands before and after the first `c`. */
  function CutAt(s: Bytes, c: byte): Option<(Bytes, Bytes)> {
    if s == [] then None
    else if s[0] == c then Some(([], s[1..]))
    else
      match CutAt(s[1..], c)
      case None => None
      case Some((before, after)) => Some(([s[0]] + before, after))
  }

  lemma {:induction false} CutAtFirst(a: Bytes, c: byte, b: Bytes)
    requires c !in a
    ensures CutAt(a + [c] + b, c) == Some((a, b))
  {
    var s := a + [c] + b;
    if a == [] {
      assert s[1..] == b;
    } else {
      CutAtFirst(a[1..], c, b);
      assert s[1..] == a[1..] + [c] + b && [a[0]] + a[1..] == a;
    }
  }

  lemma Rejoin(x: byte, a: Bytes, c: byte, b: Bytes)
    ensures [x] + (a + [c] + b) == [x] + a + [c] + b
  {
  }

  lemma {:induction false} CutAtParts(s: Bytes, c: byte)
    ensures CutAt(s, c) == None <==> c !in s
    ensures CutAt(s, c).Some? ==> var (a, b) := CutAt(s, c).value; c !in a && s == a + [c] + b
  {
    if s == [] {
    } else {
      var rest := s[1..];
      CutAtParts(rest, c);
      assert s == [s[0]] + rest;
      if s[0] != c && CutAt(rest, c).Some? {
        Rejoin(s[0], CutAt(rest, c).value.0, c, CutAt(rest, c).value.1);
      }
    }
  }

  datatype Session =
    | User(name: Bytes)
    | MalformedCookie
    | BadEncoding
    | BadSignature
    | MalformedPayload
    | BadExpiry
    | Expired

  function Payload(user: Bytes, expiry: int): Bytes {
    user + [BAR] + PrintInt(expiry)
  }

  /** The cookie value `IssueCookie` sets. */
  function Issue(sign: Bytes -> Bytes, user: Bytes, expiry: int): Bytes {
    var payload := Payload(user, expiry);
    Encode(payload) + [DOT] + sign(payload)
  }

  /** The verdict on a decoded payload. */
  function Admit(payload: Bytes, now: int): Session {
    match CutAt(payload, BAR)
    case None => MalformedPayload
    case Some((name, number)) =>
      match ParseInt(number)
      case None => BadExpiry
      case Some(expiry) => if now >= expiry then Expired else User(name)
  }

  /** `parse`, at the time `now`. */
  function Parse(sign: Bytes -> Bytes, value: Bytes, now: int): Session {
    match CutAt(value, DOT)
    case None => MalformedCookie
    case Some((encoded, signature)) =>
      match Decode(encoded)
      case None => BadEncoding
      case Some(payload) =>
        if sign(payload) != signature then BadSignature else Admit(payload, now)
  }

  lemma AdmitPayload(user: Bytes, expiry: int, now: int)
    requires IsInt64(expiry)
    ensures Admit(Payload(user, expiry), now) ==
            if BAR in user then BadExpiry else if now >= expiry then Expired else User(user)
  {
    var payload := Payload(user, expiry);
    ParsePrintInt(expiry);
    if BAR in user {
      CutAtParts(user, BAR);
      var (a, b) := CutAt(user, BAR).value;
      var rest := b + [BAR] + PrintInt(expiry);
      assert payload == a + [BAR] + rest;
      CutAtFirst(a, BAR, rest);
      BarIsNoNumber(rest);
    } else {
      CutAtFirst(user, BAR, PrintInt(expiry));
    }
  }

  /** Round trip, for every username and every 64-bit expiry: an issued cookie names its user
      exactly while it has not expired, unless the username has a bar in it. */
  lemma CookieRoundTrip(sign: Bytes -> Bytes, user: Bytes, expiry: int, now: int)
    requires IsInt64(expiry)
    ensures Parse(sign, Issue(sign, user, expiry), now) == User(user) <==> BAR !in user && now < expiry
    ensures BAR in user ==> Parse(sign, Issue(sign, user, expiry), now) == BadExpiry
    ensures BAR !in user && now >= expiry ==> Parse(sign, Issue(sign, user, expiry), now) == Expired
  {
    var payload := Payload(user, expiry);
    Base64RoundTrip(payload);
    CutAtFirst(Encode(payload), DOT, sign(payload));
    AdmitPayload(user, expiry, now);
  }

  /** A cookie names a user exactly if it is an encoded payload, a dot and the signature of that
      payload, and the payload is the name, which has no bar, a bar and a 64-bit time still to come. */
  lemma NamesUserIff(sign: Bytes -> Bytes, value: Bytes, now: int, user: Bytes)
    ensures Parse(sign, value, now) == User(user) <==>
            exists encoded, number, expiry :: Names(sign, value, now, user, encoded, number, expiry)
    ensures Parse(sign, value, now) == MalformedCookie <==> DOT !in value
  {
    CutAtParts(value, DOT);
    if Parse(sign, value, now) == User(user) {
      var (encoded, signature) := CutAt(value, DOT).value;
      var payload := Decode(encoded).value;
      CutAtParts(payload, BAR);
      var number := CutAt(payload, BAR).value.1;
      assert Names(sign, value, now, user, encoded, number, ParseInt(number).value);
    }
    if encoded, number, expiry :| Names(sign, value, now, user, encoded, number, expiry) {
      CutAtFirst(encoded, DOT, sign(user + [BAR] + number));
      CutAtFirst(user, BAR, number);
    }
  }

  ghost predicate Names(sign: Bytes -> Bytes, value: Bytes, now: int, user: Bytes, encoded: Bytes, number: Bytes,
                        expiry: int)
  {
    var bar, dot: byte := '|' as int, '.' as int;
    var payload := user + [bar] + number;
    && dot !in encoded && value == encoded + [dot] + sign(payload) && Decode(encoded) == Some(payload)
    && bar !in user && ParseInt(number) == Some(expiry) && now < expiry
  }

  /** If no other payload has the signature of an issued cookie, a cookie carrying that signature
      names the same user or none, however its first part is written. */
  lemma SignatureFixesUser(sign: Bytes -> Bytes, user: Bytes, expiry: int, encoded: Bytes, now: int)
    requires IsInt64(expiry) && DOT !in encoded
    requires forall p :: sign(p) == sign(Payload(user, expiry)) ==> p == Payload(user, expiry)
    ensures var s := Parse(sign, encoded + [DOT] + sign(Payload(user, expiry)), now);
            s.User? ==> s.name == user && now < expiry && Decode(encoded) == Some(Payload(user, expiry))
  {
    CutAtFirst(encoded, DOT, sign(Payload(user, expiry)));
    AdmitPayload(user, expiry, now);
  }
}
