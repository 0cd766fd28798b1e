/** Characters and strings as the C library and Go see them: byte strings compared
    byte by byte, hexadecimal digits and white space of the C locale. */
module Text {

  datatype Option<+T> = None | Some(value: T)

  /** `strcmp(a, b) < 0` in C and `a < b` in Go. */
  predicate Less(a: string, b: string) {
    if b == "" then false
    else if a == "" then true
    else if a[0] != b[0] then a[0] < b[0]
    else Less(a[1..], b[1..])
  }

  lemma {:induction false} LessIrreflexive(a: string)
    ensures !Less(a, a)
  {
    if a == "" {
    } else {
      LessIrreflexive(a[1..]);
    }
  }

  lemma {:induction false} LessTransitive(a: string, b: string, c: string)
    requires Less(a, b) && Less(b, c)
    ensures Less(a, c)
  {
    if a == "" || !(a[0] == b[0] == c[0]) {
    } else {
      LessTransitive(a[1..], b[1..], c[1..]);
    }
  }

  lemma {:induction false} LessTotal(a: string, b: string)
    ensures a == b || Less(a, b) || Less(b, a)
  {
    if a == "" || b == "" || a[0] != b[0] {
    } else {
      LessTotal(a[1..], b[1..]);
      if a[1..] == b[1..] {
        assert a == [a[0]] + a[1..] == [b[0]] + b[1..] == b;
      }
    }
  }

  /** Exactly one of `a < b`, `a == b` and `b < a` holds. */
  lemma LessTrichotomy(a: string, b: string)
    ensures a == b || Less(a, b) || Less(b, a)
    ensures Less(a, b) ==> a != b && !Less(b, a)
  {
    LessTotal(a, b);
    LessIrreflexive(a);
    if Less(a, b) && Less(b, a) {
      LessTransitive(a, b, a);
    }
  }

  /** The first position at which two strings differ decides their order. */
  lemma {:induction false} LessAt(a: string, b: string, k: nat)
    requires k < |a| && k < |b|
    requires a[..k] == b[..k] && a[k] < b[k]
    ensures Less(a, b)
  {
    if k == 0 {
    } else {
      assert a[0] == a[..k][0] == b[..k][0] == b[0];
      assert a[1..][..k - 1] == a[..k][1..] == b[..k][1..] == b[1..][..k - 1];
      LessAt(a[1..], b[1..], k - 1);
    }
  }

  /** The same, with two positions to decide. */
  lemma LessAtOrNext(a: string, b: string, k: nat)
    requires k + 1 < |a| && k + 1 < |b| && a[..k] == b[..k]
    requires a[k] < b[k] || (a[k] == b[k] && a[k + 1] < b[k + 1])
    ensures Less(a, b)
  {
    if a[k] < b[k] {
      LessAt(a, b, k);
    } else {
      assert a[..k + 1] == a[..k] + [a[k]] == b[..k] + [b[k]] == b[..k + 1];
      LessAt(a, b, k + 1);
    }
  }

  /** `isxdigit` */
  predicate IsHex(c: char) {
    '0' <= c <= '9' || 'a' <= c <= 'f' || 'A' <= c <= 'F'
  }

  /** `isspace`: blank, tab, line feed, vertical tab, form feed, carriage return */
  predicate IsSpace(c: char) {
    c == ' ' || 9 <= c as int <= 13
  }

  /** `tolower` */
  function Lower(c: char): char {
    if 'A' <= c <= 'Z' then (c as int + 32) as char else c
  }

  function LowerAll(s: string): (r: string)
    ensures |r| == |s| && forall i :: 0 <= i < |s| ==> r[i] == Lower(s[i])
  {
    seq(|s|, i requires 0 <= i < |s| => Lower(s[i]))
  }

  /** The numeric value of a hexadecimal digit. */
  function HexValue(c: char): (v: int)
    requires IsHex(c)
    ensures 0 <= v < 16
  {
    if c <= '9' then c as int - '0' as int
    else if c <= 'F' then c as int - 'A' as int + 10
    else c as int - 'a' as int + 10
  }

  /** The lower-case hexadecimal digit of a value. */
  function HexDigit(v: int): (c: char)
    requires 0 <= v < 16
    ensures IsHex(c) && HexValue(c) == v && Lower(c) == c
  {
    if v < 10 then (v + '0' as int) as char else (v - 10 + 'a' as int) as char
  }

  lemma LowerIsDigit(c: char)
    requires IsHex(c)
    ensures Lower(c) == HexDigit(HexValue(c)) && IsHex(Lower(c)) && HexValue(Lower(c)) == HexValue(c)
  {
  }

  /** How many characters one `fgets` takes: at most `room`, and never past a line feed. */
  function FgetsLength(s: string, room: nat): (n: nat)
    ensures n <= room && n <= |s|
    ensures s != "" && room > 0 ==> n > 0
  {
    if s == "" || room == 0 then 0
    else if s[0] == '\n' then 1
    else 1 + FgetsLength(s[1..], room - 1)
  }

  // ----- What these functions are, by tables and positions

  /** The order of strings: a proper prefix comes first, else the first difference decides. */
  lemma {:induction false} LessMeans(a: string, b: string)
    ensures Less(a, b) <==> a < b || exists k :: DiffersAt(a, b, k) && a[k] < b[k]
  {
    if a == "" || b == "" {
    } else {
      LessMeans(a[1..], b[1..]);
      assert a == [a[0]] + a[1..] && b == [b[0]] + b[1..];
      if a[0] != b[0] {
        assert DiffersAt(a, b, 0);
        assert forall k :: DiffersAt(a, b, k) ==> k == 0;
      } else {
        assert a < b <==> a[1..] < b[1..];
        if k :| DiffersAt(a[1..], b[1..], k) && a[1..][k] < b[1..][k] {
          assert DiffersAt(a, b, k + 1) && a[k + 1] < b[k + 1];
        }
        if k :| DiffersAt(a, b, k) && a[k] < b[k] {
          assert k > 0 && DiffersAt(a[1..], b[1..], k - 1);
        }
      }
    }
  }

  ghost predicate DiffersAt(a: string, b: string, k: int) {
    0 <= k < |a| && k < |b| && a[k] != b[k] && forall j :: 0 <= j < k ==> a[j] == b[j]
  }

  /** Hexadecimal digits are these, lower-case and capital, with these values. */
  lemma HexTable(c: char)
    ensures IsHex(c) <==> c in "0123456789abcdef" || c in "ABCDEF"
    ensures forall v :: 0 <= v < 16 ==> HexDigit(v) == "0123456789abcdef"[v]
    ensures forall v :: 0 <= v < 16 ==> IsHex("0123456789abcdef"[v]) && HexValue("0123456789abcdef"[v]) == v
    ensures forall v :: 0 <= v < 6 ==> IsHex("ABCDEF"[v]) && HexValue("ABCDEF"[v]) == v + 10
  {
  }

  lemma SpaceTable(c: char)
    ensures IsSpace(c) <==> c == ' ' || c == '\t' || c == '\n' || c == '\r' || c == '\U{0B}' || c == '\U{0C}'
  {
  }

  /** Capital letters become the small ones at the same places; every other character stays. */
  lemma LowerTable(c: char)
    ensures 'A' <= c <= 'Z' ==> 'a' <= Lower(c) <= 'z' && Lower(c) as int - 'a' as int == c as int - 'A' as int
    ensures !('A' <= c <= 'Z') ==> Lower(c) == c
  {
  }

  /** `fgets` stops at the first line feed, which it takes, or when there is no more room or text. */
  lemma {:induction false} FgetsStops(s: string, room: nat)
    ensures var n := FgetsLength(s, room);
            && (forall k :: 0 <= k < n - 1 ==> s[k] != '\n')
            && (n == |s| || n == room || (n > 0 && s[n - 1] == '\n'))
  {
    if s == "" || room == 0 || s[0] == '\n' {
    } else {
      FgetsStops(s[1..], room - 1);
    }
  }
}
