/** The text handling the package borrows from Go's standard library:
    splitting on white space (strings.Fields), trimming (strings.TrimSpace),
    base-16 parsing of a token (big.Int.SetString with base 16) and decimal
    formatting of an integer (fmt's %d). Strings are sequences of code points. */
module Text {
  import opened Results

  /** unicode.IsSpace: the ASCII spaces, U+0085, U+00A0 and the other
      code points of Unicode's White_Space property. */
  predicate IsSpace(c: char) {
    var n := c as int;
    n == 0x09 || n == 0x0A || n == 0x0B || n == 0x0C || n == 0x0D || n == 0x20 ||
    n == 0x85 || n == 0xA0 || n == 0x1680 || (0x2000 <= n <= 0x200A) ||
    n == 0x2028 || n == 0x2029 || n == 0x202F || n == 0x205F || n == 0x3000
  }

  predicate NoSpace(t: string) {
    forall i :: 0 <= i < |t| ==> !IsSpace(t[i])
  }

  /** Length of the run of non-space characters that starts s. */
  function WordLen(s: string): (n: nat)
    ensures n <= |s|
    ensures NoSpace(s[..n])
    ensures n < |s| ==> IsSpace(s[n])
  {
    if s == [] || IsSpace(s[0]) then 0 else 1 + WordLen(s[1..])
  }

  /** strings.Fields: the maximal runs of non-space characters, in order. */
  function Fields(s: string): (r: seq<string>)
    ensures forall j :: 0 <= j < |r| ==> |r[j]| > 0 && NoSpace(r[j])
    decreases |s|
  {
    if s == [] then []
    else if IsSpace(s[0]) then Fields(s[1..])
    else
      var n := WordLen(s);
      [s[..n]] + Fields(s[n..])
  }

  /** A non-empty spaceless word followed by a white-space character is
      split off as one field. */
  lemma {:induction false} FieldsCons(t: string, c: char, rest: string)
    requires |t| > 0 && NoSpace(t) && IsSpace(c)
    ensures Fields(t + [c] + rest) == [t] + Fields(rest)
  {
    var s := t + [c] + rest;
    assert s == t + ([c] + rest);
    WordLenOfWord(t, [c] + rest);
    assert s[0] == t[0] && !IsSpace(s[0]);
    assert s[..|t|] == t;
    assert s[|t|..] == [c] + rest;
    assert Fields(s) == [t] + Fields([c] + rest);
    assert ([c] + rest)[1..] == rest;
  }

  lemma {:induction false} WordLenOfWord(t: string, rest: string)
    requires NoSpace(t)
    requires rest != [] && IsSpace(rest[0])
    ensures WordLen(t + rest) == |t|
  {
    if t != [] {
      assert (t + rest)[1..] == t[1..] + rest;
      WordLenOfWord(t[1..], rest);
    } else {
      assert t + rest == rest;
    }
  }

  /** A line of words as the kernel writes a bitmap or list to sysfs: the
      words separated by single spaces, the last one followed by a newline. */
  function JoinWords(ws: seq<string>): (text: string) {
    if ws == [] then "\n"
    else if |ws| == 1 then ws[0] + "\n"
    else ws[0] + " " + JoinWords(ws[1..])
  }

  /** Fields undoes writing non-empty spaceless words as such a line. */
  lemma {:induction false} FieldsJoinWords(ws: seq<string>)
    requires forall j :: 0 <= j < |ws| ==> |ws[j]| > 0 && NoSpace(ws[j])
    ensures Fields(JoinWords(ws)) == ws
  {
    if ws == [] {
      assert "\n"[1..] == [];
    } else if |ws| == 1 {
      FieldsCons(ws[0], '\n', "");
      assert ws[0] + ['\n'] + "" == ws[0] + "\n";
    } else {
      FieldsCons(ws[0], ' ', JoinWords(ws[1..]));
      assert ws[0] + [' '] + JoinWords(ws[1..]) == ws[0] + " " + JoinWords(ws[1..]);
      FieldsJoinWords(ws[1..]);
    }
  }

  /** Drops the leading white space of s. */
  function TrimLeft(s: string): (r: string)
    ensures |r| <= |s| && r == s[|s| - |r|..]
    ensures forall i :: 0 <= i < |s| - |r| ==> IsSpace(s[i])
    ensures r == [] || !IsSpace(r[0])
  {
    if s != [] && IsSpace(s[0]) then TrimLeft(s[1..]) else s
  }

  /** Drops the trailing white space of s. */
  function TrimRight(s: string): (r: string)
    ensures |r| <= |s| && r == s[..|r|]
    ensures forall i :: |r| <= i < |s| ==> IsSpace(s[i])
    ensures r == [] || !IsSpace(r[|r| - 1])
  {
    if s != [] && IsSpace(s[|s| - 1]) then TrimRight(s[..|s| - 1]) else s
  }

  /** strings.TrimSpace: the slice of s between its leading and its trailing
      white space. Everything cut off is white space, and what is kept starts
      and ends with a character that is not. */
  function TrimSpace(s: string): (r: string)
    ensures var i := |s| - |TrimLeft(s)|;
      i + |r| <= |s| && r == s[i..i + |r|] &&
      (forall j :: 0 <= j < i ==> IsSpace(s[j])) &&
      (forall j :: i + |r| <= j < |s| ==> IsSpace(s[j]))
    ensures r == [] || (!IsSpace(r[0]) && !IsSpace(r[|r| - 1]))
  {
    var l := TrimLeft(s);
    var r := TrimRight(l);
    assert r == s[|s| - |l|..][..|r|];
    r
  }

  /** Trimming twice is trimming once. */
  lemma TrimSpaceIdempotent(s: string)
    ensures TrimSpace(TrimSpace(s)) == TrimSpace(s)
  {
    var r := TrimSpace(s);
    assert TrimLeft(r) == r;
  }

  // ---- base 16 ----

  /** The value of a hexadecimal digit of either case. */
  function HexDigit(c: char): (d: Option<nat>) {
    if '0' <= c <= '9' then Some(c as int - '0' as int)
    else if 'a' <= c <= 'f' then Some(c as int - 'a' as int + 10)
    else if 'A' <= c <= 'F' then Some(c as int - 'A' as int + 10)
    else None
  }

  predicate IsHex(t: string) {
    |t| > 0 && forall i :: 0 <= i < |t| ==> HexDigit(t[i]).Some?
  }

  /** The number a string of hexadecimal digits denotes, most significant first. */
  function HexValue(t: string): (v: nat)
    requires forall i :: 0 <= i < |t| ==> HexDigit(t[i]).Some?
  {
    if t == [] then 0 else 16 * HexValue(t[..|t| - 1]) + HexDigit(t[|t| - 1]).value
  }

  /** big.Int.SetString(t, 16) without a sign: the token's value, or nothing
      when it is empty or holds a character that is not a hex digit. */
  function ParseHex(t: string): (r: Option<nat>)
    ensures r.Some? <==> IsHex(t)
  {
    if IsHex(t) then Some(HexValue(t)) else None
  }

  /** The lower-case digit of a value below 16. */
  function HexChar(d: nat): (c: char)
    requires d < 16
    ensures HexDigit(c) == Some(d)
  {
    if d < 10 then ('0' as int + d) as char else ('a' as int + d - 10) as char
  }

  /** The shortest lower-case hexadecimal spelling of n, as the kernel's %lx writes it. */
  function ToHex(n: nat): (t: string)
    ensures |t| > 0
    ensures forall i :: 0 <= i < |t| ==> HexDigit(t[i]).Some?
  {
    if n < 16 then [HexChar(n)] else ToHex(n / 16) + [HexChar(n % 16)]
  }

  /** Parsing what %lx writes gives the number back. */
  lemma {:induction false} ParseHexToHex(n: nat)
    ensures ParseHex(ToHex(n)) == Some(n)
  {
    var t := ToHex(n);
    if n < 16 {
      assert HexValue(t) == 16 * HexValue([]) + n;
    } else {
      ParseHexToHex(n / 16);
      assert t[..|t| - 1] == ToHex(n / 16);
      assert HexValue(t) == 16 * (n / 16) + n % 16;
    }
  }

  // ---- base 10 ----

  function DecChar(d: nat): (c: char)
    requires d < 10
  {
    ('0' as int + d) as char
  }

  /** The decimal digits of n, most significant first. */
  function Dec(n: nat): (t: string)
    ensures |t| > 0
    ensures forall i :: 0 <= i < |t| ==> '0' <= t[i] <= '9'
  {
    if n < 10 then [DecChar(n)] else Dec(n / 10) + [DecChar(n % 10)]
  }

  /** fmt.Sprintf("%d", n). */
  function Itoa(n: int): (t: string)
    ensures |t| > 0
  {
    if n < 0 then "-" + Dec(-n) else Dec(n)
  }

  /** The number a string of decimal digits denotes. */
  function DecValue(t: string): (v: nat)
    requires forall i :: 0 <= i < |t| ==> '0' <= t[i] <= '9'
  {
    if t == [] then 0 else 10 * DecValue(t[..|t| - 1]) + (t[|t| - 1] as int - '0' as int)
  }

  lemma {:induction false} DecValueDec(n: nat)
    ensures DecValue(Dec(n)) == n
  {
    var t := Dec(n);
    if n >= 10 {
      DecValueDec(n / 10);
      assert t[..|t| - 1] == Dec(n / 10);
    }
  }

  lemma DecInjective(a: nat, b: nat)
    requires Dec(a) == Dec(b)
    ensures a == b
  {
    DecValueDec(a);
    DecValueDec(b);
  }

  /** Different integers are formatted differently. */
  lemma ItoaInjective(a: int, b: int)
    requires Itoa(a) == Itoa(b)
    ensures a == b
  {
    assert Itoa(a)[0] == '-' <==> a < 0;
    assert Itoa(b)[0] == '-' <==> b < 0;
    if a < 0 && b < 0 {
      assert Itoa(a)[1..] == Dec(-a);
      assert Itoa(b)[1..] == Dec(-b);
      DecInjective(-a, -b);
    } else if a >= 0 && b >= 0 {
      DecInjective(a, b);
    }
  }
}
