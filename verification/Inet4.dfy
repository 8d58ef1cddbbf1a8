/**
 Dotted-quad text of IPv4 addresses (inet_ntop4 and inet_pton4 of inet.c).
 A C string is the sequence of its characters up to the terminating NUL.
 */
module Inet4 {

  type Byte = x: int | 0 <= x < 256

  datatype Error = EINVAL | ENOSPC | EAFNOSUPPORT

  datatype Result<+T> = Ok(value: T) | Err(error: Error)

  /** The place of ch in "0123456789", 10 if it is not there. */
  function Digit(ch: char): nat {
    if '0' <= ch <= '9' then ch as int - '0' as int else 10
  }

  function DigitChar(d: nat): char
    requires d < 10
  {
    ('0' as int + d) as char
  }

  /** The text of n in decimal, as %u prints it. */
  function Dec(n: nat): string {
    if n < 10 then [DigitChar(n)] else Dec(n / 10) + [DigitChar(n % 10)]
  }

  function Text4(b: seq<Byte>): string
    requires |b| == 4
  {
    Dec(b[0]) + "." + Dec(b[1]) + "." + Dec(b[2]) + "." + Dec(b[3])
  }

  lemma DecLength(n: nat)
    requires n < 256
    ensures |Dec(n)| == if n < 10 then 1 else if n < 100 then 2 else 3
  {
  }

  const INET_ADDRSTRLEN := 16

  /** inet_ntop4: the text, if it and its NUL fit into size bytes. */
  method Ntop4(src: seq<Byte>, size: nat) returns (r: Result<string>)
    requires |src| == 4
    ensures r == if |Text4(src)| < size then Ok(Text4(src)) else Err(ENOSPC)
    ensures |Text4(src)| < INET_ADDRSTRLEN
  {
    forall i | 0 <= i < 4 ensures |Dec(src[i])| <= 3 { DecLength(src[i]); }
    var tmp := Text4(src);
    var l := |tmp|;
    if l <= 0 || l >= size {
      return Err(ENOSPC);
    }
    return Ok(tmp);
  }

  // ---------------------------------------------------------------- parsing

  const DIGITS := "0123456789"

  /** A character of the alphabet has the value of its place there, and nothing else has one. */
  lemma Alphabet(ch: char, d: nat)
    requires d < 10
    ensures Digit(ch) == d <==> DIGITS[d] == ch
    ensures DigitChar(d) == DIGITS[d]
  {
    assert ch as int == '0' as int + d <==> ch == ('0' as int + d) as char;
  }

  /** The state of the scan: the octets before the last dot, the one being read, whether it has a digit. */
  datatype Scan = Scan(before: seq<Byte>, cur: Byte, saw: bool)

  /** The number of octets begun. */
  function Octets(st: Scan): nat {
    |st.before| + if st.saw then 1 else 0
  }

  /** One character, as the loop body of inet_pton4 treats it. */
  function Step4(st: Scan, ch: char): Result<Scan> {
    var d := Digit(ch);
    if d < 10 then
      var nw := st.cur * 10 + d;
      if st.saw && st.cur == 0 then Err(EINVAL)
      else if nw > 255 then Err(EINVAL)
      else if !st.saw && Octets(st) + 1 > 4 then Err(EINVAL)
      else Ok(st.(cur := nw, saw := true))
    else if ch == '.' && st.saw then
      if Octets(st) == 4 then Err(EINVAL) else Ok(Scan(st.before + [st.cur], 0, false))
    else Err(EINVAL)
  }

  function Run4(st: Scan, s: string): Result<Scan>
    decreases s
  {
    if s == "" then Ok(st)
    else match Step4(st, s[0])
      case Ok(st') => Run4(st', s[1..])
      case Err(e) => Err(e)
  }

  const START4 := Scan([], 0, false)

  function End4(r: Result<Scan>): Result<seq<Byte>> {
    match r
    case Err(e) => Err(e)
    case Ok(st) => if Octets(st) < 4 then Err(EINVAL) else Ok(st.before + [st.cur])
  }

  function Parse4(s: string): Result<seq<Byte>> {
    End4(Run4(START4, s))
  }

  lemma {:induction false} Run4Append(st: Scan, s: string, t: string)
    ensures Run4(st, s + t) == match Run4(st, s) case Ok(st') => Run4(st', t) case Err(e) => Err(e)
    decreases s
  {
    if s == "" {
      assert s + t == t;
    } else {
      assert (s + t)[0] == s[0] && (s + t)[1..] == s[1..] + t;
      if Step4(st, s[0]).Ok? { Run4Append(Step4(st, s[0]).value, s[1..], t); }
    }
  }

  /** Reading a printed octet. */
  lemma {:induction false} RunDec(before: seq<Byte>, n: nat)
    requires n < 256 && |before| < 4
    ensures Run4(Scan(before, 0, false), Dec(n)) == Ok(Scan(before, n, true))
  {
    var last := [DigitChar(n % 10)];
    assert last[1..] == "";
    if n >= 10 {
      RunDec(before, n / 10);
      Run4Append(Scan(before, 0, false), Dec(n / 10), last);
      assert Run4(Scan(before, n / 10, true), last) == Ok(Scan(before, n, true));
    }
  }

  lemma RunDot(before: seq<Byte>, n: Byte, rest: string)
    requires |before| < 3
    ensures Run4(Scan(before, n, true), "." + rest) == Run4(Scan(before + [n], 0, false), rest)
  {
    assert ("." + rest)[1..] == rest;
  }

  lemma RunOctet(before: seq<Byte>, n: Byte, rest: string)
    requires |before| < 3
    ensures Run4(Scan(before, 0, false), Dec(n) + ("." + rest)) == Run4(Scan(before + [n], 0, false), rest)
  {
    RunDec(before, n);
    Run4Append(Scan(before, 0, false), Dec(n), "." + rest);
    RunDot(before, n, rest);
  }

  /** The text of the octets from the i-th on. */
  function Rest4(b: seq<Byte>, i: nat): string
    requires |b| == 4 && i <= 3
    decreases 3 - i
  {
    if i == 3 then Dec(b[3]) else Dec(b[i]) + ("." + Rest4(b, i + 1))
  }

  lemma RegroupDots(a: string, b: string, c: string, d: string)
    ensures a + "." + b + "." + c + "." + d == a + ("." + (b + ("." + (c + ("." + d)))))
  {
  }

  lemma Text4Rest(b: seq<Byte>)
    requires |b| == 4
    ensures Text4(b) == Rest4(b, 0)
  {
    RegroupDots(Dec(b[0]), Dec(b[1]), Dec(b[2]), Dec(b[3]));
    assert Rest4(b, 2) == Dec(b[2]) + ("." + Dec(b[3]));
    assert Rest4(b, 1) == Dec(b[1]) + ("." + Rest4(b, 2));
  }

  lemma {:induction false} RunRest(b: seq<Byte>, i: nat)
    requires |b| == 4 && i <= 3
    ensures Run4(Scan(b[..i], 0, false), Rest4(b, i)) == Ok(Scan(b[..3], b[3], true))
    decreases 3 - i
  {
    if i == 3 {
      RunDec(b[..3], b[3]);
    } else {
      RunOctet(b[..i], b[i], Rest4(b, i + 1));
      assert b[..i] + [b[i]] == b[..i + 1];
      RunRest(b, i + 1);
    }
  }

  /** Every printed address is read back. */
  lemma ParseText4(b: seq<Byte>)
    requires |b| == 4
    ensures Parse4(Text4(b)) == Ok(b)
  {
    Text4Rest(b);
    RunRest(b, 0);
    assert b[..0] == [] && b[..3] + [b[3]] == b;
  }

  // ---------------------------------------------------------------- nothing else is accepted

  /** The text of the octets before the last dot, each with its dot. */
  function Dotted(before: seq<Byte>): string {
    if before == [] then ""
    else Dotted(before[..|before| - 1]) + Dec(before[|before| - 1]) + "."
  }

  /** The characters a scan has read, recovered from its state. */
  function Shown(st: Scan): string {
    Dotted(st.before) + if st.saw then Dec(st.cur) else ""
  }

  predicate GoodScan(st: Scan) {
    |st.before| <= 3 && (!st.saw ==> st.cur == 0)
  }

  lemma StepShown(st: Scan, ch: char)
    requires GoodScan(st) && Step4(st, ch).Ok?
    ensures GoodScan(Step4(st, ch).value) && Shown(Step4(st, ch).value) == Shown(st) + [ch]
  {
    var st' := Step4(st, ch).value;
    if Digit(ch) < 10 {
      assert [DigitChar(Digit(ch))] == [ch];
      if st.saw {
        assert Dec(st'.cur) == Dec(st.cur) + [ch];
        assert Dotted(st.before) + (Dec(st.cur) + [ch]) == Shown(st) + [ch];
      }
    } else {
      assert st'.before[..|st'.before| - 1] == st.before;
      assert Shown(st') == Dotted(st.before) + Dec(st.cur) + ".";
    }
  }

  lemma {:induction false} RunShown(st: Scan, s: string)
    requires GoodScan(st) && Run4(st, s).Ok?
    ensures GoodScan(Run4(st, s).value) && Shown(Run4(st, s).value) == Shown(st) + s
    decreases s
  {
    if s != "" {
      StepShown(st, s[0]);
      var st' := Step4(st, s[0]).value;
      RunShown(st', s[1..]);
      assert (Shown(st) + [s[0]]) + s[1..] == Shown(st) + s;
    }
  }

  lemma ShownText4(st: Scan)
    requires GoodScan(st) && Octets(st) == 4
    ensures Shown(st) == Text4(st.before + [st.cur])
  {
    var b := st.before;
    assert b[..2] + [b[2]] == b && b[..1] + [b[1]] == b[..2] && [] + [b[0]] == b[..1];
    assert Dotted(b[..2][..1]) == Dotted(b[..1]) && b[..2][..1] == b[..1] && b[..1][..0] == [];
    assert Dotted(b[..1]) == Dec(b[0]) + ".";
    assert Dotted(b[..2]) == Dec(b[0]) + "." + Dec(b[1]) + ".";
    assert Dotted(b) == Dec(b[0]) + "." + Dec(b[1]) + "." + Dec(b[2]) + ".";
  }

  /** A string is accepted as b if and only if it is the text printed for b. */
  lemma ParsesExactlyText4(s: string, b: seq<Byte>)
    requires |b| == 4
    ensures Parse4(s) == Ok(b) <==> s == Text4(b)
  {
    ParseText4(b);
    if Parse4(s) == Ok(b) {
      RunShown(START4, s);
      ShownText4(Run4(START4, s).value);
      assert Shown(START4) + s == s;
    }
  }

  /** Whatever is accepted has four octets. */
  lemma FourOctets(s: string)
    requires Parse4(s).Ok?
    ensures |Parse4(s).value| == 4
  {
    RunShown(START4, s);
  }

  lemma {:induction false} RunRefuses(st: Scan, s: string)
    ensures Run4(st, s).Err? ==> Run4(st, s).error == EINVAL
    decreases s
  {
    if s != "" && Step4(st, s[0]).Ok? { RunRefuses(Step4(st, s[0]).value, s[1..]); }
  }

  /** Whatever is not the text of an address is refused with EINVAL. */
  lemma RefusesAllElse(s: string)
    ensures Parse4(s) == Err(EINVAL) <==> forall b: seq<Byte> :: |b| == 4 ==> s != Text4(b)
  {
    RunRefuses(START4, s);
    if Parse4(s).Ok? {
      FourOctets(s);
      ParsesExactlyText4(s, Parse4(s).value);
    } else if b: seq<Byte> :| |b| == 4 && s == Text4(b) {
      ParseText4(b);
    }
  }

  /** inet_pton4. On failure nothing has been written to dst. */
  method Pton4(src: string) returns (r: Result<seq<Byte>>)
    requires '\0' !in src
    ensures r == Parse4(src)
    ensures r.Ok? ==> |r.value| == 4
  {
    var tmp := new Byte[4](_ => 0);
    var tp, octets, saw, i := 0, 0, false, 0;
    while i < |src|
      invariant 0 <= i <= |src| && 0 <= tp < 4
      invariant GoodScan(Scan(tmp[..tp], tmp[tp], saw)) && octets == Octets(Scan(tmp[..tp], tmp[tp], saw)) <= 4
      invariant Parse4(src) == End4(Run4(Scan(tmp[..tp], tmp[tp], saw), src[i..]))
    {
      ghost var st := Scan(tmp[..tp], tmp[tp], saw);
      var ch := src[i];
      assert src[i..][0] == ch && src[i..][1..] == src[i + 1..];
      i := i + 1;
      var d := Digit(ch);
      if d < 10 {
        var nw := tmp[tp] as int * 10 + d;
        if saw && tmp[tp] == 0 { return Err(EINVAL); }
        if nw > 255 { return Err(EINVAL); }
        tmp[tp] := nw;
        if !saw {
          octets := octets + 1;
          if octets > 4 { return Err(EINVAL); }
          saw := true;
        }
        assert tmp[..tp] == st.before;
      } else if ch == '.' && saw {
        if octets == 4 { return Err(EINVAL); }
        tp := tp + 1;
        tmp[tp] := 0;
        saw := false;
        assert tmp[..tp] == st.before + [st.cur];
      } else {
        return Err(EINVAL);
      }
    }
    if octets < 4 { return Err(EINVAL); }
    assert src[i..] == "";
    assert tmp[..] == tmp[..tp] + [tmp[tp]];
    return Ok(tmp[..]);
  }
}
