/**
 The text form of IPv6 addresses (inet_ntop6 and inet_pton6 of inet.c), with the zero
 compression of section 4.2 of RFC 5952 and embedded IPv4 tails (section 2.2 of RFC 4291).
 */
module Inet6 {
  import opened Inet4

  type Address = b: seq<Byte> | |b| == 16 witness seq(16, _ => 0)

  /** Word i of the address. */
  function Word(b: Address, i: nat): nat
    requires i < 8
  {
    256 * (b[2 * i] as int) + b[2 * i + 1] as int
  }

  // ---------------------------------------------------------------- the longest run of zeros

  /** base is -1 if there is no run. */
  datatype Run = Run(base: int, len: nat)

  predicate Zeros(b: Address, from: nat, to: nat) {
    from <= to <= 8 && forall i :: from <= i < to ==> Word(b, i) == 0
  }

  /** best is the leftmost longest run of at least two zero words, or none. */
  ghost predicate IsBest(b: Address, best: Run) {
    if best.base == -1 then
      forall i, j :: 0 <= i < j <= 8 && Zeros(b, i, j) ==> j - i < 2
    else
      && 0 <= best.base && 2 <= best.len && best.base + best.len <= 8 && Zeros(b, best.base, best.base + best.len)
      && forall i, j :: 0 <= i < j <= 8 && Zeros(b, i, j) ==>
           j - i <= best.len && (i < best.base ==> j - i < best.len)
  }

  /** Two answers to IsBest are the same. */
  lemma BestIsUnique(b: Address, r: Run, r': Run)
    requires IsBest(b, r) && IsBest(b, r')
    ensures r.base == r'.base && (r.base != -1 ==> r.len == r'.len)
  {
    if r.base != -1 { assert Zeros(b, r.base, r.base + r.len); }
    if r'.base != -1 { assert Zeros(b, r'.base, r'.base + r'.len); }
  }

  /** What the scan knows after i words: cur is the run that ends here, best the best that has ended. */
  ghost predicate Scanned(b: Address, i: nat, best: Run, cur: Run) {
    && i <= 8
    && (if cur.base == -1 then i == 0 || Word(b, i - 1) != 0
        else 0 <= cur.base && 0 < cur.len && cur.base + cur.len == i && Zeros(b, cur.base, i)
             && (cur.base == 0 || Word(b, cur.base - 1) != 0))
    && (best.base == -1 ||
        (0 <= best.base && 0 < best.len && best.base + best.len <= i && Zeros(b, best.base, best.base + best.len)))
    && (forall p, q :: 0 <= p < q <= (if cur.base == -1 then i else cur.base) && Zeros(b, p, q) ==>
          best.base != -1 && q - p <= best.len && (p < best.base ==> q - p < best.len))
  }

  /** The run that has just ended replaces the best one only if it is longer. */
  function Better(best: Run, cur: Run): Run {
    if best.base == -1 || cur.len > best.len then cur else best
  }

  lemma RunEnds(b: Address, i: nat, best: Run, cur: Run)
    requires i < 8 && Scanned(b, i, best, cur) && Word(b, i) != 0
    ensures Scanned(b, i + 1, if cur.base == -1 then best else Better(best, cur), cur.(base := -1))
  {
    forall p, q | 0 <= p < q <= i + 1 && Zeros(b, p, q) ensures q <= i {
      assert Word(b, q - 1) == 0;
    }
    if cur.base != -1 {
      forall p, q | 0 <= p < q <= i && Zeros(b, p, q)
        ensures q <= cur.base || p >= cur.base
      {
        assert !(p < cur.base < q);
      }
    }
  }

  lemma RunGoesOn(b: Address, i: nat, best: Run, cur: Run)
    requires i < 8 && Scanned(b, i, best, cur) && Word(b, i) == 0
    ensures Scanned(b, i + 1, best, if cur.base == -1 then Run(i, 1) else cur.(len := cur.len + 1))
  {
  }

  lemma ScanIsOver(b: Address, best: Run, cur: Run)
    requires Scanned(b, 8, best, cur)
    ensures var r := if cur.base == -1 then best else Better(best, cur);
      IsBest(b, if r.base != -1 && r.len < 2 then r.(base := -1) else r)
  {
    if cur.base != -1 {
      forall p, q | 0 <= p < q <= 8 && Zeros(b, p, q)
        ensures q <= cur.base || p >= cur.base
      {
        assert !(p < cur.base < q);
      }
    }
  }

  /** The search for the run to elide: leftmost, longest, and at least two words long. */
  method BestRun(b: Address) returns (best: Run)
    ensures IsBest(b, best)
  {
    best := Run(-1, 0);
    var cur := Run(-1, 0);
    var i := 0;
    while i < 8
      invariant 0 <= i <= 8 && Scanned(b, i, best, cur)
    {
      if Word(b, i) == 0 {
        RunGoesOn(b, i, best, cur);
        if cur.base == -1 { cur := Run(i, 1); } else { cur := cur.(len := cur.len + 1); }
      } else {
        RunEnds(b, i, best, cur);
        if cur.base != -1 {
          if best.base == -1 || cur.len > best.len { best := cur; }
          cur := cur.(base := -1);
        }
      }
      i := i + 1;
    }
    ScanIsOver(b, best, cur);
    if cur.base != -1 {
      if best.base == -1 || cur.len > best.len { best := cur; }
    }
    if best.base != -1 && best.len < 2 {
      best := best.(base := -1);
    }
  }

  // ---------------------------------------------------------------- printing

  function HexChar(d: nat): char
    requires d < 16
  {
    if d < 10 then ('0' as int + d) as char else ('a' as int + d - 10) as char
  }

  /** The text of n in hexadecimal, as %x prints it. */
  function Hex(n: nat): string {
    if n < 16 then [HexChar(n)] else Hex(n / 16) + [HexChar(n % 16)]
  }

  function Pow16(k: nat): nat {
    if k == 0 then 1 else 16 * Pow16(k - 1)
  }

  lemma {:induction false} HexDigits(n: nat, k: nat)
    requires 0 < k && n < Pow16(k)
    ensures 1 <= |Hex(n)| <= k
  {
    if n >= 16 {
      assert k > 1 by { assert Pow16(1) == 16 * Pow16(0); }
      HexDigits(n / 16, k - 1);
    }
  }

  lemma HexLength(n: nat)
    requires n < 0x1_0000
    ensures 1 <= |Hex(n)| <= 4
  {
    assert Pow16(4) == 16 * Pow16(3) && Pow16(2) == 16 * Pow16(1) && Pow16(1) == 16 * Pow16(0);
    HexDigits(n, 4);
  }

  predicate InRun(best: Run, i: int) {
    best.base != -1 && best.base <= i < best.base + best.len
  }

  /** The last two words are printed as an IPv4 address. */
  predicate Embedded(b: Address, best: Run) {
    best.base == 0 && (best.len == 6 || (best.len == 7 && Word(b, 7) != 1) || (best.len == 5 && Word(b, 5) == 0xffff))
  }

  /** The embedded address ends the loop. */
  predicate Stops(b: Address, best: Run, i: nat) {
    i == 6 && !InRun(best, i) && Embedded(b, best)
  }

  /** What one turn of the printing loop adds. */
  function Piece(b: Address, best: Run, i: nat): string
    requires i < 8
  {
    if InRun(best, i) then (if i == best.base then ":" else "")
    else (if i != 0 then ":" else "") + (if Stops(b, best, i) then Text4(b[12..]) else Hex(Word(b, i)))
  }

  /** What is added behind the loop. */
  function Trailer(best: Run): string {
    if best.base != -1 && best.base + best.len == 8 then ":" else ""
  }

  /** What is still added from word i on. */
  function Tail(b: Address, best: Run, i: nat): string
    requires i <= 8
    decreases 8 - i
  {
    if i == 8 then Trailer(best)
    else Piece(b, best, i) + if Stops(b, best, i) then Trailer(best) else Tail(b, best, i + 1)
  }

  function Text6(b: Address, best: Run): string {
    Tail(b, best, 0)
  }

  const INET6_ADDRSTRLEN := 46

  lemma PieceLength(b: Address, best: Run, i: nat)
    requires i < 8
    ensures |Piece(b, best, i)| <=
      if InRun(best, i) then 1 else if Stops(b, best, i) then 16 else if i == 0 then 4 else 5
  {
    HexLength(Word(b, i));
    forall j | 12 <= j < 16 ensures |Dec(b[j])| <= 3 { DecLength(b[j]); }
  }

  lemma TailLength(b: Address, best: Run, i: nat)
    requires i <= 8 && (best.base == 0 ==> 0 < best.len)
    ensures |Tail(b, best, i)| <=
      5 * (8 - i) + (if best.base == 0 && i <= 6 then 6 else 1) - (if i == 0 && best.base != 0 then 1 else 0)
    ensures i == 0 ==> |Tail(b, best, i)| <= 42
    decreases 8 - i
  {
    if i < 8 {
      TailLength(b, best, i + 1);
      PieceLength(b, best, i);
    }
  }

  /** What the loop has printed before word i. */
  function Printed(b: Address, best: Run, i: nat): string
    requires i <= 8
  {
    if i == 0 then "" else Printed(b, best, i - 1) + Piece(b, best, i - 1)
  }

  lemma SameText(a: string, b: string, c: string)
    requires a == b && b == c
    ensures a == c
  {
  }

  lemma NoPrefix(a: string)
    ensures "" + a == a
  {
  }

  lemma Assoc(a: string, b: string, c: string)
    ensures (a + b) + c == a + (b + c)
  {
  }

  /** The loop has not stopped before word i: the rest of the text is Tail. */
  lemma {:induction false} PrintedTail(b: Address, best: Run, i: nat)
    requires i <= 8 && (i <= 6 || !Stops(b, best, 6))
    ensures Printed(b, best, i) + Tail(b, best, i) == Text6(b, best)
  {
    if i == 0 {
      NoPrefix(Tail(b, best, 0));
    } else {
      PrintedTail(b, best, i - 1);
      PieceMoves(b, best, i - 1);
      PrintedStep(Printed(b, best, i - 1), Printed(b, best, i), Piece(b, best, i - 1), Tail(b, best, i - 1),
                  Tail(b, best, i), Text6(b, best));
    }
  }

  lemma PieceMoves(b: Address, best: Run, i: nat)
    requires i < 8 && !Stops(b, best, i)
    ensures Printed(b, best, i + 1) == Printed(b, best, i) + Piece(b, best, i)
    ensures Tail(b, best, i) == Piece(b, best, i) + Tail(b, best, i + 1)
  {
  }

  lemma PrintedStep(printed: string, printed': string, piece: string, tail: string, tail': string, text: string)
    requires printed + tail == text && tail == piece + tail' && printed' == printed + piece
    ensures printed' + tail' == text
  {
    Assoc(printed, piece, tail');
  }

  lemma StoppedText(b: Address, best: Run)
    requires Stops(b, best, 6)
    ensures (Printed(b, best, 6) + Piece(b, best, 6)) + Trailer(best) == Text6(b, best)
    ensures |Printed(b, best, 6)| + |Piece(b, best, 6)| <= |Text6(b, best)|
  {
    PrintedTail(b, best, 6);
    Assoc(Printed(b, best, 6), Piece(b, best, 6), Trailer(best));
  }

  /** The body of the printing loop; stop says that it breaks. The nested inet_ntop4 gets the rest of the buffer. */
  method PrintWord(src: Address, run: Run, i: nat, tmp: string) returns (tmp': string, stop: bool)
    requires i < 8 && |tmp| + |Piece(src, run, i)| < INET6_ADDRSTRLEN
    ensures tmp' == tmp + Piece(src, run, i) && stop == Stops(src, run, i)
  {
    tmp', stop := tmp, false;
    if InRun(run, i) {
      if i == run.base { tmp' := tmp' + ":"; }
      return;
    }
    var colon := if i != 0 then ":" else "";
    tmp' := tmp' + colon;
    if i == 6 && Embedded(src, run) {
      assert Piece(src, run, i) == ":" + Text4(src[12..]);
      var quad := Ntop4(src[12..], INET6_ADDRSTRLEN - |tmp'|);
      Assoc(tmp, ":", Text4(src[12..]));
      return tmp' + quad.value, true;
    }
    Assoc(tmp, colon, Hex(Word(src, i)));
    tmp' := tmp' + Hex(Word(src, i));
  }

  /** Every prefix of the text that the loop prints fits. */
  lemma PrintedFits(b: Address, best: Run, i: nat)
    requires i < 8 && (i <= 6 || !Stops(b, best, 6))
    ensures |Printed(b, best, i)| + |Piece(b, best, i)| <= |Text6(b, best)|
  {
    PrintedTail(b, best, i);
  }

  /** The printing loop. */
  method PrintWords(src: Address, run: Run) returns (tmp: string)
    requires run.base == 0 ==> 0 < run.len
    ensures tmp + Trailer(run) == Text6(src, run)
  {
    TailLength(src, run, 0);
    tmp := "";
    var i := 0;
    while i < 8
      invariant 0 <= i <= 8 && tmp == Printed(src, run, i) && (i <= 6 || !Stops(src, run, 6))
    {
      PrintedFits(src, run, i);
      var stop;
      tmp, stop := PrintWord(src, run, i, tmp);
      if stop {
        StoppedText(src, run);
        return;
      }
      i := i + 1;
    }
    PrintedTail(src, run, 8);
  }

  /**
   inet_ntop6: the text with the best run elided, if it and its NUL fit into size bytes. The
   scratch buffer is never overrun and the nested inet_ntop4 never fails.
   */
  method Ntop6(src: Address, size: nat) returns (r: Result<string>)
    ensures exists best ::
      && IsBest(src, best)
      && |Text6(src, best)| + 1 <= INET6_ADDRSTRLEN
      && r == if |Text6(src, best)| + 1 > size then Err(ENOSPC) else Ok(Text6(src, best))
    ensures INET6_ADDRSTRLEN <= size ==> r.Ok?
    ensures r.Ok? ==> Parse6(r.value) == Ok(src)
    ensures r.Ok? ==> QuadAsDue(src, r.value)
  {
    var run := BestRun(src);
    TailLength(src, run, 0);
    PrintsQuad(src, run);
    ParseText6(src, run);
    var tmp := PrintWords(src, run);
    assert tmp + "" == tmp;
    if run.base != -1 && run.base + run.len == 8 { tmp := tmp + ":"; }
    if |tmp| + 1 > size {
      return Err(ENOSPC);
    }
    return Ok(tmp);
  }

  // ---------------------------------------------------------------- parsing

  /** The value of ch as a hexadecimal digit of either case, 16 if it is none. */
  function HexVal(ch: char): nat {
    if '0' <= ch <= '9' then ch as int - '0' as int
    else if 'a' <= ch <= 'f' then ch as int - 'a' as int + 10
    else if 'A' <= ch <= 'F' then ch as int - 'A' as int + 10
    else 16
  }

  /**
   The variables of inet_pton6: the bytes stored, where the double colon was (-1: nowhere), the
   word being read with its number of digits, and the text of the current token.
   */
  datatype Scan6 = Scan6(bytes: seq<Byte>, colon: int, val: nat, seen: nat, tok: string)

  function Push(bytes: seq<Byte>, val: nat): seq<Byte> {
    bytes + [val / 256 % 256, val % 256]
  }

  function ZeroBytes(n: nat): seq<Byte> {
    seq(n, _ => 0)
  }

  /** The bytes behind the double colon move to the end, zeros fill the gap. */
  function Expand(bytes: seq<Byte>, c: nat): seq<Byte>
    requires c <= |bytes| <= 16
  {
    bytes[..c] + ZeroBytes(16 - |bytes|) + bytes[c..]
  }

  /** What inet_pton6 does once the loop is over. */
  function Finish(st: Scan6): Result<seq<Byte>> {
    if st.seen > 0 && |st.bytes| + 2 > 16 then Err(EINVAL)
    else
      var bytes := if st.seen > 0 then Push(st.bytes, st.val) else st.bytes;
      if 0 <= st.colon <= |bytes| <= 16 then
        if |bytes| == 16 then Err(EINVAL) else Ok(Expand(bytes, st.colon))
      else if |bytes| != 16 then Err(EINVAL) else Ok(bytes)
  }

  function Run6(st: Scan6, s: string): Result<seq<Byte>>
    decreases |s|
  {
    if s == "" then Finish(st)
    else
      var ch, rest := s[0], s[1..];
      if HexVal(ch) < 16 then
        if st.seen + 1 > 4 then Err(EINVAL)
        else Run6(st.(val := st.val * 16 + HexVal(ch), seen := st.seen + 1), rest)
      else if ch == ':' then
        if st.seen == 0 then
          if st.colon != -1 then Err(EINVAL) else Run6(st.(colon := |st.bytes|, tok := rest), rest)
        else if rest == "" then Err(EINVAL)
        else if |st.bytes| + 2 > 16 then Err(EINVAL)
        else Run6(Scan6(Push(st.bytes, st.val), st.colon, 0, 0, rest), rest)
      else if ch == '.' && |st.bytes| + 4 <= 16 then
        match Parse4(st.tok)
        case Ok(quad) => Finish(st.(bytes := st.bytes + quad, seen := 0))
        case Err(_) => Err(EINVAL)
      else Err(EINVAL)
  }

  function Start6(s: string): Scan6 {
    Scan6([], -1, 0, 0, s)
  }

  /** inet_pton6: a single leading colon is refused. */
  function Parse6(s: string): Result<seq<Byte>> {
    if s != "" && s[0] == ':' then
      if |s| < 2 || s[1] != ':' then Err(EINVAL) else Run6(Start6(s[1..]), s[1..])
    else Run6(Start6(s), s)
  }

  const XDIGITS_L := "0123456789abcdef"
  const XDIGITS_U := "0123456789ABCDEF"

  /** A digit of either alphabet has the value of its place there, and nothing else has one. */
  lemma HexAlphabets(ch: char, d: nat)
    requires d < 16
    ensures HexVal(ch) == d <==> XDIGITS_L[d] == ch || XDIGITS_U[d] == ch
    ensures HexChar(d) == XDIGITS_L[d]
  {
    assert ch as int == '0' as int + d <==> ch == ('0' as int + d) as char;
  }

  // ---------------------------------------------------------------- the grammar of the text form

  /** Groups of hexadecimal digits with single colons between them, and perhaps an IPv4 address at the end. */
  datatype Part = None | Dotted(q: seq<Byte>) | Group(g: string, rest: Part)

  predicate AllHex(g: string) {
    forall k :: 0 <= k < |g| ==> HexVal(g[k]) < 16
  }

  predicate IsPart(p: Part) {
    match p
    case None => true
    case Dotted(q) => |q| == 4
    case Group(g, rest) => 1 <= |g| <= 4 && AllHex(g) && IsPart(rest)
  }

  predicate OnlyGroups(p: Part) {
    match p
    case None => true
    case Dotted(_) => false
    case Group(_, rest) => OnlyGroups(rest)
  }

  /** The value of a string of hexadecimal digits. */
  function HexNum(g: string): nat {
    if g == "" then 0 else HexNum(g[..|g| - 1]) * 16 + HexVal(g[|g| - 1])
  }

  function TextOf(p: Part): string
    requires IsPart(p)
  {
    match p
    case None => ""
    case Dotted(q) => Text4(q)
    case Group(g, rest) => if rest.None? then g else g + (":" + TextOf(rest))
  }

  function BytesOf(p: Part): seq<Byte>
    requires IsPart(p)
  {
    match p
    case None => []
    case Dotted(q) => q
    case Group(g, rest) => Push([], HexNum(g)) + BytesOf(rest)
  }

  /** An address in full, or with one double colon for at least one group of zeros. */
  datatype Form = Whole(p: Part) | Gapped(hi: Part, lo: Part)

  predicate IsForm(f: Form) {
    match f
    case Whole(p) => IsPart(p) && |BytesOf(p)| == 16
    case Gapped(hi, lo) => IsPart(hi) && OnlyGroups(hi) && IsPart(lo) && |BytesOf(hi)| + |BytesOf(lo)| < 16
  }

  function TextForm(f: Form): string
    requires IsForm(f)
  {
    match f
    case Whole(p) => TextOf(p)
    case Gapped(hi, lo) => TextOf(hi) + ("::" + TextOf(lo))
  }

  function ValueForm(f: Form): seq<Byte>
    requires IsForm(f)
  {
    match f
    case Whole(p) => BytesOf(p)
    case Gapped(hi, lo) =>
      BytesOf(hi) + ZeroBytes(16 - |BytesOf(hi)| - |BytesOf(lo)|) + BytesOf(lo)
  }

  /** `s` is a text of the address `b`. */
  ghost predicate IsText6(s: string, b: seq<Byte>) {
    exists f :: IsForm(f) && s == TextForm(f) && b == ValueForm(f)
  }

  /** The groups of a part, each with a colon behind it. */
  function Colons(p: Part): string {
    match p
    case Group(g, rest) => g + (":" + Colons(rest))
    case _ => ""
  }

  lemma TextStarts(p: Part)
    requires IsPart(p) && !p.None?
    ensures TextOf(p) != "" && TextOf(p)[0] != ':'
  {
    match p
    case Dotted(q) => DecStarts(q[0]);
    case Group(g, _) => assert HexVal(g[0]) < 16;
  }

  lemma {:induction false} DecStarts(n: nat)
    ensures Dec(n) != "" && '0' <= Dec(n)[0] <= '9'
  {
    if n >= 10 { DecStarts(n / 10); }
  }

  lemma {:induction false} ColonsText(p: Part)
    requires IsPart(p) && OnlyGroups(p) && !p.None?
    ensures Colons(p) == TextOf(p) + ":"
  {
    if p.rest.Group? {
      ColonsText(p.rest);
      Assoc(p.g, ":" + TextOf(p.rest), ":");
      Assoc(":", TextOf(p.rest), ":");
    }
  }

  // ---------------------------------------------------------------- the scan reads exactly the grammar

  /** Up to four digits are collected into the word being read. */
  lemma {:induction false} RunGroup(st: Scan6, g: string, rest: string)
    requires st.seen == 0 && st.val == 0 && |g| <= 4 && AllHex(g)
    ensures Run6(st, g + rest) == Run6(st.(val := HexNum(g), seen := |g|), rest)
    decreases |g|
  {
    if g == "" {
      assert g + rest == rest;
    } else {
      var g0, c := g[..|g| - 1], g[|g| - 1];
      var tail := [c] + rest;
      assert tail[0] == c && tail[1..] == rest;
      assert g + rest == g0 + tail;
      RunGroup(st, g0, tail);
    }
  }

  lemma RunTooLong(st: Scan6, s: string)
    requires st.seen == 0 && st.val == 0 && |s| > 4 && AllHex(s[..5])
    ensures Run6(st, s) == Err(EINVAL)
  {
    var g, rest := s[..4], s[4..];
    assert s == g + rest && rest[0] == s[..5][4];
    assert forall k :: 0 <= k < 4 ==> g[k] == s[..5][k];
    RunGroup(st, g, rest);
  }

  /** An embedded IPv4 address is read as a whole. */
  lemma RunQuad(st: Scan6, q: seq<Byte>)
    requires |q| == 4 && st.seen == 0 && st.val == 0 && st.tok == Text4(q)
    ensures Run6(st, Text4(q)) ==
      if |st.bytes| + 4 <= 16 then Finish(Scan6(st.bytes + q, st.colon, 0, 0, "")) else Err(EINVAL)
  {
    var t := "." + (Dec(q[1]) + ("." + (Dec(q[2]) + ("." + Dec(q[3])))));
    RegroupDots(Dec(q[0]), Dec(q[1]), Dec(q[2]), Dec(q[3]));
    assert Text4(q) == Dec(q[0]) + t;
    DecLength(q[0]);
    DecIsHex(q[0]);
    RunGroup(st, Dec(q[0]), t);
    assert t[0] == '.';
    ParseText4(q);
  }

  lemma {:induction false} DecIsHex(n: nat)
    ensures AllHex(Dec(n))
  {
    if n >= 10 { DecIsHex(n / 10); }
  }

  /** Between two words, with the place of the double colon if it has been seen. */
  function Between(bytes: seq<Byte>, colon: int, s: string): Scan6 {
    Scan6(bytes, colon, 0, 0, s)
  }

  lemma PushNone(bytes: seq<Byte>)
    ensures bytes + [] == bytes
  {
  }

  lemma GroupColons(g: string, c: string, t: string)
    ensures (g + (":" + c)) + t == g + (":" + (c + t))
  {
  }

  lemma GapNotEmpty(c: string, t: string)
    ensures c + (":" + t) != ""
  {
  }

  lemma PushAll(bytes: seq<Byte>, v: nat, more: seq<Byte>)
    ensures bytes + (Push([], v) + more) == Push(bytes, v) + more
  {
  }

  /** A colon behind a word. */
  lemma RunWordColon(st: Scan6, rest: string)
    requires st.seen > 0
    ensures Run6(st, ":" + rest) ==
      if rest == "" || |st.bytes| + 2 > 16 then Err(EINVAL)
      else Run6(Between(Push(st.bytes, st.val), st.colon, rest), rest)
  {
    assert (":" + rest)[0] == ':' && (":" + rest)[1..] == rest;
  }

  /** A word and its colon. */
  lemma RunGroupColon(bytes: seq<Byte>, colon: int, g: string, t: string)
    requires 1 <= |g| <= 4 && AllHex(g)
    ensures Run6(Between(bytes, colon, g + (":" + t)), g + (":" + t)) ==
      if t == "" || |bytes| + 2 > 16 then Err(EINVAL)
      else Run6(Between(Push(bytes, HexNum(g)), colon, t), t)
  {
    var st := Between(bytes, colon, g + (":" + t));
    RunGroup(st, g, ":" + t);
    RunWordColon(st.(val := HexNum(g), seen := |g|), t);
  }

  /** A colon that no word precedes. */
  lemma RunColon(bytes: seq<Byte>, colon: int, rest: string)
    ensures Run6(Between(bytes, colon, ":" + rest), ":" + rest) ==
      if colon != -1 then Err(EINVAL) else Run6(Between(bytes, |bytes|, rest), rest)
  {
    assert (":" + rest)[0] == ':' && (":" + rest)[1..] == rest;
  }

  /** A part is read to its end, if there is room for it. */
  lemma {:induction false} RunPart(bytes: seq<Byte>, colon: int, p: Part)
    requires IsPart(p) && |bytes| <= 16
    ensures Run6(Between(bytes, colon, TextOf(p)), TextOf(p)) ==
      if |bytes| + |BytesOf(p)| <= 16 then Finish(Between(bytes + BytesOf(p), colon, "")) else Err(EINVAL)
    decreases p
  {
    var st := Between(bytes, colon, TextOf(p));
    match p
    case None => assert bytes + [] == bytes;
    case Dotted(q) => RunQuad(st, q);
    case Group(g, rest) =>
      PushAll(bytes, HexNum(g), BytesOf(rest));
      if rest.None? {
        assert g + "" == g && Push(bytes, HexNum(g)) + [] == Push(bytes, HexNum(g));
        RunGroup(st, g, "");
      } else {
        TextStarts(rest);
        RunGroupColon(bytes, colon, g, TextOf(rest));
        if |bytes| + 2 <= 16 { RunPart(Push(bytes, HexNum(g)), colon, rest); }
      }
  }

  lemma RunGapFirst(bytes: seq<Byte>, lo: Part)
    requires IsPart(lo) && |bytes| + |BytesOf(lo)| <= 16
    ensures Run6(Between(bytes, -1, ":" + TextOf(lo)), ":" + TextOf(lo)) ==
      Finish(Between(bytes + BytesOf(lo), |bytes|, ""))
  {
    RunColon(bytes, -1, TextOf(lo));
    RunPart(bytes, |bytes|, lo);
  }

  lemma {:induction false} RunGap(bytes: seq<Byte>, hi: Part, lo: Part)
    requires IsPart(hi) && OnlyGroups(hi) && IsPart(lo) && |bytes| + |BytesOf(hi)| + |BytesOf(lo)| <= 16
    ensures Run6(Between(bytes, -1, Colons(hi) + (":" + TextOf(lo))), Colons(hi) + (":" + TextOf(lo))) ==
      Finish(Between(bytes + BytesOf(hi) + BytesOf(lo), |bytes| + |BytesOf(hi)|, ""))
    decreases hi
  {
    if hi.None? {
      NoPrefix(":" + TextOf(lo));
      PushNone(bytes);
      RunGapFirst(bytes, lo);
    } else {
      var t := Colons(hi.rest) + (":" + TextOf(lo));
      GroupColons(hi.g, Colons(hi.rest), ":" + TextOf(lo));
      GapNotEmpty(Colons(hi.rest), TextOf(lo));
      RunGroupColon(bytes, -1, hi.g, t);
      PushAll(bytes, HexNum(hi.g), BytesOf(hi.rest));
      RunGap(Push(bytes, HexNum(hi.g)), hi.rest, lo);
    }
  }

  /** What a successful scan from between two words has read. */
  predicate ReadAs(f: Form, bytes: seq<Byte>, colon: int, s: string, b: seq<Byte>) {
    match f
    case Whole(p) =>
      IsPart(p) && s == TextOf(p) && |bytes| + |BytesOf(p)| <= 16
      && Finish(Between(bytes + BytesOf(p), colon, "")) == Ok(b)
    case Gapped(hi, lo) =>
      IsPart(hi) && OnlyGroups(hi) && IsPart(lo) && colon == -1 && s == Colons(hi) + (":" + TextOf(lo))
      && |bytes| + |BytesOf(hi)| + |BytesOf(lo)| <= 16
      && Finish(Between(bytes + BytesOf(hi) + BytesOf(lo), |bytes| + |BytesOf(hi)|, "")) == Ok(b)
  }

  /** The number of hexadecimal digits at the head. */
  function Digits(s: string): (n: nat)
    ensures n <= |s| && AllHex(s[..n]) && (n < |s| ==> HexVal(s[n]) == 16)
  {
    if s == "" || HexVal(s[0]) == 16 then 0
    else
      var n := 1 + Digits(s[1..]);
      assert s[..n] == [s[0]] + s[1..][..n - 1];
      n
  }

  lemma FewDigits(bytes: seq<Byte>, colon: int, s: string)
    requires Run6(Between(bytes, colon, s), s).Ok?
    ensures Digits(s) <= 4
  {
    var g := s[..Digits(s)];
    if |g| > 4 {
      assert s[..5] == g[..5];
      RunTooLong(Between(bytes, colon, s), s);
    }
  }

  lemma SplitDigits(s: string, n: nat)
    requires n <= |s|
    ensures s == s[..n] + s[n..]
  {
  }

  lemma DigitsAreRead(bytes: seq<Byte>, colon: int, s: string)
    requires Run6(Between(bytes, colon, s), s).Ok?
    ensures var n := Digits(s); n <= 4 && s == s[..n] + s[n..]
    ensures var n := Digits(s);
      Run6(Between(bytes, colon, s), s) == Run6(Scan6(bytes, colon, HexNum(s[..n]), n, s), s[n..])
  {
    var n := Digits(s);
    FewDigits(bytes, colon, s);
    SplitDigits(s, n);
    RunGroup(Between(bytes, colon, s), s[..n], s[n..]);
  }

  lemma {:induction false} ScanReads(bytes: seq<Byte>, colon: int, s: string, b: seq<Byte>) returns (f: Form)
    requires |bytes| <= 16 && (colon == -1 || 0 <= colon <= |bytes|)
    requires Run6(Between(bytes, colon, s), s) == Ok(b)
    ensures ReadAs(f, bytes, colon, s, b)
    decreases |s|
  {
    var n := Digits(s);
    var g, rest := s[..n], s[n..];
    DigitsAreRead(bytes, colon, s);
    var st' := Scan6(bytes, colon, HexNum(g), n, s);
    if rest == "" {
      assert s == g;
      f := ReadsLast(bytes, colon, g, b);
    } else if rest[0] == ':' {
      assert rest == ":" + rest[1..];
      if n == 0 {
        RunColon(bytes, colon, rest[1..]);
        var f' := ScanReads(bytes, |bytes|, rest[1..], b);
        f := Gapped(None, f'.p);
        GapReads(bytes, f'.p, rest[1..], b);
      } else {
        RunWordColon(st', rest[1..]);
        var f' := ScanReads(Push(bytes, HexNum(g)), colon, rest[1..], b);
        f := GroupReads(bytes, colon, g, rest[1..], b, f');
      }
    } else {
      f := ReadsQuad(st', rest, s, b);
    }
  }

  lemma ReadsLast(bytes: seq<Byte>, colon: int, g: string, b: seq<Byte>) returns (f: Form)
    requires |bytes| <= 16 && |g| <= 4 && AllHex(g)
    requires Finish(Scan6(bytes, colon, HexNum(g), |g|, g)) == Ok(b)
    ensures ReadAs(f, bytes, colon, g, b)
  {
    if g == "" {
      f := Whole(None);
      assert bytes + [] == bytes;
    } else {
      f := Whole(Group(g, None));
      PushAll(bytes, HexNum(g), []);
      assert Push(bytes, HexNum(g)) + [] == Push(bytes, HexNum(g));
    }
  }

  lemma GapReads(bytes: seq<Byte>, lo: Part, s: string, b: seq<Byte>)
    requires ReadAs(Whole(lo), bytes, |bytes|, s, b)
    ensures ReadAs(Gapped(None, lo), bytes, -1, ":" + s, b)
  {
    assert "" + (":" + s) == ":" + s && bytes + [] == bytes;
  }

  lemma GroupWhole(bytes: seq<Byte>, colon: int, g: string, s: string, b: seq<Byte>, p: Part)
    requires 1 <= |g| <= 4 && AllHex(g) && s != "" && ReadAs(Whole(p), Push(bytes, HexNum(g)), colon, s, b)
    ensures ReadAs(Whole(Group(g, p)), bytes, colon, g + (":" + s), b)
  {
    PushAll(bytes, HexNum(g), BytesOf(p));
  }

  lemma GroupGapped(bytes: seq<Byte>, colon: int, g: string, s: string, b: seq<Byte>, hi: Part, lo: Part)
    requires 1 <= |g| <= 4 && AllHex(g) && ReadAs(Gapped(hi, lo), Push(bytes, HexNum(g)), colon, s, b)
    ensures ReadAs(Gapped(Group(g, hi), lo), bytes, colon, g + (":" + s), b)
  {
    var f := Group(g, hi);
    PushAll(bytes, HexNum(g), BytesOf(hi));
    GroupColons(g, Colons(hi), ":" + TextOf(lo));
    assert BytesOf(f) == Push([], HexNum(g)) + BytesOf(hi) && Colons(f) == g + (":" + Colons(hi));
    assert |bytes| + |BytesOf(f)| == |Push(bytes, HexNum(g))| + |BytesOf(hi)|;
  }

  lemma GroupReads(bytes: seq<Byte>, colon: int, g: string, s: string, b: seq<Byte>, f': Form) returns (f: Form)
    requires 1 <= |g| <= 4 && AllHex(g) && s != ""
    requires ReadAs(f', Push(bytes, HexNum(g)), colon, s, b)
    ensures ReadAs(f, bytes, colon, g + (":" + s), b)
  {
    match f'
    case Whole(p) =>
      f := Whole(Group(g, p));
      GroupWhole(bytes, colon, g, s, b, p);
    case Gapped(hi, lo) =>
      f := Gapped(Group(g, hi), lo);
      GroupGapped(bytes, colon, g, s, b, hi, lo);
  }

  lemma ReadsQuad(st: Scan6, rest: string, s: string, b: seq<Byte>) returns (f: Form)
    requires rest != "" && HexVal(rest[0]) == 16 && rest[0] != ':' && st.tok == s
    requires Run6(st, rest) == Ok(b)
    ensures ReadAs(f, st.bytes, st.colon, s, b)
  {
    var quad := Parse4(s).value;
    FourOctets(s);
    ParsesExactlyText4(s, quad);
    f := Whole(Dotted(quad));
  }

  /** A scan succeeds with a value if and only if what it reads is of a form with that value. */
  lemma ReadsForms(bytes: seq<Byte>, colon: int, s: string, b: seq<Byte>, f: Form)
    requires |bytes| <= 16 && ReadAs(f, bytes, colon, s, b)
    ensures Run6(Between(bytes, colon, s), s) == Ok(b)
  {
    match f
    case Whole(p) => RunPart(bytes, colon, p);
    case Gapped(hi, lo) => RunGap(bytes, hi, lo);
  }

  /** Where the scan of a whole text begins: behind the first of two leading colons. */
  function Body(s: string): string {
    if s != "" && s[0] == ':' then s[1..] else s
  }

  lemma FormIsRead(f: Form)
    requires IsForm(f)
    ensures ReadAs(f, [], -1, Body(TextForm(f)), ValueForm(f))
    ensures TextForm(f) != "" && TextForm(f)[0] == ':' ==> |TextForm(f)| >= 2 && TextForm(f)[1] == ':'
  {
    match f
    case Whole(p) =>
      assert [] + BytesOf(p) == BytesOf(p);
      if !p.None? { TextStarts(p); }
    case Gapped(hi, lo) =>
      GapText(hi, lo);
      GapValue(hi, lo);
  }

  lemma LeadingColons(t: string)
    ensures var s := "" + ("::" + t); s[..2] == "::" && s[1..] == "" + (":" + t)
  {
  }

  lemma InnerColons(h: string, t: string)
    ensures h + ("::" + t) == (h + ":") + (":" + t)
  {
  }

  lemma GapText(hi: Part, lo: Part)
    requires IsForm(Gapped(hi, lo))
    ensures var s := TextForm(Gapped(hi, lo));
      && Body(s) == Colons(hi) + (":" + TextOf(lo))
      && (if hi.None? then s[..2] == "::" else s != "" && s[0] != ':')
  {
    if hi.None? {
      LeadingColons(TextOf(lo));
    } else {
      TextStarts(hi);
      ColonsText(hi);
      InnerColons(TextOf(hi), TextOf(lo));
    }
  }

  lemma ExpandParts(h: seq<Byte>, l: seq<Byte>)
    requires |h| + |l| < 16
    ensures Expand(h + l, |h|) == h + ZeroBytes(16 - |h| - |l|) + l
  {
    assert (h + l)[..|h|] == h && (h + l)[|h|..] == l;
  }

  lemma ValueIsExpanded(hi: Part, lo: Part)
    requires IsForm(Gapped(hi, lo))
    ensures ValueForm(Gapped(hi, lo)) == Expand(BytesOf(hi) + BytesOf(lo), |BytesOf(hi)|)
  {
    ExpandParts(BytesOf(hi), BytesOf(lo));
  }

  lemma FromNone(h: seq<Byte>)
    ensures [] + h == h
  {
  }

  lemma GapValue(hi: Part, lo: Part)
    requires IsForm(Gapped(hi, lo))
    ensures Finish(Between([] + BytesOf(hi) + BytesOf(lo), |BytesOf(hi)|, "")) == Ok(ValueForm(Gapped(hi, lo)))
  {
    ValueIsExpanded(hi, lo);
    FromNone(BytesOf(hi));
  }

  lemma ReadIsForm(f: Form, s: string, b: seq<Byte>)
    requires ReadAs(f, [], -1, Body(s), b)
    requires s != "" && s[0] == ':' ==> |s| >= 2 && s[1] == ':'
    ensures IsForm(f) && s == TextForm(f) && b == ValueForm(f)
  {
    match f
    case Whole(p) =>
      assert [] + BytesOf(p) == BytesOf(p);
      if !p.None? { TextStarts(p); }
    case Gapped(hi, lo) =>
      GapLength(hi, lo, b);
      GapText(hi, lo);
      GapValue(hi, lo);
      if s[0] == ':' { assert s == [':'] + Body(s); }
      if !hi.None? { ColonsText(hi); TextStarts(hi); }
  }

  /** The double colon stands for something. */
  lemma GapLength(hi: Part, lo: Part, b: seq<Byte>)
    requires IsPart(lo) && ReadAs(Gapped(hi, lo), [], -1, Colons(hi) + (":" + TextOf(lo)), b)
    ensures IsForm(Gapped(hi, lo))
  {
    assert |[] + BytesOf(hi) + BytesOf(lo)| == |BytesOf(hi)| + |BytesOf(lo)|;
  }

  /**
   inet_pton6 accepts a string with value b if and only if it is a text of b: groups of one to four
   hexadecimal digits and perhaps a dotted quad at the end, sixteen bytes in all, or fewer with
   exactly one double colon in the place of the zeros that are missing.
   */
  lemma ParsesExactlyText6(s: string, b: seq<Byte>)
    ensures Parse6(s) == Ok(b) <==> IsText6(s, b)
  {
    if Parse6(s) == Ok(b) {
      var f := ScanReads([], -1, Body(s), b);
      ReadIsForm(f, s, b);
    }
    if f :| IsForm(f) && s == TextForm(f) && b == ValueForm(f) {
      FormIsRead(f);
      ReadsForms([], -1, Body(s), b, f);
    }
  }

  lemma {:induction false} RunRefuses6(st: Scan6, s: string)
    ensures Run6(st, s).Err? ==> Run6(st, s).error == EINVAL
    decreases |s|
  {
    if s != "" {
      var ch, rest := s[0], s[1..];
      if HexVal(ch) < 16 {
        RunRefuses6(st.(val := st.val * 16 + HexVal(ch), seen := st.seen + 1), rest);
      } else if ch == ':' {
        RunRefuses6(st.(colon := |st.bytes|, tok := rest), rest);
        RunRefuses6(Scan6(Push(st.bytes, st.val), st.colon, 0, 0, rest), rest);
      }
    }
  }

  /** Whatever is no text of an address is refused with EINVAL. */
  lemma RefusesAllElse6(s: string)
    ensures Parse6(s) == Err(EINVAL) <==> forall b :: !IsText6(s, b)
  {
    RunRefuses6(Start6(Body(s)), Body(s));
    if Parse6(s).Ok? {
      ParsesExactlyText6(s, Parse6(s).value);
    } else if b :| IsText6(s, b) {
      ParsesExactlyText6(s, b);
    }
  }

  // ---------------------------------------------------------------- reading what was printed

  lemma {:induction false} HexOfNum(n: nat)
    ensures AllHex(Hex(n)) && HexNum(Hex(n)) == n && Hex(n) != "" && Hex(n)[0] != ':'
  {
    if n >= 16 {
      HexOfNum(n / 16);
      assert Hex(n)[..|Hex(n)| - 1] == Hex(n / 16);
    }
  }

  /** `%x`: digits of the lower alphabet, without leading zeros. With the value of the text this says what it is. */
  lemma {:induction false} HexIsShort(n: nat)
    ensures HexNum(Hex(n)) == n && Hex(n) != "" && (Hex(n)[0] == '0' ==> Hex(n) == "0")
    ensures forall ch :: ch in Hex(n) ==> ch in XDIGITS_L
  {
    HexOfNum(n);
    HexAlphabets(HexChar(n % 16), n % 16);
    if n >= 16 {
      HexIsShort(n / 16);
      assert Hex(n)[0] == Hex(n / 16)[0];
    }
  }

  /** The words from i up to j as groups. */
  function Words(b: Address, i: nat, j: nat): Part
    requires i <= j <= 8
    decreases j - i
  {
    if i == j then None else Group(Hex(Word(b, i)), Words(b, i + 1, j))
  }

  /** What is printed from word i on, behind the run or without one. */
  function Behind(b: Address, best: Run, i: nat): Part
    requires i <= 8
    decreases 8 - i
  {
    if i == 8 then None
    else if Stops(b, best, i) then Dotted(b[12..])
    else Group(Hex(Word(b, i)), Behind(b, best, i + 1))
  }

  lemma PushWord(b: Address, i: nat, j: nat)
    requires i < j <= 8
    ensures Push([], Word(b, i)) + b[2 * (i + 1)..2 * j] == b[2 * i..2 * j]
  {
    assert Word(b, i) / 256 % 256 == b[2 * i] && Word(b, i) % 256 == b[2 * i + 1];
  }

  lemma WordValue(b: Address, i: nat, rest: Part, more: seq<Byte>, all: seq<Byte>)
    requires i < 8 && IsPart(rest) && BytesOf(rest) == more && Push([], Word(b, i)) + more == all
    ensures IsPart(Group(Hex(Word(b, i)), rest)) && BytesOf(Group(Hex(Word(b, i)), rest)) == all
  {
    HexLength(Word(b, i));
    HexOfNum(Word(b, i));
  }

  lemma {:induction false} WordsOk(b: Address, i: nat, j: nat)
    requires i <= j <= 8
    ensures IsPart(Words(b, i, j)) && OnlyGroups(Words(b, i, j)) && BytesOf(Words(b, i, j)) == b[2 * i..2 * j]
    decreases j - i
  {
    if i < j {
      WordsOk(b, i + 1, j);
      PushWord(b, i, j);
      WordValue(b, i, Words(b, i + 1, j), b[2 * (i + 1)..2 * j], b[2 * i..2 * j]);
    }
  }

  lemma {:induction false} BehindOk(b: Address, best: Run, i: nat)
    requires i <= 8
    ensures IsPart(Behind(b, best, i)) && BytesOf(Behind(b, best, i)) == b[2 * i..16]
    decreases 8 - i
  {
    if i < 8 {
      if Stops(b, best, i) {
        QuadValue(b);
      } else {
        BehindOk(b, best, i + 1);
        PushWord(b, i, 8);
        WordValue(b, i, Behind(b, best, i + 1), b[2 * (i + 1)..16], b[2 * i..16]);
      }
    }
  }

  lemma QuadValue(b: Address)
    ensures IsPart(Dotted(b[12..])) && BytesOf(Dotted(b[12..])) == b[12..16]
  {
  }

  predicate IsRun(best: Run) {
    best.base == -1 || (0 <= best.base && 0 < best.len && best.base + best.len <= 8)
  }

  /** One word, printed on its own. */
  lemma TailWord(b: Address, best: Run, i: nat)
    requires i < 8 && !InRun(best, i) && !Stops(b, best, i)
    ensures Tail(b, best, i) == (if i != 0 then ":" else "") + Hex(Word(b, i)) + Tail(b, best, i + 1)
    ensures Behind(b, best, i) == Group(Hex(Word(b, i)), Behind(b, best, i + 1))
  {
  }

  lemma TailQuad(b: Address, best: Run, i: nat)
    requires i < 8 && IsRun(best) && Stops(b, best, i)
    ensures Behind(b, best, i).Dotted? && Tail(b, best, i) == ":" + TextOf(Behind(b, best, i))
  {
  }

  lemma TailSkips(b: Address, best: Run, i: nat)
    requires i < 8 && InRun(best, i)
    ensures i == best.base ==> Tail(b, best, i) == ":" + Tail(b, best, i + 1)
    ensures i != best.base ==> Tail(b, best, i) == Tail(b, best, i + 1)
  {
    NoPrefix(Tail(b, best, i + 1));
  }

  /** A printed word and what is printed behind it, as one part. */
  lemma WordText(x: string, g: string, y: string, rest: Part)
    requires IsPart(Group(g, rest)) && x == ":" + g + y
    requires rest.None? ==> y == ""
    requires !rest.None? ==> y == ":" + TextOf(rest)
    ensures x == ":" + TextOf(Group(g, rest))
  {
  }

  lemma FirstWordText(x: string, g: string, y: string, rest: Part)
    requires IsPart(Group(g, rest)) && x == "" + g + y && !rest.None? && y == ":" + TextOf(rest)
    ensures x == TextOf(Group(g, rest))
  {
  }

  /** Behind the run each word is printed with a colon in front. */
  lemma {:induction false} TailBehind(b: Address, best: Run, i: nat)
    requires 0 < i <= 8 && IsRun(best) && (best.base == -1 || best.base + best.len < i)
    requires IsPart(Behind(b, best, i))
    ensures i == 8 ==> Tail(b, best, i) == ""
    ensures i < 8 ==> !Behind(b, best, i).None? && Tail(b, best, i) == ":" + TextOf(Behind(b, best, i))
    decreases 8 - i
  {
    if i == 8 {
    } else if Stops(b, best, i) {
      TailQuad(b, best, i);
    } else {
      TailWord(b, best, i);
      TailBehind(b, best, i + 1);
      WordText(Tail(b, best, i), Hex(Word(b, i)), Tail(b, best, i + 1), Behind(b, best, i + 1));
    }
  }

  /** The second of the two colons, and what follows. */
  lemma TailAfterRun(b: Address, best: Run, i: nat)
    requires IsRun(best) && best.base != -1 && i == best.base + best.len && IsPart(Behind(b, best, i))
    ensures Tail(b, best, i) == ":" + TextOf(Behind(b, best, i))
  {
    if i == 8 {
      LastColon(Tail(b, best, 8), TextOf(None));
    } else if Stops(b, best, i) {
      TailQuad(b, best, i);
    } else {
      TailWord(b, best, i);
      TailBehind(b, best, i + 1);
      WordText(Tail(b, best, i), Hex(Word(b, i)), Tail(b, best, i + 1), Behind(b, best, i + 1));
    }
  }

  lemma LastColon(x: string, t: string)
    requires x == ":" && t == ""
    ensures x == ":" + t
  {
  }

  /** Nothing is printed for the words of the run but the first. */
  lemma {:induction false} TailOverRun(b: Address, best: Run, i: nat, end: nat)
    requires IsRun(best) && 0 <= best.base < i <= end && end == best.base + best.len
    ensures Tail(b, best, i) == Tail(b, best, end)
    decreases end - i
  {
    if i == end {
    } else {
      TailSkips(b, best, i);
      TailOverRun(b, best, i + 1, end);
      SameText(Tail(b, best, i), Tail(b, best, i + 1), Tail(b, best, end));
    }
  }

  /** The run itself. */
  lemma TailOfRun(b: Address, best: Run, p: nat, q: nat)
    requires IsRun(best) && best.base == p && q == p + best.len && IsPart(Behind(b, best, q))
    ensures Tail(b, best, p) == "::" + TextOf(Behind(b, best, q))
  {
    TailSkips(b, best, p);
    TailOverRun(b, best, p + 1, q);
    TailAfterRun(b, best, q);
    TwoColons(Tail(b, best, p), Tail(b, best, p + 1), Tail(b, best, q), TextOf(Behind(b, best, q)));
  }

  lemma TwoColons(x: string, y: string, z: string, t: string)
    requires x == ":" + y && y == z && z == ":" + t
    ensures x == "::" + t
  {
  }

  /** Words in front of the run. */
  lemma {:induction false} TailBefore(b: Address, best: Run, i: nat, end: nat)
    requires IsRun(best) && 0 < i < end == best.base && IsPart(Words(b, i, end))
    ensures Tail(b, best, i) == ":" + TextOf(Words(b, i, end)) + Tail(b, best, end)
    decreases end - i
  {
    TailWord(b, best, i);
    if i + 1 == end {
      LastBefore(Tail(b, best, i), Hex(Word(b, i)), Tail(b, best, end));
    } else {
      TailBefore(b, best, i + 1, end);
      BeforeStep(Tail(b, best, i), Hex(Word(b, i)), Tail(b, best, i + 1), Words(b, i + 1, end), Tail(b, best, end));
    }
  }

  lemma BeforeStep(x: string, g: string, y: string, rest: Part, tail: string)
    requires IsPart(Group(g, rest)) && !rest.None? && x == ":" + g + y && y == ":" + TextOf(rest) + tail
    ensures x == ":" + TextOf(Group(g, rest)) + tail
  {
  }

  lemma LastBefore(x: string, g: string, tail: string)
    requires IsPart(Group(g, None)) && x == ":" + g + tail
    ensures x == ":" + TextOf(Group(g, None)) + tail
  {
  }

  lemma FirstBeforeStep(x: string, g: string, y: string, rest: Part, tail: string)
    requires IsPart(Group(g, rest)) && !rest.None? && x == "" + g + y && y == ":" + TextOf(rest) + tail
    ensures x == TextOf(Group(g, rest)) + tail
  {
  }

  lemma OnlyBefore(x: string, g: string, tail: string)
    requires IsPart(Group(g, None)) && x == "" + g + tail
    ensures x == TextOf(Group(g, None)) + tail
  {
  }

  lemma FirstWords(b: Address, p: nat, h: seq<Byte>)
    requires p <= 8 && h == b[0..2 * p]
    ensures IsPart(Words(b, 0, p)) && OnlyGroups(Words(b, 0, p)) && BytesOf(Words(b, 0, p)) == h
  {
    WordsOk(b, 0, p);
  }

  lemma LastWords(b: Address, best: Run, q: nat, l: seq<Byte>)
    requires q <= 8 && l == b[2 * q..16]
    ensures IsPart(Behind(b, best, q)) && BytesOf(Behind(b, best, q)) == l
  {
    BehindOk(b, best, q);
  }

  /** The words in front of the run, zeros for it, and the words behind it make up the address. */
  lemma GapZeros(b: Address, p: nat, q: nat, h: seq<Byte>, l: seq<Byte>)
    requires p < q <= 8 && Zeros(b, p, q) && h == b[0..2 * p] && l == b[2 * q..16]
    ensures |h| + |l| < 16 && h + ZeroBytes(16 - |h| - |l|) + l == b
  {
    forall j | 2 * p <= j < 2 * q ensures b[j] == 0 {
      assert Word(b, j / 2) == 0;
    }
    assert b[2 * p..2 * q] == ZeroBytes(16 - |h| - |l|);
    assert b == h + b[2 * p..2 * q] + l;
  }

  lemma GapIsZeros(b: Address, best: Run, p: nat, q: nat)
    requires p < q <= 8 && Zeros(b, p, q)
    ensures var f := Gapped(Words(b, 0, p), Behind(b, best, q)); IsForm(f) && ValueForm(f) == b
  {
    FirstWords(b, p, b[0..2 * p]);
    LastWords(b, best, q, b[2 * q..16]);
    GapZeros(b, p, q, BytesOf(Words(b, 0, p)), BytesOf(Behind(b, best, q)));
  }

  /** Up to the run. */
  lemma TailToRun(b: Address, best: Run, p: nat)
    requires IsRun(best) && best.base == p && 0 < p && IsPart(Words(b, 0, p))
    ensures Tail(b, best, 0) == TextOf(Words(b, 0, p)) + Tail(b, best, p)
  {
    TailWord(b, best, 0);
    if p == 1 {
      OnlyBefore(Tail(b, best, 0), Hex(Word(b, 0)), Tail(b, best, 1));
    } else {
      TailBefore(b, best, 1, p);
      FirstBeforeStep(Tail(b, best, 0), Hex(Word(b, 0)), Tail(b, best, 1), Words(b, 1, p), Tail(b, best, p));
    }
  }

  /** What is printed around the run. */
  lemma TextAroundRun(b: Address, best: Run, p: nat, q: nat)
    requires IsRun(best) && best.base == p && q == p + best.len
    ensures IsPart(Words(b, 0, p)) && IsPart(Behind(b, best, q))
    ensures Text6(b, best) == TextOf(Words(b, 0, p)) + ("::" + TextOf(Behind(b, best, q)))
  {
    FirstWords(b, p, b[0..2 * p]);
    LastWords(b, best, q, b[2 * q..16]);
    TailOfRun(b, best, p, q);
    if p > 0 { TailToRun(b, best, p); } else { NoPrefix(Tail(b, best, 0)); }
  }

  /** What is printed without a run. */
  lemma TextWithoutRun(b: Address, best: Run)
    requires best.base == -1
    ensures IsPart(Behind(b, best, 0)) && Text6(b, best) == TextOf(Behind(b, best, 0))
  {
    LastWords(b, best, 0, b[0..16]);
    TailWord(b, best, 0);
    TailBehind(b, best, 1);
    FirstWordText(Tail(b, best, 0), Hex(Word(b, 0)), Tail(b, best, 1), Behind(b, best, 1));
  }

  /** Printed without a run. */
  lemma WholeText(b: Address, best: Run)
    requires IsRun(best) && best.base == -1
    ensures IsText6(Text6(b, best), b)
  {
    var p := Behind(b, best, 0);
    LastWords(b, best, 0, b[0..16]);
    assert b[0..16] == b;
    TextWithoutRun(b, best);
    assert IsForm(Whole(p)) && Text6(b, best) == TextForm(Whole(p)) && b == ValueForm(Whole(p));
  }

  /** Printed with the run elided. */
  lemma GappedText(b: Address, best: Run, p: nat, q: nat)
    requires IsRun(best) && best.base == p && q == p + best.len && Zeros(b, p, q)
    ensures IsText6(Text6(b, best), b)
  {
    var f := Gapped(Words(b, 0, p), Behind(b, best, q));
    GapIsZeros(b, best, p, q);
    TextAroundRun(b, best, p, q);
    assert IsForm(f) && Text6(b, best) == TextForm(f) && b == ValueForm(f);
  }

  /** What is printed is a text of the address. */
  lemma PrintedIsText(b: Address, best: Run)
    requires IsBest(b, best)
    ensures IsText6(Text6(b, best), b)
  {
    if best.base == -1 {
      WholeText(b, best);
    } else {
      GappedText(b, best, best.base, best.base + best.len);
    }
  }

  /** Every address is read back from the text that is printed for it. */
  lemma ParseText6(b: Address, best: Run)
    requires IsBest(b, best)
    ensures Parse6(Text6(b, best)) == Ok(b)
  {
    PrintedIsText(b, best);
    ParsesExactlyText6(Text6(b, best), b);
  }

  // ---------------------------------------------------------------- exactly what is printed

  /** An IPv4-mapped address (section 2.5.5.2 of RFC 4291). */
  predicate Mapped(b: Address) {
    (forall k :: 0 <= k < 10 ==> b[k] == 0) && b[10] == 255 && b[11] == 255
  }

  /** An IPv4-compatible address (section 2.5.5.1 of RFC 4291) with something in the upper half of its IPv4 part. */
  predicate Compatible(b: Address) {
    (forall k :: 0 <= k < 12 ==> b[k] == 0) && (b[12] != 0 || b[13] != 0)
  }

  /** Words i to j - 1 in hexadecimal, with colons between them. */
  function Groups(b: Address, i: nat, j: nat): string
    requires i <= j <= 8
  {
    WordsOk(b, i, j);
    TextOf(Words(b, i, j))
  }

  lemma FrontZeros(b: Address, n: nat)
    requires n <= 8
    ensures Zeros(b, 0, n) <==> forall k :: 0 <= k < 2 * n ==> b[k] == 0
  {
    if forall k :: 0 <= k < 2 * n ==> b[k] == 0 {
      forall i | 0 <= i < n ensures Word(b, i) == 0 {}
    }
    if Zeros(b, 0, n) {
      forall k | 0 <= k < 2 * n ensures b[k] == 0 { assert Word(b, k / 2) == 0; }
    }
  }

  /** The best run of n words at the front, with another word behind it. */
  lemma FrontRun(b: Address, best: Run, n: nat)
    requires IsBest(b, best) && 4 <= n < 8
    ensures best.base == 0 && best.len == n <==> Zeros(b, 0, n) && Word(b, n) != 0
  {
    assert Zeros(b, 0, n + 1) <==> Zeros(b, 0, n) && Word(b, n) == 0;
    if Zeros(b, 0, n) && Word(b, n) != 0 {
      assert best.base != -1 && n <= best.len;
      assert best.base == 0;
      assert Zeros(b, 0, best.len);
    }
  }

  /** The embedded address ends the text of these addresses and of no others. */
  lemma EmbeddedWhen(b: Address, best: Run)
    requires IsBest(b, best)
    ensures Stops(b, best, 6) <==> Mapped(b) || Compatible(b)
    ensures Mapped(b) ==> best.base == 0 && best.len == 5 && Word(b, 5) == 0xffff
    ensures Compatible(b) ==> best.base == 0 && best.len == 6
  {
    FrontZeros(b, 5);
    FrontZeros(b, 6);
    FrontRun(b, best, 5);
    FrontRun(b, best, 6);
  }

  lemma {:induction false} BehindWords(b: Address, best: Run, i: nat)
    requires i <= 8 && !Stops(b, best, 6)
    ensures Behind(b, best, i) == Words(b, i, 8)
    decreases 8 - i
  {
    if i < 8 { BehindWords(b, best, i + 1); }
  }

  /**
   The text in full: an IPv4-mapped address as `::ffff:` and a dotted quad, an IPv4-compatible one as `::` and a
   dotted quad, any other by its words in hexadecimal, with a double colon in the place of the best run.
   */
  lemma PrintedExactly(b: Address, best: Run)
    requires IsBest(b, best)
    ensures Text6(b, best) ==
      if Mapped(b) then "::ffff:" + Text4(b[12..])
      else if Compatible(b) then "::" + Text4(b[12..])
      else if best.base == -1 then Groups(b, 0, 8)
      else Groups(b, 0, best.base) + ("::" + Groups(b, best.base + best.len, 8))
  {
    EmbeddedWhen(b, best);
    if best.base == -1 {
      TextWithoutRun(b, best);
      BehindWords(b, best, 0);
    } else {
      TextAroundRun(b, best, best.base, best.base + best.len);
      if Mapped(b) {
        MappedText(b, best);
      } else if Compatible(b) {
        NoPrefix("::" + Text4(b[12..]));
      } else {
        BehindWords(b, best, best.base + best.len);
      }
    }
  }

  lemma MappedText(b: Address, best: Run)
    requires Stops(b, best, 6) && best.base == 0 && best.len == 5 && Word(b, 5) == 0xffff
    requires IsPart(Behind(b, best, 5))
    ensures "" + ("::" + TextOf(Behind(b, best, 5))) == "::ffff:" + Text4(b[12..])
  {
    assert Hex(0xfff) == Hex(0xff) + "f";
    assert Hex(0xffff) == "ffff";
    assert Behind(b, best, 5) == Group("ffff", Dotted(b[12..]));
  }

  lemma {:induction false} NoDots(p: Part)
    requires IsPart(p) && OnlyGroups(p)
    ensures '.' !in TextOf(p)
  {
    if p.Group? {
      assert HexVal('.') == 16;
      NoDots(p.rest);
    }
  }

  lemma NoDotsAround(x: string, y: string)
    ensures '.' in x + ("::" + y) <==> '.' in x || '.' in y
  {
  }

  lemma NoDotsInGroups(b: Address, i: nat, j: nat)
    requires i <= j <= 8
    ensures '.' !in Groups(b, i, j)
  {
    WordsOk(b, i, j);
    NoDots(Words(b, i, j));
  }

  lemma DotInQuad(x: string, q: seq<Byte>)
    requires |q| == 4
    ensures '.' in x + Text4(q)
  {
    assert (x + Text4(q))[|x| + |Dec(q[0])|] == '.';
  }

  /** A dotted quad is printed exactly for these two kinds of addresses. */
  lemma DottedWhen(b: Address, best: Run)
    requires IsBest(b, best)
    ensures '.' in Text6(b, best) <==> Mapped(b) || Compatible(b)
  {
    PrintedExactly(b, best);
    if Mapped(b) {
      DotInQuad("::ffff:", b[12..]);
    } else if Compatible(b) {
      DotInQuad("::", b[12..]);
    } else if best.base == -1 {
      NoDotsInGroups(b, 0, 8);
    } else {
      NoDotsInGroups(b, 0, best.base);
      NoDotsInGroups(b, best.base + best.len, 8);
      NoDotsAround(Groups(b, 0, best.base), Groups(b, best.base + best.len, 8));
    }
  }

  /** The embedded IPv4 address is printed where it should be, and only there. */
  predicate QuadAsDue(b: Address, t: string) {
    && (Mapped(b) ==> t == "::ffff:" + Text4(b[12..]))
    && (Compatible(b) ==> t == "::" + Text4(b[12..]))
    && (!Mapped(b) && !Compatible(b) ==> '.' !in t)
  }

  lemma PrintsQuad(b: Address, best: Run)
    requires IsBest(b, best)
    ensures QuadAsDue(b, Text6(b, best))
  {
    PrintedExactly(b, best);
    DottedWhen(b, best);
  }

  // ---------------------------------------------------------------- the in-place shift

  /** The shift by hand: the bytes from c up to tp move to the end of the buffer, zeros take their place. */
  method ShiftRight(tmp: array<Byte>, c: nat, tp: nat)
    requires tmp.Length == 16 && c <= tp < 16
    requires forall k :: tp <= k < 16 ==> tmp[k] == 0
    modifies tmp
    ensures tmp[..] == Expand(old(tmp[..tp]), c)
  {
    var n := tp - c;
    ghost var was := tmp[..tp];
    var i := 1;
    while i <= n
      invariant 1 <= i <= n + 1
      invariant forall k :: 0 <= k < tp - (i - 1) ==> tmp[k] == was[k]
      invariant forall k :: tp - (i - 1) <= k < 16 - (i - 1) ==> tmp[k] == 0
      invariant forall k :: 16 - (i - 1) <= k < 16 ==> tmp[k] == was[k - (16 - tp)]
    {
      tmp[16 - i] := tmp[c + n - i];
      tmp[c + n - i] := 0;
      i := i + 1;
    }
    var e := Expand(was, c);
    assert |e| == 16;
    forall k | 0 <= k < 16 ensures tmp[k] == e[k] {
    }
  }

  // ---------------------------------------------------------------- inet_pton6

  /** Stores the word being read; false if there is no room for it. */
  method StoreWord(tmp: array<Byte>, tp: nat, val: nat, ghost bytes: seq<Byte>) returns (room: bool)
    requires tmp.Length == 16 && tp <= 16 && tmp[..tp] == bytes
    requires forall k :: tp <= k < 16 ==> tmp[k] == 0
    modifies tmp
    ensures room == (tp + 2 <= 16)
    ensures !room ==> tmp[..] == old(tmp[..])
    ensures room ==> tmp[..tp + 2] == Push(bytes, val) && forall k :: tp + 2 <= k < 16 ==> tmp[k] == 0
  {
    if tp + 2 > 16 { return false; }
    tmp[tp] := val / 256 % 256;
    tmp[tp + 1] := val % 256;
    assert tmp[..tp] == bytes;
    return true;
  }

  method StoreQuad(tmp: array<Byte>, tp: nat, quad: seq<Byte>, ghost bytes: seq<Byte>)
    requires tmp.Length == 16 && tp + 4 <= 16 && tmp[..tp] == bytes && |quad| == 4
    requires forall k :: tp <= k < 16 ==> tmp[k] == 0
    modifies tmp
    ensures tmp[..tp + 4] == bytes + quad && forall k :: tp + 4 <= k < 16 ==> tmp[k] == 0
  {
    forall k | 0 <= k < 4 { tmp[tp + k] := quad[k]; }
    assert tmp[..tp] == bytes;
  }

  /** The end of inet_pton6: the last word, the gap, the length. */
  method FinishScan(tmp: array<Byte>, tp0: nat, ghost st: Scan6, colonp: int, val: nat, seen: nat)
    returns (r: Result<seq<Byte>>)
    requires tmp.Length == 16 && tp0 <= 16 && tmp[..tp0] == st.bytes
    requires forall k :: tp0 <= k < 16 ==> tmp[k] == 0
    requires colonp == st.colon && (colonp == -1 || 0 <= colonp <= tp0) && val == st.val && seen == st.seen
    modifies tmp
    ensures r == Finish(st)
  {
    var tp := tp0;
    if seen > 0 {
      var room := StoreWord(tmp, tp, val, st.bytes);
      if !room { return Err(EINVAL); }
      tp := tp + 2;
    }
    if colonp != -1 {
      if tp == 16 { return Err(EINVAL); }
      ShiftRight(tmp, colonp, tp);
      tp := 16;
    }
    if tp != 16 { return Err(EINVAL); }
    assert tmp[..16] == tmp[..];
    return Ok(tmp[..]);
  }

  /** A dot ends the loop: what is left is an IPv4 address or an error. */
  method QuadEnd(tmp: array<Byte>, tp: nat, tok: string, colonp: int, val: nat, ghost st: Scan6)
    returns (r: Result<seq<Byte>>)
    requires tmp.Length == 16 && tp + 4 <= 16 && tmp[..tp] == st.bytes && '\0' !in tok
    requires forall k :: tp <= k < 16 ==> tmp[k] == 0
    requires colonp == st.colon && (colonp == -1 || 0 <= colonp <= tp) && val == st.val
    modifies tmp
    ensures r == match Parse4(tok)
      case Ok(quad) => Finish(st.(bytes := st.bytes + quad, seen := 0))
      case Err(_) => Err(EINVAL)
  {
    var quad := Pton4(tok);
    if quad.Ok? {
      StoreQuad(tmp, tp, quad.value, st.bytes);
      r := FinishScan(tmp, tp + 4, st.(bytes := st.bytes + quad.value, seen := 0), colonp, val, 0);
      return;
    }
    return Err(EINVAL);
  }

  /** The scan of inet_pton6 and all that follows it. */
  method ScanLoop(src: string) returns (r: Result<seq<Byte>>)
    requires '\0' !in src
    ensures r == Run6(Start6(src), src)
  {
    var tmp := new Byte[16](_ => 0);
    var tp, colonp, val: nat, seen, i, curtok := 0, -1, 0, 0, 0, 0;
    assert src[0..] == src;
    while i < |src|
      invariant 0 <= curtok <= i <= |src| && 0 <= tp <= 16 && seen <= 4
      invariant forall k :: tp <= k < 16 ==> tmp[k] == 0
      invariant colonp == -1 || 0 <= colonp <= tp
      invariant Run6(Start6(src), src) == Run6(Scan6(tmp[..tp], colonp, val, seen, src[curtok..]), src[i..])
    {
      ghost var st := Scan6(tmp[..tp], colonp, val, seen, src[curtok..]);
      var ch := src[i];
      assert src[i..][0] == ch && src[i..][1..] == src[i + 1..];
      i := i + 1;
      if HexVal(ch) < 16 {
        val := val * 16 + HexVal(ch);
        seen := seen + 1;
        if seen > 4 { return Err(EINVAL); }
        continue;
      }
      if ch == ':' {
        curtok := i;
        if seen == 0 {
          if colonp != -1 { return Err(EINVAL); }
          colonp := tp;
          continue;
        } else if i == |src| {
          return Err(EINVAL);
        }
        var room := StoreWord(tmp, tp, val, st.bytes);
        if !room { return Err(EINVAL); }
        tp := tp + 2;
        seen := 0;
        val := 0;
        continue;
      }
      if ch == '.' && tp + 4 <= 16 {
        r := QuadEnd(tmp, tp, src[curtok..], colonp, val, st);
        return;
      }
      return Err(EINVAL);
    }
    assert src[i..] == "";
    r := FinishScan(tmp, tp, Scan6(tmp[..tp], colonp, val, seen, src[curtok..]), colonp, val, seen);
  }

  method Pton6(src: string) returns (r: Result<seq<Byte>>)
    requires '\0' !in src
    ensures r == Parse6(src)
  {
    var s := src;
    if src != "" && src[0] == ':' {
      if |src| < 2 || src[1] != ':' { return Err(EINVAL); }
      s := src[1..];
    }
    r := ScanLoop(s);
  }

  // ---------------------------------------------------------------- zones, and both families

  datatype Family = AF_INET | AF_INET6 | Other

  /** The place of the first '%', |s| if there is none. */
  function Percent(s: string): (p: nat)
    ensures p <= |s| && '%' !in s[..p] && (p < |s| ==> s[p] == '%')
  {
    if s == "" then 0 else if s[0] == '%' then 0
    else
      var p := 1 + Percent(s[1..]);
      assert s[..p] == [s[0]] + s[1..][..p - 1];
      p
  }

  function ParseZoned(s: string): Result<seq<Byte>> {
    var p := Percent(s);
    if p == |s| then Parse6(s)
    else if p > INET6_ADDRSTRLEN - 1 then Err(EINVAL)
    else Parse6(s[..p])
  }

  /** uv_inet_pton. */
  method InetPton(af: Family, src: string) returns (r: Result<seq<Byte>>)
    requires '\0' !in src
    ensures r == match af case AF_INET => Parse4(src) case AF_INET6 => ParseZoned(src) case Other => Err(EAFNOSUPPORT)
  {
    match af
    case AF_INET => r := Pton4(src);
    case AF_INET6 =>
      var s := src;
      var p := Percent(src);
      if p < |src| {
        var len := p;
        if len > INET6_ADDRSTRLEN - 1 { return Err(EINVAL); }
        s := src[..len];
      }
      r := Pton6(s);
    case Other => return Err(EAFNOSUPPORT);
  }

  predicate Plain(s: string) {
    '%' !in s
  }

  lemma {:induction false} PlainDec(n: nat)
    ensures Plain(Dec(n))
  {
    if n >= 10 { PlainDec(n / 10); }
  }

  lemma {:induction false} PlainHex(n: nat)
    ensures Plain(Hex(n))
  {
    if n >= 16 { PlainHex(n / 16); }
  }

  lemma PlainPiece(b: Address, best: Run, i: nat)
    requires i < 8
    ensures Plain(Piece(b, best, i))
  {
    PlainHex(Word(b, i));
    PlainDec(b[12]);
    PlainDec(b[13]);
    PlainDec(b[14]);
    PlainDec(b[15]);
  }

  lemma {:induction false} PlainTail(b: Address, best: Run, i: nat)
    requires i <= 8
    ensures Plain(Tail(b, best, i))
    decreases 8 - i
  {
    if i < 8 {
      PlainPiece(b, best, i);
      PlainTail(b, best, i + 1);
    }
  }

  lemma PercentAt(t: string, zone: string)
    requires Plain(t)
    ensures Percent(t + "%" + zone) == |t|
  {
    var s := t + "%" + zone;
    assert s[|t|] == '%' && s[..|t|] == t;
  }

  /** A zone does not matter if the text in front of it fits; otherwise all is refused. */
  lemma ZoneIsCutOff(t: string, zone: string)
    requires Plain(t)
    ensures ParseZoned(t + "%" + zone) == if |t| < INET6_ADDRSTRLEN then Parse6(t) else Err(EINVAL)
    ensures ParseZoned(t) == Parse6(t)
  {
    PercentAt(t, zone);
    assert (t + "%" + zone)[..|t|] == t;
    assert Percent(t) == |t|;
  }

  /** A printed address is read back whatever zone is attached to it. */
  lemma ParseTextWithZone(b: Address, best: Run, zone: string)
    requires IsBest(b, best)
    ensures ParseZoned(Text6(b, best) + "%" + zone) == Ok(b)
    ensures ParseZoned(Text6(b, best)) == Ok(b)
  {
    ParseText6(b, best);
    TailLength(b, best, 0);
    PlainTail(b, best, 0);
    ZoneIsCutOff(Text6(b, best), zone);
  }
}
