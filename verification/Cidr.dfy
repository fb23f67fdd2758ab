/** The text form of subnets, `base/prefix`, and its optional (de)serialization. */
module Cidr {
  import opened Options
  import opened Words
  import opened Decimal
  import opened Subnets

  // ---------------------------------------------------------------- printing

  function Quad(ip: u32): string {
    Text(ip / 0x100_0000) + "." + Text((ip / 0x1_0000) % 0x100) + "."
    + Text((ip / 0x100) % 0x100) + "." + Text(ip % 0x100)
  }

  function Print(s: Subnet): string {
    Quad(s.base) + "/" + Text(s.prefix)
  }

  // ---------------------------------------------------------------- parsing

  /** The whitespace that trimming removes. */
  predicate IsSpace(c: char) {
    var n := c as int;
    || 9 <= n <= 13 || n == 0x20 || n == 0x85 || n == 0xA0 || n == 0x1680 || 0x2000 <= n <= 0x200A
    || n == 0x2028 || n == 0x2029 || n == 0x202F || n == 0x205F || n == 0x3000
  }

  function TrimLeft(s: string): string {
    if s != [] && IsSpace(s[0]) then TrimLeft(s[1..]) else s
  }

  function TrimRight(s: string): string {
    if s != [] && IsSpace(s[|s| - 1]) then TrimRight(s[..|s| - 1]) else s
  }

  function Trim(s: string): string {
    TrimRight(TrimLeft(s))
  }

  predicate AllDigits(s: string) {
    forall i :: 0 <= i < |s| ==> '0' <= s[i] <= '9'
  }

  function DigitsOf(s: string): (ds: seq<Digit>)
    requires AllDigits(s)
    ensures |ds| == |s|
  {
    seq(|s|, i requires 0 <= i < |s| => (s[i] as int) - 48)
  }

  /** One part of a dotted quad: up to three digits, no leading zero, below 256. */
  function ParseOctet(s: string): Option<u8> {
    if 1 <= |s| <= 3 && AllDigits(s) && (s[0] == '0' ==> |s| == 1) && Value(DigitsOf(s)) < 0x100
    then Some(Value(DigitsOf(s)))
    else None
  }

  /** All the parts between occurrences of a separator. */
  function Split(s: string, sep: char): (parts: seq<string>)
    ensures |parts| >= 1
  {
    if s == [] then [[]]
    else
      var rest := Split(s[1..], sep);
      if s[0] == sep then [[]] + rest else [[s[0]] + rest[0]] + rest[1..]
  }

  function ParseQuad(s: string): Option<u32> {
    var parts := Split(s, '.');
    if |parts| != 4 then None
    else
      match (ParseOctet(parts[0]), ParseOctet(parts[1]), ParseOctet(parts[2]), ParseOctet(parts[3]))
      case (Some(a), Some(b), Some(c), Some(d)) =>
        Some((a as int) * 0x100_0000 + (b as int) * 0x1_0000 + (c as int) * 0x100 + (d as int))
      case _ => None
  }

  /** An 8-bit number: an optional plus sign and digits, leading zeros allowed. */
  function ParseU8(s: string): Option<u8> {
    var body := if s != [] && s[0] == '+' then s[1..] else s;
    if body != [] && AllDigits(body) && Value(DigitsOf(body)) < 0x100 then Some(Value(DigitsOf(body))) else None
  }

  /** The text before the first separator, if there is one. */
  function IndexOf(s: string, c: char): (i: nat)
    ensures i <= |s| && (i < |s| ==> s[i] == c) && forall j :: 0 <= j < i ==> s[j] != c
  {
    if s == [] || s[0] == c then 0
    else
      assert forall j :: 0 < j < |s| ==> s[j] == s[1..][j - 1];
      1 + IndexOf(s[1..], c)
  }

  function ParseCidr(s: string): Option<Subnet> {
    var i := IndexOf(s, '/');
    if i == |s| then None
    else
      match (ParseQuad(Trim(s[..i])), ParseU8(Trim(s[i + 1..])))
      case (Some(base), Some(prefix)) => if prefix <= 32 then Some(Subnet(base, prefix)) else None
      case _ => None
  }

  // ---------------------------------------------------------------- numbers

  lemma TextIsDigits(n: nat)
    ensures Text(n) != [] && AllDigits(Text(n)) && DigitsOf(Text(n)) == Digits(n)
  {
    var ds := Digits(n);
    forall i | 0 <= i < |ds| ensures Text(n)[i] == '0' + ds[i] as char && (Text(n)[i] as int) - 48 == ds[i] {
    }
  }

  lemma TextOfDigits(s: string)
    requires s != [] && AllDigits(s) && (s[0] == '0' ==> |s| == 1)
    ensures Text(Value(DigitsOf(s))) == s
  {
    var ds := DigitsOf(s);
    DigitsOfValue(ds);
    var n := Value(ds);
    forall i | 0 <= i < |s| ensures Text(n)[i] == s[i] {
      assert Text(n)[i] == '0' + ds[i] as char;
    }
  }

  /** An octet is accepted in exactly one spelling, the printed one. */
  lemma OctetIff(s: string, n: u8)
    ensures ParseOctet(s) == Some(n) <==> s == Text(n)
  {
    if s == Text(n) {
      TextIsDigits(n);
      ValueOfDigits(n);
      NoLeadingZero(n);
      OctetDigits(n);
      assert s[0] == '0' + Digits(n)[0] as char;
    } else if ParseOctet(s) == Some(n) {
      TextOfDigits(s);
    }
  }

  lemma OctetDigits(n: u8)
    ensures |Digits(n)| <= 3 && (n == 0 ==> |Digits(n)| == 1)
  {
    assert n >= 10 ==> Digits(n) == Digits(n / 10) + [n % 10];
    assert n >= 100 ==> Digits(n / 10) == Digits(n / 100) + [(n / 10) % 10];
  }

  // ---------------------------------------------------------------- splitting and joining

  function Join(parts: seq<string>, sep: char): string {
    if parts == [] then []
    else if |parts| == 1 then parts[0]
    else parts[0] + [sep] + Join(parts[1..], sep)
  }

  lemma JoinLongerHead(c: char, parts: seq<string>, sep: char)
    requires parts != []
    ensures Join([[c] + parts[0]] + parts[1..], sep) == [c] + Join(parts, sep)
  {
    var more := [[c] + parts[0]] + parts[1..];
    assert more[1..] == parts[1..];
    if |parts| > 1 {
      assert [c] + parts[0] + [sep] + Join(parts[1..], sep) == [c] + (parts[0] + [sep] + Join(parts[1..], sep));
    }
  }

  lemma {:induction false} JoinSplit(s: string, sep: char)
    ensures Join(Split(s, sep), sep) == s
    ensures forall p :: p in Split(s, sep) ==> sep !in p
  {
    if s != [] {
      JoinSplit(s[1..], sep);
      var rest := Split(s[1..], sep);
      assert s == [s[0]] + s[1..];
      if s[0] == sep {
        var parts := [[]] + rest;
        assert parts[1..] == rest;
        assert Join(parts, sep) == [] + [sep] + s[1..];
      } else {
        hide Join;
        JoinLongerHead(s[0], rest, sep);
      }
    }
  }

  lemma {:induction false} SplitFirst(p: string, rest: string, sep: char)
    requires sep !in p
    ensures Split(p + [sep] + rest, sep) == [p] + Split(rest, sep)
  {
    var s := p + [sep] + rest;
    if p == [] {
      assert s[1..] == rest;
    } else {
      SplitFirst(p[1..], rest, sep);
      assert s[1..] == p[1..] + [sep] + rest;
      assert [s[0]] + p[1..] == p;
    }
  }

  lemma {:induction false} SplitNone(p: string, sep: char)
    requires sep !in p
    ensures Split(p, sep) == [p]
  {
    if p != [] {
      SplitNone(p[1..], sep);
      assert [p[0]] + p[1..] == p;
    }
  }

  lemma TextHasNo(n: nat, c: char)
    requires !('0' <= c <= '9')
    ensures c !in Text(n)
  {
    TextIsDigits(n);
  }

  lemma SplitQuad(ip: u32)
    ensures Split(Quad(ip), '.') ==
            [Text(ip / 0x100_0000), Text((ip / 0x1_0000) % 0x100), Text((ip / 0x100) % 0x100), Text(ip % 0x100)]
  {
    hide Text, Split;
    var a, b := Text(ip / 0x100_0000), Text((ip / 0x1_0000) % 0x100);
    var c, d := Text((ip / 0x100) % 0x100), Text(ip % 0x100);
    TextHasNo(ip / 0x100_0000, '.');
    TextHasNo((ip / 0x1_0000) % 0x100, '.');
    TextHasNo((ip / 0x100) % 0x100, '.');
    TextHasNo(ip % 0x100, '.');
    assert Quad(ip) == a + "." + (b + "." + (c + "." + d));
    SplitFirst(a, b + "." + (c + "." + d), '.');
    SplitFirst(b, c + "." + d, '.');
    SplitFirst(c, d, '.');
    SplitNone(d, '.');
  }

  lemma JoinFour(parts: seq<string>)
    requires |parts| == 4
    ensures Join(parts, '.') == parts[0] + "." + parts[1] + "." + parts[2] + "." + parts[3]
  {
    assert Join(parts[3..], '.') == parts[3];
    assert parts[2..][1..] == parts[3..] && parts[1..][1..] == parts[2..];
    assert Join(parts[2..], '.') == parts[2] + "." + parts[3];
    assert Join(parts[1..], '.') == parts[1] + "." + (parts[2] + "." + parts[3]);
  }

  /** A dotted quad is accepted in exactly one spelling, the printed one. */
  lemma QuadIff(s: string, ip: u32)
    ensures ParseQuad(s) == Some(ip) <==> s == Quad(ip)
  {
    hide Text, Split, Join, ParseOctet;
    if s == Quad(ip) {
      SplitQuad(ip);
      OctetIff(Text(ip / 0x100_0000), ip / 0x100_0000);
      OctetIff(Text((ip / 0x1_0000) % 0x100), (ip / 0x1_0000) % 0x100);
      OctetIff(Text((ip / 0x100) % 0x100), (ip / 0x100) % 0x100);
      OctetIff(Text(ip % 0x100), ip % 0x100);
      WordOfBytes(ip);
    } else if ParseQuad(s) == Some(ip) {
      var parts := Split(s, '.');
      JoinSplit(s, '.');
      JoinFour(parts);
      var a, b := ParseOctet(parts[0]).value, ParseOctet(parts[1]).value;
      var c, d := ParseOctet(parts[2]).value, ParseOctet(parts[3]).value;
      OctetIff(parts[0], a);
      OctetIff(parts[1], b);
      OctetIff(parts[2], c);
      OctetIff(parts[3], d);
      BytesOfWord(a, b, c, d);
    }
  }

  // ---------------------------------------------------------------- round trips

  lemma TrimNothing(s: string)
    requires s != [] ==> !IsSpace(s[0]) && !IsSpace(s[|s| - 1])
    ensures Trim(s) == s
  {
  }

  /** Every number below 256 is read back from its printed form. */
  lemma U8RoundTrip(n: u8)
    ensures ParseU8(Text(n)) == Some(n)
  {
    TextIsDigits(n);
    ValueOfDigits(n);
  }

  lemma {:induction false} LeadingZero(ds: seq<Digit>)
    requires ds != []
    ensures Value([0] + ds) == Value(ds)
  {
    var n := |ds| - 1;
    assert ([0] + ds)[..n + 1] == [0] + ds[..n];
    if n > 0 {
      LeadingZero(ds[..n]);
    } else {
      assert [0] + ds[..n] == [0] && [0][..0] == [];
    }
  }

  function Zeros(z: nat): string {
    seq(z, _ => '0')
  }

  lemma ZeroInFront(s: string)
    requires s != [] && AllDigits(s)
    ensures AllDigits(['0'] + s) && Value(DigitsOf(['0'] + s)) == Value(DigitsOf(s))
  {
    hide Value;
    LeadingZero(DigitsOf(s));
    assert DigitsOf(['0'] + s) == [0] + DigitsOf(s);
  }

  lemma {:induction false} PaddedValue(z: nat, n: nat)
    ensures var s := Zeros(z) + Text(n); s != [] && AllDigits(s) && Value(DigitsOf(s)) == n
  {
    hide Text, Value, DigitsOf, AllDigits;
    TextIsDigits(n);
    ValueOfDigits(n);
    if z == 0 {
      assert Zeros(z) + Text(n) == Text(n);
    } else {
      PaddedValue(z - 1, n);
      ZeroInFront(Zeros(z - 1) + Text(n));
      assert Zeros(z) + Text(n) == ['0'] + (Zeros(z - 1) + Text(n));
    }
  }

  /** Digits are the printed number behind as many zeros as there is room for. */
  lemma {:induction false} DigitsArePadded(s: string) returns (z: nat)
    requires s != [] && AllDigits(s)
    ensures s == Zeros(z) + Text(Value(DigitsOf(s)))
  {
    hide Text;
    if s[0] == '0' && |s| > 1 {
      var rest := s[1..];
      var y := DigitsArePadded(rest);
      z := y + 1;
      ZeroInFront(rest);
      assert s == ['0'] + rest;
      assert Zeros(z) == ['0'] + Zeros(y);
    } else {
      z := 0;
      TextOfDigits(s);
      assert Zeros(0) + s == s;
    }
  }

  /** A spelling of a number: an optional plus, any zeros, then the printed number. */
  ghost predicate Spells(s: string, n: nat) {
    exists z: nat :: s == Zeros(z) + Text(n) || s == ['+'] + (Zeros(z) + Text(n))
  }

  /** The prefix is accepted in exactly these spellings. */
  lemma U8Iff(s: string, n: u8)
    ensures ParseU8(s) == Some(n) <==> Spells(s, n)
  {
    hide Text;
    if ParseU8(s) == Some(n) {
      var body := if s[0] == '+' then s[1..] else s;
      var z := DigitsArePadded(body);
      assert s[0] == '+' ==> s == ['+'] + body;
    }
    if z: nat :| s == Zeros(z) + Text(n) || s == ['+'] + (Zeros(z) + Text(n)) {
      PaddedValue(z, n);
      var body := Zeros(z) + Text(n);
      assert body[0] != '+' && (['+'] + body)[1..] == body;
    }
  }

  lemma QuadEnds(ip: u32)
    ensures var q := Quad(ip); q != [] && '0' <= q[0] <= '9' && '0' <= q[|q| - 1] <= '9' && '/' !in q
  {
    hide Text;
    var q := Quad(ip);
    var first, last := Text(ip / 0x100_0000), Text(ip % 0x100);
    TextIsDigits(ip / 0x100_0000);
    TextIsDigits(ip % 0x100);
    TextHasNo(ip / 0x100_0000, '/');
    TextHasNo((ip / 0x1_0000) % 0x100, '/');
    TextHasNo((ip / 0x100) % 0x100, '/');
    TextHasNo(ip % 0x100, '/');
    assert q[0] == first[0] && q[|q| - 1] == last[|last| - 1];
  }

  /** Parsing the printed form of a subnet gives the subnet back, for every base and every
      prefix from 0 to 32. */
  lemma CidrRoundTrip(s: Subnet)
    requires s.prefix <= 32
    ensures ParseCidr(Print(s)) == Some(s)
  {
    hide Text, Quad, ParseQuad, ParseU8, Trim;
    var text := Print(s);
    var q, p := Quad(s.base), Text(s.prefix);
    QuadEnds(s.base);
    TextIsDigits(s.prefix);
    var i := IndexOf(text, '/');
    assert text[|q|] == '/';
    assert forall j :: 0 <= j < |q| ==> text[j] == q[j];
    assert i == |q|;
    assert text[..i] == q && text[i + 1..] == p;
    assert Trim(q) == q by { TrimNothing(q); }
    assert Trim(p) == p by { TrimNothing(p); }
    QuadIff(q, s.base);
    U8RoundTrip(s.prefix);
  }

  /** The default network of the source, printed. */
  lemma PrintedDefault()
    ensures Print(Subnet(0x0A58_0000, 24)) == "10.88.0.0/24"
  {
    hide Text;
    PrintedParts();
  }

  lemma PrintedParts()
    ensures Text(10) == "10" && Text(88) == "88" && Text(0) == "0" && Text(24) == "24"
  {
    assert Digits(1) == [1] && Digits(8) == [8] && Digits(2) == [2];
  }

  /** What counts as space: the code points with the Unicode property White_Space. */
  lemma SpacesAre(c: char)
    ensures IsSpace(c) <==>
              (c as int) in {9, 10, 11, 12, 13, 32, 133, 160, 5760, 8192, 8193, 8194, 8195, 8196, 8197, 8198,
                             8199, 8200, 8201, 8202, 8232, 8233, 8239, 8287, 12288}
  {
  }

  predicate Blank(s: string) {
    forall i :: 0 <= i < |s| ==> s[i] == ' ' || s[i] == '\t' || s[i] == '\n' || s[i] == '\r'
  }

  lemma {:induction false} TrimLeftBlank(b: string, s: string)
    requires Blank(b) && (s != [] ==> !IsSpace(s[0]))
    ensures TrimLeft(b + s) == s
  {
    if b == [] {
      assert b + s == s;
    } else {
      TrimLeftBlank(b[1..], s);
      assert (b + s)[1..] == b[1..] + s;
    }
  }

  lemma {:induction false} TrimRightBlank(s: string, b: string)
    requires Blank(b) && (s != [] ==> !IsSpace(s[|s| - 1]))
    ensures TrimRight(s + b) == s
  {
    if b == [] {
      assert s + b == s;
    } else {
      TrimRightBlank(s, b[..|b| - 1]);
      assert (s + b)[..|s + b| - 1] == s + b[..|b| - 1];
    }
  }

  lemma TrimBlank(before: string, s: string, after: string)
    requires Blank(before) && Blank(after) && s != [] && !IsSpace(s[0]) && !IsSpace(s[|s| - 1])
    ensures Trim(before + s + after) == s
  {
    assert before + s + after == before + (s + after);
    TrimLeftBlank(before, s + after);
    TrimRightBlank(s, after);
  }

  /** Blanks around the base and around the prefix are ignored. */
  lemma BlanksAreAccepted(s: Subnet, a: string, b: string, c: string, d: string)
    requires s.prefix <= 32 && Blank(a) && Blank(b) && Blank(c) && Blank(d)
    ensures ParseCidr((a + Quad(s.base) + b) + "/" + (c + Text(s.prefix) + d)) == Some(s)
  {
    hide Text, Quad, ParseQuad, ParseU8, Trim;
    var left, right := a + Quad(s.base) + b, c + Text(s.prefix) + d;
    var text := left + "/" + right;
    QuadEnds(s.base);
    TextIsDigits(s.prefix);
    assert forall j :: 0 <= j < |left| ==> left[j] != '/';
    assert text[|left|] == '/' && forall j :: 0 <= j < |left| ==> text[j] == left[j];
    assert IndexOf(text, '/') == |left|;
    assert text[..|left|] == left && text[|left| + 1..] == right;
    TrimBlank(a, Quad(s.base), b);
    TrimBlank(c, Text(s.prefix), d);
    QuadIff(Quad(s.base), s.base);
    U8RoundTrip(s.prefix);
  }

  /** What is accepted at all: a first slash, before it, once trimmed, exactly the printed
      base, after it, once trimmed, a spelling of a prefix up to 32. */
  lemma AcceptedTextIff(t: string, s: Subnet)
    ensures ParseCidr(t) == Some(s) <==>
              var i := IndexOf(t, '/');
              && i < |t| && Trim(t[..i]) == Quad(s.base)
              && Spells(Trim(t[i + 1..]), s.prefix) && s.prefix <= 32
  {
    hide Quad, ParseQuad, ParseU8, Trim, IndexOf, Spells;
    var i := IndexOf(t, '/');
    if i < |t| {
      QuadIff(Trim(t[..i]), s.base);
      U8Iff(Trim(t[i + 1..]), s.prefix);
    }
  }

  // ---------------------------------------------------------------- the optional form

  function SerializeOption(v: Option<Subnet>): Option<string> {
    match v case None => None case Some(s) => Some(Print(s))
  }

  /** `None` is a text that does not parse. */
  function DeserializeOption(text: Option<string>): Option<Option<Subnet>> {
    match text
    case None => Some(None)
    case Some(t) =>
      match ParseCidr(t)
      case None => None
      case Some(s) => Some(Some(s))
  }

  /** An optional subnet survives being stored and read back. */
  lemma OptionRoundTrip(v: Option<Subnet>)
    requires v.Some? ==> v.value.prefix <= 32
    ensures DeserializeOption(SerializeOption(v)) == Some(v)
  {
    hide Print, ParseCidr;
    if v.Some? {
      CidrRoundTrip(v.value);
    }
  }
}
