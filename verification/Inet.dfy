/** The address text of ngx_inet.c: IPv4 with dots, and IPv6 as in section 2.2 of RFC 4291. */
module Inet {

  type Byte = x: int | 0 <= x < 256

  datatype Option<T> = None | Some(value: T)

  /** INADDR_NONE */
  const NONE: nat := 0xFFFFFFFF

  function IndexOf(s: string, c: char): (k: nat)
    ensures k <= |s| && (k < |s| ==> s[k] == c) && c !in s[..k]
  {
    if s == [] || s[0] == c then 0 else
      var k := IndexOf(s[1..], c) + 1;
      assert s[..k] == [s[0]] + s[1..][..k - 1];
      k
  }

  lemma {:induction false} IndexUnique(s: string, c: char, k: nat)
    requires k <= |s| && (k < |s| ==> s[k] == c) && c !in s[..k]
    ensures IndexOf(s, c) == k
  {
    if k > 0 {
      assert s[..k] == [s[0]] + s[1..][..k - 1];
      IndexUnique(s[1..], c, k - 1);
    }
  }

  /** The first piece of a text with a separator. */
  lemma FirstPiece(a: string, c: char, b: string)
    requires c !in a
    ensures IndexOf(a + [c] + b, c) == |a| && (a + [c] + b)[..|a|] == a && (a + [c] + b)[|a| + 1..] == b
  {
    var s := a + [c] + b;
    assert s[..|a|] == a && s[|a| + 1..] == b;
    IndexUnique(s, c, |a|);
  }

  lemma OnlyPiece(a: string, c: char)
    requires c !in a
    ensures IndexOf(a, c) == |a| && a[..|a|] == a
  {
    assert a[..|a|] == a;
    IndexUnique(a, c, |a|);
  }

  lemma {:induction false} PieceEnds(s: string, c: char, k: nat)
    requires k <= |s| && c !in s[..k]
    ensures IndexOf(s, c) >= k
  {
    if k > 0 {
      assert s[..k] == [s[0]] + s[1..][..k - 1];
      PieceEnds(s[1..], c, k - 1);
    }
  }

  /* ---- IPv4 ---- */

  predicate IsDigit(c: char) {
    '0' <= c <= '9'
  }

  predicate AllDigits(s: string) {
    forall i :: 0 <= i < |s| ==> IsDigit(s[i])
  }

  /** The number that digits stand for; none stand for 0. */
  function DecValue(s: string): nat
    requires AllDigits(s)
  {
    if s == [] then 0 else DecValue(s[..|s| - 1]) * 10 + (s[|s| - 1] - '0') as nat
  }

  function Octet(s: string): Option<nat> {
    if AllDigits(s) && DecValue(s) <= 255 then Some(DecValue(s)) else None
  }

  function Combine(octets: seq<nat>): nat {
    if octets == [] then 0 else Combine(octets[..|octets| - 1]) * 256 + octets[|octets| - 1]
  }

  /** The four octets of a text, some of which were read already. */
  function Octets(done: seq<nat>, s: string): Option<seq<nat>>
    decreases |s|
  {
    var j := IndexOf(s, '.');
    var v := Octet(s[..j]);
    if v.None? then None
    else if j == |s| then if |done| == 3 then Some(done + [v.value]) else None
    else Octets(done + [v.value], s[j + 1..])
  }

  /** The number of an address; an address in error is the one that is all ones. */
  function Inet4(s: string): nat {
    var r := Octets([], s);
    if r.None? then NONE else Combine(r.value)
  }

  lemma {:induction false} DecGrows(s: string, k: nat)
    requires k <= |s| && AllDigits(s)
    ensures DecValue(s[..k]) <= DecValue(s)
    decreases |s|
  {
    if k < |s| {
      DecGrows(s[..|s| - 1], k);
      assert s[..|s| - 1][..k] == s[..k];
    } else {
      assert s[..k] == s;
    }
  }

  /** A text whose first piece starts in error is an error. */
  lemma BadOctet(done: seq<nat>, s: string, k: nat)
    requires k < |s| && '.' !in s[..k + 1]
    requires !IsDigit(s[k]) || (AllDigits(s[..k + 1]) && DecValue(s[..k + 1]) > 255)
    ensures Octets(done, s).None?
  {
    var j := IndexOf(s, '.');
    PieceEnds(s, '.', k + 1);
    if AllDigits(s[..j]) {
      assert s[..j][k] == s[k];
      DecGrows(s[..j], k + 1);
      assert s[..j][..k + 1] == s[..k + 1];
    }
  }

  lemma DecMore(s: string, c: char)
    requires AllDigits(s) && IsDigit(c)
    ensures AllDigits(s + [c]) && DecValue(s + [c]) == DecValue(s) * 10 + (c - '0') as nat
  {
    assert (s + [c])[..|s|] == s;
  }

  lemma CombineMore(done: seq<nat>, v: nat)
    ensures Combine(done + [v]) == Combine(done) * 256 + v
  {
    assert (done + [v])[..|done|] == done;
  }

  /** Where the piece that is being read starts, what was read of it, and what was read before. */
  ghost predicate Reading4(text: string, start: nat, i: nat, done: seq<nat>, octet: nat) {
    && start <= i <= |text| && (forall k :: 0 <= k < |done| ==> done[k] <= 255) && '.' !in text[start..i]
    && AllDigits(text[start..i]) && DecValue(text[start..i]) == octet <= 255
    && Octets([], text) == Octets(done, text[start..])
  }

  lemma ReadDigit(text: string, start: nat, i: nat, done: seq<nat>, octet: nat)
    requires Reading4(text, start, i, done, octet) && i < |text| && IsDigit(text[i])
    ensures var next := octet * 10 + (text[i] - '0') as nat;
            if next > 255 then Octets([], text).None? else Reading4(text, start, i + 1, done, next)
  {
    hide Octets;
    hide IndexOf;
    assert text[start..i + 1] == text[start..i] + [text[i]];
    DecMore(text[start..i], text[i]);
    if octet * 10 + (text[i] - '0') as nat > 255 {
      assert text[start..][..i - start + 1] == text[start..i + 1];
      BadOctet(done, text[start..], i - start);
    }
  }

  lemma ReadDot(text: string, start: nat, i: nat, done: seq<nat>, octet: nat)
    requires Reading4(text, start, i, done, octet) && i < |text| && text[i] == '.'
    ensures Reading4(text, i + 1, i + 1, done + [octet], 0)
  {
    hide IndexOf;
    var s := text[start..];
    assert s == text[start..i] + ['.'] + text[i + 1..];
    FirstPiece(text[start..i], '.', text[i + 1..]);
    assert Octet(text[start..i]) == Some(octet);
    NothingRead(text[i + 1..i + 1]);
    hide AllDigits;
    hide DecValue;
    hide Octet;
  }

  lemma NothingRead(s: string)
    requires s == []
    ensures AllDigits(s) && DecValue(s) == 0 && '.' !in s
  {
  }

  lemma ReadOther(text: string, start: nat, i: nat, done: seq<nat>, octet: nat)
    requires Reading4(text, start, i, done, octet) && i < |text| && text[i] != '.' && !IsDigit(text[i])
    ensures Octets([], text).None?
  {
    hide Octets;
    hide DecValue;
    var s := text[start..];
    assert s[..i - start + 1] == text[start..i] + [text[i]];
    BadOctet(done, s, i - start);
  }

  lemma ReadEnd(text: string, start: nat, done: seq<nat>, octet: nat)
    requires Reading4(text, start, |text|, done, octet)
    ensures Octets([], text) == if |done| == 3 then Some(done + [octet]) else None
  {
    assert text[start..|text|] == text[start..];
    OnlyPiece(text[start..], '.');
  }

  lemma FirstReading(text: string)
    ensures Reading4(text, 0, 0, [], 0) && Combine([]) == 0
  {
    assert text[0..] == text && text[0..0] == [];
  }

  lemma DigitIs(c: char)
    ensures IsDigit(c) <==> '0' <= c <= '9'
  {
  }

  lemma NoneIs(text: string)
    requires Octets([], text).None?
    ensures Inet4(text) == 0xFFFFFFFF
  {
  }

  lemma SomeIs(text: string, octets: seq<nat>)
    requires Octets([], text) == Some(octets)
    ensures Inet4(text) == Combine(octets)
  {
  }

  lemma {:induction false} CombineBound(octets: seq<nat>)
    requires forall k :: 0 <= k < |octets| ==> octets[k] <= 255
    ensures |octets| == 1 ==> Combine(octets) < 0x100
    ensures |octets| == 2 ==> Combine(octets) < 0x1_0000
    ensures |octets| == 3 ==> Combine(octets) < 0x100_0000
    ensures |octets| == 4 ==> Combine(octets) < 0x1_0000_0000
  {
    if octets != [] {
      CombineBound(octets[..|octets| - 1]);
    }
  }

  lemma ShiftIn(text: string, start: nat, i: nat, done: seq<nat>, octet: nat)
    requires Reading4(text, start, i, done, octet) && |done| <= 3
    ensures Combine(done + [octet]) == (Combine(done) * 256 + octet) % 0x1_0000_0000
  {
    hide Combine;
    CombineMore(done, octet);
    CombineBound(done + [octet]);
  }

  /** htonl and ntohl, on a machine that stores the lowest byte of a number first, or last. */
  function Network(n: nat, little: bool): nat {
    if little then
      n % 256 * 0x100_0000 + n / 0x100 % 256 * 0x1_0000 + n / 0x1_0000 % 256 * 0x100 + n / 0x100_0000 % 256
    else n
  }

  lemma NetworkTwice(n: nat, little: bool)
    requires n <= NONE
    ensures Network(n, little) <= NONE && Network(Network(n, little), little) == n
  {
    if little {
      hide Network;
      Parts(n);
      SwappedTwice(n / 0x100_0000, n / 0x1_0000 % 256, n / 0x100 % 256, n % 256);
    }
  }

  lemma Parts(n: nat)
    requires n <= NONE
    ensures n == n / 0x100_0000 * 0x100_0000 + n / 0x1_0000 % 256 * 0x1_0000 + n / 0x100 % 256 * 0x100 + n % 256
    ensures n / 0x100_0000 < 256
  {
    Nested(n);
  }

  lemma SwappedTwice(a: nat, b: nat, c: nat, d: nat)
    requires a < 256 && b < 256 && c < 256 && d < 256
    ensures var n := a * 0x100_0000 + b * 0x1_0000 + c * 0x100 + d;
            Network(n, true) <= NONE && Network(Network(n, true), true) == n
  {
    hide Network;
    Swapped(a, b, c, d);
    Swapped(d, c, b, a);
  }

  lemma Swapped(a: nat, b: nat, c: nat, d: nat)
    requires a < 256 && b < 256 && c < 256 && d < 256
    ensures Network(a * 0x100_0000 + b * 0x1_0000 + c * 0x100 + d, true) ==
        d * 0x100_0000 + c * 0x1_0000 + b * 0x100 + a
  {
    var n := a * 0x100_0000 + b * 0x1_0000 + c * 0x100 + d;
    LowByte(a * 0x1_0000 + b * 0x100 + c, d);
    LowByte(a * 0x100 + b, c);
    LowByte(a, b);
    Nested(n);
  }

  lemma LowByte(high: nat, low: nat)
    requires low < 256
    ensures (high * 256 + low) % 256 == low && (high * 256 + low) / 256 == high
  {
  }

  lemma Nested(n: nat)
    ensures n / 0x1_0000 == n / 0x100 / 0x100 && n / 0x100_0000 == n / 0x100 / 0x100 / 0x100
  {
  }

  lemma NetworkNone(little: bool)
    ensures Network(0xFFFFFFFF, little) == 0xFFFFFFFF == NONE
  {
  }

  /** ngx_inet_addr: the number of an address in network order. */
  method InetAddr(text: string, little: bool) returns (r: nat)
    ensures r == Network(Inet4(text), little) && Inet4(text) <= NONE
  {
    hide *;
    NetworkNone(little);
    var addr: nat, octet: nat, n: nat := 0, 0, 0;
    var i: nat := 0;
    ghost var start: nat := 0;
    ghost var done: seq<nat> := [];
    FirstReading(text);
    while i < |text|
      invariant Reading4(text, start, i, done, octet) && n == |done| && i <= |text|
      invariant (n <= 3 ==> addr == Combine(done))
    {
      var c := text[i];
      if '0' <= c && c <= '9' {
        DigitIs(c);
        ReadDigit(text, start, i, done, octet);
        octet := octet * 10 + (c - '0') as nat;
        if octet > 255 {
          NoneIs(text);
          return 0xFFFFFFFF;
        }
        i := i + 1;
        continue;
      }
      DigitIs(c);
      if c == '.' {
        ReadDot(text, start, i, done, octet);
        if n <= 3 {
          ShiftIn(text, start, i, done, octet);
        }
        addr := (addr * 256 + octet) % 0x1_0000_0000;
        done := done + [octet];
        start := i + 1;
        octet := 0;
        n := n + 1;
        i := i + 1;
        continue;
      }
      ReadOther(text, start, i, done, octet);
      NoneIs(text);
      return 0xFFFFFFFF;
    }
    assert i == |text|;
    ReadEnd(text, start, done, octet);
    if n == 3 {
      ShiftIn(text, start, i, done, octet);
      SomeIs(text, done + [octet]);
      addr := (addr * 256 + octet) % 0x1_0000_0000;
      return Network(addr, little);
    }
    NoneIs(text);
    r := 0xFFFFFFFF;
  }

  /* ---- IPv6: what a text stands for ---- */

  /** The value of a hexadecimal digit. */
  function HexValue(c: char): Option<nat> {
    if '0' <= c <= '9' then Some((c - '0') as nat)
    else if 'a' <= c <= 'f' then Some((c - 'a') as nat + 10)
    else if 'A' <= c <= 'F' then Some((c - 'A') as nat + 10)
    else None
  }

  predicate AllHex(s: string) {
    forall i :: 0 <= i < |s| ==> HexValue(s[i]).Some?
  }

  function WordValue(s: string): nat
    requires AllHex(s)
  {
    if s == [] then 0 else WordValue(s[..|s| - 1]) * 16 + HexValue(s[|s| - 1]).value
  }

  /** A group of one to four digits. */
  predicate Group(s: string) {
    1 <= |s| <= 4 && AllHex(s)
  }

  /** An IPv4 address at the end, whose first piece looks like a group. */
  predicate Quad(s: string) {
    var j := IndexOf(s, '.');
    j < |s| && Group(s[..j]) && Inet4(s) != NONE
  }

  function Zeros(n: nat): seq<nat> {
    seq(n, i => 0)
  }

  /** The words of an address; zero is where the words that were left out belong. */
  function Fill(words: seq<nat>, zero: Option<nat>): Option<seq<nat>>
    requires zero.Some? ==> zero.value <= |words|
  {
    if |words| == 8 && zero.None? then Some(words)
    else if |words| < 8 && zero.Some? then Some(words[..zero.value] + Zeros(8 - |words|) + words[zero.value..])
    else None
  }

  /** The piece after the last colon. */
  function LastPiece(words: seq<nat>, zero: Option<nat>, s: string): Option<seq<nat>>
    requires zero.Some? ==> zero.value <= |words|
  {
    if s == "" then if zero.None? then None else Fill(words + [0], zero)
    else if Group(s) then Fill(words + [WordValue(s)], zero)
    else if (|words| > 0 || zero.Some?) && |words| <= 6 && Quad(s) then
      Fill(words + [Inet4(s) / 0x1_0000 % 0x1_0000, Inet4(s) % 0x1_0000], zero)
    else None
  }

  /** The address of the text that follows what was read already; an empty piece marks the words left out. */
  function Pieces(words: seq<nat>, zero: Option<nat>, s: string): Option<seq<nat>>
    requires zero.Some? ==> zero.value <= |words|
    decreases |s|
  {
    var j := IndexOf(s, ':');
    var f := s[..j];
    if j == |s| then LastPiece(words, zero, s)
    else if f == "" then if zero.Some? then None else Pieces(words, Some(|words|), s[j + 1..])
    else if Group(f) && |words| < 7 then Pieces(words + [WordValue(f)], zero, s[j + 1..])
    else None
  }

  /** The words of the address that a text stands for; a colon at the start is skipped. */
  function Inet6(text: string): Option<seq<nat>> {
    if text == "" then None else Pieces([], None, if text[0] == ':' then text[1..] else text)
  }

  /** The words in network order. */
  function Bytes(words: seq<nat>): seq<Byte> {
    if words == [] then [] else Bytes(words[..|words| - 1]) + [High(words[|words| - 1]), Low(words[|words| - 1])]
  }

  function High(w: nat): Byte {
    w / 256 % 256
  }

  function Low(w: nat): Byte {
    w % 256
  }

  lemma {:induction false} BytesLength(words: seq<nat>)
    ensures |Bytes(words)| == 2 * |words|
  {
    if words != [] {
      BytesLength(words[..|words| - 1]);
    }
  }

  lemma BytesMore(words: seq<nat>, w: nat)
    ensures Bytes(words + [w]) == Bytes(words) + [High(w), Low(w)]
  {
    assert (words + [w])[..|words|] == words;
  }

  lemma Associate(a: seq<Byte>, b: seq<Byte>, c: seq<Byte>)
    ensures a + b + c == a + (b + c)
  {
  }

  lemma {:induction false} BytesAppend(a: seq<nat>, b: seq<nat>)
    ensures Bytes(a + b) == Bytes(a) + Bytes(b)
  {
    if b == [] {
      assert a + b == a;
    } else {
      var n := |b| - 1;
      BytesAppend(a, b[..n]);
      hide Bytes;
      assert b == b[..n] + [b[n]] && a + b == (a + b[..n]) + [b[n]];
      BytesMore(a + b[..n], b[n]);
      BytesMore(b[..n], b[n]);
      Associate(Bytes(a), Bytes(b[..n]), [High(b[n]), Low(b[n])]);
    }
  }

  /* ---- ngx_inet6_addr ---- */

  /** Where the piece that is being read starts, what was read of it, and what was read before. */
  ghost predicate Reading6(text: string, start: nat, i: nat, words: seq<nat>, zero: Option<nat>, word: nat,
                           whole: Option<seq<nat>>) {
    && start <= i <= |text| && i - start <= 4 && AllHex(text[start..i]) && word == WordValue(text[start..i])
    && |words| <= 7 && (zero.Some? ==> zero.value <= |words|)
    && whole == Pieces(words, zero, text[start..])
  }

  lemma WordMore(s: string, c: char)
    requires AllHex(s) && HexValue(c).Some?
    ensures AllHex(s + [c]) && WordValue(s + [c]) == WordValue(s) * 16 + HexValue(c).value
  {
    assert (s + [c])[..|s|] == s;
  }

  lemma {:induction false} WordBound(s: string)
    requires AllHex(s)
    ensures |s| == 0 ==> WordValue(s) == 0
    ensures |s| <= 1 ==> WordValue(s) < 0x10
    ensures |s| <= 2 ==> WordValue(s) < 0x100
    ensures |s| <= 3 ==> WordValue(s) < 0x1000
    ensures |s| <= 4 ==> WordValue(s) < 0x1_0000
  {
    if s != [] {
      WordBound(s[..|s| - 1]);
    }
  }

  lemma NoSeparators(s: string)
    requires AllHex(s)
    ensures ':' !in s && '.' !in s
  {
  }

  lemma StartReading6(text: string)
    requires text != ""
    ensures var from := if text[0] == ':' then 1 else 0; Reading6(text, from, from, [], None, 0, Inet6(text))
  {
    var from := if text[0] == ':' then 1 else 0;
    assert text[from..from] == [] && text[0..] == text;
  }

  lemma ReadHex(text: string, start: nat, i: nat, words: seq<nat>, zero: Option<nat>, word: nat,
                whole: Option<seq<nat>>)
    requires Reading6(text, start, i, words, zero, word, whole) && i < |text| && i - start < 4
    requires HexValue(text[i]).Some?
    ensures Reading6(text, start, i + 1, words, zero, word * 16 + HexValue(text[i]).value, whole)
  {
    assert text[start..i + 1] == text[start..i] + [text[i]];
    WordMore(text[start..i], text[i]);
    hide Pieces;
  }

  /** A group ends. */
  lemma ReadGroup(text: string, start: nat, i: nat, words: seq<nat>, zero: Option<nat>, word: nat,
                  whole: Option<seq<nat>>)
    requires Reading6(text, start, i, words, zero, word, whole) && start < i < |text| && text[i] == ':'
    ensures if |words| == 7 then whole.None? else Reading6(text, i + 1, i + 1, words + [word], zero, 0, whole)
  {
    var f := text[start..i];
    NoSeparators(f);
    assert text[start..] == f + [':'] + text[i + 1..];
    FirstPiece(f, ':', text[i + 1..]);
    assert text[i + 1..i + 1] == [];
    hide IndexOf;
  }

  /** An empty piece ends. */
  lemma ReadEmpty(text: string, i: nat, words: seq<nat>, zero: Option<nat>, word: nat, whole: Option<seq<nat>>)
    requires Reading6(text, i, i, words, zero, word, whole) && i < |text| && text[i] == ':'
    ensures if zero.Some? then whole.None? else Reading6(text, i + 1, i + 1, words, Some(|words|), 0, whole)
  {
    assert text[i..] == [] + [':'] + text[i + 1..];
    FirstPiece([], ':', text[i + 1..]);
    assert text[i + 1..i + 1] == [];
    hide IndexOf;
  }

  /** A piece that is not a group. */
  lemma BadPiece(words: seq<nat>, zero: Option<nat>, s: string, k: nat)
    requires (zero.Some? ==> zero.value <= |words|) && k < |s| && ':' !in s[..k + 1] && !(s[k] == '.' && k > 0)
    requires AllHex(s[..k]) && (k >= 4 || HexValue(s[k]).None?)
    ensures Pieces(words, zero, s).None?
  {
    var j := IndexOf(s, ':');
    PieceEnds(s, ':', k + 1);
    assert s[..j][k] == s[k];
    NotGroup(s[..j], k);
    BadQuad(s, k);
    assert j == |s| ==> s[..j] == s;
  }

  lemma NotGroup(f: string, k: nat)
    requires k < |f| && (k >= 4 || HexValue(f[k]).None?)
    ensures !Group(f)
  {
  }

  lemma BadQuad(s: string, k: nat)
    requires k < |s| && AllHex(s[..k]) && !(s[k] == '.' && k > 0) && (k >= 4 || HexValue(s[k]).None?)
    ensures !Quad(s)
  {
    var j := IndexOf(s, '.');
    NoSeparators(s[..k]);
    PieceEnds(s, '.', k);
    if k < j {
      assert s[..j][k] == s[k];
      NotGroup(s[..j], k);
    }
  }

  lemma ReadBad(text: string, start: nat, i: nat, words: seq<nat>, zero: Option<nat>, word: nat,
                whole: Option<seq<nat>>)
    requires Reading6(text, start, i, words, zero, word, whole) && i < |text| && text[i] != ':'
    requires !(text[i] == '.' && i > start)
    requires i - start >= 4 || HexValue(text[i]).None?
    ensures whole.None?
  {
    var s := text[start..];
    assert s[..i - start] == text[start..i] && s[..i - start + 1] == text[start..i] + [text[i]];
    NoSeparators(text[start..i]);
    BadPiece(words, zero, s, i - start);
  }

  /** A dot: the rest is an IPv4 address or an error. */
  lemma ReadQuad(text: string, start: nat, i: nat, words: seq<nat>, zero: Option<nat>, word: nat,
                 whole: Option<seq<nat>>)
    requires Reading6(text, start, i, words, zero, word, whole) && start < i < |text| && text[i] == '.'
    ensures var v := Inet4(text[start..]);
            if |words| == 7 || (|words| == 0 && zero.None?) || v == NONE then whole.None?
            else whole == Fill(words + [v / 0x1_0000 % 0x1_0000] + [v % 0x1_0000], zero)
  {
    var s, f := text[start..], text[start..i];
    NoSeparators(f);
    assert s == f + ['.'] + text[i + 1..];
    FirstPiece(f, '.', text[i + 1..]);
    assert s[i - start] == '.';
    var j := IndexOf(s, ':');
    PieceEnds(s, ':', i - start);
    assert s[..j][i - start] == '.';
    assert !Group(s[..j]);
    if j < |s| {
      ColonNone(s, j);
    } else {
      var v := Inet4(s);
      assert words + [v / 0x1_0000 % 0x1_0000, v % 0x1_0000] == words + [v / 0x1_0000 % 0x1_0000] + [v % 0x1_0000];
      hide Fill;
      hide Inet4;
    }
  }

  /** An IPv4 address holds no colon. */
  lemma ColonNone(s: string, j: nat)
    requires j < |s| && s[j] == ':'
    ensures Inet4(s) == NONE
  {
    ColonIn([], s, j);
  }

  lemma {:induction false} ColonIn(done: seq<nat>, s: string, j: nat)
    requires j < |s| && s[j] == ':'
    ensures Octets(done, s).None?
    decreases |s|
  {
    var k := IndexOf(s, '.');
    if k < j {
      var v := Octet(s[..k]);
      if v.Some? {
        ColonIn(done + [v.value], s[k + 1..], j - k - 1);
      }
    } else {
      assert s[..k][j] == ':';
    }
  }

  /** The end of the text. */
  lemma ReadLast(text: string, start: nat, words: seq<nat>, zero: Option<nat>, word: nat, whole: Option<seq<nat>>)
    requires Reading6(text, start, |text|, words, zero, word, whole)
    ensures word < 0x1_0000
    ensures whole == if start == |text| && zero.None? then None else Fill(words + [word], zero)
  {
    var s := text[start..];
    assert text[start..|text|] == s;
    NoSeparators(s);
    OnlyPiece(s, ':');
    WordBound(s);
    hide IndexOf;
    hide Fill;
  }

  /** The words after the gap go to the end. */
  method MoveUp(addr: array<Byte>, zero: nat, a: nat, n: nat)
    requires zero <= a && a + n == 16 == addr.Length
    modifies addr
    ensures addr[..zero] == old(addr[..zero]) && addr[zero + n..16] == old(addr[zero..a])
  {
    var s: int := a - 1;
    var d: int := s + n;
    while s >= zero
      invariant zero - 1 <= s < a && d == s + n
      invariant addr[..s + 1] == old(addr[..s + 1]) && addr[d + 1..16] == old(addr[s + 1..a])
    {
      ghost var tail := addr[d + 1..16];
      addr[d] := addr[s];
      assert addr[d..16] == [addr[d]] + tail;
      assert old(addr[..s + 1])[s] == addr[d];
      d := d - 1;
      s := s - 1;
      assert addr[..s + 1] == old(addr[..s + 2])[..s + 1];
    }
    assert addr[..zero] == addr[..s + 1];
  }

  /** ngx_memzero */
  method Clear(addr: array<Byte>, from: nat, n: nat)
    requires from + n <= addr.Length
    modifies addr
    ensures addr[..from] == old(addr[..from]) && addr[from..from + n] == ZeroBytes(n)
    ensures addr[from + n..] == old(addr[from + n..])
  {
    var i := 0;
    while i < n
      invariant 0 <= i <= n && addr[..from] == old(addr[..from]) && addr[from + n..] == old(addr[from + n..])
      invariant addr[from..from + i] == ZeroBytes(i)
    {
      addr[from + i] := 0;
      assert addr[from..from + i + 1] == addr[from..from + i] + [0];
      i := i + 1;
    }
  }

  method Spread(addr: array<Byte>, zero: nat, a: nat, n: nat)
    requires zero <= a && a + n == 16 == addr.Length
    modifies addr
    ensures addr[..16] == old(addr[..zero]) + ZeroBytes(n) + old(addr[zero..a])
  {
    MoveUp(addr, zero, a, n);
    Clear(addr, zero, n);
    assert addr[zero + n..16] == addr[zero + n..];
    assert addr[..16] == addr[..zero] + addr[zero..zero + n] + addr[zero + n..16];
  }

  /** The words that were stored so far. */
  predicate Stored(b: seq<Byte>, words: seq<nat>) {
    2 * |words| <= |b| && b[..2 * |words|] == Bytes(words)
  }

  /** Two bytes of a word; higher ones are dropped. */
  method PutWord(addr: array<Byte>, a: nat, w: nat, ghost words: seq<nat>)
    requires a + 2 <= 16 == addr.Length && a == 2 * |words| && Stored(addr[..], words)
    modifies addr
    ensures Stored(addr[..], words + [w])
  {
    BytesMore(words, w);
    hide Bytes;
    assert addr[..][..a] == addr[..a];
    addr[a] := w / 256 % 256;
    addr[a + 1] := w % 256;
    assert addr[..][..a + 2] == addr[..a] + [addr[a], addr[a + 1]];
  }

  function ZeroBytes(n: nat): seq<Byte> {
    seq(n, i => 0)
  }

  lemma {:induction false} BytesOfZeros(n: nat)
    ensures Bytes(Zeros(n)) == ZeroBytes(2 * n)
  {
    if n > 0 {
      BytesOfZeros(n - 1);
      assert Zeros(n)[..n - 1] == Zeros(n - 1);
    }
  }

  lemma PartBytes(words: seq<nat>, k: nat)
    requires k <= |words|
    ensures |Bytes(words)| == 2 * |words| && Bytes(words)[..2 * k] == Bytes(words[..k])
    ensures Bytes(words)[2 * k..] == Bytes(words[k..])
  {
    assert words == words[..k] + words[k..];
    BytesAppend(words[..k], words[k..]);
    BytesLength(words[..k]);
    BytesLength(words[k..]);
  }

  lemma BytesOfThree(a: seq<nat>, b: seq<nat>, c: seq<nat>)
    ensures Bytes(a + b + c) == Bytes(a) + Bytes(b) + Bytes(c)
  {
    hide Bytes;
    BytesAppend(a + b, c);
    BytesAppend(a, b);
  }

  lemma FillGap(words: seq<nat>, zero: nat)
    requires zero <= |words| < 8
    ensures Fill(words, Some(zero)) == Some(words[..zero] + Zeros(8 - |words|) + words[zero..])
  {
  }

  /** The bytes of an address whose gap was filled. */
  lemma FillBytes(words: seq<nat>, zero: nat)
    requires zero <= |words| < 8
    ensures Fill(words, Some(zero)).Some?
    ensures Bytes(Fill(words, Some(zero)).value) ==
        Bytes(words[..zero]) + ZeroBytes(16 - 2 * |words|) + Bytes(words[zero..])
  {
    hide Bytes;
    hide Zeros;
    hide ZeroBytes;
    FillGap(words, zero);
    hide Fill;
    BytesOfZeros(8 - |words|);
    BytesOfThree(words[..zero], Zeros(8 - |words|), words[zero..]);
  }

  lemma FillNone(words: seq<nat>)
    requires |words| <= 8
    ensures Fill(words, None) == if |words| == 8 then Some(words) else None
    ensures |Bytes(words)| == 2 * |words|
  {
    BytesLength(words);
  }

  lemma FillFull(words: seq<nat>, zero: nat)
    requires zero <= |words| == 8
    ensures Fill(words, Some(zero)).None?
  {
  }

  /** The last word, and the words that were left out. */
  method Finish(addr: array<Byte>, zero: int, a: nat, n: nat, word: nat, ghost words: seq<nat>, ghost z: Option<nat>)
    returns (ok: bool)
    requires addr.Length == 16 && |words| <= 7 && a == 2 * |words| && n == 8 - |words| && Stored(addr[..], words)
    requires if z.None? then zero == -1 else zero == 2 * z.value && z.value <= |words|
    modifies addr
    ensures ok <==> Fill(words + [word], z).Some?
    ensures ok ==> addr[..] == Bytes(Fill(words + [word], z).value)
  {
    hide Bytes;
    hide Fill;
    PutWord(addr, a, word, words);
    ghost var all := words + [word];
    var end := a + 2;
    var left := n - 1;
    if left != 0 {
      if zero != -1 {
        FillBytes(all, z.value);
        PartBytes(all, z.value);
        ghost var b := addr[..end];
        assert addr[..][..end] == b && b[..zero] == addr[..zero] && b[zero..] == addr[zero..end];
        Spread(addr, zero, end, left * 2);
        assert addr[..16] == addr[..];
        return true;
      }
    } else {
      if zero == -1 {
        FillNone(all);
        assert addr[..][..16] == addr[..];
        return true;
      }
      FillFull(all, z.value);
      return false;
    }
    FillNone(all);
    ok := false;
  }

  lemma HexIs(c: char)
    ensures HexValue(c).Some? <==> '0' <= c <= '9' || 'a' <= c <= 'f' || 'A' <= c <= 'F'
    ensures '0' <= c <= '9' ==> HexValue(c) == Some((c - '0') as nat)
    ensures 'a' <= c <= 'f' ==> HexValue(c) == Some((c - 'a') as nat + 10)
    ensures 'A' <= c <= 'F' ==> HexValue(c) == Some((c - 'A') as nat + 10)
  {
  }

  /** Where the piece that is being read starts, what was read before, and what the whole text stands for. */
  datatype Seen = Seen(start: nat, words: seq<nat>, z: Option<nat>, whole: Option<seq<nat>>)

  /** The variables of the loop: what the text stands for follows from the words so far and the text from start on. */
  ghost predicate State(text: string, addr: array<Byte>, g: Seen, p: nat, word: nat, nibbles: nat, a: nat, n: nat,
                        zero: int,
                        digit: int)
    reads addr
  {
    && Reading6(text, g.start, p, g.words, g.z, word, g.whole)
    && nibbles == p - g.start && n == 8 - |g.words| && a == 2 * |g.words| && Stored(addr[..], g.words)
    && (if g.z.None? then zero == -1 else zero == 2 * g.z.value)
    && digit == if |g.words| == 0 && g.z.None? then -1 else g.start
  }

  /** A colon after a group, or an empty piece. */
  method Colon(text: string, addr: array<Byte>, ghost g: Seen, p: nat, word: nat, nibbles: nat, a: nat, n: nat,
               zero: int,
               ghost digit: int)
    returns (good: bool, a1: nat, n1: nat, zero1: int, ghost h: Seen)
    requires addr.Length == 16 && p < |text| && text[p] == ':'
    requires State(text, addr, g, p, word, nibbles, a, n, zero, digit)
    modifies addr
    ensures h.whole == g.whole
    ensures if good then State(text, addr, h, p + 1, 0, 0, a1, n1, zero1, p + 1) else g.whole.None?
  {
    hide Pieces;
    hide Stored;
    hide WordValue;
    hide AllHex;
    good, a1, n1, zero1, h := false, a, n, zero, g.(start := p + 1);
    if nibbles != 0 {
      ReadGroup(text, g.start, p, g.words, g.z, word, g.whole);
      PutWord(addr, a, word, g.words);
      a1 := a + 2;
      n1 := n - 1;
      h := h.(words := g.words + [word]);
      good := n1 != 0;
    } else if zero == -1 {
      ReadEmpty(text, p, g.words, g.z, word, g.whole);
      zero1 := a;
      h := h.(z := Some(|g.words|));
      good := true;
    } else {
      ReadEmpty(text, p, g.words, g.z, word, g.whole);
    }
  }

  /** A digit more in the word. */
  method AddDigit(text: string, ghost addr: array<Byte>, ghost g: Seen, p: nat, word: nat, nibbles: nat, ghost a: nat,
                  ghost n: nat,
                  ghost zero: int, ghost digit: int)
    returns (good: bool, next: nat)
    requires p < |text| && text[p] != ':' && !(text[p] == '.' && nibbles > 0)
    requires State(text, addr, g, p, word, nibbles, a, n, zero, digit)
    ensures if good then State(text, addr, g, p + 1, next, nibbles + 1, a, n, zero, digit) else g.whole.None?
  {
    hide Reading6;
    hide HexValue;
    var c := text[p];
    HexIs(c);
    good, next := true, word;
    if nibbles + 1 > 4 {
      ReadBad(text, g.start, p, g.words, g.z, word, g.whole);
      good := false;
    } else if '0' <= c <= '9' {
      ReadHex(text, g.start, p, g.words, g.z, word, g.whole);
      next := word * 16 + (c - '0') as nat;
    } else if 'a' <= c <= 'f' {
      ReadHex(text, g.start, p, g.words, g.z, word, g.whole);
      next := word * 16 + (c - 'a') as nat + 10;
    } else if 'A' <= c <= 'F' {
      ReadHex(text, g.start, p, g.words, g.z, word, g.whole);
      next := word * 16 + (c - 'A') as nat + 10;
    } else {
      ReadBad(text, g.start, p, g.words, g.z, word, g.whole);
      good := false;
    }
  }

  /** The words of an IPv4 address at the end. */
  method FinishQuad(addr: array<Byte>, zero: int, a: nat, n: nat, v: nat, ghost words: seq<nat>, ghost z: Option<nat>)
    returns (ok: bool)
    requires addr.Length == 16 && |words| <= 6 && a == 2 * |words| && n == 8 - |words| && Stored(addr[..], words)
    requires if z.None? then zero == -1 else zero == 2 * z.value && z.value <= |words|
    modifies addr
    ensures var all := words + [v / 0x1_0000 % 0x1_0000] + [v % 0x1_0000];
            && (ok <==> Fill(all, z).Some?) && (ok ==> addr[..] == Bytes(Fill(all, z).value))
  {
    hide Bytes;
    hide Fill;
    hide Stored;
    PutWord(addr, a, v / 0x1_0000 % 0x1_0000, words);
    ok := Finish(addr, zero, a + 2, n - 1, v % 0x1_0000, words + [v / 0x1_0000 % 0x1_0000], z);
  }

  /** Success, with the words of an address stored, or failure, because there is none. */
  ghost predicate Delivered(ok: bool, b: seq<Byte>, whole: Option<seq<nat>>) {
    (ok <==> whole.Some?) && (ok ==> b == Bytes(whole.value))
  }

  lemma NotDelivered(b: seq<Byte>, whole: Option<seq<nat>>)
    requires whole.None?
    ensures Delivered(false, b, whole)
  {
  }

  /** A dot after a group: an IPv4 address that takes the place of the last two words. */
  method Dot(text: string, addr: array<Byte>, ghost g: Seen, p: nat, ghost word: nat, nibbles: nat, a: nat, n: nat,
             zero: int, digit: int, little: bool)
    returns (ok: bool)
    requires addr.Length == 16 && p < |text| && text[p] == '.' && nibbles > 0
    requires State(text, addr, g, p, word, nibbles, a, n, zero, digit)
    modifies addr
    ensures Delivered(ok, addr[..], g.whole)
  {
    hide Pieces;
    hide WordValue;
    hide AllHex;
    hide Fill;
    hide Inet4;
    hide Bytes;
    hide Stored;
    ReadQuad(text, g.start, p, g.words, g.z, word, g.whole);
    if n < 2 || digit == -1 {
      return false;
    }
    hide Network;
    var v := InetAddr(text[digit..], little);
    NetworkTwice(Inet4(text[digit..]), little);
    NetworkNone(little);
    if v == NONE {
      return false;
    }
    v := Network(v, little);
    ok := FinishQuad(addr, zero, a, n, v, g.words, g.z);
  }

  /** The end of the text. */
  method End(text: string, addr: array<Byte>, ghost g: Seen, word: nat, nibbles: nat, a: nat, n: nat, zero: int,
             ghost digit: int)
    returns (ok: bool)
    requires addr.Length == 16
    requires State(text, addr, g, |text|, word, nibbles, a, n, zero, digit)
    modifies addr
    ensures Delivered(ok, addr[..], g.whole)
  {
    hide Pieces;
    hide WordValue;
    hide AllHex;
    hide Fill;
    hide Bytes;
    hide Stored;
    ReadLast(text, g.start, g.words, g.z, word, g.whole);
    if nibbles == 0 && zero == -1 {
      return false;
    }
    ok := Finish(addr, zero, a, n, word, g.words, g.z);
  }

  lemma NoAddress(text: string)
    requires |text| == 0
    ensures Inet6(text).None?
  {
  }

  lemma StartState(text: string, addr: array<Byte>)
    requires text != ""
    ensures var from := if text[0] == ':' then 1 else 0;
        State(text, addr, Seen(from, [], None, Inet6(text)), from, 0, 0, 0, 8, -1, -1)
  {
    StartReading6(text);
    hide Inet6;
    hide Pieces;
  }

  /** ngx_inet6_addr */
  method Inet6Addr(text: string, addr: array<Byte>, little: bool) returns (ok: bool)
    requires addr.Length == 16
    modifies addr
    ensures Delivered(ok, addr[..], Inet6(text))
  {
    hide *;
    if |text| == 0 {
      NoAddress(text);
      NotDelivered(addr[..], Inet6(text));
      return false;
    }
    StartState(text, addr);
    var p: nat, n: nat, nibbles: nat, word: nat, a: nat := 0, 8, 0, 0, 0;
    var zero: int, digit: int := -1, -1;
    if text[0] == ':' {
      p := 1;
    }
    ghost var g := Seen(p, [], None, Inet6(text));
    while p < |text|
      invariant p <= |text| && g.whole == Inet6(text) && State(text, addr, g, p, word, nibbles, a, n, zero, digit)
      decreases |text| - p
    {
      var c := text[p];
      var good;
      if c == ':' {
        good, a, n, zero, g := Colon(text, addr, g, p, word, nibbles, a, n, zero, digit);
        if !good {
          NotDelivered(addr[..], Inet6(text));
          return false;
        }
        nibbles, word := 0, 0;
        p := p + 1;
        digit := p;
        continue;
      }
      if c == '.' && nibbles != 0 {
        ok := Dot(text, addr, g, p, word, nibbles, a, n, zero, digit, little);
        return;
      }
      good, word := AddDigit(text, addr, g, p, word, nibbles, a, n, zero, digit);
      if !good {
        NotDelivered(addr[..], Inet6(text));
        return false;
      }
      nibbles := nibbles + 1;
      p := p + 1;
    }
    ok := End(text, addr, g, word, nibbles, a, n, zero, digit);
  }

  /* ---- ngx_inet6_ntop ---- */

  function HexChar(d: nat): char
    requires d < 16
  {
    if d < 10 then '0' + d as char else 'a' + (d - 10) as char
  }

  /** %xd */
  function Hex(n: nat): (s: string)
    ensures |s| > 0
  {
    if n < 16 then [HexChar(n)] else Hex(n / 16) + [HexChar(n % 16)]
  }

  /** %ud */
  function Dec(n: nat): (s: string)
    ensures |s| > 0
  {
    if n < 10 then ['0' + n as char] else Dec(n / 10) + ['0' + (n % 10) as char]
  }

  /** Groups with colons between them. */
  function Plain(ws: seq<nat>): string {
    if ws == [] then "" else if |ws| == 1 then Hex(ws[0]) else Hex(ws[0]) + ":" + Plain(ws[1..])
  }

  /** Two words as an IPv4 address. */
  function Dotted(hi: nat, lo: nat): string {
    Dec(hi / 256) + "." + Dec(hi % 256) + "." + Dec(lo / 256) + "." + Dec(lo % 256)
  }

  predicate ZeroRun(w: seq<nat>, i: int, k: int) {
    0 <= i && 0 <= k && i + k <= |w| && forall j :: i <= j < i + k ==> w[j] == 0
  }

  /** The leftmost of the longest runs of at least two zero words; -1 if there is none. */
  ghost predicate Longest(w: seq<nat>, z: int, m: int) {
    if z == -1 then m == 1 && forall i {:trigger ZeroRun(w, i, 2)} :: !ZeroRun(w, i, 2)
    else
      && m >= 2 && ZeroRun(w, z, m)
      && forall i, k {:trigger ZeroRun(w, i, k)} :: ZeroRun(w, i, k) ==> k < m || (k == m && i >= z)
  }

  /** Whether the last two words are written as an IPv4 address. */
  predicate Embedded(w: seq<nat>, z: int, m: int)
    requires |w| == 8
  {
    z == 0 && ((m == 5 && w[5] == 0xffff) || m == 6 || (m == 7 && w[7] / 256 != 0 && w[7] % 256 != 1))
  }

  /** The text of an address whose zero words from z on, m in number, are left out. */
  function Printed(w: seq<nat>, z: int, m: int): string
    requires |w| == 8 && (z == -1 || (0 <= z && 0 <= m && z + m <= 8))
  {
    if z == -1 then Plain(w)
    else if Embedded(w, z, m) then "::" + (if m == 5 then "ffff:" else "") + Dotted(w[6], w[7])
    else Plain(w[..z]) + "::" + Plain(w[z + m..])
  }

  predicate IsAddress(w: seq<nat>) {
    |w| == 8 && forall i :: 0 <= i < 8 ==> w[i] < 0x1_0000
  }

  /** The words of 16 bytes. */
  function Words(p: seq<Byte>): (w: seq<nat>)
    requires |p| == 16
    ensures |w| == 8 && IsAddress(w)
  {
    [Pair(p[0], p[1]), Pair(p[2], p[3]), Pair(p[4], p[5]), Pair(p[6], p[7]),
     Pair(p[8], p[9]), Pair(p[10], p[11]), Pair(p[12], p[13]), Pair(p[14], p[15])]
  }

  function Pair(high: nat, low: nat): nat {
    high * 256 + low
  }

  /** The longest run among the words before i, but for the run of n words that ends there. */
  ghost predicate Scanned(w: seq<nat>, i: nat, z: int, m: int, last: int, n: nat) {
    && n <= i <= |w| && ZeroRun(w, i - n, n) && (n < i ==> w[i - n - 1] != 0) && (n > 0 ==> last == i - n)
    && (if z == -1 then m == 1 else m >= 2 && ZeroRun(w, z, m) && z + m <= i)
    && forall a, k {:trigger ZeroRun(w, a, k)} :: ZeroRun(w, a, k) && a < i - n ==>
       k < m || (k == m && (m == 1 || a >= z))
  }

  /** A word that is not zero ends a run. */
  lemma ScanOther(w: seq<nat>, i: nat, z: int, m: int, last: int, n: nat)
    requires Scanned(w, i, z, m, last, n) && i < |w| && w[i] != 0
    ensures if m < n then Scanned(w, i + 1, last, n, last, 0) else Scanned(w, i + 1, z, m, last, 0)
  {
  }

  lemma ScanZero(w: seq<nat>, i: nat, z: int, m: int, last: int, n: nat)
    requires Scanned(w, i, z, m, last, n) && i < |w| && w[i] == 0
    ensures Scanned(w, i + 1, z, m, if n == 0 then i else last, n + 1)
  {
  }

  lemma ScanEnd(w: seq<nat>, z: int, m: int, last: int, n: nat)
    requires Scanned(w, |w|, z, m, last, n)
    ensures if m < n then Longest(w, last, n) else Longest(w, z, m)
  {
  }

  /** The loop that looks for the longest run; z is in words here and in bytes in the source. */
  method FindRun(p: seq<Byte>) returns (z: int, max: nat)
    requires |p| == 16
    ensures Longest(Words(p), z, max)
  {
    ghost var w := Words(p);
    z, max := -1, 1;
    var last, n: nat, i: nat := -1, 0, 0;
    assert Scanned(w, 0, -1, 1, -1, 0);
    hide Scanned;
    hide Longest;
    while i < 16
      invariant i <= 16 && i % 2 == 0 && Scanned(w, i / 2, z, max, last, n)
    {
      WordAt(p, i);
      if p[i] != 0 || p[i + 1] != 0 {
        ScanOther(w, i / 2, z, max, last, n);
        if max < n {
          z := last;
          max := n;
        }
        n := 0;
      } else {
        ScanZero(w, i / 2, z, max, last, n);
        if n == 0 {
          last := i / 2;
        }
        n := n + 1;
      }
      i := i + 2;
    }
    ScanEnd(w, z, max, last, n);
    if max < n {
      z := last;
      max := n;
    }
  }

  lemma WordAt(p: seq<Byte>, i: nat)
    requires |p| == 16 && i < 16 && i % 2 == 0
    ensures Words(p)[i / 2] == Pair(p[i], p[i + 1]) && (Words(p)[i / 2] == 0 <==> p[i] == 0 && p[i + 1] == 0)
  {
  }

  /** What the loop writes for the words from i on. */
  function Rest(w: seq<nat>, z: int, m: nat, n: nat, i: nat): string
    requires n <= |w| == 8 && (z != -1 ==> m > 0)
    decreases 8 - i
  {
    if i >= n then ""
    else if i == z then ":" + Rest(w, z, m, n, i + m)
    else Hex(w[i]) + (if i < 7 then ":" else "") + Rest(w, z, m, n, i + 1)
  }

  /** The loop that writes the words. */
  method WriteWords(p: seq<Byte>, z: int, m: nat, n: nat, start: string) returns (dst: string)
    requires |p| == 16 && n <= 8 && (z != -1 ==> m > 0)
    ensures dst == start + Rest(Words(p), z, m, n, 0)
  {
    hide Hex;
    hide Words;
    hide Pair;
    ghost var w := Words(p);
    ghost var all := start + Rest(w, z, m, n, 0);
    dst := start;
    hide Rest;
    var i := 0;
    while i < n
      invariant 0 <= i && dst + Rest(w, z, m, n, i) == all
      decreases n - i
    {
      Unroll(w, z, m, n, i, dst);
      if i == z {
        dst := dst + ":";
        i := i + (m - 1);
        i := i + 1;
        continue;
      }
      WordAt(p, 2 * i);
      assert 2 * i / 2 == i;
      dst := dst + Hex(Pair(p[2 * i], p[2 * i + 1]));
      if i < 7 {
        dst := dst + ":";
      }
      i := i + 1;
    }
    RestEnds(w, z, m, n, i, dst);
  }

  lemma RestEnds(w: seq<nat>, z: int, m: nat, n: nat, i: nat, dst: string)
    requires n <= |w| == 8 && (z != -1 ==> m > 0) && i >= n
    ensures dst + Rest(w, z, m, n, i) == dst
  {
  }

  lemma Unroll(w: seq<nat>, z: int, m: nat, n: nat, i: nat, dst: string)
    requires n <= |w| == 8 && (z != -1 ==> m > 0) && i < n
    ensures dst + Rest(w, z, m, n, i) ==
              if i == z then dst + ":" + Rest(w, z, m, n, i + m)
              else if i < 7 then dst + Hex(w[i]) + ":" + Rest(w, z, m, n, i + 1)
              else dst + Hex(w[i]) + Rest(w, z, m, n, i + 1)
  {
    var r := Rest(w, z, m, n, i + 1);
    if i == z {
      assert dst + (":" + Rest(w, z, m, n, i + m)) == dst + ":" + Rest(w, z, m, n, i + m);
    } else if i < 7 {
      assert dst + (Hex(w[i]) + ":" + r) == dst + Hex(w[i]) + ":" + r;
    } else {
      assert dst + (Hex(w[i]) + "" + r) == dst + Hex(w[i]) + r;
    }
  }

  /** The words after the gap, or all words. */
  lemma {:induction false} RestPlain(w: seq<nat>, z: int, m: nat, i: nat)
    requires |w| == 8 && (z != -1 ==> m > 0) && z < i <= 8
    ensures Rest(w, z, m, 8, i) == Plain(w[i..])
    decreases 8 - i
  {
    hide Hex;
    if i < 8 {
      RestPlain(w, z, m, i + 1);
      assert w[i..][1..] == w[i + 1..];
    }
  }

  /** The words before the gap. */
  lemma {:induction false} RestBefore(w: seq<nat>, z: int, m: nat, i: nat)
    requires |w| == 8 && m > 0 && i < z < 8
    ensures Rest(w, z, m, 8, i) == Plain(w[i..z]) + ":" + Rest(w, z, m, 8, z)
    decreases z - i
  {
    hide Hex;
    if i + 1 == z {
      assert w[i..z] == [w[i]];
    } else {
      RestBefore(w, z, m, i + 1);
      assert w[i..z][1..] == w[i + 1..z];
    }
  }

  lemma RestGap(w: seq<nat>, z: int, m: nat, n: nat)
    requires n <= |w| == 8 && m > 0 && 0 <= z < n
    ensures Rest(w, z, m, n, z) == ":" + Rest(w, z, m, n, z + m)
  {
  }

  lemma TwoColons(a: string, b: string)
    ensures "" + (a + ":" + (":" + b)) == a + "::" + b && ":" + (":" + b) == "" + "::" + b
  {
  }

  /** Without an embedded address, the loop writes everything. */
  lemma RestPrinted(w: seq<nat>, z: int, m: nat)
    requires |w| == 8 && (z == -1 || (0 <= z && m > 0 && z + m <= 8 && !Embedded(w, z, m)))
    ensures (if z == 0 then ":" else "") + Rest(w, z, m, 8, 0) == Printed(w, z, m)
  {
    hide Rest;
    hide Hex;
    if z == -1 {
      RestPlain(w, z, m, 0);
      assert w[0..] == w;
      assert "" + Plain(w) == Plain(w);
    } else {
      RestGap(w, z, m, 8);
      RestPlain(w, z, m, z + m);
      if z == 0 {
        assert w[..0] == [];
        TwoColons("", Plain(w[m..]));
      } else {
        RestBefore(w, z, m, 0);
        assert w[0..z] == w[..z];
        TwoColons(Plain(w[..z]), Plain(w[z + m..]));
      }
    }
  }

  lemma FourFs()
    ensures Hex(0xffff) == "ffff"
  {
    assert Hex(0xf) == "f";
    assert Hex(0xff) == Hex(0xf) + "f";
    assert Hex(0xfff) == Hex(0xff) + "f";
    assert Hex(0xffff) == Hex(0xfff) + "f";
  }

  /** With one, the loop stops before the last two words. */
  lemma RestEmbedded(w: seq<nat>, m: nat)
    requires |w| == 8 && m > 0 && Embedded(w, 0, m)
    ensures ":" + Rest(w, 0, m, 6, 0) + Dotted(w[6], w[7]) == Printed(w, 0, m)
  {
    FourFs();
    hide Hex;
    hide Dotted;
    RestGap(w, 0, m, 6);
    if m == 5 {
      assert Rest(w, 0, m, 6, 6) == "";
      assert Rest(w, 0, m, 6, 5) == "ffff:";
    } else {
      assert Rest(w, 0, m, 6, m) == "";
    }
  }

  lemma BytesOfWords(p: seq<Byte>)
    requires |p| == 16
    ensures var w := Words(p);
            && (w[5] == 0xffff <==> p[10] == 0xff && p[11] == 0xff)
            && w[6] / 256 == p[12] && w[6] % 256 == p[13] && w[7] / 256 == p[14] && w[7] % 256 == p[15]
  {
  }

  /** ngx_inet6_ntop */
  method Inet6Ntop(p: seq<Byte>, len: nat) returns (text: string, ghost z: int, ghost m: nat)
    requires |p| == 16
    ensures len < 45 ==> text == ""
    ensures len >= 45 ==> Longest(Words(p), z, m) && text == Printed(Words(p), z, m) && |text| <= len
  {
    hide *;
    z, m := -1, 1;
    if len < 45 {
      return "", z, m;
    }
    var zero, max := FindRun(p);
    z, m := zero, max;
    ghost var w := Words(p);
    LongestBounds(w, zero, max);
    EmbeddedBytes(p, zero, max);
    var dst := "";
    var n := 8;
    if zero == 0 {
      if (max == 5 && p[10] == 0xff && p[11] == 0xff) || max == 6 || (max == 7 && p[14] != 0 && p[15] != 1) {
        n := 6;
      }
      dst := ":";
    }
    dst := WriteWords(p, zero, max, n, dst);
    if n == 6 {
      RestEmbedded(w, max);
      dst := dst + (Dec(p[12]) + "." + Dec(p[13]) + "." + Dec(p[14]) + "." + Dec(p[15]));
    } else {
      RestPrinted(w, zero, max);
    }
    PrintedLength(w, zero, max);
    text := dst;
  }

  lemma EmbeddedBytes(p: seq<Byte>, z: int, m: int)
    requires |p| == 16
    ensures var w := Words(p);
            && (Embedded(w, z, m) <==>
                 && z == 0
                 && ((m == 5 && p[10] == 0xff && p[11] == 0xff) || m == 6 || (m == 7 && p[14] != 0 && p[15] != 1)))
            && Dotted(w[6], w[7]) == Dec(p[12]) + "." + Dec(p[13]) + "." + Dec(p[14]) + "." + Dec(p[15])
  {
    hide Dec;
    BytesOfWords(p);
  }

  lemma LongestBounds(w: seq<nat>, z: int, m: int)
    requires Longest(w, z, m)
    ensures m > 0 && (z == -1 || (0 <= z && z + m <= |w|))
  {
  }

  /** There is one such run. */
  lemma LongestUnique(w: seq<nat>, z1: int, m1: int, z2: int, m2: int)
    requires Longest(w, z1, m1) && Longest(w, z2, m2)
    ensures z1 == z2 && m1 == m2
  {
    if z1 != -1 {
      assert ZeroRun(w, z1, m1) && ZeroRun(w, z1, 2);
    }
    if z2 != -1 {
      assert ZeroRun(w, z2, m2) && ZeroRun(w, z2, 2);
    }
  }

  lemma HexLength(n: nat)
    requires n < 0x1_0000
    ensures |Hex(n)| <= 4
  {
    HexRead(n);
  }

  /** A word is written as a group that is read as that word. */
  lemma {:induction false} HexRead(n: nat)
    requires n < 0x1_0000
    ensures AllHex(Hex(n)) && WordValue(Hex(n)) == n
    ensures n < 0x1000 ==> |Hex(n)| <= 3
    ensures n < 0x100 ==> |Hex(n)| <= 2
    ensures n < 0x10 ==> |Hex(n)| == 1
    ensures |Hex(n)| <= 4
  {
    if n < 16 {
      WordMore([], HexChar(n));
      assert [] + [HexChar(n)] == Hex(n);
    } else {
      HexRead(n / 16);
      WordMore(Hex(n / 16), HexChar(n % 16));
    }
  }

  lemma {:induction false} DecRead(n: nat)
    requires n < 256
    ensures AllDigits(Dec(n)) && DecValue(Dec(n)) == n && |Dec(n)| <= 3
    ensures n < 100 ==> |Dec(n)| <= 2
    ensures n < 10 ==> |Dec(n)| == 1
  {
    if n < 10 {
      DecMore([], '0' + n as char);
      assert [] + ['0' + n as char] == Dec(n);
    } else {
      DecRead(n / 10);
      DecMore(Dec(n / 10), '0' + (n % 10) as char);
    }
  }

  /** Groups are written with small letters and without leading zeros (sections 4.1 and 4.3 of RFC 5952), parts of
      IPv4 addresses without leading zeros. */
  lemma {:induction false} HexWritten(n: nat)
    ensures forall i :: 0 <= i < |Hex(n)| ==> '0' <= Hex(n)[i] <= '9' || 'a' <= Hex(n)[i] <= 'f'
    ensures Hex(n)[0] == '0' ==> n == 0 && |Hex(n)| == 1
  {
    if n >= 16 {
      HexWritten(n / 16);
    }
  }

  lemma {:induction false} DecWritten(n: nat)
    ensures Dec(n)[0] == '0' ==> n == 0 && |Dec(n)| == 1
  {
    if n >= 10 {
      DecWritten(n / 10);
    }
  }

  lemma {:induction false} PlainLength(ws: seq<nat>)
    requires forall k :: 0 <= k < |ws| ==> ws[k] < 0x1_0000
    ensures |Plain(ws)| <= if ws == [] then 0 else 5 * |ws| - 1
  {
    hide Hex;
    if ws != [] {
      HexLength(ws[0]);
      PlainLength(ws[1..]);
    }
  }

  /** The buffer is long enough. */
  lemma PrintedLength(w: seq<nat>, z: int, m: int)
    requires IsAddress(w) && m > 0 && (z == -1 || (0 <= z && z + m <= 8))
    ensures |Printed(w, z, m)| <= 43
  {
    hide Plain;
    hide Dec;
    if z == -1 {
      PlainLength(w);
    } else {
      PlainLength(w[..z]);
      PlainLength(w[z + m..]);
      DecRead(w[6] / 256);
      DecRead(w[6] % 256);
      DecRead(w[7] / 256);
      DecRead(w[7] % 256);
    }
  }

  lemma ExampleNumbers()
    ensures Hex(0) == "0" && Hex(1) == "1" && Hex(0x2001) == "2001" && Hex(0xdb8) == "db8"
    ensures Dec(192) == "192" && Dec(0) == "0" && Dec(2) == "2" && Dec(1) == "1"
  {
    assert Hex(0x200) == "200" && Hex(0xdb) == "db" && Dec(19) == "19";
  }

  lemma PlainNext(w: nat, ws: seq<nat>)
    requires ws != []
    ensures Plain([w] + ws) == Hex(w) + ":" + Plain(ws)
  {
    hide Hex;
    assert ([w] + ws)[1..] == ws;
  }

  lemma ExampleGroups()
    ensures Plain([]) == "" && Plain([1]) == "1" && Plain([0x2001, 0xdb8]) == "2001:db8" && Plain([1, 0]) == "1:0"
  {
    ExampleNumbers();
    hide Hex;
    assert Plain([0xdb8]) == "db8" && Plain([0]) == "0";
    PlainNext(0x2001, [0xdb8]);
    PlainNext(1, [0]);
    assert [0x2001] + [0xdb8] == [0x2001, 0xdb8] && [1] + [0] == [1, 0];
  }

  /** The loopback address. */
  lemma LoopbackText()
    ensures Printed([0, 0, 0, 0, 0, 0, 0, 1], 0, 7) == "::1"
  {
    ExampleGroups();
    hide Plain;
    var w := [0, 0, 0, 0, 0, 0, 0, 1];
    assert w[7..] == [1] && w[..0] == [];
  }

  /** An address with groups before and behind its zeros. */
  lemma GapText()
    ensures Printed([0x2001, 0xdb8, 0, 0, 0, 0, 1, 0], 2, 4) == "2001:db8::1:0"
  {
    ExampleGroups();
    hide Plain;
    var w := [0x2001, 0xdb8, 0, 0, 0, 0, 1, 0];
    assert w[6..] == [1, 0] && w[..2] == [0x2001, 0xdb8];
  }

  /** IPv4 addresses in IPv6 addresses. */
  lemma EmbeddedText()
    ensures Printed([0, 0, 0, 0, 0, 0xffff, 0xc000, 0x201], 0, 5) == "::ffff:192.0.2.1"
    ensures Printed([0, 0, 0, 0, 0, 0, 0xc000, 0x201], 0, 6) == "::192.0.2.1"
  {
    ExampleNumbers();
    hide Dec;
    assert Dotted(0xc000, 0x201) == "192.0.2.1";
  }

  /** A word behind seven zero words is written as an IPv4 address only if its first byte is not 0 and its second is
      not 1. */
  lemma LastWordText()
    ensures Printed([0, 0, 0, 0, 0, 0, 0, 0x102], 0, 7) == "::0.0.1.2"
    ensures Printed([0, 0, 0, 0, 0, 0, 0, 0x101], 0, 7) == "::101" && Printed([0, 0, 0, 0, 0, 0, 0, 2], 0, 7) == "::2"
  {
    ExampleNumbers();
    assert Hex(0x10) == "10" && Hex(0x101) == "101" && Hex(2) == "2";
    hide Dec;
    hide Hex;
    assert Dotted(0, 0x102) == "0.0.1.2";
    LastWord(0x101);
    LastWord(2);
  }

  lemma LastWord(n: nat)
    ensures var w := [0, 0, 0, 0, 0, 0, 0, n]; Plain(w[..0]) == "" && Plain(w[7..]) == Hex(n)
  {
    hide Hex;
    var w := [0, 0, 0, 0, 0, 0, 0, n];
    assert w[7..] == [n] && w[..0] == [];
  }

  /* ---- what is printed is read back ---- */

  predicate AllWords(ws: seq<nat>) {
    forall k :: 0 <= k < |ws| ==> ws[k] < 0x1_0000
  }

  lemma HexGroup(n: nat)
    requires n < 0x1_0000
    ensures Group(Hex(n)) && WordValue(Hex(n)) == n && ':' !in Hex(n) && Hex(n)[0] != ':'
  {
    HexRead(n);
    NoSeparators(Hex(n));
  }

  /** One group and its colon. */
  lemma GroupPiece(words: seq<nat>, zero: Option<nat>, w: nat, rest: string)
    requires w < 0x1_0000 && |words| < 7 && (zero.Some? ==> zero.value <= |words|)
    ensures Pieces(words, zero, Hex(w) + ":" + rest) == Pieces(words + [w], zero, rest)
  {
    HexGroup(w);
    FirstPiece(Hex(w), ':', rest);
    assert Hex(w) + ":" + rest == Hex(w) + [':'] + rest;
    hide Hex;
    hide IndexOf;
    hide Group;
    hide WordValue;
  }

  /** The last group. */
  lemma GroupLast(words: seq<nat>, zero: Option<nat>, w: nat)
    requires w < 0x1_0000 && (zero.Some? ==> zero.value <= |words|)
    ensures Pieces(words, zero, Hex(w)) == Fill(words + [w], zero)
  {
    HexGroup(w);
    OnlyPiece(Hex(w), ':');
    hide Hex;
    hide IndexOf;
    hide Group;
    hide WordValue;
    hide Fill;
  }

  lemma {:induction false} PlainPieces(words: seq<nat>, zero: Option<nat>, ws: seq<nat>, rest: string)
    requires ws != [] && AllWords(ws) && |words| + |ws| <= 7 && (zero.Some? ==> zero.value <= |words|)
    ensures Pieces(words, zero, Plain(ws) + ":" + rest) == Pieces(words + ws, zero, rest)
    decreases |ws|
  {
    hide Pieces;
    hide Hex;
    if |ws| == 1 {
      GroupPiece(words, zero, ws[0], rest);
      assert words + ws == words + [ws[0]];
    } else {
      var more := Plain(ws[1..]) + ":" + rest;
      GroupPiece(words, zero, ws[0], more);
      PlainPieces(words + [ws[0]], zero, ws[1..], rest);
      assert words + ws == words + [ws[0]] + ws[1..];
      assert Hex(ws[0]) + ":" + Plain(ws[1..]) + ":" + rest == Hex(ws[0]) + ":" + more;
    }
  }

  lemma {:induction false} PlainLast(words: seq<nat>, zero: Option<nat>, ws: seq<nat>)
    requires ws != [] && AllWords(ws) && |words| + |ws| <= 8 && (zero.Some? ==> zero.value <= |words|)
    ensures Pieces(words, zero, Plain(ws)) == Fill(words + ws, zero)
    decreases |ws|
  {
    hide Pieces;
    hide Hex;
    hide Fill;
    if |ws| == 1 {
      GroupLast(words, zero, ws[0]);
      assert words + ws == words + [ws[0]];
    } else {
      GroupPiece(words, zero, ws[0], Plain(ws[1..]));
      PlainLast(words + [ws[0]], zero, ws[1..]);
      assert words + ws == words + [ws[0]] + ws[1..];
    }
  }

  /** An empty piece. */
  lemma GapPiece(words: seq<nat>, rest: string)
    ensures Pieces(words, None, ":" + rest) == Pieces(words, Some(|words|), rest)
  {
    FirstPiece("", ':', rest);
    assert ":" + rest == "" + [':'] + rest;
    hide IndexOf;
    hide Group;
  }

  lemma NoPiece(words: seq<nat>, zero: nat)
    requires zero <= |words|
    ensures Pieces(words, Some(zero), "") == Fill(words + [0], Some(zero))
  {
    OnlyPiece("", ':');
    hide Fill;
  }

  /** The words after the gap, and the gap. */
  lemma GapFilled(w: seq<nat>, z: nat, m: nat)
    requires IsAddress(w) && m >= 2 && ZeroRun(w, z, m)
    ensures Pieces(w[..z], Some(z), Plain(w[z + m..])) == Some(w)
  {
    var tail := w[z + m..];
    if tail == [] {
      NoPiece(w[..z], z);
      FillGap(w[..z] + [0], z);
      assert w[..z] + Zeros(m - 1) + [0] == w;
      assert (w[..z] + [0])[..z] == w[..z] && (w[..z] + [0])[z..] == [0];
    } else {
      PlainLast(w[..z], Some(z), tail);
      FillGap(w[..z] + tail, z);
      assert (w[..z] + tail)[..z] == w[..z] && (w[..z] + tail)[z..] == tail;
      assert w[..z] + Zeros(m) + tail == w;
    }
  }

  lemma PlainStart(ws: seq<nat>)
    requires ws != [] && AllWords(ws)
    ensures Plain(ws) != "" && Plain(ws)[0] != ':'
  {
    HexGroup(ws[0]);
  }

  /** An address without an embedded one is read back. */
  lemma PlainReadBack(w: seq<nat>, z: int, m: nat)
    requires IsAddress(w) && (z == -1 || (m >= 2 && ZeroRun(w, z, m) && !Embedded(w, z, m)))
    ensures Inet6(Printed(w, z, m)) == Some(w)
  {
    hide Pieces;
    hide Hex;
    hide Plain;
    var text := Printed(w, z, m);
    if z == -1 {
      PlainStart(w);
      PlainLast([], None, w);
      assert [] + w == w;
    } else {
      GapFilled(w, z, m);
      GapPiece(w[..z], Plain(w[z + m..]));
      if z == 0 {
        assert w[..0] == [] && Plain([]) == "" by {
          EmptyPlain();
        }
        assert text[1..] == ":" + Plain(w[m..]);
      } else {
        PlainStart(w[..z]);
        PlainPieces([], None, w[..z], ":" + Plain(w[z + m..]));
        assert [] + w[..z] == w[..z];
        assert text == Plain(w[..z]) + ":" + (":" + Plain(w[z + m..]));
      }
    }
  }

  lemma EmptyPlain()
    ensures Plain([]) == ""
  {
  }

  /* ---- an embedded address ---- */

  lemma OctetOf(n: nat)
    requires n < 256
    ensures Octet(Dec(n)) == Some(n) && '.' !in Dec(n) && ':' !in Dec(n) && Group(Dec(n))
  {
    DecRead(n);
    DigitsAreHex(Dec(n));
  }

  lemma DigitsAreHex(s: string)
    requires AllDigits(s)
    ensures AllHex(s) && '.' !in s && ':' !in s
  {
  }

  lemma OctetPiece(done: seq<nat>, n: nat, rest: string)
    requires n < 256
    ensures Octets(done, Dec(n) + "." + rest) == Octets(done + [n], rest)
  {
    OctetOf(n);
    FirstPiece(Dec(n), '.', rest);
    assert Dec(n) + "." + rest == Dec(n) + ['.'] + rest;
    hide Dec;
    hide Octet;
    hide IndexOf;
  }

  lemma OctetLast(done: seq<nat>, n: nat)
    requires n < 256 && |done| == 3
    ensures Octets(done, Dec(n)) == Some(done + [n])
  {
    OctetOf(n);
    OnlyPiece(Dec(n), '.');
    hide Dec;
    hide Octet;
    hide IndexOf;
  }

  lemma DottedNumber(hi: nat, lo: nat)
    requires hi < 0x1_0000 && lo < 0x1_0000
    ensures Inet4(Dotted(hi, lo)) == hi * 0x1_0000 + lo
  {
    hide Octets;
    hide Dec;
    var a, b, c, d := hi / 256, hi % 256, lo / 256, lo % 256;
    var t3 := Dec(d);
    var t2 := Dec(c) + "." + t3;
    var t1 := Dec(b) + "." + t2;
    OctetPiece([], a, t1);
    OctetPiece([a], b, t2);
    OctetPiece([a, b], c, t3);
    OctetLast([a, b, c], d);
    assert [] + [a] == [a] && [a] + [b] == [a, b] && [a, b] + [c] == [a, b, c] && [a, b, c] + [d] == [a, b, c, d];
    assert Dotted(hi, lo) == Dec(a) + "." + t1;
    CombineFour(a, b, c, d);
  }

  lemma CombineFour(a: nat, b: nat, c: nat, d: nat)
    ensures Combine([a, b, c, d]) == ((a * 256 + b) * 256 + c) * 256 + d
  {
    CombineMore([], a);
    CombineMore([a], b);
    CombineMore([a, b], c);
    CombineMore([a, b, c], d);
    assert [] + [a] == [a] && [a] + [b] == [a, b] && [a, b] + [c] == [a, b, c] && [a, b, c] + [d] == [a, b, c, d];
  }

  lemma DottedShape(hi: nat, lo: nat)
    requires hi < 0x1_0000 && lo < 0x1_0000
    ensures var t := Dotted(hi, lo);
            && ':' !in t && t != "" && !AllHex(t) && IndexOf(t, '.') < |t| && Group(t[..IndexOf(t, '.')])
  {
    hide Dec;
    OctetOf(hi / 256);
    OctetOf(hi % 256);
    OctetOf(lo / 256);
    OctetOf(lo % 256);
    var rest := Dec(hi % 256) + "." + Dec(lo / 256) + "." + Dec(lo % 256);
    var t := Dotted(hi, lo);
    assert t == Dec(hi / 256) + ['.'] + rest;
    FirstPiece(Dec(hi / 256), '.', rest);
    assert t[|Dec(hi / 256)|] == '.';
  }

  lemma QuadPiece(words: seq<nat>, s: string)
    requires ':' !in s && s != "" && !Group(s) && |words| <= 6
    ensures Pieces(words, Some(0), s) ==
              if Quad(s) then Fill(words + [Inet4(s) / 0x1_0000 % 0x1_0000, Inet4(s) % 0x1_0000], Some(0)) else None
  {
    OnlyPiece(s, ':');
    hide IndexOf;
    hide Inet4;
    hide Group;
    hide Quad;
    hide Fill;
  }

  lemma Halves(hi: nat, lo: nat)
    requires hi < 0x1_0000 && lo < 0x1_0000
    ensures var v := hi * 0x1_0000 + lo;
            v / 0x1_0000 % 0x1_0000 == hi && v % 0x1_0000 == lo && (v == NONE <==> hi == 0xffff && lo == 0xffff)
  {
  }

  /** The piece of an embedded address, after at least one colon. */
  lemma DottedLast(words: seq<nat>, hi: nat, lo: nat)
    requires hi < 0x1_0000 && lo < 0x1_0000 && |words| <= 5
    ensures Pieces(words, Some(0), Dotted(hi, lo)) ==
              if hi == 0xffff && lo == 0xffff then None else Fill(words + [hi, lo], Some(0))
  {
    hide Dotted;
    hide Inet4;
    hide Fill;
    hide Pieces;
    DottedShape(hi, lo);
    DottedNumber(hi, lo);
    Halves(hi, lo);
    QuadPiece(words, Dotted(hi, lo));
  }

  /** ::ffff: and an IPv4 address */
  lemma MappedPieces(w: seq<nat>)
    requires IsAddress(w) && ZeroRun(w, 0, 5) && w[5] == 0xffff
    ensures Pieces([], None, ":" + ("ffff:" + Dotted(w[6], w[7]))) == if w[6] == 0xffff && w[7] == 0xffff then None
        else Some(w)
  {
    hide Pieces;
    hide Dotted;
    hide Fill;
    var dotted := Dotted(w[6], w[7]);
    GapPiece([], "ffff:" + dotted);
    FourFs();
    hide Hex;
    GroupPiece([], Some(0), 0xffff, dotted);
    assert Hex(0xffff) + ":" + dotted == "ffff:" + dotted;
    assert [] + [0xffff] == [0xffff] && [0xffff] + [w[6], w[7]] == [0xffff, w[6], w[7]];
    DottedLast([0xffff], w[6], w[7]);
    FillGap([0xffff, w[6], w[7]], 0);
    assert [] + Zeros(5) + [0xffff, w[6], w[7]] == w;
  }

  /** :: and an IPv4 address */
  lemma CompatiblePieces(w: seq<nat>)
    requires IsAddress(w) && ZeroRun(w, 0, 6)
    ensures Pieces([], None, ":" + Dotted(w[6], w[7])) == if w[6] == 0xffff && w[7] == 0xffff then None else Some(w)
  {
    hide Pieces;
    hide Dotted;
    hide Fill;
    GapPiece([], Dotted(w[6], w[7]));
    DottedLast([], w[6], w[7]);
    FillGap([w[6], w[7]], 0);
    assert [] + [w[6], w[7]] == [w[6], w[7]];
    assert [] + Zeros(6) + [w[6], w[7]] == w;
  }

  /** An embedded address is read back unless it is all ones: that number means an error. */
  lemma EmbeddedReadBack(w: seq<nat>, m: nat)
    requires IsAddress(w) && ZeroRun(w, 0, m) && Embedded(w, 0, m)
    ensures Inet6(Printed(w, 0, m)) == if w[6] == 0xffff && w[7] == 0xffff then None else Some(w)
  {
    hide Pieces;
    hide Dotted;
    var text, dotted := Printed(w, 0, m), Dotted(w[6], w[7]);
    if m == 5 {
      MappedPieces(w);
      assert text[1..] == ":" + ("ffff:" + dotted);
    } else {
      assert ZeroRun(w, 0, 6);
      CompatiblePieces(w);
      assert text[1..] == ":" + dotted;
    }
  }

  /** Two addresses end in an IPv4 address that is all ones. */
  predicate Exception(w: seq<nat>) {
    w == [0, 0, 0, 0, 0, 0, 0xffff, 0xffff] || w == [0, 0, 0, 0, 0, 0xffff, 0xffff, 0xffff]
  }

  /** An address is read back from its text exactly if it is neither ::255.255.255.255 nor ::ffff:255.255.255.255; the
      text of these is refused. */
  lemma RoundTrip(w: seq<nat>, z: int, m: nat)
    requires IsAddress(w) && Longest(w, z, m)
    ensures Inet6(Printed(w, z, m)) == if Exception(w) then None else Some(w)
  {
    hide Inet6;
    hide Printed;
    LongestBounds(w, z, m);
    if z != -1 && Embedded(w, z, m) {
      EmbeddedReadBack(w, m);
    } else {
      PlainReadBack(w, z, m);
      if Exception(w) {
        ExceptionRun(w, z, m);
      }
    }
    if Exception(w) {
      ExceptionRun(w, z, m);
    }
  }

  lemma ExceptionRun(w: seq<nat>, z: int, m: int)
    requires Exception(w) && Longest(w, z, m)
    ensures z == 0 && Embedded(w, z, m)
  {
    var k := if w[5] == 0 then 6 else 5;
    assert ZeroRun(w, 0, k) && ZeroRun(w, 0, 2);
    assert w[k] != 0 && (forall j :: k <= j < 8 ==> w[j] != 0);
  }

  lemma PairBytes(a: Byte, b: Byte)
    ensures High(Pair(a, b)) == a && Low(Pair(a, b)) == b
  {
  }

  lemma {:induction false} BytesOfPrefix(p: seq<Byte>, k: nat)
    requires |p| == 16 && k <= 8
    ensures Bytes(Words(p)[..k]) == p[..2 * k]
  {
    hide Words;
    hide Bytes;
    hide High;
    hide Low;
    var w := Words(p);
    if k == 0 {
      NoBytes();
      assert w[..k] == [] && p[..2 * k] == [];
    } else {
      var i := k - 1;
      BytesOfPrefix(p, i);
      BytesOfWord(p, i);
      assert w[..k] == w[..i] + [w[i]];
      BytesMore(w[..i], w[i]);
      PrefixMore(p, i);
    }
  }

  lemma NoBytes()
    ensures Bytes([]) == []
  {
  }

  lemma BytesOfWord(p: seq<Byte>, i: nat)
    requires |p| == 16 && i < 8
    ensures High(Words(p)[i]) == p[2 * i] && Low(Words(p)[i]) == p[2 * i + 1]
  {
    hide Words;
    hide High;
    hide Low;
    WordAt(p, 2 * i);
    PairBytes(p[2 * i], p[2 * i + 1]);
  }

  lemma PrefixMore(p: seq<Byte>, i: nat)
    requires |p| == 16 && i < 8
    ensures p[..2 * (i + 1)] == p[..2 * i] + [p[2 * i], p[2 * i + 1]]
  {
  }

  /** The words of 16 bytes are stored as these bytes. */
  lemma BytesOfAll(p: seq<Byte>)
    requires |p| == 16
    ensures Bytes(Words(p)) == p
  {
    BytesOfPrefix(p, 8);
    assert Words(p)[..8] == Words(p) && p[..16] == p;
  }

  /** Printed and parsed again, 16 bytes come back unless they are one of the two exceptions. */
  method PrintAndParse(p: seq<Byte>, addr: array<Byte>, little: bool) returns (ok: bool)
    requires |p| == 16 == addr.Length
    modifies addr
    ensures ok <==> !Exception(Words(p))
    ensures ok ==> addr[..] == p
  {
    hide *;
    var text;
    ghost var z, m;
    text, z, m := Inet6Ntop(p, 45);
    RoundTrip(Words(p), z, m);
    ok := Inet6Addr(text, addr, little);
    BytesOfAll(p);
    WhatDelivered(ok, addr[..], Inet6(text));
  }

  lemma WhatDelivered(ok: bool, b: seq<Byte>, whole: Option<seq<nat>>)
    requires Delivered(ok, b, whole)
    ensures (ok <==> whole.Some?) && (ok ==> b == Bytes(whole.value))
  {
  }
}
