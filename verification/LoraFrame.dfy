/** The message frame of backend/parser.py: fields separated by bars, then a star and an exclusive or of all
    characters. */
module LoraFrame {

  datatype Option<T> = None | Some(value: T)

  /* ---- the checksum ---- */

  /** The exclusive or of two numbers. */
  function Xor(a: nat, b: nat): nat
    decreases a + b
  {
    if a == 0 && b == 0 then 0 else 2 * Xor(a / 2, b / 2) + if a % 2 != b % 2 then 1 else 0
  }

  lemma {:induction false} XorCommutes(a: nat, b: nat)
    ensures Xor(a, b) == Xor(b, a)
    decreases a + b
  {
    if a > 0 || b > 0 {
      XorCommutes(a / 2, b / 2);
    }
  }

  lemma {:induction false} XorCancels(a: nat, b: nat, c: nat)
    requires Xor(a, b) == Xor(a, c)
    ensures b == c
    decreases a + b + c
  {
    if a > 0 || b > 0 || c > 0 {
      XorCancels(a / 2, b / 2, c / 2);
    }
  }

  lemma {:induction false} XorAssociates(a: nat, b: nat, c: nat)
    ensures Xor(Xor(a, b), c) == Xor(a, Xor(b, c))
    decreases a + b + c
  {
    if a > 0 || b > 0 || c > 0 {
      XorAssociates(a / 2, b / 2, c / 2);
      XorHalves(a, b);
      XorHalves(b, c);
      XorHalves(Xor(a, b), c);
      XorHalves(a, Xor(b, c));
      hide Xor;
      Parts(Xor(Xor(a, b), c));
      Parts(Xor(a, Xor(b, c)));
    }
  }

  lemma XorHalves(a: nat, b: nat)
    ensures Xor(a, b) / 2 == Xor(a / 2, b / 2) && (Xor(a, b) % 2 == 1 <==> a % 2 != b % 2)
  {
  }

  lemma Parts(n: nat)
    ensures n == 2 * (n / 2) + n % 2
  {
  }

  /** The checksum of a payload. */
  function Crc(s: string): nat {
    if s == [] then 0 else Xor(Crc(s[..|s| - 1]), s[|s| - 1] as nat)
  }

  /** Bit k of a number. */
  predicate BitOf(n: nat, k: nat) {
    if k == 0 then n % 2 == 1 else BitOf(n / 2, k - 1)
  }

  lemma {:induction false} XorBits(a: nat, b: nat, k: nat)
    ensures BitOf(Xor(a, b), k) <==> BitOf(a, k) != BitOf(b, k)
    decreases k
  {
    XorHalves(a, b);
    hide Xor;
    if k > 0 {
      XorBits(a / 2, b / 2, k - 1);
    }
  }

  /** How many characters have bit k. */
  function Ones(s: string, k: nat): nat {
    if s == [] then 0 else Ones(s[..|s| - 1], k) + if BitOf(s[|s| - 1] as nat, k) then 1 else 0
  }

  lemma NoBits(k: nat)
    ensures !BitOf(0, k)
  {
  }

  /** Each bit of the checksum is the parity of that bit over all characters. */
  lemma {:induction false} CrcParity(s: string, k: nat)
    ensures BitOf(Crc(s), k) <==> Ones(s, k) % 2 == 1
  {
    hide Xor;
    hide BitOf;
    if s == [] {
      NoBits(k);
    } else {
      CrcParity(s[..|s| - 1], k);
      XorBits(Crc(s[..|s| - 1]), s[|s| - 1] as nat, k);
    }
  }

  /** Another character at one place makes another checksum. */
  lemma {:induction false} CrcChanges(s: string, i: nat, c: char)
    requires i < |s| && s[i] != c
    ensures Crc(s[i := c]) != Crc(s)
  {
    var t, n := s[i := c], |s| - 1;
    if i == n {
      assert t[..n] == s[..n];
      if Crc(t) == Crc(s) {
        XorCancels(Crc(s[..n]), c as nat, s[n] as nat);
      }
    } else {
      CrcChanges(s[..n], i, c);
      assert t[..n] == s[..n][i := c];
      if Crc(t) == Crc(s) {
        XorCommutes(Crc(t[..n]), s[n] as nat);
        XorCommutes(Crc(s[..n]), s[n] as nat);
        XorCancels(s[n] as nat, Crc(t[..n]), Crc(s[..n]));
      }
    }
  }

  lemma CrcLastTwo(s: string)
    requires |s| >= 2
    ensures Crc(s) == Xor(Xor(Crc(s[..|s| - 2]), s[|s| - 2] as nat), s[|s| - 1] as nat)
  {
    hide Xor;
    assert s[..|s| - 1][..|s| - 2] == s[..|s| - 2];
  }

  /** Two neighbours that change places leave the checksum as it is. */
  lemma {:induction false} CrcSwaps(s: string, i: nat)
    requires i + 1 < |s|
    ensures Crc(s[i := s[i + 1]][i + 1 := s[i]]) == Crc(s)
  {
    hide Xor;
    var t, n := s[i := s[i + 1]][i + 1 := s[i]], |s| - 1;
    if i + 1 == n {
      var a, x, y := Crc(s[..i]), s[i] as nat, s[n] as nat;
      CrcLastTwo(s);
      CrcLastTwo(t);
      assert t[..i] == s[..i];
      XorAssociates(a, x, y);
      XorAssociates(a, y, x);
      XorCommutes(x, y);
    } else {
      CrcSwaps(s[..n], i);
      assert t[..n] == s[..n][i := s[i + 1]][i + 1 := s[i]];
    }
  }

  function HexDigit(d: nat): char
    requires d < 16
  {
    if d < 10 then '0' + d as char else 'A' + (d - 10) as char
  }

  function HexDigits(n: nat): (s: string)
    ensures |s| > 0
  {
    if n < 16 then [HexDigit(n)] else HexDigits(n / 16) + [HexDigit(n % 16)]
  }

  /** format(n, "02X") */
  function Hex(n: nat): string {
    if n < 16 then "0" + HexDigits(n) else HexDigits(n)
  }

  function HexValue(s: string): int {
    if s == [] then 0 else
      var c := s[|s| - 1];
      HexValue(s[..|s| - 1]) * 16 + if c <= '9' then c as int - '0' as int else c as int - 'A' as int + 10
  }

  lemma {:induction false} HexDigitsValue(n: nat)
    ensures HexValue(HexDigits(n)) == n
  {
    var s := HexDigits(n);
    if n < 16 {
      assert s[..|s| - 1] == [];
    } else {
      HexDigitsValue(n / 16);
      assert s[..|s| - 1] == HexDigits(n / 16);
    }
  }

  /** Different numbers are written differently. */
  lemma HexRead(n: nat)
    ensures HexValue(Hex(n)) == n
  {
    HexDigitsValue(n);
    if n < 16 {
      assert Hex(n)[..1] == "0" && "0"[..0] == [];
      assert HexValue("0") == 0;
    }
  }

  /** What a digit of the checksum can be. */
  predicate UpperHex(c: char) {
    '0' <= c <= '9' || 'A' <= c <= 'F'
  }

  lemma {:induction false} HexIsUpper(n: nat)
    ensures forall i :: 0 <= i < |HexDigits(n)| ==> UpperHex(HexDigits(n)[i])
  {
    if n >= 16 {
      HexIsUpper(n / 16);
    }
  }

  /** A checksum is written with two digits or more, with a zero in front only if it would be one digit otherwise. */
  lemma HexWritten(n: nat)
    ensures var s := Hex(n);
      |s| >= 2 && (s[0] == '0' ==> |s| == 2) && HexValue(s) == n && forall i :: 0 <= i < |s| ==> UpperHex(s[i])
  {
    HexRead(n);
    HexIsUpper(n);
    NoZeroFirst(n);
    if n >= 16 {
      assert HexDigits(n / 16) != [];
    }
    hide HexValue;
  }

  lemma {:induction false} NoZeroFirst(n: nat)
    ensures HexDigits(n)[0] == '0' ==> n == 0
  {
    if n >= 16 {
      NoZeroFirst(n / 16);
    }
  }

  /** str.upper, of one character, as far as the result can be a digit of a checksum. */
  function UpperChar(c: char): string {
    if 'a' <= c <= 'z' then [c - 32 as char] else if c == '\U{FB00}' then "FF" else [c]
  }

  function Upper(s: string): string {
    if s == [] then [] else UpperChar(s[0]) + Upper(s[1..])
  }

  lemma {:induction false} UpperKeeps(s: string)
    requires forall i :: 0 <= i < |s| ==> UpperHex(s[i])
    ensures Upper(s) == s
  {
    if s != [] {
      UpperKeeps(s[1..]);
    }
  }

  /** A checksum holds no star and is in upper case. */
  lemma HexPlain(n: nat)
    ensures '*' !in Hex(n) && Upper(Hex(n)) == Hex(n)
  {
    HexIsUpper(n);
    UpperKeeps(Hex(n));
  }

  /** calculate_crc */
  method CalculateCrc(payload: string) returns (r: string)
    ensures r == Hex(Crc(payload))
  {
    var crc := 0;
    var i := 0;
    while i < |payload|
      invariant 0 <= i <= |payload| && crc == Crc(payload[..i])
    {
      assert payload[..i + 1][..i] == payload[..i];
      crc := Xor(crc, payload[i] as nat);
      i := i + 1;
    }
    assert payload[..i] == payload;
    r := Hex(crc);
  }

  /* ---- text and numbers ---- */

  function IndexOf(s: string, c: char): (k: nat)
    ensures k <= |s| && (k < |s| ==> s[k] == c) && c !in s[..k]
  {
    if s == [] || s[0] == c then 0 else
      var k := IndexOf(s[1..], c) + 1;
      assert s[..k] == [s[0]] + s[1..][..k - 1];
      k
  }

  /** s.split(c) */
  function Split(s: string, c: char): (r: seq<string>)
    ensures |r| > 0 && forall f :: f in r ==> c !in f
  {
    var k := IndexOf(s, c);
    if k == |s| then [s] else [s[..k]] + Split(s[k + 1..], c)
  }

  /** c.join(fields) */
  function Join(fields: seq<string>, c: char): string
    requires |fields| > 0
  {
    if |fields| == 1 then fields[0] else fields[0] + [c] + Join(fields[1..], c)
  }

  lemma {:induction false} IndexUnique(s: string, c: char, k: nat)
    requires k <= |s| && (k < |s| ==> s[k] == c) && c !in s[..k]
    ensures IndexOf(s, c) == k
  {
    if k > 0 {
      assert s[..k] == [s[0]] + s[1..][..k - 1];
      IndexUnique(s[1..], c, k - 1);
    }
  }

  lemma IndexIs(a: string, c: char, b: string)
    requires c !in a
    ensures IndexOf(a + [c] + b, c) == |a| && IndexOf(a, c) == |a|
    ensures (a + [c] + b)[..|a|] == a && (a + [c] + b)[|a| + 1..] == b
  {
    var s := a + [c] + b;
    assert s[..|a|] == a && a[..|a|] == a && s[|a| + 1..] == b;
    IndexUnique(s, c, |a|);
    IndexUnique(a, c, |a|);
  }

  lemma SplitLast(a: string, c: char)
    requires c !in a
    ensures Split(a, c) == [a]
  {
    IndexIs(a, c, []);
  }

  lemma SplitFirst(a: string, c: char, b: string)
    requires c !in a
    ensures Split(a + [c] + b, c) == [a] + Split(b, c)
  {
    IndexIs(a, c, b);
    hide IndexOf;
  }

  lemma {:induction false} SplitJoin(fields: seq<string>, c: char)
    requires |fields| > 0 && forall k :: 0 <= k < |fields| ==> c !in fields[k]
    ensures Split(Join(fields, c), c) == fields
  {
    hide Split;
    hide IndexOf;
    if |fields| == 1 {
      SplitLast(fields[0], c);
    } else {
      SplitJoin(fields[1..], c);
      SplitFirst(fields[0], c, Join(fields[1..], c));
    }
  }

  function Decimal(n: nat): (s: string)
    ensures |s| > 0
  {
    if n < 10 then ['0' + n as char] else Decimal(n / 10) + ['0' + (n % 10) as char]
  }

  /** str(n) */
  function Str(n: int): string {
    if n < 0 then "-" + Decimal(-n) else Decimal(n)
  }

  predicate Blank(c: char) {
    c == ' ' || '\t' <= c <= '\r' || '\U{1C}' <= c <= '\U{1F}'
  }

  /** Tab, line feed, vertical tab, form feed, carriage return, the four separators, and the blank. */
  lemma BlankCodes(c: char)
    ensures Blank(c) <==> c as int in {9, 10, 11, 12, 13, 28, 29, 30, 31, 32}
  {
  }

  function StripLeft(s: string): string {
    if s != [] && Blank(s[0]) then StripLeft(s[1..]) else s
  }

  function StripRight(s: string): string {
    if s != [] && Blank(s[|s| - 1]) then StripRight(s[..|s| - 1]) else s
  }

  predicate IsDigit(c: char) {
    '0' <= c <= '9'
  }

  /** Digits, with single underscores between them. */
  function Digits(s: string): Option<nat> {
    if s == [] || !IsDigit(s[|s| - 1]) then None
    else
      var d := (s[|s| - 1] - '0') as nat;
      var rest := s[..|s| - 1];
      if rest == [] then Some(d)
      else
        var high := Digits(if rest[|rest| - 1] == '_' then rest[..|rest| - 1] else rest);
        if high.None? then None else Some(high.value * 10 + d)
  }

  /** int(s) */
  function ParseInt(text: string): Option<int> {
    var s := StripLeft(StripRight(text));
    if s == [] then None
    else
      var n := Digits(if s[0] == '-' || s[0] == '+' then s[1..] else s);
      if n.None? then None
      else
        var v: int := n.value;
        Some(if s[0] == '-' then -v else v)
  }

  lemma {:induction false} DecimalDigits(n: nat)
    ensures Digits(Decimal(n)) == Some(n) && forall i :: 0 <= i < |Decimal(n)| ==> IsDigit(Decimal(n)[i])
  {
    var s := Decimal(n);
    if n < 10 {
      assert s[..|s| - 1] == [];
    } else {
      DecimalDigits(n / 10);
      assert s[..|s| - 1] == Decimal(n / 10);
    }
  }

  lemma {:induction false} NoLeadingZero(n: nat)
    ensures Decimal(n)[0] == '0' ==> n == 0 && |Decimal(n)| == 1
  {
    if n >= 10 {
      NoLeadingZero(n / 10);
    }
  }

  /** The number that digits stand for; underscores mean nothing. */
  function Value(s: string): int {
    if s == [] then 0
    else if s[|s| - 1] == '_' then Value(s[..|s| - 1])
    else Value(s[..|s| - 1]) * 10 + s[|s| - 1] as int - '0' as int
  }

  /** Digits, perhaps with single underscores between them. */
  predicate NumberText(s: string) {
    && s != [] && IsDigit(s[0]) && IsDigit(s[|s| - 1])
    && (forall i :: 0 <= i < |s| ==> IsDigit(s[i]) || s[i] == '_')
    && forall i :: 0 < i < |s| ==> s[i - 1] != '_' || s[i] != '_'
  }

  lemma {:induction false} DigitsIff(s: string)
    ensures Digits(s) == if NumberText(s) && Value(s) >= 0 then Some(Value(s) as nat) else None
    ensures NumberText(s) ==> Value(s) >= 0
    decreases |s|
  {
    if s != [] && IsDigit(s[|s| - 1]) {
      var rest := s[..|s| - 1];
      if rest != [] {
        var front := if rest[|rest| - 1] == '_' then rest[..|rest| - 1] else rest;
        DigitsIff(front);
        assert Value(rest) == Value(front);
        FrontNumber(s, front);
      }
    }
  }

  /** Another digit behind a number, perhaps with an underscore between. */
  lemma FrontNumber(s: string, front: string)
    requires |s| >= 2 && IsDigit(s[|s| - 1])
    requires front == if s[|s| - 2] == '_' then s[..|s| - 2] else s[..|s| - 1]
    ensures NumberText(s) <==> NumberText(front)
  {
    if NumberText(s) {
      assert front != [] && front[0] == s[0];
      assert IsDigit(s[|s| - 2]) || s[|s| - 2] == '_';
    }
    if NumberText(front) {
      assert s[0] == front[0];
      forall i | 0 <= i < |s| ensures IsDigit(s[i]) || s[i] == '_' {
        assert i < |front| ==> s[i] == front[i];
      }
      forall i | 0 < i < |s| ensures s[i - 1] != '_' || s[i] != '_' {
        assert i < |front| ==> s[i] == front[i] && s[i - 1] == front[i - 1];
      }
    }
  }

  predicate AllBlank(s: string) {
    forall i :: 0 <= i < |s| ==> Blank(s[i])
  }

  lemma {:induction false} LeftStripped(a: string, t: string)
    requires AllBlank(a) && (t != [] ==> !Blank(t[0]))
    ensures StripLeft(a + t) == t
  {
    if a == [] {
      assert a + t == t;
    } else {
      assert (a + t)[1..] == a[1..] + t;
      LeftStripped(a[1..], t);
    }
  }

  lemma {:induction false} RightStripped(t: string, b: string)
    requires AllBlank(b) && t != [] && !Blank(t[|t| - 1])
    ensures StripRight(t + b) == t
  {
    if b == [] {
      assert t + b == t;
    } else {
      assert (t + b)[..|t + b| - 1] == t + b[..|b| - 1];
      RightStripped(t, b[..|b| - 1]);
    }
  }

  /** int reads digits, perhaps with single underscores between, perhaps behind a sign, and perhaps between blanks. */
  lemma IntIs(a: string, sign: string, s: string, b: string)
    requires AllBlank(a) && AllBlank(b) && sign in {"", "+", "-"} && s != [] && IsDigit(s[0]) && !Blank(s[|s| - 1])
    ensures ParseInt(a + sign + s + b) ==
              if NumberText(s) then Some(if sign == "-" then -Value(s) else Value(s)) else None
  {
    hide Digits;
    hide Value;
    hide NumberText;
    hide StripLeft;
    hide StripRight;
    var t := sign + s;
    assert a + sign + s + b == (a + t) + b;
    assert t != [] && (a + t)[|a + t| - 1] == s[|s| - 1] && !Blank(t[0]);
    RightStripped(a + t, b);
    LeftStripped(a, t);
    DigitsIff(s);
    assert sign != "" ==> t[1..] == s;
    assert sign == "" ==> t == s;
  }

  /** A number is read back, and holds no bar. */
  lemma IntReadBack(n: int)
    ensures ParseInt(Str(n)) == Some(n) && '|' !in Str(n)
  {
    DecimalDigits(if n < 0 then -n else n);
    var s := Str(n);
    var d := Decimal(if n < 0 then -n else n);
    assert IsDigit(d[0]) && IsDigit(d[|d| - 1]);
    assert StripRight(s) == s && StripLeft(s) == s;
    assert n < 0 ==> s[1..] == d;
  }

  /* ---- frames ---- */

  /** What is to be sent. */
  datatype Data = Data(from: string, message: string, checksum: string, chunkId: int, batch: int, timestamp: int)

  datatype Problem = NoProblem | NoDelimiter | CrcMismatch | BadTimestamp | BadBatch | MissingFields

  /** What parse_message returns. */
  datatype Parsed = Parsed(
    from: Option<string>, timestamp: Option<int>, batch: Option<int>, chunk: seq<(nat, string)>,
    valid: bool, error: Problem)

  const BAR := '|'

  function Field(key: string, value: string): string {
    key + ":" + value
  }

  function Fields(d: Data): (r: seq<string>)
    ensures |r| == 6
  {
    [Field("from", d.from), Field("message", d.message), Field("checksum", d.checksum),
     Field("chunk_id", Str(d.chunkId)), Field("chunk_batch", Str(d.batch)), Field("timestamp", Str(d.timestamp))]
  }

  function Payload(d: Data): string {
    Join(Fields(d), BAR)
  }

  /** A payload with its checksum. */
  function Frame(payload: string): string {
    payload + "*" + Hex(Crc(payload))
  }

  /** prepare */
  method Prepare(d: Data) returns (r: string)
    ensures r == Frame(Payload(d))
  {
    var payload := Join(Fields(d), BAR);
    var crc := CalculateCrc(payload);
    r := payload + "*" + crc;
  }

  const NOTHING := Parsed(None, None, None, [], false, NoProblem)

  /** What one field adds. */
  function Apply(r: Parsed, field: string): Parsed {
    var k := IndexOf(field, ':');
    if k == |field| then r
    else
      var key, value := field[..k], field[k + 1..];
      if key == "from" then r.(from := Some(value))
      else if key == "timestamp" then
        if ParseInt(value).None? then r.(error := BadTimestamp) else r.(timestamp := ParseInt(value))
      else if key == "chunk_batch" then
        if ParseInt(value).None? then r.(error := BadBatch) else r.(batch := ParseInt(value))
      else if key == "message" then r.(chunk := r.chunk + [(1, value)])
      else r
  }

  /** What all fields add, up to the first bad one. */
  function ApplyAll(r: Parsed, fields: seq<string>): Parsed
    decreases |fields|
  {
    if fields == [] then r
    else
      var next := Apply(r, fields[0]);
      if next.error != NoProblem then next else ApplyAll(next, fields[1..])
  }

  /** The checks at the end. */
  function Checked(r: Parsed): Parsed {
    if r.error != NoProblem then r
    else if r.from.None? || r.from.value == "" || r.timestamp.None? || r.timestamp.value == 0 || r.batch.None?
      || r.batch.value == 0
    then r.(error := MissingFields)
    else r.(valid := true)
  }

  /** Where the last star is, or the length. */
  function LastStar(s: string): (k: nat)
    ensures k <= |s| && ('*' in s <==> k < |s|) && (k < |s| ==> s[k] == '*' && '*' !in s[k + 1..])
  {
    if s == [] then 0
    else
      var k := LastStar(s[1..]);
      if k < |s| - 1 then k + 1 else if s[0] == '*' then 0 else |s|
  }

  /** What a frame says. */
  function Parse(raw: string): Parsed {
    var k := LastStar(raw);
    if k == |raw| then NOTHING.(error := NoDelimiter)
    else if Upper(raw[k + 1..]) != Hex(Crc(raw[..k])) then NOTHING.(error := CrcMismatch)
    else Checked(ApplyAll(NOTHING, Split(raw[..k], BAR)))
  }

  /** parse_message. A field cannot hold the mark of a chunk, because fields hold no bar, so the message is always
      chunk 1. */
  method ParseMessage(raw: string) returns (r: Parsed)
    ensures r == Parse(raw)
  {
    r := NOTHING;
    if '*' !in raw {
      r := r.(error := NoDelimiter);
      return;
    }
    var k := LastStar(raw);
    var payload, crc := raw[..k], raw[k + 1..];
    var expected := CalculateCrc(payload);
    hide ApplyAll;
    if Upper(crc) != expected {
      r := r.(error := CrcMismatch);
      return;
    }
    r := ApplyFields(Split(payload, BAR));
    if r.error != NoProblem {
      return;
    }
    if r.from.None? || r.from.value == "" || r.timestamp.None? || r.timestamp.value == 0 || r.batch.None?
      || r.batch.value == 0 {
      r := r.(error := MissingFields);
      return;
    }
    r := r.(valid := true);
  }

  /** The loop of parse_message. */
  method ApplyFields(fields: seq<string>) returns (r: Parsed)
    ensures r == ApplyAll(NOTHING, fields)
  {
    hide Apply;
    r := NOTHING;
    var i := 0;
    while i < |fields|
      invariant 0 <= i <= |fields| && ApplyAll(NOTHING, fields) == ApplyAll(r, fields[i..]) && r.error == NoProblem
    {
      assert fields[i..][0] == fields[i] && fields[i..][1..] == fields[i + 1..];
      r := ApplyField(r, fields[i]);
      if r.error != NoProblem {
        return;
      }
      i := i + 1;
    }
  }

  method ApplyField(before: Parsed, field: string) returns (r: Parsed)
    requires before.error == NoProblem
    ensures r == Apply(before, field)
  {
    r := before;
    var j := IndexOf(field, ':');
    if j == |field| {
      return;
    }
    var key, value := field[..j], field[j + 1..];
    if key == "from" {
      r := r.(from := Some(value));
    } else if key == "timestamp" {
      var n := ParseInt(value);
      if n.None? {
        r := r.(error := BadTimestamp);
        return;
      }
      r := r.(timestamp := n);
    } else if key == "chunk_batch" {
      var n := ParseInt(value);
      if n.None? {
        r := r.(error := BadBatch);
        return;
      }
      r := r.(batch := n);
    } else if key == "message" {
      r := r.(chunk := r.chunk + [(1, value)]);
    }
  }

  /* ---- what is sent is received ---- */

  lemma {:induction false} StarUnique(s: string, k: nat)
    requires k < |s| && s[k] == '*' && '*' !in s[k + 1..]
    ensures LastStar(s) == k
  {
    if k > 0 {
      assert s[1..][k..] == s[k + 1..];
      StarUnique(s[1..], k - 1);
    }
  }

  lemma StarAt(payload: string, crc: string)
    requires '*' !in crc
    ensures var raw := payload + "*" + crc;
            LastStar(raw) == |payload| && raw[..|payload|] == payload && raw[|payload| + 1..] == crc
  {
    var raw := payload + "*" + crc;
    assert raw[..|payload|] == payload && raw[|payload| + 1..] == crc;
    StarUnique(raw, |payload|);
  }

  /** A frame with the right checksum says what its fields say. */
  lemma ParseFrame(payload: string)
    ensures Parse(Frame(payload)) == Checked(ApplyAll(NOTHING, Split(payload, BAR)))
  {
    HexPlain(Crc(payload));
    StarAt(payload, Hex(Crc(payload)));
  }

  lemma ApplyPair(r: Parsed, key: string, value: string)
    requires ':' !in key
    ensures IndexOf(key + ":" + value, ':') == |key| < |key + ":" + value|
    ensures (key + ":" + value)[..|key|] == key && (key + ":" + value)[|key| + 1..] == value
  {
    IndexIs(key, ':', value);
  }

  lemma {:induction false} JoinLast(fields: seq<string>, x: string)
    requires |fields| > 0
    ensures Join(fields + [x], BAR) == Join(fields, BAR) + ("|" + x)
  {
    var all := fields + [x];
    if |fields| == 1 {
      assert all[1..] == [x];
    } else {
      assert all[1..] == fields[1..] + [x];
      JoinLast(fields[1..], x);
    }
  }

  lemma Labelled(key: string, value: string, front: string)
    requires front == "|" + key + ":"
    ensures "|" + Field(key, value) == front + value
  {
  }

  /** The fields with the bars in front of them. */
  lemma Labels(d: Data)
    ensures var f := Fields(d);
      && f[0] == "from:" + d.from && "|" + f[1] == "|message:" + d.message && "|" + f[2] == "|checksum:" + d.checksum
      && "|" + f[3] == "|chunk_id:" + Str(d.chunkId) && "|" + f[4] == "|chunk_batch:" + Str(d.batch)
      && "|" + f[5] == "|timestamp:" + Str(d.timestamp)
  {
    hide Str;
    Labelled("message", d.message, "|message:");
    Labelled("checksum", d.checksum, "|checksum:");
    Labelled("chunk_id", Str(d.chunkId), "|chunk_id:");
    Labelled("chunk_batch", Str(d.batch), "|chunk_batch:");
    Labelled("timestamp", Str(d.timestamp), "|timestamp:");
  }

  /** The text of a frame, up to the star. */
  lemma PayloadText(d: Data)
    ensures Payload(d) == ("from:" + d.from) + ("|message:" + d.message) + ("|checksum:" + d.checksum)
      + ("|chunk_id:" + Str(d.chunkId)) + ("|chunk_batch:" + Str(d.batch)) + ("|timestamp:" + Str(d.timestamp))
  {
    hide Str;
    hide Join;
    hide Fields;
    var f := Fields(d);
    Labels(d);
    FrontJoin(f, 5);
    FrontJoin(f, 4);
    FrontJoin(f, 3);
    FrontJoin(f, 2);
    FrontJoin(f, 1);
    FirstJoin(f);
    assert f[..6] == f;
  }

  lemma FrontJoin(f: seq<string>, k: nat)
    requires 0 < k < |f|
    ensures Join(f[..k + 1], BAR) == Join(f[..k], BAR) + ("|" + f[k])
  {
    assert f[..k + 1] == f[..k] + [f[k]];
    JoinLast(f[..k], f[k]);
  }

  lemma FirstJoin(f: seq<string>)
    requires |f| > 0
    ensures Join(f[..1], BAR) == f[0]
  {
  }

  /** A text without a star is no frame. */
  lemma NoStar(raw: string)
    ensures Parse(raw).error == NoDelimiter <==> '*' !in raw
  {
    hide ApplyAll;
    if '*' in raw {
      Errors(Split(raw[..LastStar(raw)], BAR));
    }
  }

  lemma {:induction false} FieldErrors(r: Parsed, fields: seq<string>)
    requires r.error == NoProblem && !r.valid
    ensures ApplyAll(r, fields).error in {NoProblem, BadTimestamp, BadBatch} && !ApplyAll(r, fields).valid
    decreases |fields|
  {
    hide ParseInt;
    hide IndexOf;
    if fields != [] {
      var next := Apply(r, fields[0]);
      if next.error == NoProblem {
        FieldErrors(next, fields[1..]);
      }
    }
  }

  /** The fields are never to blame for a missing star or a wrong checksum. */
  lemma Errors(fields: seq<string>)
    ensures Checked(ApplyAll(NOTHING, fields)).error !in {NoDelimiter, CrcMismatch}
    ensures var r := Checked(ApplyAll(NOTHING, fields)); r.valid <==> r.error == NoProblem
  {
    FieldErrors(NOTHING, fields);
    hide ApplyAll;
  }

  /** A message is either valid or refused for some reason. */
  lemma Verdict(raw: string)
    ensures Parse(raw).valid <==> Parse(raw).error == NoProblem
  {
    hide ApplyAll;
    Errors(Split(raw[..LastStar(raw)], BAR));
  }

  /** Some of the letters of t are small in s. */
  predicate SmallOf(s: string, t: string) {
    && |s| == |t|
    && forall i :: 0 <= i < |t| ==> s[i] == t[i] || ('A' <= t[i] <= 'F' && s[i] as int == t[i] as int + 32)
  }

  lemma {:induction false} UpperSame(s: string, t: string)
    requires SmallOf(s, t) && forall i :: 0 <= i < |t| ==> UpperHex(t[i])
    ensures Upper(s) == t
  {
    if s != [] {
      assert UpperHex(t[0]);
      UpperSame(s[1..], t[1..]);
      assert Upper(s) == [t[0]] + t[1..];
    }
  }

  /** The one character that stands for two digits in upper case. */
  lemma Ligature()
    ensures Upper("\U{FB00}") == "FF"
  {
    assert "\U{FB00}"[1..] == "" && Upper("") == "";
  }

  /** The letters of a checksum may be small. */
  lemma SmallLetters(payload: string, crc: string)
    requires SmallOf(crc, Hex(Crc(payload)))
    ensures Parse(payload + "*" + crc) == Parse(payload + "*" + Hex(Crc(payload)))
  {
    var t := Hex(Crc(payload));
    HexIsUpper(Crc(payload));
    assert forall i :: 0 <= i < |t| ==> UpperHex(t[i]);
    UpperSame(crc, t);
    HexPlain(Crc(payload));
    hide Hex;
    hide Crc;
    hide ApplyAll;
    hide Upper;
    hide LastStar;
    StarAt(payload, crc);
    StarAt(payload, t);
  }

  /** Everything that was sent is received. */
  predicate Received(d: Data, r: Parsed) {
    r == Parsed(Some(d.from), Some(d.timestamp), Some(d.batch), [(1, d.message)], true, NoProblem)
  }

  /** What a receiver needs: no bars, a sender, and numbers that are not 0. */
  predicate Sendable(d: Data) {
    BAR !in d.from && BAR !in d.message && d.from != "" && d.timestamp != 0 && d.batch != 0
  }

  lemma ApplyNamed(r: Parsed, key: string, value: string)
    requires key in {"from", "message", "checksum", "chunk_id"}
    ensures Apply(r, Field(key, value)) ==
              if key == "from" then r.(from := Some(value))
              else if key == "message" then r.(chunk := r.chunk + [(1, value)])
              else r
  {
    ApplyPair(r, key, value);
  }

  lemma ApplyNumber(r: Parsed, key: string, n: int)
    requires key == "chunk_batch" || key == "timestamp"
    ensures Apply(r, Field(key, Str(n))) == if key == "timestamp" then r.(timestamp := Some(n))
        else r.(batch := Some(n))
  {
    IntReadBack(n);
    hide Str;
    hide ParseInt;
    ApplyPair(r, key, Str(n));
  }

  /* ---- a checksum field that holds fields of its own ---- */

  /** The key of a field, or nothing. */
  function KeyOf(field: string): string {
    var k := IndexOf(field, ':');
    if k == |field| then "" else field[..k]
  }

  function ValueOf(field: string): string {
    var k := IndexOf(field, ':');
    if k == |field| then "" else field[k + 1..]
  }

  /** The fields a receiver finds behind the first bar of the checksum. */
  function Extra(d: Data): seq<string> {
    Split(d.checksum, BAR)[1..]
  }

  predicate Numeric(field: string) {
    KeyOf(field) == "timestamp" || KeyOf(field) == "chunk_batch"
  }

  /** Numbers can be read. */
  predicate Readable(fields: seq<string>) {
    forall i :: 0 <= i < |fields| && Numeric(fields[i]) ==> ParseInt(ValueOf(fields[i])).Some?
  }

  predicate NoMessage(fields: seq<string>) {
    forall i :: 0 <= i < |fields| ==> KeyOf(fields[i]) != "message"
  }

  /** The sender according to the last field that names one, if any does. */
  function LastFrom(fields: seq<string>, from: string): string {
    if fields == [] then from
    else
      var n := |fields| - 1;
      if KeyOf(fields[n]) == "from" then ValueOf(fields[n]) else LastFrom(fields[..n], from)
  }

  /** Fields that change nothing of what a receiver learns: no message, only numbers that can be read, and the last
      sender, if there is one, is the right one. */
  predicate Harmless(fields: seq<string>, from: string) {
    NoMessage(fields) && Readable(fields) && LastFrom(fields, from) == from
  }

  lemma {:induction false} ApplyAppend(r: Parsed, a: seq<string>, b: seq<string>)
    requires r.error == NoProblem
    ensures ApplyAll(r, a + b) ==
        if ApplyAll(r, a).error != NoProblem then ApplyAll(r, a) else ApplyAll(ApplyAll(r, a), b)
    decreases |a|
  {
    hide Apply;
    if a == [] {
      assert a + b == b;
    } else {
      assert (a + b)[0] == a[0] && (a + b)[1..] == a[1..] + b;
      if Apply(r, a[0]).error == NoProblem {
        ApplyAppend(Apply(r, a[0]), a[1..], b);
      }
    }
  }

  lemma ApplyOne(r: Parsed, field: string)
    ensures ApplyAll(r, [field]) == Apply(r, field)
  {
    hide Apply;
    assert [field][1..] == [];
  }

  /** What one field changes. */
  lemma ApplyChanges(r: Parsed, field: string)
    requires r.error == NoProblem
    ensures var s := Apply(r, field);
            && (s.error == NoProblem <==> Numeric(field) ==> ParseInt(ValueOf(field)).Some?)
            && s.from == (if KeyOf(field) == "from" then Some(ValueOf(field)) else r.from)
            && s.chunk == (if KeyOf(field) == "message" then r.chunk + [(1, ValueOf(field))] else r.chunk)
            && s.valid == r.valid
  {
    hide ParseInt;
    hide IndexOf;
  }

  /** What a number of fields change. */
  lemma {:induction false} ExtraApplied(r: Parsed, from: string, fields: seq<string>)
    requires r.error == NoProblem && r.from == Some(from) && !r.valid
    ensures var s := ApplyAll(r, fields);
            && (s.error == NoProblem <==> Readable(fields))
            && (s.error == NoProblem ==>
                 && s.from == Some(LastFrom(fields, from)) && !s.valid
                 && |s.chunk| >= |r.chunk|
                 && (NoMessage(fields) ==> s.chunk == r.chunk)
                 && (!NoMessage(fields) ==> |s.chunk| > |r.chunk|))
    decreases |fields|
  {
    hide Apply;
    hide ApplyAll;
    hide ParseInt;
    hide KeyOf;
    hide ValueOf;
    hide Numeric;
    if fields == [] {
      ApplyNone(r);
    } else {
      var n := |fields| - 1;
      var front, last := fields[..n], fields[n];
      assert fields == front + [last];
      ExtraApplied(r, from, front);
      ApplyAppend(r, front, [last]);
      var s := ApplyAll(r, front);
      MoreFields(front, last);
      if s.error == NoProblem {
        ApplyOne(s, last);
        ApplyChanges(s, last);
      }
    }
  }

  lemma MoreFields(front: seq<string>, last: string)
    ensures Readable(front + [last]) <==> Readable(front) && (Numeric(last) ==> ParseInt(ValueOf(last)).Some?)
    ensures NoMessage(front + [last]) <==> NoMessage(front) && KeyOf(last) != "message"
  {
    hide KeyOf;
    hide ValueOf;
    hide Numeric;
    hide ParseInt;
    var all := front + [last];
    assert all[|front|] == last && forall i :: 0 <= i < |front| ==> all[i] == front[i];
  }

  lemma ApplyNone(r: Parsed)
    ensures ApplyAll(r, []) == r
  {
  }

  /** The fields before the extra ones. */
  lemma FirstFields(d: Data, checksum: string)
    ensures ApplyAll(NOTHING, [Field("from", d.from), Field("message", d.message), Field("checksum", checksum)]) ==
        Parsed(Some(d.from), None, None, [(1, d.message)], false, NoProblem)
  {
    hide Apply;
    hide ApplyAll;
    hide Field;
    var f := [Field("from", d.from), Field("message", d.message), Field("checksum", checksum)];
    var r1 := NOTHING.(from := Some(d.from));
    var r2 := r1.(chunk := [(1, d.message)]);
    ApplyNamed(NOTHING, "from", d.from);
    ApplyNext(NOTHING, f, 0, r1);
    ApplyNamed(r1, "message", d.message);
    ApplyNext(r1, f, 1, r2);
    ApplyNamed(r2, "checksum", checksum);
    ApplyNext(r2, f, 2, r2);
    ApplyNone(r2);
    assert f[0..] == f && f[3..] == [];
  }

  function Numbers(d: Data): seq<string> {
    [Field("chunk_id", Str(d.chunkId)), Field("chunk_batch", Str(d.batch)), Field("timestamp", Str(d.timestamp))]
  }

  /** The fields behind the extra ones. */
  lemma LastFields(r: Parsed, d: Data)
    requires r.error == NoProblem
    ensures ApplyAll(r, Numbers(d)) == r.(batch := Some(d.batch), timestamp := Some(d.timestamp))
  {
    hide Str;
    hide Apply;
    hide ApplyAll;
    hide Field;
    var f := Numbers(d);
    var r1 := r.(batch := Some(d.batch));
    var r2 := r1.(timestamp := Some(d.timestamp));
    ApplyNamed(r, "chunk_id", Str(d.chunkId));
    ApplyNext(r, f, 0, r);
    ApplyNumber(r, "chunk_batch", d.batch);
    ApplyNext(r, f, 1, r1);
    ApplyNumber(r1, "timestamp", d.timestamp);
    ApplyNext(r1, f, 2, r2);
    ApplyNone(r2);
    assert f[0..] == f && f[3..] == [];
  }

  lemma ApplyNext(r: Parsed, fields: seq<string>, k: nat, next: Parsed)
    requires k < |fields| && Apply(r, fields[k]) == next && next.error == NoProblem
    ensures ApplyAll(r, fields[k..]) == ApplyAll(next, fields[k + 1..])
  {
    hide Apply;
    assert fields[k..][1..] == fields[k + 1..];
  }

  /** Splitting goes on behind any bar. */
  lemma {:induction false} SplitOver(a: string, c: char, b: string)
    ensures Split(a + [c] + b, c) == Split(a, c) + Split(b, c)
    decreases |a|
  {
    hide IndexOf;
    hide Split;
    var k := IndexOf(a, c);
    if k == |a| {
      NotIn(a, c);
      SplitFirst(a, c, b);
      SplitLast(a, c);
    } else {
      var head, rest := a[..k], a[k + 1..];
      assert a == head + [c] + rest;
      SplitOver(rest, c, b);
      SplitFirst(head, c, rest);
      SplitFirst(head, c, rest + [c] + b);
      assert a + [c] + b == head + [c] + (rest + [c] + b);
      assert [head] + (Split(rest, c) + Split(b, c)) == [head] + Split(rest, c) + Split(b, c);
    }
  }

  lemma NotIn(a: string, c: char)
    requires IndexOf(a, c) == |a|
    ensures c !in a
  {
    assert a[..|a|] == a;
  }

  /** A prefix without bars belongs to the first field. */
  lemma SplitPrefix(p: string, a: string, c: char)
    requires c !in p
    ensures Split(p + a, c) == [p + Split(a, c)[0]] + Split(a, c)[1..]
  {
    hide IndexOf;
    hide Split;
    var k := IndexOf(a, c);
    if k == |a| {
      NotIn(a, c);
      SplitLast(a, c);
      SplitLast(p + a, c);
    } else {
      var head, rest := a[..k], a[k + 1..];
      assert a == head + [c] + rest;
      SplitFirst(head, c, rest);
      SplitFirst(p + head, c, rest);
      assert p + a == (p + head) + [c] + rest;
    }
  }

  /** The fields that a receiver finds in the payload. */
  lemma PayloadSplit(d: Data)
    requires BAR !in d.from && BAR !in d.message
    ensures Split(Payload(d), BAR) ==
        [Field("from", d.from), Field("message", d.message), Field("checksum", Split(d.checksum, BAR)[0])]
        + Extra(d) + Numbers(d)
  {
    hide Split;
    hide Str;
    var f, n := Fields(d), Numbers(d);
    var tail := Join(n, BAR);
    var p := "checksum:";
    JoinFields(d);
    SplitFirst(f[0], BAR, f[1] + [BAR] + (f[2] + [BAR] + tail));
    SplitFirst(f[1], BAR, f[2] + [BAR] + tail);
    SplitOver(f[2], BAR, tail);
    assert f[2] == p + d.checksum && Field("checksum", Split(d.checksum, BAR)[0]) == p + Split(d.checksum, BAR)[0];
    SplitPrefix(p, d.checksum, BAR);
    NumbersBarless(d);
    SplitJoin(n, BAR);
  }

  lemma JoinFields(d: Data)
    ensures var f := Fields(d);
            Payload(d) == f[0] + [BAR] + (f[1] + [BAR] + (f[2] + [BAR] + Join(Numbers(d), BAR)))
  {
    hide Str;
    hide Field;
    var f := Fields(d);
    assert f[1..][1..][1..] == Numbers(d);
    assert Join(f, BAR) == f[0] + [BAR] + Join(f[1..], BAR);
    assert Join(f[1..], BAR) == f[1] + [BAR] + Join(f[1..][1..], BAR);
    assert Join(f[1..][1..], BAR) == f[2] + [BAR] + Join(f[1..][1..][1..], BAR);
  }

  lemma NumbersBarless(d: Data)
    ensures forall k :: 0 <= k < |Numbers(d)| ==> BAR !in Numbers(d)[k]
  {
    IntReadBack(d.chunkId);
    IntReadBack(d.batch);
    IntReadBack(d.timestamp);
    hide Str;
  }

  /** What comes out of fields without bars holds no bars. */
  predicate Barless(r: Parsed) {
    && (r.from.Some? ==> BAR !in r.from.value)
    && forall k :: 0 <= k < |r.chunk| ==> BAR !in r.chunk[k].1
  }

  lemma ApplyBarless(r: Parsed, field: string)
    requires Barless(r) && BAR !in field
    ensures Barless(Apply(r, field))
  {
    hide ParseInt;
    hide IndexOf;
    assert forall k :: 0 <= k <= |field| ==> BAR !in field[k..];
  }

  lemma {:induction false} StaysBarless(r: Parsed, fields: seq<string>)
    requires Barless(r) && forall f :: f in fields ==> BAR !in f
    ensures Barless(ApplyAll(r, fields))
    decreases |fields|
  {
    hide Apply;
    hide Barless;
    if fields != [] {
      ApplyBarless(r, fields[0]);
      var next := Apply(r, fields[0]);
      if next.error == NoProblem {
        StaysBarless(next, fields[1..]);
      }
    }
  }

  /** A frame is received with everything that was sent, and nothing else, exactly if the data are sendable and the
      fields a receiver finds in the checksum are harmless. */
  lemma RoundTrip(d: Data)
    ensures Received(d, Parse(Frame(Payload(d)))) <==> Sendable(d) && Harmless(Extra(d), d.from)
  {
    hide ApplyAll;
    hide Parse;
    hide Join;
    hide Fields;
    hide Harmless;
    var payload := Payload(d);
    ParseFrame(payload);
    var r := ApplyAll(NOTHING, Split(payload, BAR));
    if BAR in d.from || BAR in d.message {
      StaysBarless(NOTHING, Split(payload, BAR));
      NotReceived(d, r);
    } else {
      FrameReceived(d);
    }
  }

  lemma NotReceived(d: Data, r: Parsed)
    requires Barless(r) && (BAR in d.from || BAR in d.message)
    ensures !Received(d, Checked(r))
  {
    assert |r.chunk| > 0 ==> BAR !in r.chunk[0].1;
  }

  lemma FrameReceived(d: Data)
    requires BAR !in d.from && BAR !in d.message
    ensures Received(d, Checked(ApplyAll(NOTHING, Split(Payload(d), BAR)))) <==>
        Sendable(d) && Harmless(Extra(d), d.from)
  {
    hide ApplyAll;
    hide Payload;
    hide Extra;
    hide Numbers;
    hide Field;
    hide Split;
    hide NoMessage;
    hide Readable;
    hide LastFrom;
    PayloadSplit(d);
    var first := [Field("from", d.from), Field("message", d.message), Field("checksum", Split(d.checksum, BAR)[0])];
    FirstFields(d, Split(d.checksum, BAR)[0]);
    ApplyAppend(NOTHING, first + Extra(d), Numbers(d));
    ApplyAppend(NOTHING, first, Extra(d));
    var r := ApplyAll(NOTHING, first);
    ExtraApplied(r, d.from, Extra(d));
    var s := ApplyAll(r, Extra(d));
    if s.error == NoProblem {
      LastFields(s, d);
    }
  }

  /** Without a bar in the checksum there are no such fields. */
  lemma NoExtra(d: Data)
    requires BAR !in d.checksum
    ensures Harmless(Extra(d), d.from)
  {
    SplitLast(d.checksum, BAR);
  }

  /** A message in the checksum arrives as a second one. */
  lemma SecondMessage()
    ensures var d := Data("a", "m", "x|message:y", 1, 1, 1);
            Sendable(d) && !Received(d, Parse(Frame(Payload(d))))
  {
    hide Split;
    hide IndexOf;
    hide Parse;
    hide Payload;
    var d := Data("a", "m", "x|message:y", 1, 1, 1);
    var field := Field("message", "y");
    SplitFirst("x", BAR, field);
    SplitLast(field, BAR);
    assert "x" + [BAR] + field == d.checksum;
    assert Extra(d)[0] == field;
    ApplyPair(NOTHING, "message", "y");
    assert KeyOf(Extra(d)[0]) == "message";
    RoundTrip(d);
  }

  /** A payload in which one character was replaced by another is refused. */
  lemma SubstitutionRefused(payload: string, i: nat, c: char)
    requires i < |payload| && payload[i] != c
    ensures Parse(payload[i := c] + "*" + Hex(Crc(payload))) == NOTHING.(error := CrcMismatch)
  {
    var changed, crc := payload[i := c], Hex(Crc(payload));
    HexPlain(Crc(payload));
    StarAt(changed, crc);
    CrcChanges(payload, i, c);
    HexRead(Crc(payload));
    HexRead(Crc(changed));
    hide Hex;
    hide Crc;
    hide ApplyAll;
  }

  /** But two neighbours that changed places are not noticed. */
  lemma SwapUnnoticed(payload: string, i: nat)
    requires i + 1 < |payload|
    ensures var swapped := payload[i := payload[i + 1]][i + 1 := payload[i]];
            Parse(swapped + "*" + Hex(Crc(payload))) == Checked(ApplyAll(NOTHING, Split(swapped, BAR)))
  {
    CrcSwaps(payload, i);
    ParseFrame(payload[i := payload[i + 1]][i + 1 := payload[i]]);
    hide Parse;
  }
}
