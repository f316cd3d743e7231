/** split_into_chunks of backend/parser.py: a message is cut between characters into parts of so many bytes of UTF-8
    (RFC 3629) at most. */
module Chunks {

  /** The bytes that UTF-8 takes for a character. */
  function Width(c: char): (n: nat)
    ensures 1 <= n <= 4
  {
    if c as int < 0x80 then 1 else if c as int < 0x800 then 2 else if c as int < 0x1_0000 then 3 else 4
  }

  function Bytes(s: string): nat {
    if s == [] then 0 else Width(s[0]) + Bytes(s[1..])
  }

  lemma {:induction false} BytesAppend(a: string, b: string)
    ensures Bytes(a + b) == Bytes(a) + Bytes(b)
  {
    if a == [] {
      assert a + b == b;
    } else {
      BytesAppend(a[1..], b);
      assert (a + b)[1..] == a[1..] + b;
    }
  }

  function Flat(parts: seq<string>): string {
    if parts == [] then [] else parts[0] + Flat(parts[1..])
  }

  lemma {:induction false} FlatAppend(a: seq<string>, b: seq<string>)
    ensures Flat(a + b) == Flat(a) + Flat(b)
  {
    if a == [] {
      assert a + b == b;
    } else {
      FlatAppend(a[1..], b);
      assert (a + b)[1..] == a[1..] + b;
      assert a[0] + (Flat(a[1..]) + Flat(b)) == a[0] + Flat(a[1..]) + Flat(b);
    }
  }

  lemma FlatLast(parts: seq<string>, k: nat)
    requires k < |parts|
    ensures Flat(parts[..k + 1]) == Flat(parts[..k]) + parts[k]
  {
    assert parts[..k + 1] == parts[..k] + [parts[k]];
    FlatAppend(parts[..k], [parts[k]]);
    assert Flat([parts[k]]) == parts[k];
  }

  /** Where part k starts in the message. */
  function Start(parts: seq<string>, k: nat): nat
    requires k <= |parts|
  {
    |Flat(parts[..k])|
  }

  lemma Middle(s: string, a: string, b: string, c: string)
    requires s == a + b + c
    ensures |a| + |b| <= |s| && s[|a|..|a| + |b|] == b
  {
  }

  lemma PartAt(parts: seq<string>, k: nat)
    requires k < |parts|
    ensures Start(parts, k) + |parts[k]| == Start(parts, k + 1) <= |Flat(parts)|
    ensures Flat(parts)[Start(parts, k)..Start(parts, k + 1)] == parts[k]
  {
    hide Flat;
    FlatLast(parts, k);
    assert parts == parts[..k + 1] + parts[k + 1..];
    FlatAppend(parts[..k + 1], parts[k + 1..]);
    Middle(Flat(parts), Flat(parts[..k]), parts[k], Flat(parts[k + 1..]));
  }

  /** A way to cut a message. */
  ghost predicate Cut(parts: seq<string>, message: string, max: int) {
    Flat(parts) == message && forall k :: 0 <= k < |parts| ==> Bytes(parts[k]) <= max
  }

  /** Parts that leave no room for the next character. */
  ghost predicate Tight(parts: seq<string>, max: int) {
    && (forall k :: 0 <= k < |parts| ==> |parts[k]| > 0)
    && forall k :: 0 < k < |parts| ==> Bytes(parts[k - 1] + parts[k][..1]) > max
  }

  predicate CharsFit(message: string, max: int) {
    forall i :: 0 <= i < |message| ==> Width(message[i]) <= max
  }

  lemma BytesOfSlice(s: string, a: nat, b: nat, c: nat, d: nat)
    requires a <= b <= c <= d <= |s|
    ensures Bytes(s[b..c]) <= Bytes(s[a..d])
  {
    assert s[a..d] == s[a..b] + s[b..c] + s[c..d];
    BytesAppend(s[a..b] + s[b..c], s[c..d]);
    BytesAppend(s[a..b], s[b..c]);
  }

  /** A part of another cut that starts no later cannot end later. */
  lemma NoRoom(parts: seq<string>, other: seq<string>, max: int, k: nat)
    requires Tight(parts, max) && Cut(other, Flat(parts), max) && 0 < k < |parts| && k <= |other|
    requires Start(other, k - 1) <= Start(parts, k - 1)
    ensures Start(other, k) <= Start(parts, k)
  {
    PartAt(parts, k - 1);
    PartAt(other, k - 1);
    PartAt(parts, k);
    hide Start;
    hide Flat;
    Reach(Flat(parts), Start(parts, k - 1), Start(parts, k), Start(parts, k + 1), Start(other, k - 1),
      Start(other, k), max);
  }

  /** A piece that holds another one, which leaves no room for the next character, ends with it. */
  lemma Reach(s: string, a: nat, b: nat, c: nat, from: nat, to: nat, max: int)
    requires from <= a <= b < c <= |s| && from <= to <= |s|
    requires Bytes(s[a..b] + s[b..c][..1]) > max && Bytes(s[from..to]) <= max
    ensures to <= b
  {
    hide Bytes;
    if to > b {
      assert s[a..b + 1] == s[a..b] + s[b..c][..1];
      BytesOfSlice(s, from, a, b + 1, to);
    }
  }

  /** No way to cut a message is ahead of one whose parts are tight. */
  lemma {:induction false} StaysAhead(parts: seq<string>, other: seq<string>, max: int, k: nat)
    requires Tight(parts, max) && Cut(other, Flat(parts), max) && k <= |other| && k <= |parts|
    ensures Start(other, k) <= Start(parts, k)
  {
    if k > 0 {
      StaysAhead(parts, other, max, k - 1);
      if k < |parts| {
        NoRoom(parts, other, max, k);
      } else {
        PartAt(other, k - 1);
        assert parts[..k] == parts;
      }
    }
  }

  /** Tight parts are the fewest. */
  lemma Fewest(parts: seq<string>, other: seq<string>, max: int)
    requires Tight(parts, max) && Cut(other, Flat(parts), max)
    ensures |parts| <= |other|
  {
    if |other| < |parts| {
      StaysAhead(parts, other, max, |other|);
      assert other[..|other|] == other;
      PartAt(parts, |other|);
    }
  }

  /** A message can be cut at all only if every character fits. */
  lemma {:induction false} CutFits(parts: seq<string>, message: string, max: int, i: nat)
    requires Cut(parts, message, max) && i < |message|
    ensures Width(message[i]) <= max
  {
    if i < |parts[0]| {
      var s := parts[0];
      assert s[i..i + 1] == [message[i]] && s[0..|s|] == s;
      BytesOfSlice(s, 0, i, i + 1, |s|);
    } else {
      assert Cut(parts[1..], message[|parts[0]|..], max) by {
        assert Flat(parts[1..]) == message[|parts[0]|..];
      }
      CutFits(parts[1..], message[|parts[0]|..], max, i - |parts[0]|);
    }
  }

  function Decimal(n: nat): string {
    if n < 10 then ['0' + n as char] else Decimal(n / 10) + ['0' + (n % 10) as char]
  }

  /** The number that digits stand for. */
  function Value(s: string): int {
    if s == [] then 0 else Value(s[..|s| - 1]) * 10 + s[|s| - 1] as int - '0' as int
  }

  /** A text of digits, without a zero in front of others, stands for a number. */
  predicate Writes(s: string, n: nat) {
    s != [] && (forall i :: 0 <= i < |s| ==> '0' <= s[i] <= '9') && (s[0] == '0' ==> |s| == 1) && Value(s) == n
  }

  lemma OneDigit(s: string)
    requires |s| == 1
    ensures Value(s) == s[0] as int - '0' as int
  {
    assert s[..0] == [];
  }

  lemma {:induction false} DecimalWrites(n: nat)
    ensures Writes(Decimal(n), n)
  {
    var s := Decimal(n);
    if n < 10 {
      assert s[..|s| - 1] == [];
    } else {
      DecimalWrites(n / 10);
      var front := Decimal(n / 10);
      assert s[..|s| - 1] == front;
      if |front| == 1 {
        OneDigit(front);
      }
    }
  }

  /** f"|c{chunk_id}|{current_chunk}" */
  function Marked(id: nat, part: string): string {
    "|c" + Decimal(id) + "|" + part
  }

  function MarkedAll(parts: seq<string>): seq<string> {
    seq(|parts|, k requires 0 <= k < |parts| => Marked(k + 1, parts[k]))
  }

  /** A part behind its number: a bar, the letter c, the number, and a bar. */
  predicate MarkedAs(chunk: string, id: nat, part: string) {
    && |chunk| >= |part| + 3 && chunk[..2] == "|c"
    && var end := |chunk| - |part| - 1;
      Writes(chunk[2..end], id) && chunk[end] == '|' && chunk[end + 1..] == part
  }

  /** The first part has number 1. */
  predicate Numbered(chunks: seq<string>, parts: seq<string>) {
    |chunks| == |parts| && forall k :: 0 <= k < |parts| ==> MarkedAs(chunks[k], k + 1, parts[k])
  }

  lemma MarkedText(id: nat, part: string)
    ensures MarkedAs(Marked(id, part), id, part)
  {
    DecimalWrites(id);
    var chunk, s := Marked(id, part), Decimal(id);
    hide Decimal;
    hide Value;
    var end := |chunk| - |part| - 1;
    assert end == 2 + |s| && chunk[2..end] == s && chunk[end + 1..] == part && chunk[..2] == "|c";
  }

  lemma AllNumbered(parts: seq<string>)
    ensures Numbered(MarkedAll(parts), parts)
  {
    hide Marked;
    hide MarkedAs;
    forall k | 0 <= k < |parts| ensures MarkedAs(MarkedAll(parts)[k], k + 1, parts[k]) {
      MarkedText(k + 1, parts[k]);
    }
  }

  /** For example, part 12 that holds ab. */
  lemma MarkedExample()
    ensures Marked(12, "ab") == "|c12|ab"
  {
    assert Decimal(12) == Decimal(1) + "2";
  }

  /** Parts of what was read so far, and the part that is being filled. */
  ghost predicate Filling(parts: seq<string>, current: string, max: int) {
    && Tight(parts, max) && (forall k :: 0 <= k < |parts| ==> Bytes(parts[k]) <= max)
    && (current == [] || Bytes(current) <= max)
    && (parts != [] ==> current != [] && Bytes(parts[|parts| - 1] + current[..1]) > max)
  }

  /** A character more in the part that is being filled. */
  lemma FillOn(parts: seq<string>, current: string, max: int, c: char)
    requires Filling(parts, current, max) && Bytes(current + [c]) <= max
    ensures Filling(parts, current + [c], max)
  {
    if current != [] {
      assert (current + [c])[..1] == current[..1];
    }
  }

  /** A part is full, and the next one starts. */
  lemma FillNext(parts: seq<string>, current: string, max: int, c: char)
    requires Filling(parts, current, max) && Bytes(current + [c]) > max && Width(c) <= max
    ensures Filling(parts + [current], [c], max)
  {
    assert Bytes([c]) == Width(c) && [] + [c] == [c];
    assert current != [];
    assert [c][..1] == [c];
    var all := parts + [current];
    forall k | 0 < k < |all| ensures Bytes(all[k - 1] + all[k][..1]) > max {
    }
  }

  /** Everything was read. */
  lemma Filled(parts: seq<string>, current: string, max: int)
    requires Filling(parts, current, max) && current != []
    ensures Tight(parts + [current], max) && forall p :: p in parts + [current] ==> Bytes(p) <= max
  {
  }

  lemma MarkedMore(parts: seq<string>, part: string)
    ensures MarkedAll(parts + [part]) == MarkedAll(parts) + [Marked(|parts| + 1, part)]
  {
    hide Marked;
  }

  /** One part more. */
  lemma OneMore(parts: seq<string>, part: string)
    ensures MarkedAll(parts + [part]) == MarkedAll(parts) + [Marked(|parts| + 1, part)]
    ensures Flat(parts + [part]) == Flat(parts) + part
  {
    MarkedMore(parts, part);
    hide MarkedAll;
    FlatAppend(parts, [part]);
    assert Flat([part]) == part;
  }

  /** Parts that make up the message. If every character fits, none is empty, none is too long, and there is no way to
      cut the message into fewer; and otherwise there is no way at all. */
  ghost predicate Best(parts: seq<string>, message: string, max: int) {
    && Flat(parts) == message
    && (CharsFit(message, max) <==> Cut(parts, message, max))
    && (CharsFit(message, max) ==> forall k :: 0 <= k < |parts| ==> |parts[k]| > 0)
    && forall other :: Cut(other, message, max) ==> |parts| <= |other|
  }

  /** split_into_chunks: the best parts, numbered. */
  method SplitIntoChunks(message: string, max: int) returns (chunks: seq<string>)
    ensures exists parts: seq<string> :: Numbered(chunks, parts) && Best(parts, message, max)
  {
    hide Marked;
    hide MarkedAll;
    hide Filling;
    hide Cut;
    hide Tight;
    hide Bytes;
    hide CharsFit;
    hide Best;
    chunks := [];
    ghost var parts: seq<string> := [];
    NothingFilled(max);
    var current := "";
    var id := 1;
    var i := 0;
    ghost var fit := CharsFit(message, max);
    while i < |message|
      invariant 0 <= i <= |message| && Flat(parts) + current == message[..i]
      invariant if i == 0 then parts == [] && current == [] else current != []
      invariant chunks == MarkedAll(parts) && id == |parts| + 1
      invariant fit ==> Filling(parts, current, max)
    {
      var c := message[i];
      if fit {
        CharFits(message, max, i);
      }
      if Bytes(current + [c]) > max {
        if fit {
          FillNext(parts, current, max, c);
        }
        OneMore(parts, current);
        chunks := chunks + [Marked(id, current)];
        parts := parts + [current];
        current := [c];
        id := id + 1;
      } else {
        if fit {
          FillOn(parts, current, max, c);
        }
        current := current + [c];
      }
      i := i + 1;
    }
    if current != [] {
      if fit {
        Filled(parts, current, max);
      }
      OneMore(parts, current);
      chunks := chunks + [Marked(id, current)];
      parts := parts + [current];
    }
    assert message[..i] == message;
    Shortest(parts, message, max);
    hide Numbered;
    AllNumbered(parts);
  }

  lemma NothingFilled(max: int)
    ensures Filling([], [], max) && MarkedAll([]) == []
  {
  }

  lemma CharFits(message: string, max: int, i: nat)
    requires CharsFit(message, max) && i < |message|
    ensures Width(message[i]) <= max
  {
  }

  lemma Shortest(parts: seq<string>, message: string, max: int)
    requires Flat(parts) == message
    requires CharsFit(message, max) ==>
      && (message == [] ==> parts == [])
      && (message != [] ==> Tight(parts, max) && forall p :: p in parts ==> Bytes(p) <= max)
    ensures Best(parts, message, max)
  {
    forall other | Cut(other, message, max) ensures CharsFit(message, max) && |parts| <= |other| {
      forall i | 0 <= i < |message| ensures Width(message[i]) <= max {
        CutFits(other, message, max, i);
      }
      Fewest(parts, other, max);
    }
  }

  /** Four bytes are enough for every character. */
  lemma FourBytesFit(message: string, max: int)
    requires max >= 4
    ensures CharsFit(message, max)
  {
  }

  /** So many bytes are enough for a character below 2 to the power of 7, 11, 16 and 21: one byte holds 7 bits, and
      more hold 6 bits each behind the first, which marks their number. */
  lemma WidthIsLeast(c: char, n: nat)
    requires 1 <= n <= 4
    ensures Width(c) <= n <==> c as int < [0x80, 0x800, 0x1_0000, 0x20_0000][n - 1]
  {
  }
}
