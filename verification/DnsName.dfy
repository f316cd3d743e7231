/** The name codec of ngx_resolver.c: how a host name becomes a question (section 4.1.2 of RFC 1035), and how a name
    with compression pointers is read from a response (section 4.1.4 of RFC 1035). */
module DnsName {

  type Byte = x: int | 0 <= x < 256

  /** The labels of a name, from the first to the root. */
  datatype Labels = Root | Label(bytes: seq<Byte>, rest: Labels)
  {
    function Count(): nat {
      if Root? then 0 else 1 + rest.Count()
    }

    /** No label is empty, or longer than max. */
    predicate UpTo(max: nat) {
      Root? || (1 <= |bytes| <= max && rest.UpTo(max))
    }

    predicate NoDots() {
      Root? || (DOT !in bytes && rest.NoDots())
    }
  }

  const DOT: Byte := 46
  const HEADER: nat := 12
  const STEPS: nat := 128

  datatype Option<T> = None | Some(value: T)

  /* ---- names ---- */

  /** ngx_tolower */
  function LowerByte(c: Byte): Byte {
    if 65 <= c <= 90 then c + 32 else c
  }

  function Lower(s: seq<Byte>): (r: seq<Byte>)
    ensures |r| == |s|
  {
    seq(|s|, i requires 0 <= i < |s| => LowerByte(s[i]))
  }

  /** The labels in lower case, each followed by a dot. */
  function Text(ls: Labels): seq<Byte> {
    if ls.Root? then [] else Lower(ls.bytes) + [DOT] + Text(ls.rest)
  }

  /** The name that labels stand for. */
  function Name(ls: Labels): seq<Byte> {
    var t := Text(ls);
    if t == [] then [] else t[..|t| - 1]
  }

  /* ---- the meaning of a compressed name ---- */

  /** Where a pointer leads. */
  function Target(high: nat, low: nat): nat {
    (high % 64) * 256 + low
  }

  /** The labels of the name at an offset, if they can be read inside the response in so many steps; a label is a step,
      a pointer is one, and so is the end. */
  function Decode(buf: seq<Byte>, at: nat, steps: nat): (r: Option<Labels>)
    ensures r.Some? ==> r.value.Count() < steps && r.value.UpTo(63)
    decreases steps
  {
    if steps == 0 || at >= |buf| then None
    else
      var n := buf[at];
      if n == 0 then Some(Root)
      else if n >= 192 then
        if at + 1 >= |buf| then None else Decode(buf, Target(n, buf[at + 1]), steps - 1)
      else if n >= 64 || at + 1 + n >= |buf| then None
      else
        var rest := Decode(buf, at + 1 + n, steps - 1);
        if rest.None? then None else Some(Label(buf[at + 1..at + 1 + n], rest.value))
  }

  /** More steps change nothing, so the meaning of a name does not depend on the limit. */
  lemma {:induction false} DecodeMore(buf: seq<Byte>, at: nat, steps: nat, more: nat)
    requires Decode(buf, at, steps).Some? && steps <= more
    ensures Decode(buf, at, more) == Decode(buf, at, steps)
    decreases steps
  {
    hide Target;
    var n := buf[at];
    if n >= 192 {
      DecodeMore(buf, Target(n, buf[at + 1]), steps - 1, more - 1);
    } else if n != 0 {
      DecodeMore(buf, at + 1 + n, steps - 1, more - 1);
    }
  }

  /** Where reading goes on after one step. */
  function Step(buf: seq<Byte>, at: nat): Option<nat> {
    if at >= |buf| then None
    else
      var n := buf[at];
      if n == 0 then None
      else if n >= 192 then if at + 1 >= |buf| then None else Some(Target(n, buf[at + 1]))
      else if n >= 64 || at + 1 + n >= |buf| then None
      else Some(at + 1 + n)
  }

  function Walk(buf: seq<Byte>, at: nat, steps: nat): Option<nat>
    decreases steps
  {
    if steps == 0 then Some(at)
    else
      var next := Step(buf, at);
      if next.None? then None else Walk(buf, next.value, steps - 1)
  }

  /** A name whose pointers lead back to where it was is never accepted, however many steps are allowed. */
  lemma NoLoop(buf: seq<Byte>, at: nat, loop: nat)
    requires loop > 0 && Walk(buf, at, loop) == Some(at)
    ensures forall k: nat :: Decode(buf, at, k).None?
  {
    forall k: nat ensures Decode(buf, at, k).None? {
      LoopsOn(buf, at, loop, k);
    }
  }

  lemma {:induction false} LoopsOn(buf: seq<Byte>, at: nat, loop: nat, k: nat)
    requires loop > 0 && Walk(buf, at, loop) == Some(at)
    ensures Decode(buf, at, k).None?
    decreases k
  {
    if Decode(buf, at, k).Some? {
      Reaches(buf, at, loop, k);
      LoopsOn(buf, at, loop, k - loop);
    }
  }

  /** What is reached on the way is a name that takes fewer steps. */
  lemma {:induction false} Reaches(buf: seq<Byte>, at: nat, i: nat, k: nat)
    requires Walk(buf, at, i).Some? && Decode(buf, at, k).Some?
    ensures i < k && Decode(buf, Walk(buf, at, i).value, k - i).Some?
    decreases i
  {
    hide Target;
    if i > 0 {
      Reaches(buf, Step(buf, at).value, i - 1, k - 1);
    }
  }

  /* ---- ngx_resolver_copy ---- */

  /** The name that is measured is the name at p, which may be the longer by len. */
  predicate Measuring(buf: seq<Byte>, p: nat, steps: nat, len: nat, all: Option<Labels>) {
    var rest := Decode(buf, p, steps);
    && (all.Some? <==> rest.Some?) && (all.Some? ==> |Text(all.value)| == len + |Text(rest.value)|)
  }

  lemma MeasureOn(buf: seq<Byte>, p: nat, steps: nat, len: nat, all: Option<Labels>)
    requires Measuring(buf, p, steps, len, all) && p < |buf| && steps > 0
    ensures buf[p] == 0 ==> all.Some? && len == |Text(all.value)|
    ensures 64 <= buf[p] < 192 || (buf[p] >= 192 && p + 1 >= |buf|) ==> all.None?
    ensures buf[p] >= 192 && p + 1 < |buf| ==> Measuring(buf, Target(buf[p], buf[p + 1]), steps - 1, len, all)
    ensures 0 < buf[p] < 64 ==> if p + 1 + buf[p] >= |buf| then all.None? else
              Measuring(buf, p + 1 + buf[p], steps - 1, len + 1 + buf[p], all)
  {
    hide Lower;
    hide Target;
  }

  lemma MeasureEnd(buf: seq<Byte>, p: nat, steps: nat, len: nat, all: Option<Labels>)
    requires Measuring(buf, p, steps, len, all) && (p >= |buf| || steps == 0)
    ensures all.None?
  {
  }

  /** The first pass: whether there is a name, and how long its text is. */
  method Measure(buf: seq<Byte>, src: nat) returns (ok: bool, len: nat)
    requires src < |buf|
    ensures ok <==> Decode(buf, src, STEPS).Some?
    ensures ok ==> len == |Text(Decode(buf, src, STEPS).value)|
  {
    hide *;
    ghost var all := Decode(buf, src, STEPS);
    ghost var steps: nat := STEPS;
    MeasureFirst(buf, src, steps);
    var p: nat := src;
    len := 0;
    var i: nat := 0;
    while i < STEPS
      invariant steps == STEPS - i && p < |buf| && Measuring(buf, p, steps, len, all)
    {
      MeasureOn(buf, p, steps, len, all);
      var n: nat := buf[p];
      p := p + 1;
      if n == 0 {
        return true, len;
      }
      if n >= 64 {
        if n < 192 {
          return false, len;
        }
        if p >= |buf| {
          return false, len;
        }
        n := Target(n, buf[p]);
        p := n;
      } else {
        len := len + 1 + n;
        p := p + n;
      }
      steps := steps - 1;
      if p >= |buf| {
        if Measuring(buf, p, steps, len, all) {
          MeasureEnd(buf, p, steps, len, all);
        }
        return false, len;
      }
      i := i + 1;
    }
    MeasureEnd(buf, p, steps, len, all);
    ok := false;
  }

  lemma MeasureFirst(buf: seq<Byte>, p: nat, steps: nat)
    ensures Measuring(buf, p, steps, 0, Decode(buf, p, steps))
  {
    hide Decode;
  }

  lemma LowerMore(s: seq<Byte>, k: nat)
    requires k < |s|
    ensures Lower(s[..k + 1]) == Lower(s[..k]) + [LowerByte(s[k])]
  {
  }

  /** ngx_strlow */
  method StrLow(dst: array<Byte>, d: nat, buf: seq<Byte>, src: nat, n: nat)
    requires d + n <= dst.Length && src + n <= |buf|
    modifies dst
    ensures dst[..d] == old(dst[..d]) && dst[d..d + n] == Lower(buf[src..src + n])
  {
    hide Lower;
    hide LowerByte;
    var k := 0;
    ghost var text := buf[src..src + n];
    LowerNone(text);
    while k < n
      invariant k <= n && dst[..d] == old(dst[..d]) && dst[d..d + k] == Lower(text[..k])
    {
      LowerMore(text, k);
      ghost var done := dst[d..d + k];
      dst[d + k] := LowerByte(buf[src + k]);
      assert dst[d..d + k + 1] == done + [dst[d + k]];
      k := k + 1;
    }
    assert text[..k] == text;
  }

  lemma LowerNone(s: seq<Byte>)
    ensures Lower(s[..0]) == []
  {
  }

  /** What is written, and what is still to be written from an offset on, is the whole text. */
  predicate Reading(buf: seq<Byte>, p: nat, steps: nat, done: seq<Byte>, all: seq<Byte>) {
    Decode(buf, p, steps).Some? && done + Text(Decode(buf, p, steps).value) == all
  }

  lemma ReadFirst(buf: seq<Byte>, p: nat, steps: nat)
    requires Decode(buf, p, steps).Some?
    ensures Reading(buf, p, steps, [], Text(Decode(buf, p, steps).value))
  {
    hide Decode;
  }

  /** The end of a name, a pointer, or a label more. */
  lemma ReadOn(buf: seq<Byte>, p: nat, steps: nat, done: seq<Byte>, all: seq<Byte>)
    requires Reading(buf, p, steps, done, all)
    ensures steps > 0 && p < |buf| && (buf[p] == 0 ==> done == all)
    ensures buf[p] >= 64 ==> p + 1 < |buf| && Reading(buf, Target(buf[p], buf[p + 1]), steps - 1, done, all)
    ensures 0 < buf[p] < 64 ==>
      && p + 1 + buf[p] <= |buf| && |done| + buf[p] < |all|
      && Reading(buf, p + 1 + buf[p], steps - 1, done + Lower(buf[p + 1..p + 1 + buf[p]]) + [DOT], all)
  {
    hide Lower;
    hide Target;
    var ls := Decode(buf, p, steps).value;
    if buf[p] == 0 {
      assert Text(ls) == [];
    } else if buf[p] < 64 {
      var l := Lower(buf[p + 1..p + 1 + buf[p]]);
      assert ls == Label(buf[p + 1..p + 1 + buf[p]], Decode(buf, p + 1 + buf[p], steps - 1).value);
      assert done + (l + [DOT] + Text(ls.rest)) == done + l + [DOT] + Text(ls.rest);
    }
  }

  /** A label and its dot. */
  method WriteLabel(dst: array<Byte>, d: nat, buf: seq<Byte>, src: nat, n: nat)
    requires d + n < dst.Length && src + n <= |buf|
    modifies dst
    ensures dst[..d + n + 1] == old(dst[..d]) + Lower(buf[src..src + n]) + [DOT]
  {
    hide Lower;
    StrLow(dst, d, buf, src, n);
    dst[d + n] := DOT;
    assert dst[..d + n + 1] == dst[..d] + dst[d..d + n] + [DOT];
  }

  /** The second pass, which counts no steps: it ends, reads inside the response, and fills exactly what was measured.
      */
  method Write(buf: seq<Byte>, src: nat, dst: array<Byte>) returns (end: nat)
    requires Decode(buf, src, STEPS).Some? && dst.Length == |Text(Decode(buf, src, STEPS).value)|
    modifies dst
    ensures end == dst.Length && dst[..end] == Text(Decode(buf, src, STEPS).value)
  {
    hide *;
    ghost var all := Text(Decode(buf, src, STEPS).value);
    ghost var steps: nat := STEPS;
    var p: nat := src;
    var d: nat := 0;
    ghost var done: seq<Byte> := [];
    ReadFirst(buf, p, steps);
    while true
      invariant d == |done| <= dst.Length == |all| && done == dst[..d] && Reading(buf, p, steps, done, all)
      decreases steps
    {
      ReadOn(buf, p, steps, done, all);
      if buf[p] == 0 {
        return d;
      }
      p, d, done := WriteStep(buf, p, dst, d, done);
      steps := steps - 1;
    }
  }

  /** A pointer is followed, or a label copied. */
  method WriteStep(buf: seq<Byte>, src: nat, dst: array<Byte>, d: nat, ghost done: seq<Byte>)
    returns (p: nat, end: nat, ghost after: seq<Byte>)
    requires src < |buf| && buf[src] > 0 && d == |done| <= dst.Length && done == dst[..d]
    requires buf[src] >= 64 ==> src + 1 < |buf|
    requires buf[src] < 64 ==> src + 1 + buf[src] <= |buf| && d + buf[src] < dst.Length
    modifies dst
    ensures buf[src] >= 64 ==> p == Target(buf[src], buf[src + 1]) && after == done
    ensures buf[src] < 64 ==> p == src + 1 + buf[src] && after == done + Lower(buf[src + 1..src + 1 + buf[src]]) + [DOT]
    ensures end == |after| <= dst.Length && after == dst[..end]
  {
    hide *;
    var n: nat := buf[src];
    p, end, after := src + 1, d, done;
    if n >= 64 {
      p := Target(n, buf[p]);
    } else {
      WriteLabel(dst, d, buf, p, n);
      after := done + Lower(buf[p..p + n]) + [DOT];
      end := end + n + 1;
      p := p + n;
    }
  }

  /** ngx_resolver_copy; a caller may want no name. */
  method Copy(buf: seq<Byte>, src: nat, wanted: bool) returns (r: Option<seq<Byte>>)
    requires src < |buf|
    ensures r.Some? <==> Decode(buf, src, STEPS).Some?
    ensures r.Some? ==> r.value == if wanted then Name(Decode(buf, src, STEPS).value) else []
  {
    var ok, len := Measure(buf, src);
    if !ok {
      return None;
    }
    if !wanted || len == 0 {
      return Some([]);
    }
    var dst := new Byte[len];
    var end := Write(buf, src, dst);
    assert dst[..end - 1] == dst[..end][..end - 1];
    r := Some(dst[..end - 1]);
  }

  /* ---- questions ---- */

  /** How many bytes there are before the next dot or the end. */
  function Run(name: seq<Byte>, i: nat): (n: nat)
    requires i <= |name|
    ensures i + n <= |name| && (i + n < |name| ==> name[i + n] == DOT)
    decreases |name| - i
  {
    if i == |name| || name[i] == DOT then 0 else 1 + Run(name, i + 1)
  }

  lemma {:induction false} RunNoDots(name: seq<Byte>, i: nat)
    requires i <= |name|
    ensures DOT !in name[i..i + Run(name, i)]
    decreases |name| - i
  {
    var n := Run(name, i);
    if n > 0 {
      RunNoDots(name, i + 1);
      assert name[i..i + n] == [name[i]] + name[i + 1..i + n];
    }
  }

  /** A label ends at the next dot. */
  lemma {:induction false} RunSkips(name: seq<Byte>, i: nat, j: nat)
    requires i < j <= |name| && name[j - 1] == DOT
    ensures i + Run(name, i) < j
    decreases j - i
  {
    if i + 1 < j && name[i] != DOT {
      RunSkips(name, i + 1, j);
    }
  }

  /** The labels between the dots. */
  function Split(name: seq<Byte>, i: nat): (ls: Labels)
    requires i <= |name|
    ensures ls.Label?
    decreases |name| - i
  {
    var n := Run(name, i);
    Label(name[i..i + n], if i + n < |name| then Split(name, i + n + 1) else Root)
  }

  /** Labels as they are sent. The encoder takes labels that fill a byte with their length. */
  function Wire(ls: Labels): (r: seq<Byte>)
    requires ls.UpTo(255)
  {
    if ls.Root? then [0] else [|ls.bytes| as Byte] + ls.bytes + Wire(ls.rest)
  }

  predicate Sendable(name: seq<Byte>, i: nat)
    requires i <= |name|
  {
    Split(name, i).UpTo(255)
  }

  function Ident(ident: nat): seq<Byte> {
    [ident / 256 % 256, ident % 256]
  }

  const FLAGS: seq<Byte> := [1, 0, 0, 1, 0, 0, 0, 0, 0, 0]

  function Header(ident: nat): seq<Byte> {
    Ident(ident) + FLAGS
  }

  /** NGX_RESOLVE_A and NGX_RESOLVE_AAAA */
  const A: Byte := 1
  const AAAA: Byte := 28

  /** A question for the address of a name, of one kind or the other. */
  function Query(name: seq<Byte>, ident: nat, kind: Byte): seq<Byte>
    requires Sendable(name, 0)
  {
    Header(ident) + Wire(Split(name, 0)) + [0, kind, 0, 1]
  }

  /** The two queries; with IPv6 addresses only, they are one in memory. */
  datatype Queries = Queries(query: seq<Byte>, query6: seq<Byte>)

  /** What follows the label that ends at i. */
  function After(name: seq<Byte>, i: nat): seq<Byte>
    requires i <= |name| && (i < |name| ==> Sendable(name, i + 1))
  {
    if i < |name| then Wire(Split(name, i + 1)) else [0]
  }

  /** A label whose length is written in front of it. */
  lemma SplitAt(name: seq<Byte>, i: nat)
    requires i <= |name|
    ensures var n := Run(name, i);
            var good := i + n < |name| ==> Sendable(name, i + n + 1);
            && (Sendable(name, i) <==> 1 <= n <= 255 && good)
            && (1 <= n <= 255 && good ==> Wire(Split(name, i)) == [n as Byte] + name[i..i + n] + After(name, i + n))
  {
    var n := Run(name, i);
    var ls := Split(name, i);
    assert |ls.bytes| == n && ls.bytes == name[i..i + n];
    if i + n < |name| {
      assert ls.rest == Split(name, i + n + 1);
    } else {
      assert ls.rest == Root && ls.rest.UpTo(255) && Wire(ls.rest) == [0];
    }
    assert Sendable(name, i) <==> 1 <= n <= 255 && ls.rest.UpTo(255);
    if Sendable(name, i) {
      assert Wire(ls) == [n as Byte] + ls.bytes + Wire(ls.rest);
    }
  }

  /** What is written of the name so far, to the end. */
  predicate Tail(name: seq<Byte>, s: nat, part: seq<Byte>)
    requires s <= |name|
  {
    var k := s + Run(name, s);
    && (k < |name| ==> Sendable(name, k + 1)) && part == name[s..k] + After(name, k)
  }

  /** One byte more of the same label. */
  lemma TailByte(name: seq<Byte>, s: nat, part: seq<Byte>)
    requires s < |name| && name[s] != DOT && Tail(name, s + 1, part)
    ensures Run(name, s) == Run(name, s + 1) + 1 && Tail(name, s, [name[s]] + part)
  {
    hide After;
    hide Sendable;
    var k := s + Run(name, s);
    assert [name[s]] + (name[s + 1..k] + After(name, k)) == name[s..k] + After(name, k);
  }

  /** The length in front of a label. */
  lemma TailLabel(name: seq<Byte>, s: nat, part: seq<Byte>)
    requires s <= |name| && Tail(name, s, part)
    ensures var n := Run(name, s);
            && (Sendable(name, s) <==> 1 <= n <= 255) && (1 <= n <= 255 ==> [n as Byte] + part == Wire(Split(name, s)))
  {
    hide Wire;
    hide Split;
    SplitAt(name, s);
    var n := Run(name, s);
    if 1 <= n <= 255 {
      assert [n as Byte] + (name[s..s + n] + After(name, s + n)) == [n as Byte] + name[s..s + n] + After(name, s + n);
    }
  }

  lemma TailDot(name: seq<Byte>, s: nat)
    requires s < |name| && name[s] == DOT && Sendable(name, s + 1)
    ensures Run(name, s) == 0 && Tail(name, s, Wire(Split(name, s + 1)))
  {
    hide Wire;
    hide Split;
    hide Sendable;
    assert name[s..s] == [];
  }

  /** *p-- = b */
  method Put(query: array<Byte>, p: nat, b: Byte, end: nat)
    requires HEADER <= p < end <= query.Length
    modifies query
    ensures query[..HEADER] == old(query[..HEADER]) && query[end..] == old(query[end..])
    ensures query[p..end] == [b] + old(query[p + 1..end])
  {
    query[p] := b;
  }

  /** The part of ngx_resolver_create_name_query that writes the name, from its end to its start. */
  method WriteName(query: array<Byte>, name: seq<Byte>) returns (ok: bool)
    requires query.Length == HEADER + (if name == [] then 1 else |name| + 2) + 4
    modifies query
    ensures ok <==> Sendable(name, 0)
    ensures query[..HEADER] == old(query[..HEADER]) && query[query.Length - 4..] == old(query[query.Length - 4..])
    ensures ok ==> query[HEADER..query.Length - 4] == Wire(Split(name, 0))
  {
    hide Wire;
    hide Split;
    hide Tail;
    hide Sendable;
    hide After;
    var end := query.Length - 4;
    var p := end - 1;
    Put(query, p, 0, end);
    p := p - 1;
    SplitAt(name, 0);
    if |name| == 0 {
      return false;
    }
    LastTail(name, query[p + 1..end]);
    var len := 0;
    var s := |name|;
    while s > 0
      invariant 0 <= s <= |name| && p == HEADER + s && len == Run(name, s)
      invariant query[..HEADER] == old(query[..HEADER]) && query[end..] == old(query[end..])
      invariant Tail(name, s, query[p + 1..end])
    {
      s := s - 1;
      if name[s] != DOT {
        TailByte(name, s, query[p + 1..end]);
        Put(query, p, name[s], end);
        len := len + 1;
      } else {
        TailLabel(name, s + 1, query[p + 1..end]);
        if len == 0 || len > 255 {
          if Sendable(name, 0) {
            Bad(name, 0, s + 1);
          }
          return false;
        }
        TailDot(name, s);
        Put(query, p, len, end);
        len := 0;
      }
      p := p - 1;
    }
    TailLabel(name, 0, query[p + 1..end]);
    if len == 0 || len > 255 {
      return false;
    }
    Put(query, p, len, end);
    ok := true;
  }

  lemma LastTail(name: seq<Byte>, part: seq<Byte>)
    requires part == [0]
    ensures Tail(name, |name|, part)
  {
    assert name[|name|..] == [];
  }

  /** A label that cannot be sent is one of the labels of the name. */
  lemma {:induction false} Bad(name: seq<Byte>, i: nat, j: nat)
    requires i <= j <= |name| && (i == j || name[j - 1] == DOT)
    requires Sendable(name, i)
    ensures Sendable(name, j)
    decreases |name| - i
  {
    hide Wire;
    hide After;
    hide Sendable;
    hide Run;
    if i < j {
      SplitAt(name, i);
      RunSkips(name, i, j);
      Bad(name, i + Run(name, i) + 1, j);
    }
  }

  method WriteIdent(query: array<Byte>, ident: nat)
    requires query.Length >= HEADER + 4
    modifies query
    ensures query[..2] == Ident(ident) && query[2..] == old(query[2..])
  {
    query[0], query[1] := ident / 256 % 256, ident % 256;
  }

  method WriteFlags(query: array<Byte>)
    requires query.Length >= HEADER + 4
    modifies query
    ensures query[..2] == old(query[..2]) && query[2..HEADER] == FLAGS
  {
    query[2], query[3], query[4], query[5] := 1, 0, 0, 1;
    query[6], query[7], query[8], query[9] := 0, 0, 0, 0;
    query[10], query[11] := 0, 0;
  }

  method WriteQuestion(query: array<Byte>)
    requires query.Length >= HEADER + 4
    modifies query
    ensures query[..query.Length - 4] == old(query[..query.Length - 4]) && query[query.Length - 4..] == [0, A, 0, 1]
  {
    var len := query.Length;
    query[len - 4], query[len - 3], query[len - 2], query[len - 1] := 0, A, 0, 1;
  }

  /** Another identifier and another kind of address for a query. */
  method Retarget(query: array<Byte>, ident: nat)
    requires query.Length >= HEADER + 4 && query[query.Length - 4..] == [0, A, 0, 1]
    modifies query
    ensures query[..2] == Ident(ident) && query[2..query.Length - 4] == old(query[2..query.Length - 4])
    ensures query[query.Length - 4..] == [0, AAAA, 0, 1]
  {
    WriteIdent(query, ident);
    var len := query.Length;
    assert query[2..][len - 6..] == query[len - 4..] && old(query[2..])[len - 6..] == old(query[len - 4..]);
    assert query[2..][..len - 6] == query[2..len - 4] && old(query[2..])[..len - 6] == old(query[2..len - 4]);
    query[len - 3] := AAAA;
  }

  /** The query for IPv6 addresses, in memory of its own or in that of the first one. */
  method Second(query: array<Byte>, copy: bool, ident: nat, ghost wire: seq<Byte>) returns (query6: array<Byte>)
    requires query.Length >= HEADER + 4 && query[2..HEADER] == FLAGS && query[HEADER..query.Length - 4] == wire
    requires query[query.Length - 4..] == [0, A, 0, 1]
    modifies query
    ensures query6[..] == Header(ident) + wire + [0, AAAA, 0, 1]
    ensures if copy then query[..] == old(query[..]) && query6 != query else query6 == query
  {
    hide Ident;
    var len := query.Length;
    query6 := query;
    if copy {
      query6 := new Byte[len](i requires 0 <= i < query.Length reads query => query[i]);
      assert query6[..] == query[..];
      assert query6[2..HEADER] == query6[..][2..HEADER] && query6[HEADER..len - 4] == query6[..][HEADER..len - 4];
    }
    ghost var before := query6[2..len - 4];
    assert before[..10] == query6[2..HEADER] && before[10..] == query6[HEADER..len - 4];
    Retarget(query6, ident);
    assert query6[2..HEADER] == query6[2..len - 4][..10] && query6[HEADER..len - 4] == query6[2..len - 4][10..];
    Assembled(query6[..], ident, wire, AAAA);
  }

  lemma ServerReads(name: seq<Byte>, ident: nat, ident6: nat)
    ensures Sendable(name, 0) <==> Fits(name, 0)
    ensures Sendable(name, 0) ==>
      Asks(Query(name, ident, A), ident, name, 1) && Asks(Query(name, ident6, AAAA), ident6, name, 28)
  {
    hide Asks;
    hide Sendable;
    SendableIff(name, 0);
    if Sendable(name, 0) {
      QueryAsks(name, ident, A);
      QueryAsks(name, ident6, AAAA);
    }
  }

  /** ngx_resolver_create_name_query. At least one kind of addresses is asked for. */
  method CreateQuery(name: seq<Byte>, ipv4: bool, ipv6: bool, ident: nat, ident6: nat) returns (r: Option<Queries>)
    requires ipv4 || ipv6
    ensures r.Some? <==> Fits(name, 0)
    ensures r.Some? ==> if ipv4 then Asks(r.value.query, ident, name, 1) else Asks(r.value.query, ident6, name, 28)
    ensures r.Some? ==> if ipv6 then Asks(r.value.query6, ident6, name, 28) else r.value.query6 == []
    ensures r.Some? ==> Sendable(name, 0)
    ensures r.Some? ==> r.value.query == if ipv4 then Query(name, ident, A) else Query(name, ident6, AAAA)
    ensures r.Some? ==> r.value.query6 == if ipv6 then Query(name, ident6, AAAA) else []
  {
    hide Asks;
    hide Fits;
    hide Wire;
    ServerReads(name, ident, ident6);
    hide Ident;
    hide Split;
    var nlen := if |name| != 0 then 1 + |name| + 1 else 1;
    var len := HEADER + nlen + 4;
    var query := new Byte[len];
    if ipv4 {
      WriteIdent(query, ident);
    }
    WriteFlags(query);
    WriteQuestion(query);
    assert query[..2] == query[..len - 4][..2] && query[2..HEADER] == query[..len - 4][2..HEADER];
    var ok := WriteName(query, name);
    if !ok {
      return None;
    }
    assert query[..2] == query[..HEADER][..2] && query[2..HEADER] == query[..HEADER][2..];
    ghost var wire := Wire(Split(name, 0));
    if ipv4 {
      assert query[..2] == Ident(ident) && query[2..HEADER] == FLAGS;
      Assembled(query[..], ident, wire, A);
    }
    if !ipv6 {
      return Some(Queries(query[..], []));
    }
    var query6 := Second(query, ipv4, ident6, wire);
    r := Some(Queries(query[..], query6[..]));
  }

  /** The parts of a query. */
  lemma Assembled(q: seq<Byte>, ident: nat, wire: seq<Byte>, kind: Byte)
    requires |q| >= HEADER + 4 && q[..2] == Ident(ident) && q[2..HEADER] == FLAGS
    requires q[HEADER..|q| - 4] == wire && q[|q| - 4..] == [0, kind, 0, 1]
    ensures q == Header(ident) + wire + [0, kind, 0, 1]
  {
    hide Ident;
    assert q == q[..2] + q[2..HEADER] + q[HEADER..|q| - 4] + q[|q| - 4..];
  }

  /* ---- what a server reads ---- */

  /** The next n bytes are a label. */
  predicate LabelAt(name: seq<Byte>, i: nat, n: nat) {
    && 1 <= n <= 255 && i + n <= |name| && 46 !in name[i..i + n] && (i + n < |name| ==> name[i + n] == 46)
  }

  /** What a byte of the name becomes in a query: a dot is replaced by the length of the label behind it. */
  predicate SentAs(name: seq<Byte>, j: nat, b: Byte)
    requires j < |name|
  {
    if name[j] == 46 then LabelAt(name, j + 1, b) else b == name[j]
  }

  /** The rest of a name as it is sent: a length, each of its bytes in turn, and a zero byte. */
  predicate Sent(name: seq<Byte>, i: nat, w: seq<Byte>)
    requires i <= |name|
  {
    && |w| == |name| - i + 2 && LabelAt(name, i, w[0]) && w[|w| - 1] == 0
    && forall j {:trigger name[j]} :: i <= j < |name| ==> SentAs(name, j, w[j - i + 1])
  }

  /** A query (section 4.1 of RFC 1035): an identifier of 16 bits, flags that desire recursion and say nothing else,
      one question and no other record; the name, the type and the class IN. */
  predicate Asks(q: seq<Byte>, ident: nat, name: seq<Byte>, kind: nat) {
    && |q| == |name| + 18
    && q[0] == ident / 256 % 256 && q[1] == ident % 256 && q[2] == 1 && q[3] == 0
    && q[4] == 0 && q[5] == 1 && q[6] == 0 && q[7] == 0 && q[8] == 0 && q[9] == 0 && q[10] == 0 && q[11] == 0
    && Sent(name, 0, q[12..|q| - 4])
    && q[|q| - 4] == 0 && q[|q| - 3] == kind && q[|q| - 2] == 0 && q[|q| - 1] == 1
  }

  lemma LabelFound(name: seq<Byte>, i: nat)
    requires i <= |name|
    ensures 1 <= Run(name, i) <= 255 ==> LabelAt(name, i, Run(name, i))
  {
    RunNoDots(name, i);
  }

  lemma {:induction false} WireSent(name: seq<Byte>, i: nat)
    requires i <= |name| && Sendable(name, i)
    ensures Sent(name, i, Wire(Split(name, i)))
    decreases |name| - i
  {
    hide Wire;
    hide Split;
    hide LabelAt;
    SplitAt(name, i);
    LabelFound(name, i);
    RunNoDots(name, i);
    var n := Run(name, i);
    var w := Wire(Split(name, i));
    if i + n < |name| {
      WireSent(name, i + n + 1);
      var v := Wire(Split(name, i + n + 1));
      assert w == [n as Byte] + name[i..i + n] + v;
      SentOn(name, i, n, v, w);
    } else {
      assert w == [n as Byte] + name[i..i + n] + [0];
      forall j {:trigger name[j]} | i <= j < |name| ensures SentAs(name, j, w[j - i + 1]) {
        assert name[j] == name[i..i + n][j - i];
      }
    }
  }

  lemma SentByte(name: seq<Byte>, i: nat, n: nat, j: nat)
    requires i <= j < i + n <= |name| && 46 !in name[i..i + n]
    ensures SentAs(name, j, name[j])
  {
    assert name[j] == name[i..i + n][j - i];
  }

  lemma SentDot(name: seq<Byte>, j: nat, b: Byte)
    requires j < |name| && name[j] == 46 && LabelAt(name, j + 1, b)
    ensures SentAs(name, j, b)
  {
  }

  /** A label in front of what is sent. */
  lemma SentOn(name: seq<Byte>, i: nat, n: nat, v: seq<Byte>, w: seq<Byte>)
    requires i + n < |name| && name[i + n] == 46 && 46 !in name[i..i + n] && LabelAt(name, i, n) && n < 256
    requires Sent(name, i + n + 1, v) && w == [n as Byte] + name[i..i + n] + v
    ensures Sent(name, i, w)
  {
    hide LabelAt;
    hide SentAs;
    assert w[|w| - 1] == v[|v| - 1] && w[0] == n;
    forall j {:trigger name[j]} | i <= j < |name| ensures SentAs(name, j, w[j - i + 1]) {
      if j < i + n {
        SentByte(name, i, n, j);
        assert w[j - i + 1] == name[j];
      } else if j == i + n {
        assert w[n + 1] == v[0];
        SentDot(name, j, v[0]);
      } else {
        assert w[j - i + 1] == v[j - (i + n + 1) + 1];
        var b := name[j];
      }
    }
  }

  lemma QueryAsks(name: seq<Byte>, ident: nat, kind: Byte)
    requires Sendable(name, 0)
    ensures Asks(Query(name, ident, kind), ident, name, kind)
  {
    hide Wire;
    hide Split;
    hide Sent;
    var h, w := Header(ident), Wire(Split(name, 0));
    WireSent(name, 0);
    assert |w| == |name| + 2 by {
      SentLength(name, w);
    }
    assert (h + w + [0, kind, 0, 1])[12..12 + |w|] == w;
  }

  lemma SentLength(name: seq<Byte>, w: seq<Byte>)
    requires Sent(name, 0, w)
    ensures |w| == |name| + 2
  {
  }

  /** The names that can be sent: no label is empty, and there is a dot among any 256 bytes. */
  predicate Fits(name: seq<Byte>, i: nat) {
    && i < |name| && name[i] != 46 && name[|name| - 1] != 46
    && (forall j {:trigger name[j]} :: i < j < |name| ==> name[j - 1] != 46 || name[j] != 46)
    && forall j {:trigger name[j..j + 256]} :: i <= j && j + 256 <= |name| ==> 46 in name[j..j + 256]
  }

  lemma {:induction false} SendableIff(name: seq<Byte>, i: nat)
    requires i <= |name|
    ensures Sendable(name, i) <==> Fits(name, i)
    decreases |name| - i
  {
    hide Sendable;
    hide Run;
    SplitAt(name, i);
    RunNoDots(name, i);
    var n := Run(name, i);
    if i + n < |name| {
      SendableIff(name, i + n + 1);
    }
    if 1 <= n <= 255 {
      FitsOn(name, i, n);
    } else if n > 255 {
      assert name[i..i + 256] == name[i..i + n][..256];
    } else if i < |name| {
      assert name[i] == 46;
    }
  }

  lemma FitsOn(name: seq<Byte>, i: nat, n: nat)
    requires 1 <= n <= 255 && i + n <= |name| && 46 !in name[i..i + n] && (i + n < |name| ==> name[i + n] == 46)
    ensures Fits(name, i) <==> (i + n < |name| ==> Fits(name, i + n + 1))
  {
    assert forall k :: i <= k < i + n ==> name[k] != 46 by {
      forall k | i <= k < i + n ensures name[k] != 46 {
        assert name[k] == name[i..i + n][k - i];
      }
    }
    if i + n < |name| && Fits(name, i + n + 1) {
      assert name[i + n + 1] != 46;
      forall j {:trigger name[j..j + 256]} | i <= j && j + 256 <= |name| ensures 46 in name[j..j + 256] {
        if j <= i + n {
          assert name[j..j + 256][i + n - j] == 46;
        }
      }
    }
    if i + n < |name| && Fits(name, i) {
      assert name[i + n + 1] != 46;
    }
  }

  /* ---- the round trip ---- */

  /** The bytes of a are those of buf from an offset on, and something follows. */
  predicate At(buf: seq<Byte>, at: nat, a: seq<Byte>) {
    at + |a| < |buf| && buf[at..at + |a|] == a
  }

  lemma {:induction false} DecodeWire(buf: seq<Byte>, at: nat, ls: Labels, steps: nat)
    requires ls.UpTo(63) && ls.UpTo(255) && ls.Count() < steps && At(buf, at, Wire(ls))
    ensures Decode(buf, at, steps) == Some(ls)
    decreases ls
  {
    hide At;
    hide Wire;
    WireAt(buf, at, ls);
    if ls.Label? {
      DecodeWire(buf, at + 1 + |ls.bytes|, ls.rest, steps - 1);
    }
  }

  lemma AtParts(buf: seq<Byte>, at: nat, a: seq<Byte>, b: seq<Byte>)
    requires At(buf, at, a + b)
    ensures at + |a| <= |buf| && buf[at..at + |a|] == a && At(buf, at + |a|, b)
  {
    var t := a + b;
    assert buf[at..at + |a|] == buf[at..at + |t|][..|a|] == t[..|a|];
    assert buf[at + |a|..at + |t|] == buf[at..at + |t|][|a|..] == t[|a|..];
  }

  lemma AtByte(buf: seq<Byte>, at: nat, b: Byte)
    requires At(buf, at, [b])
    ensures at < |buf| && buf[at] == b
  {
    assert buf[at] == buf[at..at + 1][0];
  }

  lemma WireParts(ls: Labels)
    requires ls.UpTo(255)
    ensures if ls.Root? then Wire(ls) == [0] else
              |ls.bytes| < 256 && ls.rest.UpTo(255) && Wire(ls) == [|ls.bytes| as Byte] + (ls.bytes + Wire(ls.rest))
  {
  }

  lemma WireAt(buf: seq<Byte>, at: nat, ls: Labels)
    requires ls.UpTo(255) && At(buf, at, Wire(ls))
    ensures at < |buf|
    ensures if ls.Root? then buf[at] == 0 else
              && buf[at] == |ls.bytes| && at + 1 + |ls.bytes| < |buf| && buf[at + 1..at + 1 + |ls.bytes|] == ls.bytes
              && At(buf, at + 1 + |ls.bytes|, Wire(ls.rest))
  {
    WireParts(ls);
    hide Wire;
    hide Labels.UpTo;
    hide Decode;
    if ls.Label? {
      var n: Byte := |ls.bytes|;
      AtParts(buf, at, [n], ls.bytes + Wire(ls.rest));
      AtParts(buf, at + 1, ls.bytes, Wire(ls.rest));
      assert buf[at] == buf[at..at + 1][0];
    } else {
      AtByte(buf, at, 0);
    }
  }

  /** Reading what was written gives the labels back only if none is longer than 63 bytes and there are not too many:
      the length of a longer one is taken for a pointer or refused. */
  lemma {:induction false} DecodeOnlyIf(buf: seq<Byte>, at: nat, ls: Labels, steps: nat)
    requires ls.UpTo(255) && ls.NoDots() && At(buf, at, Wire(ls))
    requires Decode(buf, at, steps).Some? && Text(Decode(buf, at, steps).value) == Text(ls)
    ensures ls.Count() < steps && ls.UpTo(63)
    decreases ls
  {
    hide At;
    hide Wire;
    hide Target;
    WireAt(buf, at, ls);
    if ls.Label? {
      var got := Decode(buf, at, steps).value;
      if |ls.bytes| > 63 {
        FirstDot(got, ls);
      } else {
        var rest := Decode(buf, at + 1 + |ls.bytes|, steps - 1).value;
        assert got == Label(ls.bytes, rest);
        assert Text(rest) == Text(got)[|ls.bytes| + 1..];
        assert Text(ls.rest) == Text(ls)[|ls.bytes| + 1..];
        DecodeOnlyIf(buf, at + 1 + |ls.bytes|, ls.rest, steps - 1);
      }
    }
  }

  /** A text with a dot where the other has none is another text. */
  lemma FirstDot(got: Labels, ls: Labels)
    requires ls.Label? && DOT !in ls.bytes && got.UpTo(63) && |ls.bytes| > 63
    ensures Text(got) != Text(ls)
  {
    if got.Label? {
      var k := |got.bytes|;
      assert Text(got)[k] == DOT;
      assert Text(ls)[k] == LowerByte(ls.bytes[k]);
    }
  }

  lemma LowerDot(name: seq<Byte>, i: nat, j: nat)
    requires i <= j < |name| && name[j] == DOT
    ensures Lower(name[i..]) == Lower(name[i..j]) + [DOT] + Lower(name[j + 1..])
  {
  }

  lemma Reassociate(a: seq<Byte>, b: seq<Byte>, c: seq<Byte>, d: seq<Byte>)
    ensures a + b + (c + d) == a + b + c + d
  {
  }

  lemma LastText(l: seq<Byte>)
    ensures Text(Label(l, Root)) == Lower(l) + [DOT]
  {
    assert Text(Root) == [];
  }

  lemma {:induction false} SplitText(name: seq<Byte>, i: nat)
    requires i <= |name|
    ensures Text(Split(name, i)) == Lower(name[i..]) + [DOT] && Split(name, i).NoDots()
    decreases |name| - i
  {
    hide Lower;
    hide Run;
    RunNoDots(name, i);
    var n := Run(name, i);
    if i + n < |name| {
      SplitText(name, i + n + 1);
      LowerDot(name, i, i + n);
      Reassociate(Lower(name[i..i + n]), [DOT], Lower(name[i + n + 1..]), [DOT]);
    } else {
      LastText(name[i..]);
      assert name[i..] == name[i..i + n];
    }
  }

  predicate Standard(ls: Labels) {
    ls.Count() <= 127 && ls.UpTo(63)
  }

  lemma NameInQuery(name: seq<Byte>, ident: nat, kind: Byte)
    requires Sendable(name, 0)
    ensures At(Query(name, ident, kind), HEADER, Wire(Split(name, 0)))
  {
    hide Wire;
    hide Split;
    var a, b := Header(ident), Wire(Split(name, 0));
    assert (a + b + [0, kind, 0, 1])[|a|..|a| + |b|] == b;
  }

  /** A question is read back as the name in lower case exactly when the name has at most 127 labels of at most 63
      bytes. */
  lemma RoundTrip(name: seq<Byte>, ident: nat, kind: Byte)
    requires Sendable(name, 0)
    ensures var r := Decode(Query(name, ident, kind), HEADER, STEPS);
            r.Some? && Name(r.value) == Lower(name) <==> Standard(Split(name, 0))
  {
    hide Wire;
    hide Decode;
    hide Split;
    hide Lower;
    hide At;
    hide Query;
    var ls := Split(name, 0);
    var buf := Query(name, ident, kind);
    NameInQuery(name, ident, kind);
    SplitText(name, 0);
    assert name[0..] == name;
    assert Text(ls)[..|Text(ls)| - 1] == Lower(name);
    var r := Decode(buf, HEADER, STEPS);
    if Standard(ls) {
      DecodeWire(buf, HEADER, ls, STEPS);
    }
    if r.Some? && Name(r.value) == Lower(name) {
      SplitAt(name, 0);
      EndsInDot(r.value);
      var t := Text(r.value);
      assert t == [] || t == t[..|t| - 1] + [DOT];
      DecodeOnlyIf(buf, HEADER, ls, STEPS);
    }
  }

  lemma {:induction false} EndsInDot(ls: Labels)
    requires ls.Label?
    ensures Text(ls) != [] && Text(ls)[|Text(ls)| - 1] == DOT
  {
    if ls.rest.Label? {
      EndsInDot(ls.rest);
    }
  }

  /* ---- compression ---- */

  /** The labels of one name in front of another. */
  function Joined(front: Labels, back: Labels): Labels {
    if front.Root? then back else Label(front.bytes, Joined(front.rest, back))
  }

  /** Labels that end in a pointer instead of a zero byte (section 4.1.4 of RFC 1035). */
  function Compressed(ls: Labels, to: nat): seq<Byte>
    requires ls.UpTo(63) && to < 16384
  {
    if ls.Root? then [192 + to / 256, to % 256] else [|ls.bytes| as Byte] + ls.bytes + Compressed(ls.rest, to)
  }

  /** A name whose last labels are those of a name elsewhere in the response is read whole, with one step more for the
      pointer. */
  lemma {:induction false} ReadsCompressed(buf: seq<Byte>, at: nat, ls: Labels, to: nat, steps: nat)
    requires ls.UpTo(63) && to < 16384 && Decode(buf, to, steps).Some?
    requires At(buf, at, Compressed(ls, to))
    ensures Decode(buf, at, ls.Count() + 1 + steps) == Some(Joined(ls, Decode(buf, to, steps).value))
    decreases ls
  {
    hide At;
    hide Target;
    CompressedAt(buf, at, ls, to);
    if ls.Root? {
      PointerTarget(to);
    } else {
      ReadsCompressed(buf, at + 1 + |ls.bytes|, ls.rest, to, steps);
    }
  }

  /** The two bytes of a pointer. */
  lemma PointerTarget(to: nat)
    requires to < 16384
    ensures 192 <= 192 + to / 256 < 256 && Target(192 + to / 256, to % 256) == to
  {
  }

  lemma AtPair(buf: seq<Byte>, at: nat, a: Byte, b: Byte)
    requires At(buf, at, [a, b])
    ensures at + 1 < |buf| && buf[at] == a && buf[at + 1] == b
  {
    assert buf[at] == buf[at..at + 2][0] && buf[at + 1] == buf[at..at + 2][1];
  }

  lemma CompressedParts(ls: Labels, to: nat)
    requires ls.UpTo(63) && to < 16384
    ensures if ls.Root? then Compressed(ls, to) == [192 + to / 256, to % 256] else
              && |ls.bytes| < 256 && ls.rest.UpTo(63)
              && Compressed(ls, to) == [|ls.bytes| as Byte] + (ls.bytes + Compressed(ls.rest, to))
  {
  }

  lemma CompressedAt(buf: seq<Byte>, at: nat, ls: Labels, to: nat)
    requires ls.UpTo(63) && to < 16384 && At(buf, at, Compressed(ls, to))
    ensures at + 1 < |buf|
    ensures if ls.Root? then buf[at] == 192 + to / 256 && buf[at + 1] == to % 256 else
              && buf[at] == |ls.bytes| && at + 1 + |ls.bytes| < |buf| && buf[at + 1..at + 1 + |ls.bytes|] == ls.bytes
              && At(buf, at + 1 + |ls.bytes|, Compressed(ls.rest, to))
  {
    CompressedParts(ls, to);
    hide Decode;
    hide Compressed;
    hide Labels.UpTo;
    if ls.Root? {
      AtPair(buf, at, 192 + to / 256, to % 256);
    } else {
      var n: Byte := |ls.bytes|;
      AtParts(buf, at, [n], ls.bytes + Compressed(ls.rest, to));
      AtParts(buf, at + 1, ls.bytes, Compressed(ls.rest, to));
      AtByte(buf, at, n);
    }
  }

  /** Capital letters become small letters, and no other byte changes. */
  lemma LowerLetters(s: seq<Byte>, i: nat)
    requires i < |s|
    ensures 'A' as int <= s[i] <= 'Z' as int ==> Lower(s)[i] - 'a' as int == s[i] - 'A' as int
    ensures !('A' as int <= s[i] <= 'Z' as int) ==> Lower(s)[i] == s[i]
  {
  }
}
