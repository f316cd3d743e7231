/** Wildcard names: ngx_hash_wildcard_init compiles a sorted set of reversed names into nested hashes, and
    ngx_hash_find_wc_head looks names up in them. Names are lower case. */
module WildcardHash {
  import opened Hash

  /** A reversed name: "com.example" stands for ".example.com" and "com.example." for "*.example.com". */
  datatype Name = Name(key: string, value: nat)

  /** The value of an element. The two low bits of the pointer say whether it is data or another hash, and whether
      the name itself is excluded. A value of 0 is the null pointer. */
  datatype Slot = Data(value: nat, only: bool) | Nested(table: Wildcard, only: bool)

  /** ngx_hash_wildcard_t */
  datatype Wildcard = Wildcard(hash: Table<Slot>, value: nat)

  /* ---- names as labels ---- */

  function FirstDot(s: string): (d: nat)
    ensures d <= |s| && (d < |s| ==> s[d] == '.') && forall i :: 0 <= i < d ==> s[i] != '.'
  {
    if s == [] || s[0] == '.' then 0 else 1 + FirstDot(s[1..])
  }

  function First(s: string): string { s[..FirstDot(s)] }

  /** A wildcard: the labels from the top-level domain down, and whether more labels must follow. */
  datatype Entry = Entry(stem: seq<string>, star: bool, value: nat)

  function EntryOf(name: Name): (e: Entry)
    ensures e.stem != [] && e.stem[0] == First(name.key) && e.value == name.value
    decreases |name.key|
  {
    var key, d := name.key, FirstDot(name.key);
    if d == |key| then Entry([key], false, name.value)
    else if d + 1 == |key| then Entry([key[..d]], true, name.value)
    else
      var rest := EntryOf(Name(key[d + 1..], name.value));
      Entry([key[..d]] + rest.stem, rest.star, name.value)
  }

  /** Where the last label of a name begins. */
  function LastLabel(name: string): (n: nat)
    ensures n <= |name| && (n > 0 ==> name[n - 1] == '.') && forall i :: n <= i < |name| ==> name[i] != '.'
  {
    if name == [] || name[|name| - 1] == '.' then |name| else LastLabel(name[..|name| - 1])
  }

  /** The labels of a name, from the top-level domain down. */
  function Labels(name: string): (q: seq<string>)
    ensures q != []
    decreases |name|
  {
    var n := LastLabel(name);
    if n == 0 then [name] else [name[n..]] + Labels(name[..n - 1])
  }

  /* ---- what a lookup means ---- */

  predicate Matches(e: Entry, q: seq<string>) {
    e.stem <= q && (e.star ==> |q| > |e.stem|)
  }

  /* ---- the same as text ---- */

  /** The name that labels make up; the top-level domain is the last. */
  function Domain(stem: seq<string>): string
    requires stem != []
  {
    if |stem| == 1 then stem[0] else Domain(stem[1..]) + "." + stem[0]
  }

  /** The labels the other way round. */
  function Reversed(stem: seq<string>): string
    requires stem != []
  {
    if |stem| == 1 then stem[0] else stem[0] + "." + Reversed(stem[1..])
  }

  predicate EndsWith(s: string, t: string) {
    |s| >= |t| && s[|s| - |t|..] == t
  }

  predicate NoDots(stem: seq<string>) {
    forall i :: 0 <= i < |stem| ==> '.' !in stem[i]
  }

  lemma {:induction false} LastLabelIs(x: string, s: string)
    requires '.' !in s
    ensures LastLabel(x + "." + s) == |x| + 1 && LastLabel(s) == 0
  {
    if s != [] {
      LastLabelIs(x, s[..|s| - 1]);
      assert (x + "." + s)[..|x + "." + s| - 1] == x + "." + s[..|s| - 1];
      assert s[|s| - 1] != '.';
    }
  }

  /** The last label and what is before it. */
  lemma LastOf(name: string, x: string, s: string)
    requires '.' !in s && name == x + "." + s
    ensures LastLabel(name) == |x| + 1 && name[|x| + 1..] == s && name[..|x|] == x
  {
    LastLabelIs(x, s);
  }

  /** A stem matches a name that is its domain or ends with a dot and its domain. */
  lemma {:induction false} StemText(stem: seq<string>, name: string)
    requires stem != [] && NoDots(stem)
    ensures stem <= Labels(name) <==> name == Domain(stem) || EndsWith(name, "." + Domain(stem))
    ensures stem == Labels(name) <==> name == Domain(stem)
    decreases |stem|
  {
    hide Labels;
    hide EndsWith;
    var n, s := LastLabel(name), stem[0];
    if |stem| == 1 {
      OneLabel(s, name);
      assert stem == [s];
    } else {
      var r := Domain(stem[1..]);
      FirstOf(stem, name);
      if n > 0 {
        StemText(stem[1..], name[..n - 1]);
      }
      MoreLabels(name, n, s, r);
    }
  }

  lemma FirstOf(stem: seq<string>, name: string)
    requires |stem| > 1
    ensures var n := LastLabel(name);
      && (stem <= Labels(name) <==> n > 0 && name[n..] == stem[0] && stem[1..] <= Labels(name[..n - 1]))
      && (stem == Labels(name) <==> n > 0 && name[n..] == stem[0] && stem[1..] == Labels(name[..n - 1]))
  {
    hide LastLabel;
    assert stem == [stem[0]] + stem[1..];
  }

  lemma FirstLabel(s: string, q: seq<string>)
    requires q != []
    ensures [s] <= q <==> q[0] == s
  {
    assert q[0] == s ==> q[..1] == [s];
  }

  lemma OneLabel(s: string, name: string)
    requires '.' !in s
    ensures [s] <= Labels(name) <==> name == s || EndsWith(name, "." + s)
    ensures [s] == Labels(name) <==> name == s
  {
    var n := LastLabel(name);
    if name == s {
      LastLabelIs([], s);
    }
    if EndsWith(name, "." + s) {
      LastOf(name, name[..|name| - |s| - 1], s);
    }
    if n > 0 && name[n..] == s {
      assert name[n - 1..] == "." + s && |name| - |"." + s| == n - 1;
      assert EndsWith(name, "." + s);
    }
    FirstLabel(s, Labels(name));
  }

  lemma MoreLabels(name: string, n: nat, s: string, r: string)
    requires '.' !in s && n == LastLabel(name)
    ensures name == r + "." + s <==> n > 0 && name[n..] == s && name[..n - 1] == r
    ensures EndsWith(name, "." + (r + "." + s)) <==> n > 0 && name[n..] == s && EndsWith(name[..n - 1], "." + r)
  {
    hide LastLabel;
    hide EndsWith;
    if name == r + "." + s {
      LastOf(name, r, s);
    }
    if EndsWith(name, "." + (r + "." + s)) {
      CutLabel(name, s, r);
    }
    if n > 0 && name[n..] == s {
      assert name == name[..n - 1] + "." + s;
      if EndsWith(name[..n - 1], "." + r) {
        AddLabel(name[..n - 1], s, r);
      }
    }
  }

  lemma CutLabel(name: string, s: string, r: string)
    requires '.' !in s && EndsWith(name, "." + (r + "." + s))
    ensures var n := LastLabel(name); n > 0 && name[n..] == s && EndsWith(name[..n - 1], "." + r)
  {
    var t := "." + (r + "." + s);
    var y := name[..|name| - |t|];
    var x := y + "." + r;
    assert name == y + t;
    Associate(y, r, s);
    LastOf(name, x, s);
    assert x[|y|..] == "." + r;
  }

  lemma Associate(y: string, r: string, s: string)
    ensures y + ("." + (r + "." + s)) == y + "." + r + "." + s
  {
  }

  lemma AddLabel(x: string, s: string, r: string)
    requires EndsWith(x, "." + r)
    ensures EndsWith(x + "." + s, "." + (r + "." + s))
  {
    var t := "." + (r + "." + s);
    assert (x + "." + s)[|x + "." + s| - |t|..] == x[|x| - |r| - 1..] + "." + s;
  }

  /** What a wildcard matches: .example.com matches example.com and what ends with .example.com, and *.example.com
      only the latter. */
  lemma MatchText(e: Entry, name: string)
    requires e.stem != [] && NoDots(e.stem)
    ensures Matches(e, Labels(name)) <==>
            (name == Domain(e.stem) && !e.star) || EndsWith(name, "." + Domain(e.stem))
  {
    StemText(e.stem, name);
    var q := Labels(name);
    if e.stem <= q && |q| == |e.stem| {
      assert e.stem == q;
    }
    if name == Domain(e.stem) {
      assert !EndsWith(name, "." + Domain(e.stem));
    }
  }

  lemma {:induction false} FirstDotIs(a: string, b: string)
    requires '.' !in a
    ensures FirstDot(a + "." + b) == |a| && FirstDot(a) == |a|
  {
    if a != [] {
      assert (a + "." + b)[1..] == a[1..] + "." + b;
      FirstDotIs(a[1..], b);
    }
  }

  /** The reversed names: com.example is for .example.com, and com.example. for *.example.com. */
  lemma {:induction false} ReversedName(stem: seq<string>, star: bool, value: nat)
    requires stem != [] && NoDots(stem) && stem[|stem| - 1] != ""
    ensures EntryOf(Name(Reversed(stem) + if star then "." else "", value)) == Entry(stem, star, value)
    decreases |stem|
  {
    var end := if star then "." else "";
    var key := Reversed(stem) + end;
    if |stem| == 1 {
      FirstDotIs(stem[0], []);
      assert star ==> key == stem[0] + "." + [];
      assert !star ==> key == stem[0];
      assert stem == [stem[0]];
    } else {
      var rest := Reversed(stem[1..]) + end;
      assert key == stem[0] + "." + rest;
      FirstDotIs(stem[0], rest);
      ReversedName(stem[1..], star, value);
      assert key[..|stem[0]|] == stem[0] && key[|stem[0]| + 1..] == rest;
      ReversedLong(stem[1..]);
      assert stem == [stem[0]] + stem[1..];
    }
  }

  lemma {:induction false} ReversedLong(stem: seq<string>)
    requires stem != [] && stem[|stem| - 1] != ""
    ensures Reversed(stem) != ""
  {
    if |stem| > 1 {
      ReversedLong(stem[1..]);
    }
  }

  /** How many labels the most specific matching name has, and its value; 0 if none matches. */
  function Depth(names: seq<Name>, q: seq<string>): nat {
    if names == [] then 0 else
      var rest, e := names[..|names| - 1], EntryOf(names[|names| - 1]);
      if Matches(e, q) && |e.stem| > Depth(rest, q) then |e.stem| else Depth(rest, q)
  }

  function Best(names: seq<Name>, q: seq<string>): nat {
    if names == [] then 0 else
      var rest, e := names[..|names| - 1], EntryOf(names[|names| - 1]);
      if Matches(e, q) && |e.stem| > Depth(rest, q) then e.value else Best(rest, q)
  }

  /** The best is the value of a matching name that no matching name is more specific than, and 0 exactly if none
      matches. */
  lemma {:induction false} BestMatch(names: seq<Name>, q: seq<string>) returns (k: int)
    requires forall i :: 0 <= i < |names| ==> names[i].value > 0
    ensures -1 <= k < |names| && (k == -1 <==> Best(names, q) == 0) && (k == -1 <==> Depth(names, q) == 0)
    ensures k >= 0 ==>
        && Matches(EntryOf(names[k]), q) && Best(names, q) == names[k].value
        && Depth(names, q) == |EntryOf(names[k]).stem|
    ensures forall i :: 0 <= i < |names| && Matches(EntryOf(names[i]), q) ==>
        k >= 0 && |EntryOf(names[i]).stem| <= |EntryOf(names[k]).stem|
  {
    hide First;
    hide EntryOf;
    hide Matches;
    if names == [] {
      k := -1;
    } else {
      var last := |names| - 1;
      k := BestMatch(names[..last], q);
      var e := EntryOf(names[last]);
      if Matches(e, q) && |e.stem| > Depth(names[..last], q) {
        k := last;
      }
      forall i | 0 <= i < |names| && Matches(EntryOf(names[i]), q)
        ensures k >= 0 && |EntryOf(names[i]).stem| <= |EntryOf(names[k]).stem| {
        if i < last {
          assert names[..last][i] == names[i];
        }
      }
    }
  }

  /** The answer of a table for labels, as the code finds it. */
  function Answer(w: Wildcard, q: seq<string>): nat
    requires q != []
    decreases |q|, 0
  {
    match Get(w.hash, q[0])
    case None => w.value
    case Some(slot) => SlotAnswer(slot, q[1..])
  }

  /** The answer once the first label is found; q are the labels below it. */
  function SlotAnswer(slot: Slot, q: seq<string>): nat
    decreases |q|, 1
  {
    match slot
    case Data(value, only) => if only && q == [] then 0 else value
    case Nested(table, only) =>
      if q == [] then (if only then 0 else table.value)
      else
        var value := Answer(table, q);
        if value != 0 then value else table.value
  }

  /** Hashes all the way down. */
  ghost predicate Built(w: Wildcard, depth: nat)
    decreases depth
  {
    w.hash.buckets != [] &&
    forall part :: Get(w.hash, part).Some? && Get(w.hash, part).value.Nested? ==>
      depth > 0 && Built(Get(w.hash, part).value.table, depth - 1)
  }

  /** ngx_hash_find_wc_head */
  method FindHead(w: Wildcard, name: string, ghost depth: nat) returns (value: nat)
    requires Built(w, depth)
    ensures value == Answer(w, Labels(name))
    decreases |name|
  {
    var n := |name|;
    while n > 0 && name[n - 1] != '.'
      invariant 0 <= n <= |name| && forall i :: n <= i < |name| ==> name[i] != '.'
    {
      n := n - 1;
    }
    LastUnique(name, n);
    var found := Find(w.hash, name[n..]);
    assert name[n..] == Labels(name)[0];
    match found
    case Some(slot) =>
      match slot {
        case Nested(table, only) =>
          if n == 0 {
            return if only then 0 else table.value;
          }
          value := FindHead(table, name[..n - 1], depth - 1);
          if value != 0 {
            return;
          }
          return table.value;
        case Data(data, only) =>
          if only && n == 0 {
            return 0;
          }
          return data;
      }
    case None =>
      value := w.value;
  }

  lemma {:induction false} LastUnique(name: string, n: nat)
    requires n <= |name| && (n > 0 ==> name[n - 1] == '.') && forall i :: n <= i < |name| ==> name[i] != '.'
    ensures n == LastLabel(name)
  {
    if name != [] && name[|name| - 1] != '.' {
      LastUnique(name[..|name| - 1], n);
    }
  }

  /* ---- ngx_dns_strcmp ---- */

  /** The weight of a character: the dot is the lowest. */
  function Rank(c: char): nat {
    if c == '.' then ' ' as nat else c as nat
  }

  /** Characters of names: nothing up to the space, and no capital letters. */
  predicate Plain(s: string) {
    forall i :: 0 <= i < |s| ==> s[i] > ' ' && !('A' <= s[i] <= 'Z')
  }

  /** ngx_dns_strcmp(a, b) < 0 for lower case names */
  predicate Before(a: string, b: string) {
    b != [] && (a == [] || Rank(a[0]) < Rank(b[0]) || (a[0] == b[0] && Before(a[1..], b[1..])))
  }

  lemma {:induction false} BeforeTail(p: string, a: string, b: string)
    requires Before(p + a, p + b)
    ensures Before(a, b)
  {
    if p == [] {
      assert p + a == a && p + b == b;
    } else {
      assert (p + a)[1..] == p[1..] + a && (p + b)[1..] == p[1..] + b;
      BeforeTail(p[1..], a, b);
    }
  }

  lemma NoLabel(s: string)
    ensures First(s) == [] <==> s == [] || s[0] == '.'
  {
    assert s != [] && s[0] != '.' ==>
      && FirstDot(s) > 0;
  }

  /** Names between two with the same first label have that first label. */
  lemma {:induction false} Between(a: string, b: string, c: string)
    requires Plain(a) && Plain(b) && Plain(c) && Before(a, b) && Before(b, c) && First(a) == First(c)
    ensures First(b) == First(a)
  {
    if a != [] && a[0] != '.' {
      assert First(a)[0] == a[0];
      assert c[0] == a[0] && b[0] == a[0];
      assert First(a[1..]) == First(a)[1..] && First(c[1..]) == First(c)[1..];
      Between(a[1..], b[1..], c[1..]);
      assert First(b) == [b[0]] + First(b[1..]);
      assert First(a) == [a[0]] + First(a[1..]);
    } else {
      NoLabel(a);
      NoLabel(c);
    }
  }

  /** A longer name with the same first label is not before the label itself. */
  lemma {:induction false} LabelFirst(a: string, part: string)
    requires Before(a, part)
    ensures !(part <= a)
  {
    if part <= a {
      assert a == part + a[|part|..];
      assert part == part + [];
      BeforeTail(part, a[|part|..], []);
      assert false;
    }
  }

  ghost predicate Fine(name: Name) {
    name.key != [] && Plain(name.key) && name.value > 0
  }

  /** One name is the other with a star. */
  ghost predicate Twins(a: Name, b: Name) {
    b.key == a.key + "."
  }

  ghost predicate Less(a: Name, b: Name) {
    Before(a.key, b.key)
  }

  /** Names in order, without duplicates, not both with and without star, and with values that are not null. */
  ghost predicate Ready(names: seq<Name>) {
    && (forall i {:trigger Fine(names[i])} :: 0 <= i < |names| ==> Fine(names[i]))
    && (forall i, j {:trigger Less(names[i], names[j])} :: 0 <= i < j < |names| ==> Less(names[i], names[j]))
    && forall i, j {:trigger Twins(names[i], names[j])} :: 0 <= i < |names| && 0 <= j < |names| ==>
       !Twins(names[i], names[j])
  }

  /** Whether a name is its first label, with or without a star. */
  predicate Root(name: Name) {
    FirstDot(name.key) + 1 >= |name.key|
  }

  /** What follows the first label. */
  function Below(name: Name): (below: Name)
    requires !Root(name)
    ensures name.key == First(name.key) + "." + below.key && below.value == name.value && below.key != []
  {
    Name(name.key[FirstDot(name.key) + 1..], name.value)
  }

  lemma BelowMatches(name: Name, q: seq<string>)
    requires !Root(name) && q != []
    ensures Matches(EntryOf(name), q) <==> q[0] == First(name.key) && Matches(EntryOf(Below(name)), q[1..])
    ensures |EntryOf(name).stem| == 1 + |EntryOf(Below(name)).stem|
  {
    var e := EntryOf(Below(name));
    var stem := [First(name.key)] + e.stem;
    assert EntryOf(name) == Entry(stem, e.star, name.value);
    PrefixTail(stem, q);
    assert stem[1..] == e.stem;
  }

  lemma PrefixTail(p: seq<string>, q: seq<string>)
    requires p != [] && q != []
    ensures p <= q <==> p[0] == q[0] && p[1..] <= q[1..]
  {
    if p[0] == q[0] && p[1..] <= q[1..] {
      assert p == [p[0]] + p[1..] && q == [q[0]] + q[1..];
    }
  }

  /* ---- a group of names with the same first label ---- */

  /** Names n..m-1 have one first label. */
  ghost predicate Group(names: seq<Name>, n: nat, m: nat) {
    && n < m <= |names|
    && forall i :: n <= i < m ==> First(names[i].key) == First(names[n].key)
  }

  /** Only the first name of a group can be the label itself. */
  lemma OneRoot(names: seq<Name>, n: nat, m: nat, i: nat)
    requires Ready(names) && Group(names, n, m) && n < i < m
    ensures !Root(names[i])
  {
    var a, b := names[n].key, names[i].key;
    assert Less(names[n], names[i]) && !Twins(names[n], names[i]);
    var l := First(a);
    assert a[..|l|] == l == b[..|l|];
    if |b| == |l| {
      assert b == l;
      LabelFirst(a, b);
    } else if |b| == |l| + 1 {
      assert b == l + ".";
      if |a| > |l| {
        assert a[|l|] == '.';
        assert b <= a;
        LabelFirst(a, b);
      }
    }
  }

  /** The names below the first label. */
  function Subs(names: seq<Name>, n: nat, m: nat): seq<Name>
    requires n <= m <= |names|
  {
    if n == m then []
    else if Root(names[m - 1]) then Subs(names, n, m - 1)
    else Subs(names, n, m - 1) + [Below(names[m - 1])]
  }

  /** Where a sub-name comes from. */
  lemma {:induction false} SubsFrom(names: seq<Name>, n: nat, m: nat, k: nat) returns (i: nat)
    requires n <= m <= |names| && k < |Subs(names, n, m)|
    ensures n <= i < m && !Root(names[i]) && Subs(names, n, m)[k] == Below(names[i])
  {
    if !Root(names[m - 1]) && k == |Subs(names, n, m)| - 1 {
      i := m - 1;
    } else {
      i := SubsFrom(names, n, m - 1, k);
    }
  }

  /** Two names of a group are in the order of what is below the label. */
  lemma BelowOrder(a: Name, b: Name)
    requires !Root(a) && !Root(b) && First(a.key) == First(b.key)
    ensures Less(a, b) ==> Less(Below(a), Below(b))
    ensures !Twins(a, b) ==> !Twins(Below(a), Below(b))
    ensures Fine(a) ==> Fine(Below(a))
  {
    var p := First(a.key) + ".";
    if Less(a, b) {
      BeforeTail(p, Below(a).key, Below(b).key);
    }
    if Twins(Below(a), Below(b)) {
      assert p + (Below(a).key + ".") == p + Below(a).key + ".";
    }
    if Fine(a) {
      forall i | 0 <= i < |Below(a).key| ensures Below(a).key[i] > ' ' && !('A' <= Below(a).key[i] <= 'Z') {
        assert Below(a).key[i] == a.key[|p| + i];
      }
    }
  }

  lemma {:induction false} SubsOrder(names: seq<Name>, n: nat, m: nat, k: nat, l: nat)
    requires Ready(names) && Group(names, n, m) && k < l < |Subs(names, n, m)|
    ensures Less(Subs(names, n, m)[k], Subs(names, n, m)[l])
    decreases m
  {
    if !Root(names[m - 1]) && l == |Subs(names, n, m)| - 1 {
      var i := SubsFrom(names, n, m - 1, k);
      assert Less(names[i], names[m - 1]);
      BelowOrder(names[i], names[m - 1]);
    } else if m - 1 > n {
      SubsOrder(names, n, m - 1, k, l);
    }
  }

  lemma SubsReady(names: seq<Name>, n: nat, m: nat)
    requires Ready(names) && Group(names, n, m)
    ensures Ready(Subs(names, n, m))
  {
    hide Subs;
    hide Less;
    hide Twins;
    hide Fine;
    var s := Subs(names, n, m);
    forall k | 0 <= k < |s| ensures Fine(s[k]) {
      var i := SubsFrom(names, n, m, k);
      assert Fine(names[i]);
      BelowOrder(names[i], names[i]);
    }
    forall k, l | 0 <= k < l < |s| ensures Less(s[k], s[l]) {
      SubsOrder(names, n, m, k, l);
    }
    forall k, l | 0 <= k < |s| && 0 <= l < |s| ensures !Twins(s[k], s[l]) {
      var i := SubsFrom(names, n, m, k);
      var j := SubsFrom(names, n, m, l);
      assert !Twins(names[i], names[j]);
      BelowOrder(names[i], names[j]);
    }
  }

  /* ---- the best match in parts of a set of names ---- */

  lemma {:induction false} BestJoined(a: seq<Name>, b: seq<Name>, q: seq<string>)
    ensures Depth(a, q) == 0 ==> Depth(a + b, q) == Depth(b, q) && (Best(a, q) == 0 ==> Best(a + b, q) == Best(b, q))
    ensures Depth(b, q) == 0 ==> Depth(a + b, q) == Depth(a, q) && (Best(b, q) == 0 ==> Best(a + b, q) == Best(a, q))
    decreases |b|
  {
    if b == [] {
      assert a + b == a;
    } else {
      var last := |b| - 1;
      assert (a + b)[..|a + b| - 1] == a + b[..last];
      BestJoined(a, b[..last], q);
    }
  }

  /** Names with another first label do not match. */
  lemma {:induction false} OtherLabel(names: seq<Name>, q: seq<string>)
    requires q != [] && forall i :: 0 <= i < |names| ==> First(names[i].key) != q[0]
    ensures Depth(names, q) == 0 && Best(names, q) == 0
  {
    if names != [] {
      var last := |names| - 1;
      OtherLabel(names[..last], q);
      PrefixTail(EntryOf(names[last]).stem, q);
    }
  }

  /** What a group answers for the labels below its own. */
  function GroupBest(names: seq<Name>, n: nat, m: nat, q: seq<string>): nat
    requires n < m <= |names|
  {
    if q == [] then (if names[n].key == First(names[n].key) then names[n].value else 0)
    else
      var below := Best(Subs(names, n, m), q);
      if below != 0 then below else if Root(names[n]) then names[n].value else 0
  }

  lemma RootMatches(name: Name, q: seq<string>)
    requires Root(name) && q != []
    ensures EntryOf(name) == Entry([First(name.key)], name.key != First(name.key), name.value)
    ensures Matches(EntryOf(name), q) <==> q[0] == First(name.key) && (name.key == First(name.key) || |q| > 1)
  {
    var l := First(name.key);
    assert [l] <= q <==> q[0] == l;
    if FirstDot(name.key) == |name.key| {
      assert name.key == l;
    }
  }

  /** How deep a group goes. */
  function GroupDepth(names: seq<Name>, n: nat, m: nat, q: seq<string>): nat
    requires n < m <= |names|
  {
    var below := Depth(Subs(names, n, m), q);
    if q != [] && below > 0 then 1 + below
    else if Root(names[n]) && (q != [] || names[n].key == First(names[n].key)) then 1 else 0
  }

  lemma {:induction false} GroupAnswer(names: seq<Name>, n: nat, m: nat, q: seq<string>)
    requires Ready(names) && Group(names, n, m)
    ensures var l := [First(names[n].key)] + q;
      Best(names[n..m], l) == GroupBest(names, n, m, q) && Depth(names[n..m], l) == GroupDepth(names, n, m, q)
    decreases m
  {
    hide EntryOf;
    hide Matches;
    hide Best;
    hide Depth;
    hide Subs;
    hide GroupBest;
    hide GroupDepth;
    var l := [First(names[n].key)] + q;
    assert l[1..] == q;
    assert names[n..m][..m - n - 1] == names[n..m - 1];
    if m - 1 == n {
      assert Fine(names[n]);
      GroupFirst(names, n, q);
    } else {
      GroupAnswer(names, n, m - 1, q);
      OneRoot(names, n, m, m - 1);
      GroupNext(names, n, m, q);
    }
  }

  lemma BestLast(names: seq<Name>, name: Name, q: seq<string>)
    ensures var e := EntryOf(name); var more := Matches(e, q) && |e.stem| > Depth(names, q);
      && Best(names + [name], q) == (if more then name.value else Best(names, q))
      && Depth(names + [name], q) == if more then |e.stem| else Depth(names, q)
  {
    assert (names + [name])[..|names|] == names;
  }

  lemma BestOne(name: Name, q: seq<string>)
    ensures var e := EntryOf(name);
      && Best([name], q) == (if Matches(e, q) then name.value else 0)
      && Depth([name], q) == if Matches(e, q) then |e.stem| else 0
  {
    BestLast([], name, q);
    assert [] + [name] == [name];
  }

  lemma GroupFirst(names: seq<Name>, n: nat, q: seq<string>)
    requires n < |names| && names[n].value > 0
    ensures var l := [First(names[n].key)] + q;
      Best(names[n..n + 1], l) == GroupBest(names, n, n + 1, q)
        && Depth(names[n..n + 1], l) == GroupDepth(names, n, n + 1, q)
  {
    hide EntryOf;
    hide Matches;
    hide Root;
    var name := names[n];
    var l := [First(name.key)] + q;
    assert l[1..] == q;
    assert names[n..n + 1] == [name] && Subs(names, n, n) == [];
    BestOne(name, l);
    if Root(name) {
      RootMatches(name, l);
      assert Subs(names, n, n + 1) == [];
    } else {
      BelowMatches(name, l);
      NothingHere(EntryOf(Below(name)), q);
      assert Subs(names, n, n + 1) == [Below(name)];
      BestOne(Below(name), q);
      NotJustLabel(name);
    }
  }

  lemma NotJustLabel(name: Name)
    requires !Root(name)
    ensures name.key != First(name.key)
  {
    var below := Below(name);
  }

  /** Without labels nothing matches. */
  lemma NothingHere(e: Entry, q: seq<string>)
    requires e.stem != []
    ensures q == [] ==> !Matches(e, q)
  {
  }

  lemma GroupNext(names: seq<Name>, n: nat, m: nat, q: seq<string>)
    requires Ready(names) && Group(names, n, m) && m - 1 > n && !Root(names[m - 1])
    requires var l := [First(names[n].key)] + q;
      Best(names[n..m - 1], l) == GroupBest(names, n, m - 1, q)
        && Depth(names[n..m - 1], l) == GroupDepth(names, n, m - 1, q)
    ensures var l := [First(names[n].key)] + q;
      Best(names[n..m], l) == GroupBest(names, n, m, q) && Depth(names[n..m], l) == GroupDepth(names, n, m, q)
  {
    hide EntryOf;
    hide Matches;
    hide Best;
    hide Depth;
    hide Root;
    var name := names[m - 1];
    var l := [First(names[n].key)] + q;
    assert l[1..] == q && First(name.key) == First(names[n].key);
    assert names[n..m] == names[n..m - 1] + [name];
    BestLast(names[n..m - 1], name, l);
    BelowMatches(name, l);
    NothingHere(EntryOf(Below(name)), q);
    var s := Subs(names, n, m - 1);
    assert Subs(names, n, m) == s + [Below(name)];
    BestLast(s, Below(name), q);
    ValuesFine(names, n, m);
    var k := BestMatch(s, q);
  }

  ghost predicate Positive(names: seq<Name>) {
    forall i :: 0 <= i < |names| ==> names[i].value > 0
  }

  lemma ValuesFine(names: seq<Name>, n: nat, m: nat)
    requires Ready(names) && Group(names, n, m) && m - 1 > n
    ensures Positive(Subs(names, n, m - 1)) && names[m - 1].value > 0
  {
    assert Fine(names[m - 1]);
    SubsReady(names, n, m - 1);
    var s := Subs(names, n, m - 1);
    forall i | 0 <= i < |s| ensures s[i].value > 0 {
      assert Fine(s[i]);
    }
  }

  /* ---- ngx_hash_wildcard_init ---- */

  /** What is found for the first label answers for the names. */
  ghost predicate Covers(found: Option<Slot>, names: seq<Name>, q: seq<string>)
    requires q != []
  {
    match found
    case None => Depth(names, q) == 0 && Best(names, q) == 0
    case Some(slot) => SlotAnswer(slot, q[1..]) == Best(names, q)
  }

  ghost predicate Serves(w: Wildcard, names: seq<Name>) {
    forall q {:trigger Covers(Get(w.hash, q[0]), names, q)} :: q != [] ==> Covers(Get(w.hash, q[0]), names, q)
  }

  ghost predicate Collected(curr: seq<Elt<Slot>>, names: seq<Name>) {
    && (forall q {:trigger Covers(Lookup(curr, q[0]), names, q)} :: q != [] ==> Covers(Lookup(curr, q[0]), names, q))
    && forall part :: Lookup(curr, part).Some? ==> exists i :: 0 <= i < |names| && First(names[i].key) == part
  }

  predicate StartsWith(s: string, p: string) {
    p <= s
  }

  /** The loop over a group goes on exactly while the first label is the same. */
  lemma SameGroup(names: seq<Name>, n: nat, i: nat)
    requires Ready(names) && n < i < |names|
    ensures var key, next := names[n].key, names[i].key; var d := FirstDot(key);
      (First(next) == First(key)) ==
        if d < |key| then StartsWith(next, key[..d + 1]) else StartsWith(next, key) && !(|next| > d && next[d] != '.')
  {
    var key, next := names[n].key, names[i].key;
    var d := FirstDot(key);
    assert Less(names[n], names[i]);
    if First(next) == First(key) {
      assert next[..d] == First(next);
      if d < |key| {
        if next == First(key) {
          LabelFirst(key, next);
        }
        assert next[..d + 1] == key[..d + 1];
      }
    } else if d <= |next| {
      FirstGiven(next, d);
    }
  }

  /** The first label ends where the first dot or the name ends. */
  lemma {:induction false} FirstGiven(s: string, d: nat)
    requires d <= |s|
    ensures (d == |s| || s[d] == '.') && (forall i :: 0 <= i < d ==> s[i] != '.') ==> FirstDot(s) == d
  {
    if d > 0 && s[0] != '.' {
      FirstGiven(s[1..], d - 1);
    }
  }

  /** Behind a group its label does not occur again. */
  lemma GroupEnds(names: seq<Name>, n: nat, m: nat, j: nat)
    requires Ready(names) && Group(names, n, m) && m <= j < |names| && First(names[m].key) != First(names[n].key)
    ensures First(names[j].key) != First(names[n].key)
  {
    if j > m && First(names[j].key) == First(names[n].key) {
      assert Less(names[n], names[m]) && Less(names[m], names[j]) && Fine(names[n]) && Fine(names[m]) && Fine(names[j]);
      Between(names[n].key, names[m].key, names[j].key);
    }
  }

  /** The slot made for a group answers for it. */
  ghost predicate GroupSlot(slot: Slot, names: seq<Name>, n: nat, m: nat)
    requires n < m <= |names|
  {
    forall q :: SlotAnswer(slot, q) == GroupBest(names, n, m, q)
  }

  lemma LeafSlot(names: seq<Name>, n: nat, m: nat, only: bool)
    requires Ready(names) && Group(names, n, m) && Subs(names, n, m) == []
    requires (only <==> FirstDot(names[n].key) < |names[n].key|)
    ensures GroupSlot(Data(names[n].value, only), names, n, m)
  {
    if !Root(names[n]) {
      SubsFirst(names, n, m);
    }
  }

  lemma {:induction false} SubsFirst(names: seq<Name>, n: nat, m: nat)
    requires n < m <= |names| && !Root(names[n])
    ensures Subs(names, n, m) != [] && Subs(names, n, m)[0] == Below(names[n])
  {
    if m - 1 > n {
      SubsFirst(names, n, m - 1);
    } else {
      assert Subs(names, n, n) == [];
    }
  }

  lemma NestedSlot(names: seq<Name>, n: nat, m: nat, t: Wildcard, only: bool)
    requires Ready(names) && Group(names, n, m) && Serves(t, Subs(names, n, m))
    requires (only <==> FirstDot(names[n].key) < |names[n].key|)
    requires t.value == if Root(names[n]) then names[n].value else 0
    ensures GroupSlot(Nested(t, only), names, n, m)
  {
    forall q ensures SlotAnswer(Nested(t, only), q) == GroupBest(names, n, m, q) {
      if q != [] {
        assert Covers(Get(t.hash, q[0]), Subs(names, n, m), q);
      }
    }
  }

  lemma NotCollected(curr: seq<Elt<Slot>>, names: seq<Name>, part: string)
    requires Collected(curr, names) && forall k :: 0 <= k < |names| ==> First(names[k].key) != part
    ensures Lookup(curr, part) == None
  {
    if Lookup(curr, part).Some? {
      assert false;
    }
  }

  lemma CollectGroup(curr: seq<Elt<Slot>>, names: seq<Name>, n: nat, m: nat, slot: Slot)
    requires Ready(names) && Group(names, n, m) && Collected(curr, names[..n]) && GroupSlot(slot, names, n, m)
    requires forall k :: 0 <= k < n ==> First(names[k].key) != First(names[n].key)
    ensures Collected(curr + [Elt(First(names[n].key), slot)], names[..m])
  {
    hide GroupSlot;
    hide Ready;
    hide Covers;
    var part := First(names[n].key);
    var next := curr + [Elt(part, slot)];
    assert names[..m] == names[..n] + names[n..m];
    NotCollected(curr, names[..n], part);
    forall q: seq<string> | q != [] ensures Covers(Lookup(next, q[0]), names[..m], q) {
      CoverOne(curr, names, n, m, slot, q);
    }
    forall x | Lookup(next, x).Some? ensures exists i :: 0 <= i < |names[..m]| && First(names[..m][i].key) == x {
      LookupJoined(curr, [Elt(part, slot)], x);
      if x == part {
        assert First(names[..m][n].key) == x;
      } else {
        var i :| 0 <= i < |names[..n]| && First(names[..n][i].key) == x;
        assert First(names[..m][i].key) == x;
      }
    }
  }

  lemma CoverOne(curr: seq<Elt<Slot>>, names: seq<Name>, n: nat, m: nat, slot: Slot, q: seq<string>)
    requires Ready(names) && Group(names, n, m) && Collected(curr, names[..n]) && GroupSlot(slot, names, n, m)
    requires q != []
    requires Lookup(curr, First(names[n].key)) == None
    ensures Covers(Lookup(curr + [Elt(First(names[n].key), slot)], q[0]), names[..m], q)
  {
    hide EntryOf;
    hide Matches;
    hide Best;
    hide Depth;
    hide GroupBest;
    hide GroupDepth;
    hide SlotAnswer;
    hide Ready;
    var part := First(names[n].key);
    assert names[..m] == names[..n] + names[n..m];
    LookupJoined(curr, [Elt(part, slot)], q[0]);
    assert Covers(Lookup(curr, q[0]), names[..n], q);
    BestJoined(names[..n], names[n..m], q);
    if q[0] == part {
      assert q == [part] + q[1..];
      GroupAnswer(names, n, m, q[1..]);
      assert SlotAnswer(slot, q[1..]) == GroupBest(names, n, m, q[1..]);
    } else {
      forall i | 0 <= i < |names[n..m]| ensures First(names[n..m][i].key) != q[0] {
        assert names[n..m][i] == names[n + i];
      }
      OtherLabel(names[n..m], q);
    }
  }

  ghost predicate Short(names: seq<Name>, depth: nat) {
    forall i {:trigger names[i].key} :: 0 <= i < |names| ==> |names[i].key| <= depth
  }

  /** Where the names with the first label of name n end. */
  function GroupEnd(names: seq<Name>, n: nat): (m: nat)
    requires n < |names|
    ensures n < m <= |names|
    decreases |names| - n
  {
    if n + 1 < |names| && First(names[n + 1].key) == First(names[n].key) then GroupEnd(names, n + 1) else n + 1
  }

  lemma {:induction false} GroupEndIs(names: seq<Name>, n: nat, m: nat)
    requires Group(names, n, m) && (m < |names| ==> First(names[m].key) != First(names[n].key))
    ensures GroupEnd(names, n) == m
    decreases m - n
  {
    if n + 1 < m {
      GroupEndIs(names, n + 1, m);
    }
  }

  /** The first labels of the groups, as the elements of a hash. */
  function Heads(names: seq<Name>, n: nat): seq<Elt<nat>>
    requires n <= |names|
    decreases |names| - n
  {
    if n == |names| then [] else [Elt(First(names[n].key), 0)] + Heads(names, GroupEnd(names, n))
  }

  /** When names can be compiled: the first labels make a hash that can be built, and so it is, in each group, with the
      names without the first label. */
  ghost predicate Compiles(names: seq<Name>, maxSize: nat, bucketSize: nat, depth: nat)
    decreases depth, |names| + 1
  {
    Hash.Buildable(Heads(names, 0), maxSize, bucketSize) && GroupsCompile(names, 0, maxSize, bucketSize, depth)
  }

  ghost predicate GroupsCompile(names: seq<Name>, n: nat, maxSize: nat, bucketSize: nat, depth: nat)
    requires n <= |names|
    decreases depth, |names| - n
  {
    n == |names| || (
      && GroupCompiles(names, n, GroupEnd(names, n), maxSize, bucketSize, depth)
      && GroupsCompile(names, GroupEnd(names, n), maxSize, bucketSize, depth))
  }

  ghost predicate GroupCompiles(names: seq<Name>, n: nat, m: nat, maxSize: nat, bucketSize: nat, depth: nat)
    requires n < m <= |names|
    decreases depth, 0
  {
    Subs(names, n, m) == [] || (depth > 0 && Compiles(Subs(names, n, m), maxSize, bucketSize, depth - 1))
  }

  lemma HeadsFrom(names: seq<Name>, n: nat)
    requires n < |names|
    ensures var heads := Heads(names, n);
      heads != [] && heads[0].name == First(names[n].key) && heads[1..] == Heads(names, GroupEnd(names, n))
  {
    hide First;
    hide GroupEnd;
  }

  /** One element moves over to the front. */
  lemma OneOver<T>(all: seq<T>, n: nat, rest: seq<T>)
    requires n <= |all| && rest != [] && all == all[..n] + rest
    ensures n < |all| && all[n] == rest[0] && all == all[..n + 1] + rest[1..]
  {
    assert all[n] == rest[0];
  }

  lemma HeadsMore<V>(curr: seq<Elt<V>>, names: seq<Name>, n: nat, elt: Elt<V>)
    requires n < |names| && |curr| <= |Heads(names, 0)| && elt.name == First(names[n].key)
    requires Heads(names, 0) == Heads(names, 0)[..|curr|] + Heads(names, n)
    requires forall k :: 0 <= k < |curr| ==> curr[k].name == Heads(names, 0)[k].name
    ensures var all, more := Heads(names, 0), curr + [elt];
            && |more| <= |all| && all == all[..|more|] + Heads(names, GroupEnd(names, n))
            && forall k :: 0 <= k < |more| ==> more[k].name == all[k].name
  {
    HeadsFrom(names, n);
    OneOver(Heads(names, 0), |curr|, Heads(names, n));
    hide Heads;
    hide First;
    var all, more := Heads(names, 0), curr + [elt];
    forall k | 0 <= k < |more| ensures more[k].name == all[k].name {
      assert k < |curr| ==> more[k] == curr[k];
    }
  }

  /** What was made of the first names, n of them, and that their labels are not those of the others. */
  ghost predicate Compiled(curr: seq<Elt<Slot>>, names: seq<Name>, n: nat, depth: nat) {
    && n <= |names| && Collected(curr, names[..n])
    && (forall k, j :: 0 <= k < n <= j < |names| ==> First(names[k].key) != First(names[j].key))
    && forall k :: 0 <= k < |curr| ==> SlotBuilt(curr[k].value, depth)
  }

  /** Its elements have the labels of the groups. */
  ghost predicate Headed(curr: seq<Elt<Slot>>, names: seq<Name>, n: nat) {
    && n <= |names| && |curr| <= |Heads(names, 0)| && Heads(names, 0) == Heads(names, 0)[..|curr|] + Heads(names, n)
    && forall k :: 0 <= k < |curr| ==> curr[k].name == Heads(names, 0)[k].name
  }

  lemma NothingCompiled(names: seq<Name>, depth: nat)
    ensures Compiled([], names, 0, depth) && Headed([], names, 0)
  {
    assert names[..0] == [];
    assert Heads(names, 0)[..0] == [];
  }

  lemma CompiledMore(curr: seq<Elt<Slot>>, names: seq<Name>, n: nat, m: nat, slot: Slot, depth: nat)
    requires Ready(names) && Compiled(curr, names, n, depth) && Headed(curr, names, n) && Group(names, n, m)
    requires m < |names| ==> First(names[m].key) != First(names[n].key)
    requires GroupSlot(slot, names, n, m) && SlotBuilt(slot, depth)
    ensures var more := curr + [Elt(First(names[n].key), slot)];
            Compiled(more, names, m, depth) && Headed(more, names, m)
  {
    hide Collected;
    hide GroupSlot;
    hide SlotBuilt;
    GroupEndIs(names, n, m);
    CollectGroup(curr, names, n, m, slot);
    HeadsMore(curr, names, n, Elt(First(names[n].key), slot));
    GroupLeft(names, n, m);
  }

  lemma AllCompiled(curr: seq<Elt<Slot>>, names: seq<Name>, depth: nat, maxSize: nat, bucketSize: nat)
    requires Compiled(curr, names, |names|, depth) && Headed(curr, names, |names|)
    ensures Collected(curr, names) && forall k :: 0 <= k < |curr| ==> SlotBuilt(curr[k].value, depth)
    ensures Hash.Buildable(curr, maxSize, bucketSize) <==> Hash.Buildable(Heads(names, 0), maxSize, bucketSize)
    ensures names != [] <==> curr != []
  {
    assert names[..|names|] == names;
    Hash.SameBuildable(curr, Heads(names, 0), maxSize, bucketSize);
  }

  /** ngx_hash_wildcard_init: the table answers every name as the most specific matching wildcard does. */
  method Init(names: seq<Name>, maxSize: nat, bucketSize: nat, ghost depth: nat) returns (r: Outcome<Wildcard>)
    requires Ready(names) && Short(names, depth)
    ensures r.Success? ==> Built(r.value, depth) && Serves(r.value, names) && r.value.value == 0
    ensures r.Success? <==> Compiles(names, maxSize, bucketSize, depth)
    ensures r.DivisionByZero? <==> DividesByZero(|names|, maxSize, bucketSize)
    decreases depth
  {
    hide Hash.Buildable;
    hide Hash.Holds;
    hide GroupCompiles;
    hide Compiled;
    hide Headed;
    hide Heads;
    hide Ready;
    hide Serves;
    hide Built;
    hide SlotBuilt;
    hide GroupSlot;
    hide Collected;
    var curr: seq<Elt<Slot>> := [];
    var n := 0;
    NothingCompiled(names, depth);
    while n < |names|
      invariant 0 <= n <= |names| && Compiled(curr, names, n, depth) && Headed(curr, names, n)
      invariant GroupsCompile(names, 0, maxSize, bucketSize, depth) <==>
          GroupsCompile(names, n, maxSize, bucketSize, depth)
    {
      var m, slot := CompileGroup(names, n, maxSize, bucketSize, depth);
      GroupEndIs(names, n, m);
      if slot.None? {
        return Refused;
      }
      CompiledMore(curr, names, n, m, slot.value, depth);
      curr := curr + [Elt(First(names[n].key), slot.value)];
      n := m;
    }
    AllCompiled(curr, names, depth, maxSize, bucketSize);
    var t := Hash.Init(curr, maxSize, bucketSize);
    if !t.Success? {
      return if t.Refused? then Refused else DivisionByZero;
    }
    r := Success(Wildcard(t.value, 0));
    TableServes(r.value, curr, names, depth);
  }

  ghost predicate SlotBuilt(slot: Slot, depth: nat) {
    slot.Nested? ==> depth > 0 && Built(slot.table, depth - 1)
  }

  lemma GroupLeft(names: seq<Name>, n: nat, m: nat)
    requires Ready(names) && Group(names, n, m)
    requires m < |names| ==> First(names[m].key) != First(names[n].key)
    requires forall k, j :: 0 <= k < n <= j < |names| ==> First(names[k].key) != First(names[j].key)
    ensures forall k, j :: 0 <= k < m <= j < |names| ==> First(names[k].key) != First(names[j].key)
  {
    forall k, j | 0 <= k < m <= j < |names| ensures First(names[k].key) != First(names[j].key) {
      if k >= n {
        GroupEnds(names, n, m, j);
      }
    }
  }

  lemma {:induction false} LookupBuilt(curr: seq<Elt<Slot>>, part: string, depth: nat)
    requires forall k :: 0 <= k < |curr| ==> SlotBuilt(curr[k].value, depth)
    ensures Lookup(curr, part).Some? ==> SlotBuilt(Lookup(curr, part).value, depth)
  {
    if curr != [] {
      LookupBuilt(curr[1..], part, depth);
    }
  }

  lemma TableServes(w: Wildcard, curr: seq<Elt<Slot>>, names: seq<Name>, depth: nat)
    requires Holds(w.hash, curr) && Collected(curr, names)
    requires forall k :: 0 <= k < |curr| ==> SlotBuilt(curr[k].value, depth)
    ensures Built(w, depth) && Serves(w, names)
  {
    forall part ensures Get(w.hash, part).Some? ==> SlotBuilt(Get(w.hash, part).value, depth) {
      GetHeld(w.hash, curr, part);
      LookupBuilt(curr, part, depth);
    }
    forall q: seq<string> | q != [] ensures Covers(Get(w.hash, q[0]), names, q) {
      GetHeld(w.hash, curr, q[0]);
      assert Covers(Lookup(curr, q[0]), names, q);
    }
  }

  /** One round of the outer loop: names n..m-1, which have one first label, become an element. */
  method CompileGroup(names: seq<Name>, n: nat, maxSize: nat, bucketSize: nat, ghost depth: nat)
    returns (m: nat, slot: Option<Slot>)
    requires n < |names| && Ready(names) && Short(names, depth)
    ensures Group(names, n, m) && (m < |names| ==> First(names[m].key) != First(names[n].key))
    ensures slot.Some? ==> GroupSlot(slot.value, names, n, m) && SlotBuilt(slot.value, depth)
    ensures slot.Some? <==> GroupCompiles(names, n, m, maxSize, bucketSize, depth)
    decreases depth, 0
  {
    hide SlotAnswer;
    hide Built;
    hide Less;
    hide Subs;
    hide GroupBest;
    hide Covers;
    hide Short;
    hide Get;
    hide Twins;
    hide Ready;
    hide Serves;
    hide GroupSlot;
    hide Compiles;
    var key := names[n].key;
    var len, dot := 0, false;
    while len < |key|
      invariant 0 <= len <= |key| && forall i :: 0 <= i < len ==> key[i] != '.'
    {
      if key[len] == '.' {
        dot := true;
        break;
      }
      len := len + 1;
    }
    FirstGiven(key, len);
    var next;
    m, next := Gather(names, n, len, dot);
    if next != [] {
      SubsReady(names, n, m);
      SubsShort(names, n, m, depth);
      var t := Init(next, maxSize, bucketSize, depth - 1);
      if !t.Success? {
        return m, None;
      }
      var table := t.value;
      if |key| == len + if dot then 1 else 0 {
        table := table.(value := names[n].value);
      }
      NewValue(t.value, table, next, depth - 1);
      NestedSlot(names, n, m, table, dot);
      slot := Some(Nested(table, dot));
    } else {
      LeafSlot(names, n, m, dot);
      slot := Some(Data(names[n].value, dot));
    }
  }

  /** The value of a table does not matter to what it serves. */
  lemma NewValue(w: Wildcard, w': Wildcard, names: seq<Name>, depth: nat)
    requires w'.hash == w.hash && Built(w, depth) && Serves(w, names)
    ensures Built(w', depth) && Serves(w', names)
  {
    forall q: seq<string> | q != [] ensures Covers(Get(w'.hash, q[0]), names, q) {
      assert Covers(Get(w.hash, q[0]), names, q);
    }
  }

  lemma SubsShort(names: seq<Name>, n: nat, m: nat, depth: nat)
    requires n <= m <= |names| && Short(names, depth) && Subs(names, n, m) != []
    ensures depth > 0 && Short(Subs(names, n, m), depth - 1)
  {
    var s := Subs(names, n, m);
    forall k | 0 <= k < |s| ensures |s[k].key| + 1 <= depth {
      var i := SubsFrom(names, n, m, k);
      var key := names[i].key;
    }
    var first := s[0].key;
  }

  /** The names of the group, without the first label. */
  method Gather(names: seq<Name>, n: nat, len: nat, dot: bool) returns (m: nat, next: seq<Name>)
    requires n < |names| && Ready(names) && len == FirstDot(names[n].key) && (dot <==> len < |names[n].key|)
    ensures Group(names, n, m) && next == Subs(names, n, m)
    ensures (m < |names| ==> First(names[m].key) != First(names[n].key))
  {
    hide FirstDot;
    hide Ready;
    hide Twins;
    hide Before;
    var key := names[n].key;
    var full := if dot then len + 1 else len;
    next := [];
    assert Subs(names, n, n) == [];
    if |key| != full {
      next := [Name(key[full..], names[n].value)];
    }
    m := n + 1;
    while m < |names|
      invariant n < m <= |names| && Group(names, n, m) && next == Subs(names, n, m)
    {
      SameGroup(names, n, m);
      if !StartsWith(names[m].key, key[..full]) {
        return;
      }
      if !dot && |names[m].key| > full && names[m].key[full] != '.' {
        return;
      }
      OneRoot(names, n, m + 1, m);
      next := next + [Name(names[m].key[len + 1..], names[m].value)];
      m := m + 1;
    }
  }

  /** Compiled wildcards mean what they say: a lookup returns the value of the most specific wildcard that matches,
      and null exactly if none does. */
  method FindCompiled(w: Wildcard, names: seq<Name>, name: string, ghost depth: nat) returns (value: nat)
    requires Built(w, depth) && Serves(w, names) && w.value == 0
    ensures value == Best(names, Labels(name))
  {
    value := FindHead(w, name, depth);
    assert Covers(Get(w.hash, Labels(name)[0]), names, Labels(name));
  }
}
