/**
 Editing lists of line protocols (cmd/bnu/conn.c: nextProto, findProto, removeProto, mergeProto, and the two loops of
 addProto), as strings and as the parts of the lists.
 */
module ProtocolChoice {
  import opened ProtocolString

  // ----- string helpers -----

  method NextProto(s: string, at: nat) returns (j: nat)
    requires at <= |s|
    ensures at <= j <= |s| && s[j..] == Next(s[at..])
  {
    j := at;
    if j < |s| && s[j] == '(' {
      while j < |s|
        invariant at <= j <= |s| && AfterGroup(s[j..]) == Next(s[at..])
      {
        assert s[j..][1..] == s[j + 1..];
        j := j + 1;
        if s[j - 1] == ')' {
          return;
        }
      }
    }
  }

  method FindProto(s: string, at: nat, letter: char) returns (j: nat)
    requires at <= |s|
    ensures at <= j <= |s| && s[j..] == Find(s[at..], letter)
  {
    j := at;
    while true
      invariant at <= j <= |s| && Find(s[j..], letter) == Find(s[at..], letter)
      decreases |s| - j
    {
      ghost var before := j;
      j := NextProto(s, j);
      if j == |s| || s[j] == letter {
        FindStops(s[before..], s[j..], letter);
        return;
      }
      FindGoesOn(s[before..], s[j..], letter);
      assert s[j..][1..] == s[j + 1..];
      j := j + 1;
    }
  }

  lemma {:induction false} FindStops(s: string, t: string, c: char)
    requires t == Next(s) && (t == "" || t[0] == c)
    ensures Find(s, c) == t
  {
  }

  lemma {:induction false} FindGoesOn(s: string, t: string, c: char)
    requires t == Next(s) && t != "" && t[0] != c
    ensures Find(s, c) == Find(t[1..], c)
  {
  }

  // ----- editing a list -----

  /** removeProto: the list without a letter and its parameters. */
  function Without(s: string, c: char): string
    decreases |s|
  {
    var t := Next(s);
    var kept := s[..|s| - |t|];
    if t == "" then s
    else if t[0] == c then kept + Without(Next(t[1..]), c)
    else kept + [t[0]] + Without(t[1..], c)
  }

  lemma {:induction false} WithoutDrops(s: string, t: string, c: char)
    requires t == Next(s) && t != "" && t[0] == c
    ensures Without(s, c) == s[..|s| - |t|] + Without(Next(t[1..]), c)
  {
  }

  lemma {:induction false} WithoutKeeps(s: string, t: string, c: char)
    requires t == Next(s) && t != "" && t[0] != c
    ensures Without(s, c) == s[..|s| - |t|] + [t[0]] + Without(t[1..], c)
  {
  }

  /** What a removal will leave when its pointer is at `p`. */
  function Left(r: string, p: nat, c: char): string
    requires p <= |r|
  {
    r[..p] + Without(r[p..], c)
  }

  lemma {:induction false} LeftAfterDrop(r: string, p: nat, q: nat, u: nat, c: char)
    requires p <= q < |r| && r[q..] == Next(r[p..]) && r[q] == c && q < u <= |r| && r[u..] == Next(r[q + 1..])
    ensures Left(r[..q] + r[u..], q, c) == Left(r, p, c)
  {
    WithoutDrops(r[p..], r[q..], c);
    Slices(r, p, q);
    Joined(r, q, u);
    Associate(r[..p], r[p..q], Without(r[u..], c));
  }

  lemma {:induction false} Slices(r: string, p: nat, q: nat)
    requires p <= q < |r|
    ensures r[q..][1..] == r[q + 1..] && r[p..][..q - p] == r[p..q] && r[..p] + r[p..q] == r[..q]
  {
  }

  lemma {:induction false} Joined(r: string, q: nat, u: nat)
    requires q < u <= |r|
    ensures (r[..q] + r[u..])[..q] == r[..q] && (r[..q] + r[u..])[q..] == r[u..]
  {
  }

  lemma {:induction false} LeftAfterKeep(r: string, p: nat, q: nat, c: char)
    requires p <= q < |r| && r[q..] == Next(r[p..]) && r[q] != c
    ensures Left(r, q + 1, c) == Left(r, p, c)
  {
    WithoutKeeps(r[p..], r[q..], c);
    assert r[q..][1..] == r[q + 1..];
    assert r[p..][..q - p] == r[p..q];
    assert r[..p] + (r[p..q] + [r[q]]) == r[..q + 1];
    assert r[..p] + (r[p..q] + [r[q]] + Without(r[q + 1..], c)) == r[..p] + (r[p..q] + [r[q]]) + Without(r[q + 1..], c);
  }

  method RemoveProto(s: string, at: nat, letter: char) returns (r: string)
    requires at <= |s|
    ensures r == s[..at] + Without(s[at..], letter)
  {
    r := s;
    var p: nat := at;
    while true
      invariant p <= |r| && Left(r, p, letter) == Left(s, at, letter)
      decreases |r| - p
    {
      var q: nat := NextProto(r, p);
      if q == |r| {
        assert Without(r[p..], letter) == r[p..];
        assert r[..p] + r[p..] == r;
        return;
      }
      if r[q] == letter {
        var u: nat := NextProto(r, q + 1);
        LeftAfterDrop(r, p, q, u, letter);
        r := r[..q] + r[u..];
        p := q;
      } else {
        LeftAfterKeep(r, p, q, letter);
        p := q + 1;
      }
    }
  }

  lemma {:induction false} WithoutBehindGroup(g: string, rest: string, c: char)
    requires Next(g + rest) == rest && Next(rest) == rest
    ensures Without(g + rest, c) == g + Without(rest, c)
  {
    assert (g + rest)[..|g|] == g && rest[..0] == "";
    if rest != "" {
      if rest[0] == c {
        WithoutDrops(rest, rest, c);
        WithoutDrops(g + rest, rest, c);
      } else {
        WithoutKeeps(rest, rest, c);
        WithoutKeeps(g + rest, rest, c);
      }
    }
  }

  lemma {:induction false} WithoutFirst(items: seq<Item>, c: char)
    requires Good(items) && items != []
    ensures Without(Show(items), c)
         == (if items[0].letter == c then "" else [items[0].letter] + items[0].group) + Without(Show(items[1..]), c)
  {
    hide Show, Without, Next;
    var s, g, t := Show(items), items[0].group, Show(items[1..]);
    ShowTail(items);
    assert Next(s) == s && s != "" && s[0] == items[0].letter && Next(s[1..]) == t by { ShowStarts(items); }
    assert Next(t) == t by { ShowStarts(items[1..]); }
    assert s[1..] == g + t;
    if s[0] == c {
      WithoutDrops(s, s, c);
    } else {
      WithoutKeeps(s, s, c);
      WithoutBehindGroup(g, t, c);
    }
  }

  lemma {:induction false} WithoutShow(items: seq<Item>, c: char)
    requires Good(items)
    ensures Without(Show(items), c) == Show(Dropped(items, c))
    decreases |items|
  {
    if items != [] {
      WithoutShow(items[1..], c);
      WithoutFirst(items, c);
      ShowDropped(items, c);
    }
  }

  lemma {:induction false} ShowDropped(items: seq<Item>, c: char)
    requires items != []
    ensures Show(Dropped(items, c))
         == (if items[0].letter == c then "" else [items[0].letter] + items[0].group) + Show(Dropped(items[1..], c))
  {
    var r := Dropped(items[1..], c);
    if items[0].letter == c {
      assert Dropped(items, c) == r;
    } else {
      assert Dropped(items, c) == [items[0]] + r && ([items[0]] + r)[1..] == r;
    }
  }

  lemma {:induction false} GoodDropped(items: seq<Item>, c: char)
    requires Good(items)
    ensures Good(Dropped(items, c))
  {
    if items != [] {
      var rest := items[1..];
      GoodDropped(rest, c);
      assert rest == [] ==> Dropped(rest, c) == [];
    }
  }

  /** mergeProto: letter `f[0]` and its parameters are appended, or the parameters added to the letter. */
  function Merge(s: string, f: string): string
    requires f != ""
  {
    var t := Find(s, f[0]);
    var g := Group(f);
    if t == "" then s + [f[0]] + g
    else if (|t| == 1 || t[1] != '(') && g != "" then s[..|s| - |t| + 1] + g + t[1..]
    else s
  }

  lemma {:induction false} MergeAppends(s: string, at: nat, f: string)
    requires at <= |s| && f != "" && Find(s[at..], f[0]) == ""
    ensures s[..at] + Merge(s[at..], f) == s + ([f[0]] + Group(f))
  {
    hide Find, Group;
    Associate(s[..at], s[at..], [f[0]] + Group(f));
    Associate(s[at..], [f[0]], Group(f));
    assert s == s[..at] + s[at..];
  }

  lemma {:induction false} MergeInserts(s: string, at: nat, to: nat, f: string)
    requires at <= to < |s| && f != "" && Find(s[at..], f[0]) == s[to..]
    ensures s[..at] + Merge(s[at..], f) ==
            if (to + 1 == |s| || s[to + 1] != '(') && Group(f) != "" then s[..to + 1] + Group(f) + s[to + 1..] else s
  {
    hide Find, Group, Merge;
    MergeFound(s[at..], s[to..], f);
    InsertBehind(s, at, to, Group(f));
  }

  lemma {:induction false} MergeFound(s: string, t: string, f: string)
    requires f != "" && Find(s, f[0]) == t != ""
    ensures Merge(s, f) ==
            if (|t| == 1 || t[1] != '(') && Group(f) != "" then s[..|s| - |t| + 1] + Group(f) + t[1..] else s
  {
  }

  lemma {:induction false} InsertBehind(s: string, at: nat, to: nat, g: string)
    requires at <= to < |s|
    ensures s[..at] + (s[at..][..to - at + 1] + g + s[to..][1..]) == s[..to + 1] + g + s[to + 1..]
    ensures s[..at] + s[at..] == s
  {
    assert s[to..][1..] == s[to + 1..] && s[at..][..to - at + 1] == s[at..to + 1];
    assert s[..to + 1] == s[..at] + s[at..to + 1];
  }

  lemma {:induction false} GroupEnds(from: string, want: nat, end: nat)
    requires want < end <= |from| && from[end..] == Next(from[want + 1..])
    ensures from[want + 1..end] == Group(from[want..]) && from[want..end] == [from[want]] + Group(from[want..])
    ensures Group(from[want..]) != "" <==> want + 1 < |from| && from[want + 1] == '('
  {
    var f := from[want..];
    assert f[1..] == from[want + 1..];
    if want + 1 < |from| && from[want + 1] == '(' { SkipsOne(from[want + 1..]); }
  }

  lemma {:induction false} SkipsOne(s: string)
    requires s != ""
    ensures |AfterGroup(s)| < |s|
  {
  }

  method MergeProto(s: string, at: nat, from: string, want: nat) returns (r: string)
    requires at <= |s| && want < |from|
    ensures r == s[..at] + Merge(s[at..], from[want..])
  {
    var to: nat := FindProto(s, at, from[want]);
    var end: nat := NextProto(from, want + 1);
    GroupEnds(from, want, end);
    if to == |s| {
      r := s + from[want..end];
      MergeAppends(s, at, from[want..]);
    } else {
      MergeInserts(s, at, to, from[want..]);
      if (to + 1 == |s| || s[to + 1] != '(') && want + 1 < |from| && from[want + 1] == '(' {
        r := s[..to + 1] + from[want + 1..end] + s[to + 1..];
      } else {
        r := s;
      }
    }
  }

  // ----- merging, in parts -----

  /**
   The first of the parts gets parameters `g`; when they are not closed they take in the parts up to a closing one.
   */
  function Given(todo: seq<Item>, g: string): (r: seq<Item>)
    requires todo != []
    ensures 1 <= |r| <= |todo|
  {
    var k := if Terminated(g) then 0 else Swallowed(todo[1..]);
    [Item(todo[0].letter, g + Show(todo[1..1 + k]))] + todo[1 + k..]
  }

  /** A part is appended, or gives its parameters to the part with its letter if that has none. */
  function MergePart(items: seq<Item>, part: Item): seq<Item> {
    var i := IndexOf(items, part.letter);
    if i == |items| then items + [part]
    else if items[i].group != "" || part.group == "" then items
    else items[..i] + Given(items[i..], part.group)
  }

  lemma {:induction false} ShowFirst(item: Item, rest: seq<Item>)
    ensures Show([item] + rest) == [item.letter] + (item.group + Show(rest))
  {
    assert ([item] + rest)[1..] == rest;
    assert [item.letter] + item.group + Show(rest) == [item.letter] + (item.group + Show(rest));
  }

  /** The parameters that the first part gets, and the parts that stay behind it. */
  lemma {:induction false} GivenParts(rest: seq<Item>, g: string, k: nat)
    requires Good(rest) && IsGroup(g) && k == if Terminated(g) then 0 else Swallowed(rest)
    ensures var h := g + Show(rest[..k]);
            IsGroup(h) && (k < |rest| ==> Terminated(h)) && (Terminated(g) ==> h == g)
              && g + Show(rest) == h + Show(rest[k..])
  {
    hide Swallowed;
    if Terminated(g) {
      assert rest[..0] == [] && rest[0..] == rest && g + "" == g;
    } else {
      Swallow(g, rest);
    }
  }

  lemma {:induction false} GoodFirst(item: Item, rest: seq<Item>, k: nat)
    requires Good(rest) && k <= |rest| && Proper(item.letter) && IsGroup(item.group)
             && (k < |rest| ==> Terminated(item.group))
    ensures Good([item] + rest[k..])
            && (AllTerminated(rest) && Terminated(item.group) ==> AllTerminated([item] + rest[k..]))
  {
  }

  lemma {:induction false} GivenGood(todo: seq<Item>, g: string)
    requires Good(todo) && todo != [] && IsGroup(g)
    ensures Good(Given(todo, g)) && Show(Given(todo, g)) == [todo[0].letter] + (g + Show(todo[1..]))
    ensures AllTerminated(todo) && Terminated(g) ==> AllTerminated(Given(todo, g))
  {
    hide Show, Swallowed, IsGroup;
    var rest := todo[1..];
    var k := if Terminated(g) then 0 else Swallowed(rest);
    var item := Item(todo[0].letter, g + Show(rest[..k]));
    assert todo[1..1 + k] == rest[..k] && todo[1 + k..] == rest[k..];
    GivenParts(rest, g, k);
    ShowFirst(item, rest[k..]);
    GoodFirst(item, rest, k);
    assert Given(todo, g) == [item] + rest[k..];
  }

  lemma {:induction false} ShowSnoc(items: seq<Item>, item: Item)
    ensures Show(items + [item]) == Show(items) + ([item.letter] + item.group)
  {
    ShowAppend(items, [item]);
    assert Show([item]) == [item.letter] + item.group + Show([]);
  }

  lemma {:induction false} ShowSplit(items: seq<Item>, i: nat)
    requires Good(items) && i < |items|
    ensures var a, t := Show(items[..i]), Show(items[i..]);
            && Show(items) == a + t && t != "" && t[0] == items[i].letter
            && ((|t| == 1 || t[1] != '(') <==> items[i].group == "")
            && (items[i].group == "" ==> t[1..] == Show(items[i + 1..]))
  {
    assert items == items[..i] + items[i..];
    ShowAppend(items[..i], items[i..]);
    var tail := items[i..];
    assert tail[1..] == items[i + 1..];
    ShowStarts(tail);
    ShowStarts(tail[1..]);
  }

  /** What a merge does to the parts of the list. */
  lemma {:induction false} MergeShow(items: seq<Item>, f: string)
    requires Good(items) && f != "" && Proper(f[0])
    requires IndexOf(items, f[0]) == |items| ==> AllTerminated(items)
    ensures var r := MergePart(items, Item(f[0], Group(f))); Good(r) && Merge(Show(items), f) == Show(r)
    ensures AllTerminated(items) && Terminated(Group(f)) ==> AllTerminated(MergePart(items, Item(f[0], Group(f))))
  {
    var i, g := IndexOf(items, f[0]), Group(f);
    FindItem(items, f[0]);
    GroupExact(f);
    if i == |items| {
      assert items[i..] == [];
      MergeAppends(Show(items), 0, f);
      ShowSnoc(items, Item(f[0], g));
    } else {
      MergeShowFound(items, i, f, g);
    }
  }

  lemma {:induction false} MergeShowFound(items: seq<Item>, i: nat, f: string, g: string)
    requires Good(items) && f != "" && i == IndexOf(items, f[0]) < |items| && g == Group(f) && IsGroup(g)
    requires Find(Show(items), f[0]) == Show(items[i..])
    ensures var r := MergePart(items, Item(f[0], g)); Good(r) && Merge(Show(items), f) == Show(r)
    ensures AllTerminated(items) && Terminated(g) ==> AllTerminated(MergePart(items, Item(f[0], g)))
  {
    hide Show, Given, IsGroup, Find, Group, Swallowed;
    var a, t, todo := Show(items[..i]), Show(items[i..]), items[i..];
    ShowSplit(items, i);
    MergeFound(Show(items), t, f);
    if items[i].group == "" && g != "" {
      GivenGood(todo, g);
      Replaced(items, i, Given(todo, g));
      TerminatedParts(items, i, Given(todo, g));
      assert todo[1..] == items[i + 1..];
      InsertedBehind(a, t, g);
    }
  }

  lemma {:induction false} InsertedBehind(a: string, t: string, g: string)
    requires t != ""
    ensures (a + t)[..|a + t| - |t| + 1] + g + t[1..] == a + ([t[0]] + (g + t[1..]))
  {
    var s := a + t;
    assert s[..|s| - |t| + 1] == a + [t[0]];
    assert a + [t[0]] + g + t[1..] == a + ([t[0]] + (g + t[1..]));
  }

  lemma {:induction false} TerminatedParts(items: seq<Item>, i: nat, tail: seq<Item>)
    requires i <= |items|
    ensures AllTerminated(items) ==> AllTerminated(items[i..])
    ensures AllTerminated(items) && AllTerminated(tail) ==> AllTerminated(items[..i] + tail)
  {
  }

  // ----- the first list -----

  /** A list of letters without parameters. */
  ghost predicate Plain(valid: string) {
    Distinct(valid) && forall i :: 0 <= i < |valid| ==> Proper(valid[i])
  }

  lemma {:induction false} PlainLetters(valid: string)
    requires forall i :: 0 <= i < |valid| ==> Proper(valid[i])
    ensures Letters(valid) == valid
  {
    if valid != "" {
      PlainLetters(valid[1..]);
    }
  }

  /** What a list selects: the parts with valid letters, each where its letter comes first. */
  function CollectParts(ps: seq<Item>, valid: string): seq<Item> {
    if ps == [] then []
    else
      var n := |ps| - 1;
      var r := CollectParts(ps[..n], valid);
      if ps[n].letter in valid then MergePart(r, ps[n]) else r
  }

  /** One letter of a list and what follows it. */
  lemma {:induction false} PartStep(s: string, t: string)
    requires t == Next(s) && t != ""
    ensures Parts(s) == [Item(t[0], Group(t))] + Parts(t[1..])
    ensures !Terminated(Group(t)) ==> Parts(t[1..]) == []
  {
    GroupExact(t);
  }

  /** A walk through a list has seen the parts `seen` and is at `w`; nothing follows parameters that are not closed. */
  ghost predicate Walked(desired: string, seen: seq<Item>, w: nat) {
    && w <= |desired| && Parts(desired) == seen + Parts(desired[w..])
    && (AllTerminated(seen) || Parts(desired[w..]) == [])
  }

  lemma {:induction false} WalkStep(desired: string, seen: seq<Item>, w: nat, j: nat)
    requires Walked(desired, seen, w) && w <= j < |desired| && desired[j..] == Next(desired[w..])
    ensures AllTerminated(seen) && Walked(desired, seen + [Item(desired[j], Group(desired[j..]))], j + 1)
  {
    var f := desired[j..];
    PartStep(desired[w..], f);
    assert f[1..] == desired[j + 1..];
    assert seen + ([Item(f[0], Group(f))] + Parts(f[1..])) == seen + [Item(f[0], Group(f))] + Parts(f[1..]);
  }

  lemma {:induction false} WalkStart(desired: string)
    ensures Walked(desired, [], 0)
  {
    assert desired[0..] == desired && [] + Parts(desired) == Parts(desired);
  }

  lemma {:induction false} WalkEnd(desired: string, seen: seq<Item>, w: nat)
    requires Walked(desired, seen, w) && Next(desired[w..]) == ""
    ensures seen == Parts(desired)
  {
    assert Parts(desired[w..]) == [] && seen + [] == seen;
  }

  /** What has been collected so far. */
  ghost predicate Collected(seen: seq<Item>, valid: string, protocol: string) {
    && Good(CollectParts(seen, valid)) && protocol == Show(CollectParts(seen, valid))
    && (AllTerminated(seen) ==> AllTerminated(CollectParts(seen, valid)))
  }

  lemma {:induction false} CollectMore(seen: seq<Item>, valid: string, part: Item)
    ensures CollectParts(seen + [part], valid) ==
            if part.letter in valid then MergePart(CollectParts(seen, valid), part) else CollectParts(seen, valid)
    ensures AllTerminated(seen + [part]) ==> AllTerminated(seen) && Terminated(part.group)
  {
    var longer := seen + [part];
    assert longer[..|seen|] == seen && longer[|seen|] == part;
    if AllTerminated(longer) {
      forall i | 0 <= i < |seen| ensures Terminated(seen[i].group) { assert longer[i] == seen[i]; }
    }
  }

  /** One desired letter is added when it is valid. */
  method CollectOne(desired: string, j: nat, valid: string, protocol: string, ghost seen: seq<Item>) returns (r: string)
    requires Plain(valid) && j < |desired| && AllTerminated(seen) && Collected(seen, valid, protocol)
    ensures Collected(seen + [Item(desired[j], Group(desired[j..]))], valid, r)
  {
    ghost var f := desired[j..];
    ghost var part := Item(desired[j], Group(f));
    PlainLetters(valid);
    FindsLetters(valid, f[0]);
    CollectMore(seen, valid, part);
    assert valid[0..] == valid && protocol[0..] == protocol;
    var x := FindProto(valid, 0, desired[j]);
    if x != |valid| {
      MergeShow(CollectParts(seen, valid), f);
      r := MergeProto(protocol, 0, desired, j);
      assert protocol[..0] + Merge(protocol, f) == Merge(protocol, f);
    } else {
      r := protocol;
    }
  }

  /** The first list: its parts with valid letters, merged. */
  method Collect(desired: string, valid: string) returns (protocol: string)
    requires Plain(valid)
    ensures Good(CollectParts(Parts(desired), valid)) && protocol == Show(CollectParts(Parts(desired), valid))
  {
    hide CollectParts, Parts;
    protocol := "";
    ghost var seen: seq<Item> := [];
    var w: nat := 0;
    WalkStart(desired);
    CollectNothing(valid);
    while true
      invariant w <= |desired| && Collected(seen, valid, protocol) && Walked(desired, seen, w)
      decreases |desired| - w
    {
      var j: nat := NextProto(desired, w);
      if j == |desired| {
        WalkEnd(desired, seen, w);
        return;
      }
      WalkStep(desired, seen, w, j);
      protocol := CollectOne(desired, j, valid, protocol, seen);
      seen := seen + [Item(desired[j], Group(desired[j..]))];
      w := j + 1;
    }
  }

  lemma {:induction false} CollectNothing(valid: string)
    ensures Collected([], valid, "")
  {
  }

  // ----- a further list -----

  /** What a further list leaves: the parts with its letters, which get their parameters from it if they have none. */
  function Narrow(items: seq<Item>, wanted: seq<Item>): seq<Item>
    decreases |items|
  {
    if items == [] then []
    else
      var j := IndexOf(wanted, items[0].letter);
      if j == |wanted| then Narrow(items[1..], wanted)
      else
        var t := Supplied(items, wanted[j].group);
        [t[0]] + Narrow(t[1..], wanted)
  }

  /** The first part gets parameters if it has none. */
  function Supplied(items: seq<Item>, g: string): (t: seq<Item>)
    requires items != []
    ensures 1 <= |t| <= |items|
  {
    if items[0].group == "" && g != "" then Given(items, g) else items
  }

  /** A walk along the working list `r` is in front of part `m`. */
  ghost predicate InFront(items: seq<Item>, m: nat, r: string, p: nat) {
    Good(items) && m <= |items| && r == Show(items) && p <= |r| && Next(r[p..]) == Show(items[m..])
  }

  lemma {:induction false} ShowPrefix(items: seq<Item>, m: nat)
    requires m <= |items|
    ensures Show(items) == Show(items[..m]) + Show(items[m..])
  {
    assert items == items[..m] + items[m..];
    ShowAppend(items[..m], items[m..]);
  }

  /** Past the parameters the pointer is at part `m`. */
  lemma {:induction false} AtPart(items: seq<Item>, m: nat, r: string, p: nat, q: nat)
    requires InFront(items, m, r, p) && p <= q <= |r| && r[q..] == Next(r[p..])
    ensures r[..q] == Show(items[..m]) && r[q..] == Show(items[m..])
    ensures if q == |r| then m == |items| else m < |items| && r[q] == items[m].letter
  {
    ShowPrefix(items, m);
    ShowStarts(items[m..]);
  }

  /** Part `m` is replaced and some of the following parts are dropped. */
  lemma {:induction false} Replaced(items: seq<Item>, m: nat, tail: seq<Item>)
    requires Good(items) && m < |items| && Good(tail)
    ensures Good(items[..m] + tail) && Show(items[..m] + tail) == Show(items[..m]) + Show(tail)
    ensures (items[..m] + tail)[m..] == tail && (items[..m] + tail)[..m] == items[..m]
  {
    ShowAppend(items[..m], tail);
  }

  lemma {:induction false} DroppedOther(items: seq<Item>, c: char)
    requires forall i :: 0 <= i < |items| ==> items[i].letter != c
    ensures Dropped(items, c) == items
  {
    if items != [] { DroppedOther(items[1..], c); }
  }

  lemma {:induction false} DropPart(items: seq<Item>, m: nat, c: char, r: string, q: nat)
    requires Good(items) && m < |items| && c == items[m].letter && q <= |r|
    requires r[..q] == Show(items[..m]) && r[q..] == Show(items[m..])
    requires forall i :: m < i < |items| ==> items[i].letter != c
    ensures InFront(items[..m] + items[m + 1..], m, r[..q] + Without(r[q..], c), q)
  {
    var tail := items[m + 1..];
    assert items[m..][1..] == tail;
    WithoutShow(items[m..], c);
    DroppedOther(tail, c);
    assert Dropped(items[m..], c) == tail;
    Replaced(items, m, tail);
    ShowStarts(tail);
    var s := r[..q] + Without(r[q..], c);
    assert s[q..] == Show(tail);
  }

  lemma {:induction false} PastFirst(items: seq<Item>, m: nat, tail: seq<Item>, head: string)
    requires Good(items) && m < |items| && Good(tail) && tail != [] && head == Show(items[..m])
    ensures (items[..m] + tail)[..m] == items[..m] && (items[..m] + tail)[m + 1..] == tail[1..]
    ensures InFront(items[..m] + tail, m + 1, head + Show(tail), |head| + 1)
  {
    Replaced(items, m, tail);
    BehindFirst(tail, head);
    assert (items[..m] + tail)[m + 1..] == tail[1..];
  }

  lemma {:induction false} BehindFirst(tail: seq<Item>, head: string)
    requires Good(tail) && tail != []
    ensures Show(tail) != "" && Next((head + Show(tail))[|head| + 1..]) == Show(tail[1..])
  {
    ShowStarts(tail);
    assert (head + Show(tail))[|head| + 1..] == Show(tail)[1..];
  }

  /** Removing from a list without parameters. */
  lemma {:induction false} WithoutPlain(valid: string, c: char)
    requires forall i :: 0 <= i < |valid| ==> Proper(valid[i])
    ensures forall x :: x in Without(valid, c) <==> x in valid && x != c
  {
    if valid != "" {
      var rest := valid[1..];
      assert valid == [valid[0]] + rest;
      WithoutPlain(rest, c);
      if valid[0] == c {
        WithoutDrops(valid, valid, c);
      } else {
        WithoutKeeps(valid, valid, c);
      }
    }
  }

  /**
   A walk along the working list: `m` parts are done, and what the walk will make of the rest completes `result`.
   Before a letter is kept, the valid letters are those still to be compared.
   */
  ghost predicate Walking(items: seq<Item>, m: nat, wanted: seq<Item>, valid: string, result: seq<Item>) {
    && m <= |items| && Distinct(LettersOf(items)) && result == items[..m] + Narrow(items[m..], wanted)
    && (forall i :: 0 <= i < |valid| ==> Proper(valid[i]))
    && (m == 0 ==> forall c :: c in valid ==> c in LettersOf(items))
  }

  lemma {:induction false} LettersOfSlice(items: seq<Item>, a: seq<Item>, b: seq<Item>)
    requires items == a + b
    ensures LettersOf(items) == LettersOf(a) + LettersOf(b)
  {
  }

  /** Leaving out some of the parts keeps letters distinct. */
  lemma {:induction false} DistinctLeft(items: seq<Item>, m: nat, n: nat, new_: seq<Item>)
    requires m <= n <= |items| && Distinct(LettersOf(items))
    requires LettersOf(new_) == LettersOf(items)[..m] + LettersOf(items)[n..]
    ensures Distinct(LettersOf(new_))
  {
  }

  lemma {:induction false} DropsOne(items: seq<Item>, m: nat, wanted: seq<Item>, valid: string, result: seq<Item>)
    requires Walking(items, m, wanted, valid, result) && m < |items| && IndexOf(wanted, items[m].letter) == |wanted|
    ensures Walking(items[..m] + items[m + 1..], m, wanted, Without(valid, items[m].letter), result)
    ensures forall i :: m < i < |items| ==> items[i].letter != items[m].letter
  {
    hide Without, IndexOf;
    var new_, c := items[..m] + items[m + 1..], items[m].letter;
    assert items[m..][1..] == items[m + 1..] && new_[..m] == items[..m] && new_[m..] == items[m + 1..];
    assert LettersOf(new_) == LettersOf(items)[..m] + LettersOf(items)[m + 1..];
    DistinctLeft(items, m, m + 1, new_);
    DropsValid(items, m, valid, new_);
    forall i | m < i < |items| ensures items[i].letter != c { assert LettersOf(items)[i] != LettersOf(items)[m]; }
  }

  lemma {:induction false} DropsValid(items: seq<Item>, m: nat, valid: string, new_: seq<Item>)
    requires m < |items| && LettersOf(new_) == LettersOf(items)[..m] + LettersOf(items)[m + 1..]
    requires forall i :: 0 <= i < |valid| ==> Proper(valid[i])
    requires m == 0 ==> forall c :: c in valid ==> c in LettersOf(items)
    ensures var v := Without(valid, items[m].letter);
            && (forall i :: 0 <= i < |v| ==> Proper(v[i]))
            && (m == 0 ==> forall c :: c in v ==> c in LettersOf(new_))
  {
    hide Without;
    var c := items[m].letter;
    var v := Without(valid, c);
    WithoutPlain(valid, c);
    forall i | 0 <= i < |v| ensures Proper(v[i]) { assert v[i] in v && v[i] in valid; }
    if m == 0 {
      assert LettersOf(items) == [c] + LettersOf(new_);
    }
  }

  lemma {:induction false} NarrowOpen(items: seq<Item>, wanted: seq<Item>)
    requires items != [] && IndexOf(wanted, items[0].letter) < |wanted|
    ensures var t := Supplied(items, wanted[IndexOf(wanted, items[0].letter)].group);
            Narrow(items, wanted) == [t[0]] + Narrow(t[1..], wanted) && t[0].letter == items[0].letter
  {
    hide IndexOf;
  }

  lemma {:induction false} KeptLetters(items: seq<Item>, m: nat, g: string)
    requires m < |items| && Distinct(LettersOf(items))
    ensures Distinct(LettersOf(items[..m] + Supplied(items[m..], g)))
  {
    hide Supplied, Distinct;
    var t := Supplied(items[m..], g);
    var n := |items| - |t| + 1;
    SuppliedLetters(items[m..], g);
    LettersOfSlice(items[..m] + t, items[..m], t);
    LettersOfSlice(items, items[..m], items[m..]);
    assert LettersOf(items)[..m + 1] == LettersOf(items[..m]) + [items[m].letter];
    assert LettersOf(items)[n..] == LettersOf(items[m..])[n - m..];
    DistinctLeft(items, m + 1, n, items[..m] + t);
  }

  lemma {:induction false} OneDone(a: seq<Item>, t: seq<Item>, rest: seq<Item>)
    requires t != []
    ensures (a + t)[..|a| + 1] + rest == a + ([t[0]] + rest) && (a + t)[|a| + 1..] == t[1..]
  {
    assert (a + t)[..|a| + 1] == a + [t[0]];
  }

  lemma {:induction false} SuppliesOne(items: seq<Item>, m: nat, wanted: seq<Item>, valid: string, result: seq<Item>)
    requires Walking(items, m, wanted, valid, result) && m < |items| && IndexOf(wanted, items[m].letter) < |wanted|
    ensures var t := Supplied(items[m..], wanted[IndexOf(wanted, items[m].letter)].group);
            Walking(items[..m] + t, m + 1, wanted, valid, result)
  {
    hide Supplied, IndexOf, Distinct, Narrow, LettersOf;
    var g := wanted[IndexOf(wanted, items[m].letter)].group;
    var t := Supplied(items[m..], g);
    NarrowOpen(items[m..], wanted);
    KeptLetters(items, m, g);
    OneDone(items[..m], t, Narrow(t[1..], wanted));
  }

  lemma {:induction false} SuppliedLetters(items: seq<Item>, g: string)
    requires items != []
    ensures var t := Supplied(items, g);
            t[1..] == items[|items| - |t| + 1..]
              && LettersOf(t) == [items[0].letter] + LettersOf(items)[|items| - |t| + 1..]
  {
    hide Show, Swallowed;
  }

  lemma {:induction false} WalkBegins(items: seq<Item>, wanted: seq<Item>)
    requires Good(items) && Distinct(LettersOf(items))
    ensures Walking(items, 0, wanted, LettersOf(items), Narrow(items, wanted)) && InFront(items, 0, Show(items), 0)
  {
    assert items[0..] == items && items[..0] + Narrow(items, wanted) == Narrow(items, wanted);
    var ls := LettersOf(items);
    assert forall i :: 0 <= i < |ls| ==> Proper(ls[i]);
    assert Show(items)[0..] == Show(items);
    ShowStarts(items);
  }

  lemma {:induction false} WalkDone(items: seq<Item>, wanted: seq<Item>, valid: string, result: seq<Item>)
    requires Walking(items, |items|, wanted, valid, result)
    ensures result == items && (items == [] ==> valid == "")
  {
    assert items[..|items|] == items && Narrow(items[|items|..], wanted) == [];
    if valid != "" { assert valid[0] in valid; }
  }

  /** A letter that the further list does not have is removed from the working list and from the valid letters. */
  method RejectOne(protocol: string, q: nat, valid: string, ghost items: seq<Item>, ghost m: nat,
                   ghost wanted: seq<Item>, ghost result: seq<Item>)
    returns (r: string, v: string)
    requires q < |protocol| && m < |items| && Good(items) && protocol[q] == items[m].letter
    requires protocol[..q] == Show(items[..m]) && protocol[q..] == Show(items[m..])
    requires Walking(items, m, wanted, valid, result) && IndexOf(wanted, items[m].letter) == |wanted|
    ensures InFront(items[..m] + items[m + 1..], m, r, q) && Walking(items[..m] + items[m + 1..], m, wanted, v, result)
  {
    hide Narrow, Show, InFront;
    DropsOne(items, m, wanted, valid, result);
    v := RemoveProto(valid, 0, protocol[q]);
    r := RemoveProto(protocol, q, protocol[q]);
    DropPart(items, m, protocol[q], protocol, q);
    assert valid[0..] == valid && valid[..0] + Without(valid, protocol[q]) == Without(valid, protocol[q]);
  }

  lemma {:induction false} MergesFirst(todo: seq<Item>, part: Item)
    requires todo != [] && todo[0].letter == part.letter
    ensures IndexOf(todo, part.letter) == 0 && MergePart(todo, part) == Supplied(todo, part.group)
  {
    hide Given;
    assert todo[0..] == todo && todo[..0] == [] && [] + Given(todo, part.group) == Given(todo, part.group);
  }

  lemma {:induction false} KeepPart(items: seq<Item>, m: nat, f: string, r: string, q: nat)
    requires Good(items) && m < |items| && f != "" && f[0] == items[m].letter && q < |r|
    requires r[..q] == Show(items[..m]) && r[q..] == Show(items[m..])
    ensures InFront(items[..m] + Supplied(items[m..], Group(f)), m + 1, r[..q] + Merge(r[q..], f), q + 1)
  {
    hide Show, Given, InFront, Merge, Group;
    var todo := items[m..];
    MergeShow(todo, f);
    MergesFirst(todo, Item(f[0], Group(f)));
    PastFirst(items, m, Supplied(todo, Group(f)), r[..q]);
  }

  /** One letter of the working list is compared with a further list. */
  method IntersectOne(desired: string, protocol: string, q: nat, valid: string, ghost items: seq<Item>, ghost m: nat,
                      ghost result: seq<Item>)
    returns (r: string, p: nat, v: string, ghost items': seq<Item>, ghost m': nat)
    requires q < |protocol| && m < |items| && Good(items) && protocol[q] == items[m].letter
    requires protocol[..q] == Show(items[..m]) && protocol[q..] == Show(items[m..])
    requires Walking(items, m, Parts(desired), valid, result)
    ensures InFront(items', m', r, p) && Walking(items', m', Parts(desired), v, result)
    ensures |items'| - m' < |items| - m
  {
    hide Narrow, Show, InFront, Parts, Walking;
    var c := protocol[q];
    assert desired[0..] == desired;
    var want: nat := FindProto(desired, 0, c);
    FindPart(desired, c);
    v, p := valid, q;
    if want == |desired| {
      r, v := RejectOne(protocol, q, valid, items, m, Parts(desired), result);
      items', m' := items[..m] + items[m + 1..], m;
    } else {
      SuppliesOne(items, m, Parts(desired), valid, result);
      KeepPart(items, m, desired[want..], protocol, q);
      r := MergeProto(protocol, q, desired, want);
      p := q + 1;
      items', m' := items[..m] + Supplied(items[m..], Group(desired[want..])), m + 1;
    }
  }

  /** A further list: the working list is narrowed to its letters; when nothing is left, no letter is valid. */
  method Intersect(desired: string, protocol: string, valid: string, ghost items: seq<Item>)
    returns (r: string, v: string)
    requires Good(items) && Distinct(LettersOf(items)) && protocol == Show(items) && valid == LettersOf(items)
    ensures Good(Narrow(items, Parts(desired))) && Distinct(LettersOf(Narrow(items, Parts(desired))))
    ensures r == Show(Narrow(items, Parts(desired))) && (Narrow(items, Parts(desired)) == [] ==> v == "")
  {
    hide Narrow, Show, Parts, Walking;
    r, v := protocol, valid;
    var p: nat := 0;
    ghost var wanted, result := Parts(desired), Narrow(items, Parts(desired));
    ghost var left, m := items, 0;
    WalkBegins(items, wanted);
    while true
      invariant InFront(left, m, r, p) && Walking(left, m, wanted, v, result)
      decreases |left| - m
    {
      var q: nat := NextProto(r, p);
      AtPart(left, m, r, p, q);
      if q == |r| {
        WalkDone(left, wanted, v, result);
        WalkingDistinct(left, m, wanted, v, result);
        return;
      }
      r, p, v, left, m := IntersectOne(desired, r, q, v, left, m, result);
    }
  }

  lemma {:induction false} WalkingDistinct(items: seq<Item>, m: nat, wanted: seq<Item>, valid: string,
                                           result: seq<Item>)
    requires Walking(items, m, wanted, valid, result)
    ensures Distinct(LettersOf(items))
  {
  }
}
