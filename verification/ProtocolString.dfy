/**
 Lists of line protocols as strings: how the code of cmd/bnu/conn.c (nextProto, findProto) scans them,
 and which letters they list.

 A list is a string of protocol letters, each with optional parameters in parentheses: "g(3,64)e".
 */
module ProtocolString {

  // ----- scanning a list, as the code does -----

  function AfterGroup(s: string): (t: string)
    ensures |t| <= |s|
  {
    if s == "" then "" else if s[0] == ')' then s[1..] else AfterGroup(s[1..])
  }

  /** nextProto: parameters are skipped. */
  function Next(s: string): (t: string)
    ensures |t| <= |s|
  {
    if s != "" && s[0] == '(' then AfterGroup(s) else s
  }

  /** The letters a scan of the list visits. */
  function Letters(s: string): string
    decreases |s|
  {
    var t := Next(s);
    if t == "" then "" else [t[0]] + Letters(t[1..])
  }

  /** findProto: the rest of the list from a letter on. */
  function Find(s: string, c: char): (t: string)
    ensures |t| <= |s|
    ensures t == "" || t[0] == c
    decreases |s|
  {
    var t := Next(s);
    if t == "" || t[0] == c then t else Find(t[1..], c)
  }

  lemma {:induction false} FindsLetters(s: string, c: char)
    ensures Find(s, c) != "" <==> c in Letters(s)
    decreases |s|
  {
    var t := Next(s);
    if t != "" && t[0] != c { FindsLetters(t[1..], c); }
  }

  /** The parameters of the letter that `t` starts with. */
  function Group(t: string): string
    requires t != ""
  {
    t[1..|t| - |Next(t[1..])|]
  }

  /** Parameters: an opening parenthesis and all up to the closing one or the end of the list. */
  predicate IsGroup(g: string) {
    g == "" || (g[0] == '(' && forall i :: 0 <= i < |g| - 1 ==> g[i] != ')')
  }

  predicate Terminated(g: string) {
    g == "" || g[|g| - 1] == ')'
  }

  /** All parameters of the list are closed. */
  predicate Closed(s: string)
    decreases |s|
  {
    var t := Next(s);
    Terminated(if s != "" && s[0] == '(' then s[..|s| - |t|] else "") && (t != "" ==> Closed(t[1..]))
  }

  lemma {:induction false} AfterGroupExact(s: string)
    ensures var g := s[..|s| - |AfterGroup(s)|];
            (forall i :: 0 <= i < |g| - 1 ==> g[i] != ')') && (AfterGroup(s) != "" ==> g != "" && g[|g| - 1] == ')')
  {
    if s != "" && s[0] != ')' {
      AfterGroupExact(s[1..]);
      var g, h := s[..|s| - |AfterGroup(s)|], s[1..][..|s| - 1 - |AfterGroup(s)|];
      assert g == [s[0]] + h;
    }
  }

  /** Skipping leaves a suffix. */
  lemma {:induction false} AfterGroupSuffix(s: string)
    ensures AfterGroup(s) == s[|s| - |AfterGroup(s)|..]
  {
    if s != "" && s[0] != ')' {
      AfterGroupSuffix(s[1..]);
    }
  }

  lemma {:induction false} GroupExact(t: string)
    requires t != ""
    ensures IsGroup(Group(t)) && t == [t[0]] + Group(t) + Next(t[1..])
    ensures !Terminated(Group(t)) ==> Next(t[1..]) == ""
    ensures Closed(t[1..]) ==> Terminated(Group(t))
  {
    var s := t[1..];
    if s != "" && s[0] == '(' {
      AfterGroupExact(s);
      AfterGroupSuffix(s);
      assert Group(t) == s[..|s| - |AfterGroup(s)|];
    } else {
      assert Group(t) == "";
    }
  }

  lemma {:induction false} FindClosed(s: string, c: char)
    requires Closed(s)
    ensures Find(s, c) != "" ==> Closed(Find(s, c)[1..])
    decreases |s|
  {
    var t := Next(s);
    if t != "" && t[0] != c { FindClosed(t[1..], c); }
  }

  // ----- the working list in parts -----

  datatype Item = Item(letter: char, group: string)

  predicate Proper(c: char) { c != '(' && c != ')' }

  /** Letters are proper, and only the last parameters may lack the closing parenthesis. */
  ghost predicate Good(items: seq<Item>) {
    && (forall i :: 0 <= i < |items| ==> Proper(items[i].letter) && IsGroup(items[i].group))
    && (forall i :: 0 <= i < |items| - 1 ==> Terminated(items[i].group))
  }

  function Show(items: seq<Item>): string {
    if items == [] then "" else [items[0].letter] + items[0].group + Show(items[1..])
  }

  function LettersOf(items: seq<Item>): (ls: string)
    ensures |ls| == |items| && forall i :: 0 <= i < |ls| ==> ls[i] == items[i].letter
  {
    seq(|items|, i requires 0 <= i < |items| => items[i].letter)
  }

  lemma {:induction false} ShowAppend(a: seq<Item>, b: seq<Item>)
    ensures Show(a + b) == Show(a) + Show(b)
  {
    if a == [] {
      assert a + b == b;
    } else {
      ShowAppend(a[1..], b);
      ShowMore(a, b);
    }
  }

  lemma {:induction false} ShowMore(a: seq<Item>, b: seq<Item>)
    requires a != [] && Show(a[1..] + b) == Show(a[1..]) + Show(b)
    ensures Show(a + b) == Show(a) + Show(b)
  {
    hide Show;
    ShowTail(a);
    ShowTail(a + b);
    assert (a + b)[1..] == a[1..] + b && (a + b)[0] == a[0];
    Associate([a[0].letter] + a[0].group, Show(a[1..]), Show(b));
  }

  lemma {:induction false} Associate(a: string, b: string, c: string)
    ensures a + (b + c) == a + b + c
  {
  }

  lemma {:induction false} ShowTail(items: seq<Item>)
    requires items != []
    ensures Show(items) == [items[0].letter] + items[0].group + Show(items[1..])
  {
  }

  lemma {:induction false} AfterClosing(h: string, rest: string)
    requires h != "" && h[|h| - 1] == ')' && forall i :: 0 <= i < |h| - 1 ==> h[i] != ')'
    ensures AfterGroup(h + rest) == rest
  {
    if h[0] != ')' {
      AfterClosing(h[1..], rest);
      assert (h + rest)[1..] == h[1..] + rest;
    }
  }

  lemma {:induction false} NoClosing(h: string)
    requires forall i :: 0 <= i < |h| ==> h[i] != ')'
    ensures AfterGroup(h) == ""
  {
    if h != "" { NoClosing(h[1..]); }
  }

  /** Behind a letter, a scan gets over its parameters to the next letter. */
  lemma {:induction false} SkipsGroup(g: string, rest: string)
    requires IsGroup(g) && (rest != "" ==> rest[0] != '(' && Terminated(g))
    ensures Next(g + rest) == rest
  {
    if g == "" {
      assert g + rest == rest;
    } else if Terminated(g) {
      AfterClosing(g, rest);
    } else {
      assert g + rest == g;
      NoClosing(g);
    }
  }

  lemma {:induction false} ShowStarts(items: seq<Item>)
    requires Good(items)
    ensures Show(items) == "" <==> items == []
    ensures Show(items) != "" ==> Show(items)[0] == items[0].letter != '('
    ensures Next(Show(items)) == Show(items)
    ensures items != [] ==>
            Good(items[1..]) && Next(Show(items)[1..]) == Show(items[1..]) && Group(Show(items)) == items[0].group
  {
    if items != [] {
      var rest := Show(items[1..]);
      assert Show(items)[1..] == items[0].group + rest;
      SkipsGroup(items[0].group, rest);
    }
  }

  lemma {:induction false} ScanFromNext(s: string, c: char)
    requires Next(Next(s)) == Next(s)
    ensures Letters(s) == Letters(Next(s)) && Find(s, c) == Find(Next(s), c)
  {
  }

  lemma {:induction false} LettersHead(s: string)
    requires s != "" && Next(s) == s
    ensures Letters(s) == [s[0]] + Letters(s[1..])
  {
  }

  /** A scan starting behind a letter sees what one starting at the next letter sees. */
  lemma {:induction false} LettersBehindGroup(items: seq<Item>, c: char)
    requires Good(items) && items != []
    ensures Letters(Show(items)[1..]) == Letters(Show(items[1..]))
    ensures Find(Show(items)[1..], c) == Find(Show(items[1..]), c)
  {
    var s, t := Show(items)[1..], Show(items[1..]);
    assert Next(s) == t && Next(t) == t by {
      ShowStarts(items);
      ShowStarts(items[1..]);
    }
    ScanFromNext(s, c);
  }

  lemma {:induction false} LettersOfShow(items: seq<Item>)
    requires Good(items)
    ensures Letters(Show(items)) == LettersOf(items)
    decreases |items|
  {
    if items != [] {
      var t, rest := Show(items), items[1..];
      assert t != "" && Next(t) == t && t[0] == items[0].letter && Good(rest) by { ShowStarts(items); }
      LettersHead(t);
      LettersBehindGroup(items, 'x');
      LettersOfShow(rest);
      LettersOfHead(items);
    }
  }

  lemma {:induction false} LettersOfHead(items: seq<Item>)
    requires items != []
    ensures LettersOf(items) == [items[0].letter] + LettersOf(items[1..])
  {
  }

  lemma {:induction false} LettersOfAppend(a: seq<Item>, b: seq<Item>)
    ensures LettersOf(a + b) == LettersOf(a) + LettersOf(b)
    ensures |a| == 1 ==> LettersOf(a) == [a[0].letter]
  {
  }

  /** The first part with the letter; behind the last one when there is none. */
  function IndexOf(items: seq<Item>, c: char): (j: nat)
    ensures j <= |items| && (j < |items| ==> items[j].letter == c)
    ensures forall i :: 0 <= i < j ==> items[i].letter != c
  {
    if items == [] || items[0].letter == c then 0 else 1 + IndexOf(items[1..], c)
  }

  lemma {:induction false} FindItem(items: seq<Item>, c: char)
    requires Good(items)
    ensures Find(Show(items), c) == Show(items[IndexOf(items, c)..])
    decreases |items|
  {
    ShowStarts(items);
    if items != [] && items[0].letter != c {
      LettersBehindGroup(items, c);
      FindItem(items[1..], c);
      assert items[IndexOf(items, c)..] == items[1..][IndexOf(items[1..], c)..];
    }
  }

  /** The parts with another letter. */
  function Dropped(items: seq<Item>, c: char): seq<Item> {
    if items == [] then []
    else (if items[0].letter == c then [] else [items[0]]) + Dropped(items[1..], c)
  }

  // ----- parameters that lack the closing parenthesis -----

  /** How many parts disappear behind parameters that lack the closing parenthesis. */
  function Swallowed(items: seq<Item>): (k: nat)
    ensures k <= |items|
  {
    if items == [] then 0
    else if items[0].group != "" && Terminated(items[0].group) then 1
    else 1 + Swallowed(items[1..])
  }

  /** What parameters `g` that lack the closing parenthesis become in front of the parts `items`. */
  lemma {:induction false} Swallow(g: string, items: seq<Item>)
    requires Good(items) && IsGroup(g) && !Terminated(g)
    ensures var k := Swallowed(items);
            && IsGroup(g + Show(items[..k])) && (k < |items| ==> Terminated(g + Show(items[..k])))
            && g + Show(items) == g + Show(items[..k]) + Show(items[k..])
    decreases |items|
  {
    var k := Swallowed(items);
    if items == [] {
      assert g + Show(items[..0]) == g && g + Show(items) == g + Show(items[..0]) + Show(items[0..]);
    } else {
      var h := g + ([items[0].letter] + items[0].group);
      SwallowFirst(g, items, k);
      if items[0].group != "" && Terminated(items[0].group) {
        assert Show(items[1..][..0]) == "" && h + "" == h;
      } else {
        Swallow(h, items[1..]);
      }
    }
  }

  lemma {:induction false} SwallowFirst(g: string, items: seq<Item>, k: nat)
    requires Good(items) && IsGroup(g) && !Terminated(g) && 1 <= k <= |items|
    ensures var h := g + ([items[0].letter] + items[0].group);
            && IsGroup(h) && (Terminated(h) <==> items[0].group != "" && Terminated(items[0].group))
            && g + Show(items) == g + Show(items[..k]) + Show(items[k..])
            && g + Show(items[..k]) == h + Show(items[1..][..k - 1])
  {
    hide IsGroup, Show;
    SwallowedGroup(g, items[0].letter, items[0].group);
    assert items == items[..k] + items[k..];
    ShowAppend(items[..k], items[k..]);
    assert g + (Show(items[..k]) + Show(items[k..])) == g + Show(items[..k]) + Show(items[k..]);
    ShowTail(items[..k]);
    assert items[..k][1..] == items[1..][..k - 1];
    var x := [items[0].letter] + items[0].group;
    assert g + (x + Show(items[1..][..k - 1])) == g + x + Show(items[1..][..k - 1]);
  }

  lemma {:induction false} SwallowedGroup(g: string, c: char, group: string)
    requires IsGroup(g) && !Terminated(g) && Proper(c) && IsGroup(group)
    ensures var h := g + ([c] + group); IsGroup(h) && (Terminated(h) <==> group != "" && Terminated(group))
  {
  }

  ghost predicate AllTerminated(items: seq<Item>) {
    forall i :: 0 <= i < |items| ==> Terminated(items[i].group)
  }

  // ----- the parts of a list -----

  /** The parts that a scan of the list visits: its letters with their parameters. */
  function Parts(s: string): seq<Item>
    decreases |s|
  {
    var t := Next(s);
    if t == "" then [] else [Item(t[0], Group(t))] + Parts(t[1..])
  }

  lemma {:induction false} PartsLetters(s: string)
    ensures LettersOf(Parts(s)) == Letters(s)
    decreases |s|
  {
    var t := Next(s);
    if t != "" {
      PartsLetters(t[1..]);
      assert Parts(s)[1..] == Parts(t[1..]);
      LettersOfHead(Parts(s));
    }
  }

  /** The first part with a letter is what a scan for the letter finds. */
  lemma {:induction false} FindPart(s: string, c: char)
    ensures Find(s, c) == "" <==> IndexOf(Parts(s), c) == |Parts(s)|
    ensures Find(s, c) != "" ==> Parts(s)[IndexOf(Parts(s), c)] == Item(c, Group(Find(s, c)))
    decreases |s|
  {
    hide Group, Parts, Find;
    var t := Next(s);
    ScanOpens(s, c);
    if t != "" {
      var rest := Parts(t[1..]);
      if t[0] != c { FindPart(t[1..], c); }
      IndexOfFirst(Item(t[0], Group(t)), rest, c);
    }
  }

  lemma {:induction false} ScanOpens(s: string, c: char)
    ensures var t := Next(s);
            && Find(s, c) == (if t == "" || t[0] == c then t else Find(t[1..], c))
            && Parts(s) == if t == "" then [] else [Item(t[0], Group(t))] + Parts(t[1..])
  {
  }

  lemma {:induction false} IndexOfFirst(item: Item, rest: seq<Item>, c: char)
    ensures IndexOf([item] + rest, c) == if item.letter == c then 0 else 1 + IndexOf(rest, c)
  {
    assert ([item] + rest)[1..] == rest;
  }

  /** Parameters are parameters, and only the last ones may lack the closing parenthesis. */
  ghost predicate WellParted(ps: seq<Item>) {
    && (forall i :: 0 <= i < |ps| ==> IsGroup(ps[i].group))
    && (forall i :: 0 <= i < |ps| - 1 ==> Terminated(ps[i].group))
  }

  lemma {:induction false} PartsWell(s: string)
    ensures WellParted(Parts(s))
    ensures Closed(s) ==> AllTerminated(Parts(s))
    decreases |s|
  {
    var t := Next(s);
    if t != "" {
      PartsWell(t[1..]);
      GroupExact(t);
      assert Parts(s) == [Item(t[0], Group(t))] + Parts(t[1..]);
    }
  }

  // ----- reference: which letters, in which order -----

  ghost predicate Distinct(s: string) {
    forall i, j :: 0 <= i < j < |s| ==> s[i] != s[j]
  }

  /** The valid letters among those desired, each where it comes first. */
  function FirstOf(ls: string, valid: string): string {
    if ls == "" then ""
    else
      var n := |ls| - 1;
      var r := FirstOf(ls[..n], valid);
      if ls[n] in valid && ls[n] !in r then r + [ls[n]] else r
  }

  /** The letters that are also desired. */
  function Keep(ls: string, desired: string): string {
    if ls == "" then ""
    else
      var n := |ls| - 1;
      Keep(ls[..n], desired) + if ls[n] in desired then [ls[n]] else ""
  }

  lemma {:induction false} FirstOfExact(ls: string, valid: string)
    ensures Distinct(FirstOf(ls, valid)) && forall c :: c in FirstOf(ls, valid) <==> c in ls && c in valid
  {
    if ls != "" {
      var n := |ls| - 1;
      FirstOfExact(ls[..n], valid);
      assert ls == ls[..n] + [ls[n]];
    }
  }

  lemma {:induction false} KeepExact(ls: string, desired: string)
    ensures forall c :: c in Keep(ls, desired) <==> c in ls && c in desired
    ensures Sub(Keep(ls, desired), ls)
  {
    if ls != "" {
      var n := |ls| - 1;
      KeepExact(ls[..n], desired);
      assert ls == ls[..n] + [ls[n]];
      SubSnoc(Keep(ls[..n], desired), ls[..n], ls[n]);
      assert Keep(ls[..n], desired) + "" == Keep(ls[..n], desired);
    }
  }

  /** `a` is `b` with some letters left out. */
  predicate Sub(a: string, b: string)
    decreases |b|
  {
    if b == "" then a == ""
    else Sub(a, b[..|b| - 1]) || (a != "" && a[|a| - 1] == b[|b| - 1] && Sub(a[..|a| - 1], b[..|b| - 1]))
  }

  lemma {:induction false} SubSnoc(a: string, b: string, c: char)
    requires Sub(a, b)
    ensures Sub(a + [c], b + [c]) && Sub(a, b + [c])
  {
    assert (b + [c])[..|b|] == b && (a + [c])[..|a|] == a;
  }

  lemma {:induction false} SubSame(a: string, d: string)
    ensures Sub(a, a + d)
    decreases |d|, |a|
  {
    if d != "" {
      SubSame(a, d[..|d| - 1]);
      SubSnoc(a, a + d[..|d| - 1], d[|d| - 1]);
      assert a + d[..|d| - 1] + [d[|d| - 1]] == a + d;
    } else if a != "" {
      SubSame(a[..|a| - 1], "");
      assert a[..|a| - 1] + "" == a[..|a| - 1];
      SubSnoc(a[..|a| - 1], a[..|a| - 1], a[|a| - 1]);
      assert a[..|a| - 1] + [a[|a| - 1]] == a && a + "" == a;
    } else {
      assert a + d == "";
    }
  }

  lemma {:induction false} SubDrop(a: string, d: string, e: string)
    ensures Sub(a + e, a + d + e)
  {
    if e == "" {
      SubSame(a, d);
      assert a + e == a && a + d + e == a + d;
    } else {
      var f, c := e[..|e| - 1], e[|e| - 1];
      SubDrop(a, d, f);
      SubSnoc(a + f, a + d + f, c);
      assert a + f + [c] == a + e && a + d + f + [c] == a + d + e;
    }
  }

  lemma {:induction false} SubTransitive(a: string, b: string, c: string)
    requires Sub(a, b) && Sub(b, c)
    ensures Sub(a, c)
    decreases |b| + |c|
  {
    if c != "" && b != "" {
      var c0, b0 := c[..|c| - 1], b[..|b| - 1];
      if Sub(b, c0) {
        SubTransitive(a, b, c0);
      } else if Sub(a, b0) {
        SubTransitive(a, b0, c0);
      } else {
        SubTransitive(a[..|a| - 1], b0, c0);
      }
    }
  }

  lemma {:induction false} SubMember(a: string, b: string, x: char)
    requires Sub(a, b) && x in a
    ensures x in b
    decreases |b|
  {
    if b != "" {
      var b0, last := b[..|b| - 1], b[|b| - 1];
      assert b == b0 + [last];
      if Sub(a, b0) {
        SubMember(a, b0, x);
      } else if x != last {
        assert a == a[..|a| - 1] + [last];
        SubMember(a[..|a| - 1], b0, x);
      }
    }
  }

  lemma {:induction false} SubDistinct(a: string, b: string)
    requires Sub(a, b) && Distinct(b)
    ensures Distinct(a)
    decreases |b|
  {
    if b != "" {
      var b0, last := b[..|b| - 1], b[|b| - 1];
      if Sub(a, b0) {
        SubDistinct(a, b0);
      } else {
        var a0 := a[..|a| - 1];
        SubDistinct(a0, b0);
        if last in a0 { SubMember(a0, b0, last); }
        assert a == a0 + [last];
      }
    }
  }
}
