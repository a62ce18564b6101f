/**
 What selecting from a list and narrowing to a further one (cmd/bnu/conn.c: addProto) mean for the letters of a list
 and for the parameters that they carry, and exactly when letters are lost.
 */
module ProtocolParts {
  import opened ProtocolString
  import opened ProtocolChoice

  // ----- one merge -----

  /** How many parts a merge hides in parameters that are not closed. */
  function Hidden(items: seq<Item>, part: Item): (k: nat)
    ensures IndexOf(items, part.letter) < |items| ==> IndexOf(items, part.letter) + 1 + k <= |items|
    ensures IndexOf(items, part.letter) == |items| || Terminated(part.group) ==> k == 0
  {
    var i := IndexOf(items, part.letter);
    if i == |items| || items[i].group != "" || Terminated(part.group) then 0 else Swallowed(items[i + 1..])
  }

  lemma {:induction false} GivenLetters(todo: seq<Item>, g: string, k: nat)
    requires todo != [] && k == if Terminated(g) then 0 else Swallowed(todo[1..])
    ensures LettersOf(Given(todo, g)) == [todo[0].letter] + LettersOf(todo)[1 + k..]
  {
    hide Show, Swallowed;
    assert Given(todo, g)[1..] == todo[1 + k..];
  }

  lemma {:induction false} MergeLetters(items: seq<Item>, part: Item)
    ensures var i, k, ls := IndexOf(items, part.letter), Hidden(items, part), LettersOf(items);
            LettersOf(MergePart(items, part)) ==
              if i == |items| then ls + [part.letter] else ls[..i + 1] + ls[i + 1 + k..]
  {
    hide Given, Swallowed, IndexOf, LettersOf;
    var i, k, ls := IndexOf(items, part.letter), Hidden(items, part), LettersOf(items);
    if i == |items| {
      LettersOfAppend(items, [part]);
    } else if items[i].group == "" && part.group != "" {
      var todo := items[i..];
      assert todo[1..] == items[i + 1..];
      GivenLetters(todo, part.group, k);
      LettersOfAppend(items[..i], Given(todo, part.group));
      MergedLetters(items, i, k);
    } else {
      assert k == 0 && ls == ls[..i + 1] + ls[i + 1..];
    }
  }

  lemma {:induction false} MergedLetters(items: seq<Item>, i: nat, k: nat)
    requires i + 1 + k <= |items|
    ensures var ls := LettersOf(items);
            LettersOf(items[..i]) + ([items[i].letter] + LettersOf(items[i..])[1 + k..]) ==
              ls[..i + 1] + ls[i + 1 + k..]
  {
    var ls := LettersOf(items);
    assert LettersOf(items[..i]) == ls[..i] && LettersOf(items[i..])[1 + k..] == ls[i + 1 + k..];
  }

  /** A letter is not among the parts exactly when the search for it runs to the end. */
  lemma {:induction false} AmongLetters(items: seq<Item>, c: char)
    ensures c in LettersOf(items) <==> IndexOf(items, c) < |items|
  {
    var i, ls := IndexOf(items, c), LettersOf(items);
    if i < |items| { assert ls[i] == c; }
    if c in ls {
      var j :| 0 <= j < |ls| && ls[j] == c;
      assert items[j].letter == c;
    }
  }

  lemma {:induction false} MergeDistinct(items: seq<Item>, part: Item)
    requires Distinct(LettersOf(items))
    ensures Distinct(LettersOf(MergePart(items, part)))
  {
    hide MergePart, Hidden;
    MergeLetters(items, part);
    AmongLetters(items, part.letter);
  }

  // ----- selecting -----

  lemma {:induction false} CollectDistinct(ps: seq<Item>, valid: string)
    ensures Distinct(LettersOf(CollectParts(ps, valid)))
  {
    hide MergePart;
    if ps != [] {
      var n := |ps| - 1;
      CollectDistinct(ps[..n], valid);
      MergeDistinct(CollectParts(ps[..n], valid), ps[n]);
    }
  }

  /** Selecting loses letters: the last parameters are not closed and hide some of the parts selected before. */
  predicate CollectLoses(ps: seq<Item>, valid: string) {
    ps != [] &&
    var n := |ps| - 1;
    ps[n].letter in valid && Hidden(CollectParts(ps[..n], valid), ps[n]) > 0
  }

  /** The letters selected are the valid ones, each where it comes first, if and only if none is lost. */
  lemma {:induction false} CollectLetters(ps: seq<Item>, valid: string)
    requires WellParted(ps)
    ensures LettersOf(CollectParts(ps, valid)) == FirstOf(LettersOf(ps), valid) <==> !CollectLoses(ps, valid)
    ensures CollectParts(ps, valid) == [] <==> FirstOf(LettersOf(ps), valid) == ""
    ensures Sub(LettersOf(CollectParts(ps, valid)), FirstOf(LettersOf(ps), valid))
    ensures AllTerminated(ps) ==> !CollectLoses(ps, valid)
  {
    hide MergePart, Hidden, IndexOf, Sub;
    if ps == [] {
      SubSame("", "");
      assert "" + "" == "";
    } else {
      var n := |ps| - 1;
      var front := CollectParts(ps[..n], valid);
      CollectLetters(ps[..n], valid);
      FrontLoses(ps, valid);
      assert LettersOf(ps)[..n] == LettersOf(ps[..n]);
      if ps[n].letter in valid { CollectNext(front, ps[n], LettersOf(ps[..n]), valid); }
    }
  }

  lemma {:induction false} FrontLoses(ps: seq<Item>, valid: string)
    requires WellParted(ps) && ps != []
    ensures AllTerminated(ps[..|ps| - 1]) && !CollectLoses(ps[..|ps| - 1], valid)
  {
  }

  lemma {:induction false} CollectNext(front: seq<Item>, part: Item, seen: string, valid: string)
    requires LettersOf(front) == FirstOf(seen, valid) && part.letter in valid
    ensures var r, all := MergePart(front, part), FirstOf(seen + [part.letter], valid);
            && (LettersOf(r) == all <==> Hidden(front, part) == 0) && r != [] && all != "" && Sub(LettersOf(r), all)
  {
    hide MergePart, Hidden, Sub;
    var ls, c, i, k := LettersOf(front), part.letter, IndexOf(front, part.letter), Hidden(front, part);
    MergeLetters(front, part);
    AmongLetters(front, c);
    assert (seen + [c])[..|seen|] == seen;
    if i == |front| {
      SubSame(ls + [c], "");
      assert ls + [c] + "" == ls + [c];
    } else {
      SubDrop(ls[..i + 1], ls[i + 1..i + 1 + k], ls[i + 1 + k..]);
      assert ls == ls[..i + 1] + ls[i + 1..i + 1 + k] + ls[i + 1 + k..];
    }
  }

  /** The parameters that a letter carries. */
  function GroupOf(items: seq<Item>, c: char): string {
    var i := IndexOf(items, c);
    if i < |items| then items[i].group else ""
  }

  /** The first parameters given for a letter. */
  function FirstGroup(ps: seq<Item>, c: char): string {
    if ps == [] then ""
    else
      var n := |ps| - 1;
      var g := FirstGroup(ps[..n], c);
      if g == "" && ps[n].letter == c then ps[n].group else g
  }

  lemma {:induction false} IndexOfAppend(a: seq<Item>, b: seq<Item>, c: char)
    ensures IndexOf(a + b, c) == if IndexOf(a, c) < |a| then IndexOf(a, c) else |a| + IndexOf(b, c)
  {
    if a == [] {
      assert a + b == b;
    } else if a[0].letter != c {
      assert (a + b)[1..] == a[1..] + b;
      IndexOfAppend(a[1..], b, c);
    }
  }

  lemma {:induction false} GivenClosed(todo: seq<Item>, g: string)
    requires todo != [] && Terminated(g)
    ensures Given(todo, g) == [Item(todo[0].letter, g)] + todo[1..]
  {
    assert todo[1..1 + 0] == [] && g + Show([]) == g;
  }

  /** A merge gives parameters to its own letter, if it has none, and leaves those of the others. */
  lemma {:induction false} MergeGroups(items: seq<Item>, part: Item, c: char)
    requires Terminated(part.group)
    ensures GroupOf(MergePart(items, part), c) ==
            if c == part.letter && GroupOf(items, c) == "" then part.group else GroupOf(items, c)
  {
    hide Given;
    var i := IndexOf(items, part.letter);
    if i == |items| {
      IndexOfAppend(items, [part], c);
      assert [part][1..] == [];
    } else if items[i].group == "" && part.group != "" {
      var todo := items[i..];
      GivenClosed(todo, part.group);
      assert todo[1..] == items[i + 1..];
      HeadGroup(items, i, part.group, c);
    }
  }

  /** The group of a letter in two lists in a row. */
  lemma {:induction false} GroupOfAppend(a: seq<Item>, b: seq<Item>, c: char)
    ensures GroupOf(a + b, c) == if IndexOf(a, c) < |a| then GroupOf(a, c) else GroupOf(b, c)
  {
    hide IndexOf;
    IndexOfAppend(a, b, c);
  }

  lemma {:induction false} GroupOfHead(item: Item, rest: seq<Item>, c: char)
    ensures GroupOf([item] + rest, c) == if c == item.letter then item.group else GroupOf(rest, c)
  {
    assert ([item] + rest)[1..] == rest;
  }

  lemma {:induction false} HeadGroup(items: seq<Item>, i: nat, g: string, c: char)
    requires i < |items| && IndexOf(items, items[i].letter) == i
    ensures GroupOf(items[..i] + ([Item(items[i].letter, g)] + items[i + 1..]), c) ==
            if c == items[i].letter then g else GroupOf(items, c)
  {
    hide IndexOf, GroupOf;
    var front, rest := items[..i], items[i + 1..];
    GroupOfAppend(front, [Item(items[i].letter, g)] + rest, c);
    GroupOfHead(Item(items[i].letter, g), rest, c);
    assert items == front + ([items[i]] + rest);
    GroupOfAppend(front, [items[i]] + rest, c);
    GroupOfHead(items[i], rest, c);
  }

  /** Each selected letter carries the first parameters that the list gives for it. */
  lemma {:induction false} CollectGroups(ps: seq<Item>, valid: string, c: char)
    requires AllTerminated(ps) && c in valid
    ensures GroupOf(CollectParts(ps, valid), c) == FirstGroup(ps, c)
  {
    hide MergePart, IndexOf;
    if ps == [] {
      NoGroup(c);
    } else {
      var n := |ps| - 1;
      CollectGroups(ps[..n], valid, c);
      if ps[n].letter in valid { MergeGroups(CollectParts(ps[..n], valid), ps[n], c); }
    }
  }

  lemma {:induction false} NoGroup(c: char)
    ensures GroupOf([], c) == ""
  {
  }

  // ----- narrowing -----

  lemma {:induction false} KeepAppend(a: string, b: string, wanted: string)
    ensures Keep(a + b, wanted) == Keep(a, wanted) + Keep(b, wanted)
    decreases |b|
  {
    if b == "" {
      assert a + b == a;
    } else {
      var n := |b| - 1;
      KeepAppend(a, b[..n], wanted);
      assert (a + b)[..|a| + n] == a + b[..n];
    }
  }

  /** None of the letters is wanted. */
  predicate NoneWanted(ls: string, wanted: string) {
    forall i :: 0 <= i < |ls| ==> ls[i] !in wanted
  }

  lemma {:induction false} KeepNothing(ls: string, wanted: string)
    ensures Keep(ls, wanted) == "" <==> NoneWanted(ls, wanted)
  {
    if ls != "" {
      var n := |ls| - 1;
      KeepNothing(ls[..n], wanted);
      assert NoneWanted(ls, wanted) <==> NoneWanted(ls[..n], wanted) && ls[n] !in wanted;
    }
  }

  /** Narrowing loses letters: parameters that are not closed hide a part with a letter that is wanted. */
  predicate NarrowLoses(items: seq<Item>, wanted: seq<Item>)
    decreases |items|
  {
    items != [] &&
    var j := IndexOf(wanted, items[0].letter);
    if j == |wanted| then NarrowLoses(items[1..], wanted)
    else
      var k := Hidden(items, wanted[j]);
      !NoneWanted(LettersOf(items)[1..1 + k], LettersOf(wanted))
        || NarrowLoses(Supplied(items, wanted[j].group)[1..], wanted)
  }

  lemma {:induction false} SuppliedHidden(items: seq<Item>, part: Item)
    requires items != [] && items[0].letter == part.letter
    ensures var t, k := Supplied(items, part.group), Hidden(items, part);
            1 + k <= |items| && t[1..] == items[1 + k..] && t[0].letter == items[0].letter
    ensures var k := Hidden(items, part);
            LettersOf(items) == [items[0].letter] + (LettersOf(items)[1..1 + k] + LettersOf(items[1 + k..]))
  {
    hide Show, Swallowed;
    var k := Hidden(items, part);
    assert IndexOf(items, part.letter) == 0;
    assert LettersOf(items)[1 + k..] == LettersOf(items[1 + k..]);
  }

  lemma {:induction false} SubEqual(a: string, b: string)
    requires Sub(a, b)
    ensures |a| <= |b| && (|a| == |b| ==> a == b)
    decreases |b|
  {
    if b != "" {
      if Sub(a, b[..|b| - 1]) { SubEqual(a, b[..|b| - 1]); } else { SubEqual(a[..|a| - 1], b[..|b| - 1]); }
    }
  }

  /** The letters left are those that are wanted, in the order they had, if and only if none is lost. */
  lemma {:induction false} NarrowLetters(items: seq<Item>, wanted: seq<Item>)
    ensures LettersOf(Narrow(items, wanted)) == Keep(LettersOf(items), LettersOf(wanted)) <==>
            !NarrowLoses(items, wanted)
    ensures Sub(LettersOf(Narrow(items, wanted)), Keep(LettersOf(items), LettersOf(wanted)))
    ensures AllTerminated(wanted) ==> !NarrowLoses(items, wanted)
    decreases |items|
  {
    hide Supplied, Hidden, IndexOf, Sub, Keep;
    var ls, ws := LettersOf(items), LettersOf(wanted);
    if items == [] {
      KeepNothing("", ws);
      SubSame("", "");
      assert "" + "" == "";
    } else {
      var c := items[0].letter;
      var j := IndexOf(wanted, c);
      AmongLetters(wanted, c);
      KeepNothing([c], ws);
      KeepOne(c, ws);
      if j == |wanted| {
        assert ls == [c] + LettersOf(items[1..]);
        KeepAppend([c], LettersOf(items[1..]), ws);
        assert "" + Keep(LettersOf(items[1..]), ws) == Keep(LettersOf(items[1..]), ws);
        NarrowLetters(items[1..], wanted);
      } else {
        NarrowKeeps(items, wanted, j);
      }
    }
  }

  lemma {:induction false} KeepOne(c: char, wanted: string)
    ensures Keep([c], wanted) == if c in wanted then [c] else ""
  {
    assert [c][..0] == "";
  }

  lemma {:induction false} NarrowKeeps(items: seq<Item>, wanted: seq<Item>, j: nat)
    requires items != [] && j == IndexOf(wanted, items[0].letter) < |wanted|
    ensures LettersOf(Narrow(items, wanted)) == Keep(LettersOf(items), LettersOf(wanted)) <==>
            !NarrowLoses(items, wanted)
    ensures Sub(LettersOf(Narrow(items, wanted)), Keep(LettersOf(items), LettersOf(wanted)))
    ensures AllTerminated(wanted) ==> !NarrowLoses(items, wanted)
    decreases |items|, 0
  {
    hide Supplied, Hidden, IndexOf, Sub, Keep;
    var ls, ws, c, k := LettersOf(items), LettersOf(wanted), items[0].letter, Hidden(items, wanted[j]);
    AmongLetters(wanted, c);
    KeepOne(c, ws);
    SuppliedHidden(items, wanted[j]);
    var rest := items[1 + k..];
    var gone, left := ls[1..1 + k], Narrow(rest, wanted);
    NarrowLetters(rest, wanted);
    KeepAppend([c], gone + LettersOf(rest), ws);
    KeepAppend(gone, LettersOf(rest), ws);
    KeepNothing(gone, ws);
    NarrowOpen(items, wanted);
    assert Narrow(items, wanted) == [Supplied(items, wanted[j].group)[0]] + left;
    assert LettersOf(Narrow(items, wanted)) == [c] + LettersOf(left);
    assert Keep(ls, ws) == [c] + (Keep(gone, ws) + Keep(LettersOf(rest), ws));
    HeadSub(c, LettersOf(left), Keep(gone, ws), Keep(LettersOf(rest), ws));
  }

  lemma {:induction false} HeadSub(c: char, a: string, d: string, b: string)
    requires Sub(a, b)
    ensures Sub([c] + a, [c] + (d + b))
    ensures [c] + a == [c] + (d + b) <==> d == "" && a == b
  {
    SubEqual(a, b);
    SubDrop([c], d, "");
    SubGrow([c], [c] + d, a, b);
    assert [c] + d + b == [c] + (d + b);
    if [c] + a == [c] + (d + b) { assert ([c] + a)[1..] == a && ([c] + (d + b))[1..] == d + b; assert "" + b == b; }
    if d == "" { assert d + b == b; }
  }

  lemma {:induction false} SubGrow(x: string, y: string, a: string, b: string)
    requires Sub(a, b) && (Sub(x, y) || Sub(x + "", y + ""))
    ensures Sub(x + a, y + b)
    decreases |b|
  {
    assert x + "" == x && y + "" == y;
    if b == "" {
      assert x + a == x && y + b == y;
    } else {
      var b0, z := b[..|b| - 1], b[|b| - 1];
      assert y + b == y + b0 + [z];
      if Sub(a, b0) {
        SubGrow(x, y, a, b0);
        SubSnoc(x + a, y + b0, z);
      } else {
        SubGrow(x, y, a[..|a| - 1], b0);
        SubSnoc(x + a[..|a| - 1], y + b0, z);
        assert x + a == x + a[..|a| - 1] + [z];
      }
    }
  }

  /** Each letter left keeps its parameters, or takes those of the further list if it has none. */
  lemma {:induction false} NarrowGroups(items: seq<Item>, wanted: seq<Item>, c: char)
    requires AllTerminated(wanted) && c in LettersOf(wanted) && c in LettersOf(items)
    ensures GroupOf(Narrow(items, wanted), c) ==
            if GroupOf(items, c) != "" then GroupOf(items, c) else GroupOf(wanted, c)
    decreases |items|
  {
    hide Supplied, Narrow, Hidden;
    var c0 := items[0].letter;
    var j := IndexOf(wanted, c0);
    AmongLetters(wanted, c0);
    LettersOfHead(items);
    if j == |wanted| {
      NarrowDrops(items, wanted);
      NarrowGroups(items[1..], wanted, c);
    } else {
      NarrowOpen(items, wanted);
      SuppliedGroup(items, wanted[j].group);
      var t := Supplied(items, wanted[j].group);
      assert ([t[0]] + Narrow(t[1..], wanted))[1..] == Narrow(t[1..], wanted);
      if c != c0 { NarrowGroups(items[1..], wanted, c); }
    }
  }

  lemma {:induction false} NarrowDrops(items: seq<Item>, wanted: seq<Item>)
    requires items != [] && IndexOf(wanted, items[0].letter) == |wanted|
    ensures Narrow(items, wanted) == Narrow(items[1..], wanted)
  {
  }

  lemma {:induction false} SuppliedGroup(items: seq<Item>, g: string)
    requires items != [] && Terminated(g)
    ensures var t := Supplied(items, g);
            t[1..] == items[1..] && t[0] == Item(items[0].letter, if items[0].group == "" then g else items[0].group)
  {
    hide Given;
    GivenClosed(items, g);
  }
}
