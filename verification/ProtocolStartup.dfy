/**
 The protocols an end offers (cmd/bnu/conn.c: protoString, addProto) and the choice of one by the two ends of
 a connection (cmd/bnu/cntrl.c: startup, fptcl, blptcl).
 */
module ProtocolStartup {
  import opened ProtocolString
  import opened ProtocolChoice
  import opened ProtocolParts

  // ----- reference: the lists in parts -----

  /** The working list and the valid letters. */
  datatype Lists = Lists(items: seq<Item>, valid: string)

  /** What a list makes of them: the first that has valid letters selects, a further one narrows. */
  function After(l: Lists, desired: string): Lists {
    if desired == "" then l
    else if l.items == [] then
      var r := CollectParts(Parts(desired), l.valid);
      Lists(r, if r == [] then l.valid else LettersOf(r))
    else
      var r := Narrow(l.items, Parts(desired));
      Lists(r, LettersOf(r))
  }

  function AfterAll(l: Lists, lists: seq<string>): Lists
    decreases |lists|
  {
    if lists == [] then l else AfterAll(After(l, lists[0]), lists[1..])
  }

  /** Letters without parameters, as parts. */
  function Bare(valid: string): (items: seq<Item>)
    ensures LettersOf(items) == valid
  {
    seq(|valid|, i requires 0 <= i < |valid| => Item(valid[i], ""))
  }

  lemma {:induction false} ShowBare(valid: string)
    requires forall i :: 0 <= i < |valid| ==> Proper(valid[i])
    ensures Good(Bare(valid)) && Show(Bare(valid)) == valid
  {
    if valid != "" {
      ShowBare(valid[1..]);
      assert Bare(valid)[1..] == Bare(valid[1..]);
    }
  }

  /** What an end offers: what its lists select, or else all it has. */
  function OfferedParts(compiled: string, lists: seq<string>): seq<Item> {
    var r := AfterAll(Lists([], compiled), lists).items;
    if r == [] then Bare(compiled) else r
  }

  // ----- reference: the letters -----

  /** The letters that a list leaves, when `current` are those of the working list. */
  function Picked(current: string, valid: string, desired: string): string {
    if desired == "" then current
    else if current == "" then FirstOf(Letters(desired), valid)
    else Keep(current, Letters(desired))
  }

  function Settled(current: string, valid: string, lists: seq<string>): string
    decreases |lists|
  {
    if lists == [] then current
    else
      var r := Picked(current, valid, lists[0]);
      Settled(r, if lists[0] == "" || (current == "" && r == "") then valid else r, lists[1..])
  }

  /** The letters that an end offers when its lists hide none. */
  function Offered(compiled: string, lists: seq<string>): string {
    var r := Settled("", compiled, lists);
    if r == "" then compiled else r
  }

  // ----- exactly when letters are lost -----

  /** A list whose last parameters are not closed makes letters disappear. */
  predicate Loses(l: Lists, desired: string) {
    desired != "" &&
    if l.items == [] then CollectLoses(Parts(desired), l.valid) else NarrowLoses(l.items, Parts(desired))
  }

  /**
   The letters after a list are those picked by it, if and only if none is lost; lost ones are the only difference.
   */
  lemma {:induction false} AfterExact(l: Lists, desired: string)
    ensures var picked := Picked(LettersOf(l.items), l.valid, desired);
            && (LettersOf(After(l, desired).items) == picked <==> !Loses(l, desired))
            && Sub(LettersOf(After(l, desired).items), picked)
    ensures Closed(desired) ==> !Loses(l, desired)
  {
    hide CollectParts, Narrow, Parts, CollectLoses, NarrowLoses, Sub, FirstOf, Keep, Letters;
    PartsLetters(desired);
    PartsWell(desired);
    if desired == "" {
      SubSame(LettersOf(l.items), "");
      assert LettersOf(l.items) + "" == LettersOf(l.items);
    } else if l.items == [] {
      CollectLetters(Parts(desired), l.valid);
    } else {
      NarrowLetters(l.items, Parts(desired));
    }
  }

  /** The list "ege(3" selects both of the valid letters "eg", but its open parameters, given to the e, hide the g. */
  lemma {:induction false} OpenParametersHideALetter()
    ensures OfferedParts("eg", ["ege(3"]) == [Item('e', "(3g")]
    ensures Offered("eg", ["ege(3"]) == "eg"
  {
    hide CollectParts, MergePart, FirstOf, Letters, Parts;
    var e, g, e' := Item('e', ""), Item('g', ""), Item('e', "(3");
    ExampleParts(e, g, e');
    PartsLetters("ege(3");
    assert LettersOf([e, g, e']) == "ege";
    ExampleLetters("eg");
    ExampleMerges(e, g, e');
    assert [] + [e] == [e] && [e] + [g] == [e, g] && [e, g] + [e'] == [e, g, e'];
    CollectMore([], "eg", e);
    CollectMore([e], "eg", g);
    CollectMore([e, g], "eg", e');
    NothingCollected("eg");
  }

  lemma {:induction false} NothingCollected(valid: string)
    ensures CollectParts([], valid) == []
  {
  }

  lemma {:induction false} ExampleParts(e: Item, g: Item, e': Item)
    requires e == Item('e', "") && g == Item('g', "") && e' == Item('e', "(3")
    ensures Parts("ege(3") == [e, g, e']
  {
    var open := "(3";
    NoClosing(open);
    assert Next(open) == "";
    var s1, s2 := "ge(3", "e(3";
    assert s2[1..] == open && s1[1..] == s2 && "ege(3"[1..] == s1;
    assert Parts(open) == [];
    PartStep(s2, s2);
    assert Group(s2) == s2[1..] && Parts(s2) == [e'] + [];
    PartStep(s1, s1);
    assert Group(s1) == "" && Parts(s1) == [g] + [e'];
    var s0 := "ege(3";
    PartStep(s0, s0);
    assert Group(s0) == "" && Parts(s0) == [e] + [g, e'];
  }

  lemma {:induction false} ExampleLetters(valid: string)
    requires valid == "eg"
    ensures FirstOf("ege", valid) == "eg"
  {
    assert FirstOf("", valid) == "";
    assert "e"[..0] == "" && "eg"[..1] == "e" && "ege"[..2] == "eg";
    assert FirstOf("e", valid) == "e";
    assert FirstOf("eg", valid) == "eg";
  }

  lemma {:induction false} ExampleMerges(e: Item, g: Item, e': Item)
    requires e == Item('e', "") && g == Item('g', "") && e' == Item('e', "(3")
    ensures MergePart([], e) == [e] && MergePart([e], g) == [e, g] && MergePart([e, g], e') == [Item('e', "(3g")]
  {
    hide Given;
    assert [e][1..] == [] && [e] + [g] == [e, g] && [] + [e] == [e];
    ExampleGiven([e, g], e'.group);
    MergesFirst([e, g], e');
  }

  lemma {:induction false} ExampleGiven(todo: seq<Item>, open: string)
    requires todo == [Item('e', ""), Item('g', "")] && open == "(3"
    ensures Given(todo, open) == [Item('e', "(3g")]
  {
    var g := Item('g', "");
    assert todo[1..] == [g] && [g][1..] == [] && todo[1..1 + 1] == [g] && todo[1 + 1..] == [];
    assert Swallowed([g]) == 1 && Show([g]) == "g" && !Terminated(open);
    assert open + "g" == "(3g";
  }

  // ----- what an end offers -----

  /** Letters in order, what is left of a selection. */
  ghost predicate Settling(l: Lists) {
    Good(l.items) && Distinct(LettersOf(l.items)) && Plain(l.valid) && (l.items != [] ==> l.valid == LettersOf(l.items))
  }

  lemma {:induction false} ClosedSettled(l: Lists, lists: seq<string>)
    requires forall i :: 0 <= i < |lists| ==> Closed(lists[i])
    ensures LettersOf(AfterAll(l, lists).items) == Settled(LettersOf(l.items), l.valid, lists)
    decreases |lists|
  {
    hide CollectParts, Narrow, Parts, Loses, Picked;
    if lists != [] {
      AfterExact(l, lists[0]);
      AfterValid(l, lists[0]);
      ClosedSettled(After(l, lists[0]), lists[1..]);
    }
  }

  /** The valid letters after a list. */
  lemma {:induction false} AfterValid(l: Lists, desired: string)
    ensures After(l, desired).valid ==
            if desired == "" || (l.items == [] && After(l, desired).items == []) then l.valid
            else LettersOf(After(l, desired).items)
  {
  }

  /** When all parameters are closed an end offers the letters of the reference. */
  lemma {:induction false} ClosedOffered(compiled: string, lists: seq<string>)
    requires forall i :: 0 <= i < |lists| ==> Closed(lists[i])
    ensures LettersOf(OfferedParts(compiled, lists)) == Offered(compiled, lists)
  {
    ClosedSettled(Lists([], compiled), lists);
  }

  lemma {:induction false} FirstOfNothing(ls: string)
    ensures FirstOf(ls, "") == ""
  {
    if ls != "" { FirstOfNothing(ls[..|ls| - 1]); }
  }

  /** The first list that has letters among the compiled ones. */
  function FirstGiving(lists: seq<string>, compiled: string): (i: nat)
    ensures i <= |lists| && (i < |lists| ==> FirstOf(Letters(lists[i]), compiled) != "")
    ensures forall j :: 0 <= j < i ==> FirstOf(Letters(lists[j]), compiled) == ""
  {
    if lists == [] || FirstOf(Letters(lists[0]), compiled) != "" then 0 else 1 + FirstGiving(lists[1..], compiled)
  }

  /** Every one of the lists that is there has the letter. */
  predicate AllHave(lists: seq<string>, c: char) {
    forall i :: 0 <= i < |lists| ==> lists[i] == "" || c in Letters(lists[i])
  }

  lemma {:induction false} AllHaveHead(lists: seq<string>, c: char)
    requires lists != []
    ensures AllHave(lists, c) <==> (lists[0] == "" || c in Letters(lists[0])) && AllHave(lists[1..], c)
  {
    if (lists[0] == "" || c in Letters(lists[0])) && AllHave(lists[1..], c) {
      forall i | 0 <= i < |lists| ensures lists[i] == "" || c in Letters(lists[i]) {
        if i > 0 { assert lists[i] == lists[1..][i - 1]; }
      }
    }
  }

  /** Once letters are selected, further lists leave those that all have, in their order. */
  lemma {:induction false} SettledNarrows(current: string, lists: seq<string>, c: char)
    ensures c in Settled(current, current, lists) <==> c in current && AllHave(lists, c)
    ensures Sub(Settled(current, current, lists), current)
    decreases |lists|
  {
    if lists == [] {
      SubSame(current, "");
      assert current + "" == current;
    } else {
      hide Sub, Letters, Keep, FirstOf, AllHave;
      var r := Picked(current, current, lists[0]);
      PickedNarrows(current, lists[0], c);
      AllHaveHead(lists, c);
      SettledNarrows(r, lists[1..], c);
      SubTransitive(Settled(r, r, lists[1..]), r, current);
    }
  }

  lemma {:induction false} PickedNarrows(current: string, desired: string, c: char)
    ensures var r := Picked(current, current, desired);
            (c in r <==> c in current && (desired == "" || c in Letters(desired))) && Sub(r, current)
  {
    hide Sub, Letters, Keep, FirstOf;
    KeepExact(current, Letters(desired));
    FirstOfNothing(Letters(desired));
    SubSame(current, "");
    assert current + "" == current;
  }

  lemma {:induction false} SettledFrom(compiled: string, lists: seq<string>)
    ensures var i := FirstGiving(lists, compiled);
            Settled("", compiled, lists) ==
            if i == |lists| then ""
            else Settled(FirstOf(Letters(lists[i]), compiled), FirstOf(Letters(lists[i]), compiled), lists[i + 1..])
    decreases |lists|
  {
    hide FirstOf;
    if lists != [] {
      if lists[0] == "" { NothingFrom(compiled); }
      if FirstOf(Letters(lists[0]), compiled) == "" {
        SettledFrom(compiled, lists[1..]);
        var i := FirstGiving(lists[1..], compiled);
        if i < |lists| - 1 { assert lists[1..][i + 1..] == lists[i + 2..]; }
      }
    }
  }

  lemma {:induction false} NothingFrom(valid: string)
    ensures FirstOf(Letters(""), valid) == ""
  {
  }

  /** The letter is compiled in, and the first list that selects something and all later ones that are there have it. */
  predicate Common(compiled: string, lists: seq<string>, c: char) {
    var i := FirstGiving(lists, compiled);
    i < |lists| && c in compiled && c in Letters(lists[i]) && AllHave(lists[i + 1..], c)
  }

  /**
   An end offers what the first list that selects something and all later ones have in common, in the order of that
   first list; when they have nothing in common or no list selects anything, it offers everything.
   */
  lemma {:induction false} OfferedExactly(compiled: string, lists: seq<string>)
    ensures if exists c :: Common(compiled, lists, c)
            then && (forall c :: c in Offered(compiled, lists) <==> Common(compiled, lists, c))
                 && Sub(Offered(compiled, lists), FirstOf(Letters(lists[FirstGiving(lists, compiled)]), compiled))
            else Offered(compiled, lists) == compiled
  {
    hide Sub, Letters, FirstOf, AllHave, Settled, FirstGiving;
    var i, r := FirstGiving(lists, compiled), Settled("", compiled, lists);
    SettledFrom(compiled, lists);
    if i < |lists| {
      var first := FirstOf(Letters(lists[i]), compiled);
      FirstOfExact(Letters(lists[i]), compiled);
      forall c ensures c in r <==> Common(compiled, lists, c) { SettledNarrows(first, lists[i + 1..], c); }
      SettledNarrows(first, lists[i + 1..], 'x');
      assert r != "" ==> r[0] in r;
    }
  }

  // ----- whatever the parameters -----

  lemma {:induction false} AfterAllNarrows(l: Lists, lists: seq<string>, c: char)
    requires l.items != [] || l.valid == ""
    ensures c in LettersOf(AfterAll(l, lists).items) ==> c in LettersOf(l.items) && AllHave(lists, c)
    ensures Sub(LettersOf(AfterAll(l, lists).items), LettersOf(l.items))
    decreases |lists|
  {
    hide Sub, Letters, Keep, FirstOf, AllHave, Picked, After;
    if lists == [] {
      SubSame(LettersOf(l.items), "");
      assert LettersOf(l.items) + "" == LettersOf(l.items) && AllHave([], c) by { NoLists(c); }
    } else {
      var m := After(l, lists[0]);
      AfterNarrows(l, lists[0], c);
      AllHaveHead(lists, c);
      AfterAllNarrows(m, lists[1..], c);
      SubTransitive(LettersOf(AfterAll(m, lists[1..]).items), LettersOf(m.items), LettersOf(l.items));
    }
  }

  lemma {:induction false} NoLists(c: char)
    ensures AllHave([], c)
  {
  }

  lemma {:induction false} AfterNarrows(l: Lists, desired: string, c: char)
    requires l.items != [] || l.valid == ""
    ensures var m := After(l, desired);
            && (c in LettersOf(m.items) ==> c in LettersOf(l.items) && (desired == "" || c in Letters(desired)))
            && Sub(LettersOf(m.items), LettersOf(l.items)) && (m.items != [] || m.valid == "")
  {
    hide Sub, Letters, Keep, FirstOf, Loses, CollectParts, Narrow;
    var ls, m := LettersOf(l.items), After(l, desired);
    AfterExact(l, desired);
    KeepExact(ls, Letters(desired));
    FirstOfNothing(Letters(desired));
    var picked := Picked(ls, l.valid, desired);
    assert Sub(picked, ls) by {
      SubSame(ls, "");
      assert ls + "" == ls;
    }
    SubTransitive(LettersOf(m.items), picked, ls);
    if c in LettersOf(m.items) { SubMember(LettersOf(m.items), picked, c); }
  }

  /** Whatever the parameters, an end offers everything or letters that its lists have in common, in their order. */
  lemma {:induction false} OfferedOnlyCommon(compiled: string, lists: seq<string>, c: char)
    ensures var i, r := FirstGiving(lists, compiled), AfterAll(Lists([], compiled), lists).items;
            && (c in LettersOf(r) ==> Common(compiled, lists, c))
            && (if i == |lists| then r == [] else Sub(LettersOf(r), FirstOf(Letters(lists[i]), compiled)))
    decreases |lists|
  {
    hide Sub, Letters, FirstOf, AllHave, Loses, CollectParts, After;
    if lists != [] {
      var l := Lists([], compiled);
      var m := After(l, lists[0]);
      FirstAfter(compiled, lists[0]);
      if FirstOf(Letters(lists[0]), compiled) == "" {
        OfferedOnlyCommon(compiled, lists[1..], c);
        var i := FirstGiving(lists[1..], compiled);
        assert FirstGiving(lists, compiled) == i + 1;
        if i < |lists| - 1 { assert lists[1..][i + 1..] == lists[i + 2..]; }
      } else {
        var first := FirstOf(Letters(lists[0]), compiled);
        assert FirstGiving(lists, compiled) == 0;
        AfterAllNarrows(m, lists[1..], c);
        SubTransitive(LettersOf(AfterAll(m, lists[1..]).items), LettersOf(m.items), first);
        FirstOfExact(Letters(lists[0]), compiled);
        if c in LettersOf(m.items) { SubMember(LettersOf(m.items), first, c); }
      }
    }
  }

  lemma {:induction false} FirstAfter(compiled: string, desired: string)
    ensures var m, first := After(Lists([], compiled), desired), FirstOf(Letters(desired), compiled);
            Sub(LettersOf(m.items), first) && if first == "" then m == Lists([], compiled) else m.items != []
  {
    hide Sub, CollectParts, Loses, FirstOf;
    AfterExact(Lists([], compiled), desired);
    PartsLetters(desired);
    PartsWell(desired);
    CollectLetters(Parts(desired), compiled);
    if desired == "" { NothingFrom(compiled); }
  }

  // ----- an end -----

  lemma {:induction false} LettersNext(s: string, t: string, r: string)
    requires t == Next(s) != ""
    ensures r + Letters(s) == r + [t[0]] + Letters(t[1..])
  {
  }

  /** The letters of a list, one by one. */
  method CopyLetters(s: string) returns (r: string)
    ensures r == Letters(s)
  {
    r := "";
    var p: nat := 0;
    while true
      invariant p <= |s| && r + Letters(s[p..]) == Letters(s)
      decreases |s| - p
    {
      var q: nat := NextProto(s, p);
      if q == |s| {
        return;
      }
      LettersNext(s[p..], s[q..], r);
      assert s[q..][1..] == s[q + 1..];
      r := r + [s[q]];
      p := q + 1;
    }
  }

  class End {
    /** The working list, with parameters. */
    var protocol: string
    /** The valid letters. */
    var valid: string
    ghost var items: seq<Item>

    ghost predicate Valid()
      reads this
    {
      Settling(Current()) && protocol == Show(items)
    }

    ghost function Current(): Lists
      reads this
    {
      Lists(items, valid)
    }

    constructor (compiled: string)
      requires Plain(compiled)
      ensures Valid() && protocol == "" && valid == compiled && items == []
    {
      protocol, valid, items := "", compiled, [];
    }

    /** Selects from or narrows the lists. */
    method AddProto(desired: string)
      requires Valid()
      modifies this
      ensures Valid() && Current() == After(old(Current()), desired)
    {
      hide CollectParts, Narrow, Parts, Show;
      if desired == "" {
        return;
      }
      ShowStarts(items);
      if protocol != "" {
        protocol, valid := Intersect(desired, protocol, valid, items);
        items := Narrow(items, Parts(desired));
      } else {
        protocol := Collect(desired, valid);
        CollectDistinct(Parts(desired), valid);
        items := CollectParts(Parts(desired), valid);
      }
      ShowStarts(items);
      if protocol != "" {
        LettersOfShow(items);
        valid := CopyLetters(protocol);
      }
    }

    /** Builds the working list from the lists of the system, the device and the configuration. */
    method ProtoString(sys: string, dev: string, cfg: string)
      requires Plain(valid)
      modifies this
      ensures Valid() && items == OfferedParts(old(valid), [sys, dev, cfg])
      ensures valid == Letters(protocol) == LettersOf(items)
    {
      hide After, Show;
      var save := valid;
      protocol, items := "", [];
      NothingShown();
      ghost var l := Current();
      AddProto(sys);
      AddProto(dev);
      AddProto(cfg);
      ThreeLists(l, sys, dev, cfg);
      ShowStarts(items);
      if protocol == "" {
        valid := save;
        protocol, items := save, Bare(save);
        ShowBare(save);
      }
      LettersOfShow(items);
    }

    /** Chooses the first valid letter that is in `str`, and moves the working list to its parameters. */
    method Fptcl(str: string) returns (ok: bool, chosen: char)
      requires Valid() && valid == Letters(protocol)
      modifies this`protocol
      ensures ok <==> exists c :: c in valid && c in str
      ensures ok ==> FirstIn(valid, str, chosen) && protocol == Find(old(protocol), chosen) != ""
      ensures !ok ==> protocol == old(protocol)
    {
      var l := 0;
      chosen := ' ';
      while l < |valid|
        invariant 0 <= l <= |valid| && protocol == old(protocol)
        invariant forall j :: 0 <= j < l ==> valid[j] !in str
      {
        if valid[l] in str {
          chosen := valid[l];
          FindsLetters(protocol, chosen);
          assert protocol[0..] == protocol;
          var j := FindProto(protocol, 0, chosen);
          protocol := protocol[j..];
          return true, chosen;
        }
        l := l + 1;
      }
      ok := false;
    }
  }

  lemma {:induction false} NothingShown()
    ensures Show([]) == ""
  {
  }

  lemma {:induction false} ThreeLists(l: Lists, sys: string, dev: string, cfg: string)
    ensures AfterAll(l, [sys, dev, cfg]) == After(After(After(l, sys), dev), cfg)
  {
    hide After;
    var m := After(After(l, sys), dev);
    assert [sys, dev, cfg][1..] == [dev, cfg] && [dev, cfg][1..] == [cfg] && [cfg][1..] == [];
    assert AfterAll(m, [cfg]) == After(m, cfg);
    assert AfterAll(After(l, sys), [dev, cfg]) == AfterAll(m, [cfg]);
  }

  /** `c` is the first letter of the list that is also in `str`. */
  ghost predicate FirstIn(list: string, str: string, c: char) {
    exists i :: 0 <= i < |list| && list[i] == c && c in str && forall j :: 0 <= j < i ==> list[j] !in str
  }

  const NO := 'N'

  /** The exchange of the two ends: the slave sends its list, the master answers with its choice or a refusal. */
  method Startup(master: End, slave: End) returns (masterOk: bool, slaveOk: bool, m: char, s: char)
    requires master != slave && master.Valid() && slave.Valid()
    requires master.valid == Letters(master.protocol) && slave.valid == Letters(slave.protocol)
    modifies master`protocol, slave`protocol
    ensures masterOk <==> exists c :: c in old(master.valid) && c in old(slave.valid)
    ensures masterOk ==> slaveOk && s == m && FirstIn(old(master.valid), old(slave.valid), m)
    ensures masterOk ==>
            master.protocol == Find(old(master.protocol), m) && slave.protocol == Find(old(slave.protocol), m)
    ensures !masterOk ==> (slaveOk <==> NO in old(slave.valid))
  {
    var offer := slave.valid;
    masterOk, m := master.Fptcl(offer);
    var reply := if masterOk then [m] else [NO];
    slaveOk, s := slave.Fptcl(reply);
    assert reply[0] in reply;
  }

  /** The parameters an end has for a letter are those of the part of what it offers. */
  lemma {:induction false} ChosenParameters(items: seq<Item>, c: char)
    requires Good(items) && c in LettersOf(items)
    ensures var p := Find(Show(items), c); p != "" && p[0] == c && Group(p) == GroupOf(items, c)
  {
    hide Show, Find, Group;
    FindItem(items, c);
    AmongLetters(items, c);
    var i := IndexOf(items, c);
    ShowStarts(items[i..]);
  }

  /**
   From their configurations both ends settle on the first protocol of the master that the slave offers, each with the
   parameters of its own lists; or the master fails, and the slave too unless it offers the letter of the refusal.
   */
  method Agree(compiled: string, ours: seq<string>, compiled': string, theirs: seq<string>)
    returns (masterOk: bool, slaveOk: bool, m: char, s: char, mList: string, sList: string)
    requires Plain(compiled) && Plain(compiled') && |ours| == |theirs| == 3
    ensures var a, b := OfferedParts(compiled, ours), OfferedParts(compiled', theirs);
            && (masterOk <==> exists c :: c in LettersOf(a) && c in LettersOf(b))
            && (masterOk ==> FirstIn(LettersOf(a), LettersOf(b), m) && s == m)
            && (masterOk ==>
              mList != "" && sList != "" && Group(mList) == GroupOf(a, m) && Group(sList) == GroupOf(b, m))
            && (masterOk == slaveOk <==> masterOk || NO !in LettersOf(b))
  {
    hide OfferedParts, Show, Find, Group;
    var master := new End(compiled);
    var slave := new End(compiled');
    master.ProtoString(ours[0], ours[1], ours[2]);
    slave.ProtoString(theirs[0], theirs[1], theirs[2]);
    assert ours == [ours[0], ours[1], ours[2]] && theirs == [theirs[0], theirs[1], theirs[2]];
    ghost var a, b := master.items, slave.items;
    masterOk, slaveOk, m, s := Startup(master, slave);
    mList, sList := master.protocol, slave.protocol;
    if masterOk {
      ChosenParameters(a, m);
      ChosenParameters(b, m);
    }
  }
}
