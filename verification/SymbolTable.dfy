/**
 The growing hash table of awk (cmd/awk/tran.c: makesymtab, setsymtab, lookup, rehash, freeelem, hash). A chain of
 cells is a sequence, head first.
 */
module SymbolTable {
  import opened Options

  const FULLTAB := 2
  const GROWTAB := 4

  /** A variable. Its name stays; its values are assigned through any pointer to it. */
  class Cell {
    const nval: string
    var sval: string
    var fval: real
    var tval: int

    constructor (n: string, s: string, f: real, t: int)
      ensures nval == n && sval == s && fval == f && tval == t
    {
      nval, sval, fval, tval := n, s, f, t;
    }
  }

  /** The sum over the string in 32-bit unsigned arithmetic. */
  function HashValue(s: string): (h: nat)
    ensures h < 0x1_0000_0000
  {
    if s == "" then 0 else (s[|s| - 1] as int + 31 * HashValue(s[..|s| - 1])) % 0x1_0000_0000
  }

  function Power(b: nat, n: nat): nat {
    if n == 0 then 1 else b * Power(b, n - 1)
  }

  /** The polynomial in 31 with the characters as coefficients, the last one at the lowest place. */
  function Polynomial(s: string): nat {
    if s == "" then 0 else s[0] as int * Power(31, |s| - 1) + Polynomial(s[1..])
  }

  lemma {:induction false} PolynomialLast(s: string)
    requires s != ""
    ensures Polynomial(s) == 31 * Polynomial(s[..|s| - 1]) + s[|s| - 1] as int
  {
    if |s| > 1 {
      var t := s[1..];
      PolynomialLast(t);
      assert s[..|s| - 1][1..] == t[..|t| - 1];
      assert Power(31, |s| - 1) == 31 * Power(31, |s| - 2);
    }
  }

  /** The hash value is that polynomial in 32-bit arithmetic. */
  lemma {:induction false} HashIsPolynomial(s: string)
    ensures HashValue(s) == Polynomial(s) % 4294967296
  {
    if s != "" {
      var u := s[..|s| - 1];
      HashIsPolynomial(u);
      PolynomialLast(s);
      Wraps(Polynomial(u), s[|s| - 1] as int);
    }
  }

  lemma {:induction false} Wraps(x: nat, c: nat)
    ensures (c + 31 * (x % 4294967296)) % 4294967296 == (31 * x + c) % 4294967296
  {
    var q := x / 4294967296;
    assert 31 * x + c == c + 31 * (x % 4294967296) + 4294967296 * (31 * q);
  }

  /** The chain a name belongs to. */
  function Slot(s: string, n: nat): (h: nat)
    requires n > 0
    ensures h < n
  {
    HashValue(s) % n
  }

  method Hash(s: string, n: nat) returns (h: nat)
    requires n > 0
    ensures h == Slot(s, n)
  {
    var hashval := 0;
    for i := 0 to |s|
      invariant hashval == HashValue(s[..i])
    {
      assert s[..i + 1][..i] == s[..i];
      hashval := (s[i] as int + 31 * hashval) % 0x1_0000_0000;
    }
    assert s[..|s|] == s;
    return hashval % n;
  }

  // ----- tables as values -----

  ghost function CellsOf(tab: seq<seq<Cell>>): multiset<Cell> {
    if tab == [] then multiset{} else CellsOf(tab[..|tab| - 1]) + multiset(tab[|tab| - 1])
  }

  /** Each cell sits in the chain its hash names. */
  ghost predicate Placed(tab: seq<seq<Cell>>) {
    forall i, c :: 0 <= i < |tab| && c in tab[i] ==> Slot(c.nval, |tab|) == i
  }

  /** The cells are those of a map from names, each once. */
  ghost predicate Represents(cells: multiset<Cell>, contents: map<string, Cell>) {
    && (forall c :: c in cells ==> cells[c] == 1 && c.nval in contents && contents[c.nval] == c)
    && (forall n :: n in contents ==> contents[n] in cells && contents[n].nval == n)
  }

  lemma {:induction false} Shuffle(x: multiset<Cell>, y: multiset<Cell>, a: multiset<Cell>, b: multiset<Cell>,
                                   c: multiset<Cell>)
    requires y + a == x + b
    ensures y + c + a == x + c + b
  {
    assert y + c + a == y + a + c && x + c + b == x + b + c;
  }

  lemma {:induction false} Cancel(x: multiset<Cell>, y: multiset<Cell>, a: multiset<Cell>, b: multiset<Cell>)
    requires y + a == x + (b + a)
    ensures y == x + b
  {
    assert y == (y + a) - a && x + b == (x + (b + a)) - a;
  }

  lemma {:induction false} CellsSet(tab: seq<seq<Cell>>, i: nat, chain: seq<Cell>)
    requires i < |tab|
    ensures CellsOf(tab[i := chain]) + multiset(tab[i]) == CellsOf(tab) + multiset(chain)
  {
    var n := |tab| - 1;
    var new_ := tab[i := chain];
    if i < n {
      CellsSet(tab[..n], i, chain);
      assert new_[..n] == tab[..n][i := chain] && new_[n] == tab[n] && tab[..n][i] == tab[i];
      Shuffle(CellsOf(tab[..n]), CellsOf(new_[..n]), multiset(tab[i]), multiset(chain), multiset(tab[n]));
    } else {
      assert new_[..n] == tab[..n];
    }
  }

  /** A cell of the table is in some chain, and so in the one its hash names. */
  lemma {:induction false} CellInChain(tab: seq<seq<Cell>>, c: Cell) returns (i: nat)
    requires c in CellsOf(tab)
    ensures i < |tab| && c in tab[i]
  {
    var n := |tab| - 1;
    if c in tab[n] {
      i := n;
    } else {
      i := CellInChain(tab[..n], c);
    }
  }

  lemma {:induction false} ChainInCells(tab: seq<seq<Cell>>, i: nat, c: Cell)
    requires i < |tab| && c in tab[i]
    ensures c in CellsOf(tab)
  {
    var n := |tab| - 1;
    if i < n { ChainInCells(tab[..n], i, c); }
  }

  function Blank(n: nat): (tab: seq<seq<Cell>>)
    ensures |tab| == n && forall i :: 0 <= i < n ==> tab[i] == []
  {
    if n == 0 then [] else Blank(n - 1) + [[]]
  }

  lemma {:induction false} BlankHasNone(n: nat)
    ensures CellsOf(Blank(n)) == multiset{} && Placed(Blank(n))
  {
    if n > 0 {
      BlankHasNone(n - 1);
      assert Blank(n)[..n - 1] == Blank(n - 1);
    }
  }

  /** A cell in front of the chain its hash names. */
  function InFront(tab: seq<seq<Cell>>, c: Cell): seq<seq<Cell>>
    requires tab != []
  {
    var h := Slot(c.nval, |tab|);
    tab[h := [c] + tab[h]]
  }

  lemma {:induction false} InFrontPlaced(tab: seq<seq<Cell>>, c: Cell)
    requires tab != [] && Placed(tab)
    ensures Placed(InFront(tab, c))
  {
    var h := Slot(c.nval, |tab|);
    forall i, x | 0 <= i < |tab| && x in InFront(tab, c)[i] ensures Slot(x.nval, |tab|) == i {
      if i == h && x != c { assert x in tab[h]; }
    }
  }

  lemma {:induction false} InFrontAdds(tab: seq<seq<Cell>>, c: Cell)
    requires tab != []
    ensures CellsOf(InFront(tab, c)) == CellsOf(tab) + multiset{c}
  {
    var h := Slot(c.nval, |tab|);
    CellsSet(tab, h, [c] + tab[h]);
    assert multiset([c] + tab[h]) == multiset{c} + multiset(tab[h]);
    Cancel(CellsOf(tab), CellsOf(InFront(tab, c)), multiset(tab[h]), multiset{c});
  }

  /** Looking for a name in the chain its hash names finds the cell of the map. */
  lemma {:induction false} ChainHas(tab: seq<seq<Cell>>, contents: map<string, Cell>, s: string, h: nat)
    requires tab != [] && Placed(tab) && Represents(CellsOf(tab), contents) && h == Slot(s, |tab|)
    ensures forall c :: c in tab[h] ==> c.nval in contents && contents[c.nval] == c
    ensures s in contents ==> contents[s] in tab[h]
  {
    forall c | c in tab[h] ensures c.nval in contents && contents[c.nval] == c {
      ChainInCells(tab, h, c);
    }
    if s in contents {
      var i := CellInChain(tab, contents[s]);
    }
  }

  /** A table and the map it stands for; `nelem` counts the cells. */
  ghost predicate Stands(tab: seq<seq<Cell>>, nelem: nat, contents: map<string, Cell>) {
    && tab != [] && Placed(tab) && Represents(CellsOf(tab), contents)
    && nelem == |CellsOf(tab)| == |contents|
  }

  lemma {:induction false} NotYet(cells: multiset<Cell>, contents: map<string, Cell>, c: Cell)
    requires Represents(cells, contents) && c.nval !in contents
    ensures c !in cells && Represents(cells + multiset{c}, contents[c.nval := c])
  {
  }

  lemma {:induction false} AddCell(tab: seq<seq<Cell>>, nelem: nat, contents: map<string, Cell>, c: Cell)
    requires Stands(tab, nelem, contents) && tab != [] && c.nval !in contents
    ensures Stands(InFront(tab, c), nelem + 1, contents[c.nval := c])
  {
    InFrontPlaced(tab, c);
    InFrontAdds(tab, c);
    NotYet(CellsOf(tab), contents, c);
  }

  lemma {:induction false} RemoveAt(chain: seq<Cell>, j: nat)
    requires j < |chain|
    ensures multiset(chain) == multiset(chain[..j] + chain[j + 1..]) + multiset{chain[j]}
  {
    assert chain == chain[..j] + ([chain[j]] + chain[j + 1..]);
  }

  lemma {:induction false} TakenOut(tab: seq<seq<Cell>>, h: nat, j: nat)
    requires h < |tab| && j < |tab[h]| && Placed(tab)
    ensures var new_ := tab[h := tab[h][..j] + tab[h][j + 1..]];
            Placed(new_) && CellsOf(tab) == CellsOf(new_) + multiset{tab[h][j]}
  {
    var chain := tab[h];
    var rest := chain[..j] + chain[j + 1..];
    CellsSet(tab, h, rest);
    RemoveAt(chain, j);
    assert multiset(chain) == multiset{chain[j]} + multiset(rest);
    Cancel(CellsOf(tab[h := rest]), CellsOf(tab), multiset(rest), multiset{chain[j]});
    assert forall x :: x in rest ==> x in chain;
  }

  lemma {:induction false} MapLess(contents: map<string, Cell>, n: string)
    requires n in contents
    ensures |contents - {n}| == |contents| - 1
  {
    assert contents == (contents - {n})[n := contents[n]];
  }

  lemma {:induction false} Less(rest: multiset<Cell>, cells: multiset<Cell>, contents: map<string, Cell>, c: Cell)
    requires cells == rest + multiset{c} && Represents(cells, contents)
    ensures c !in rest && c.nval in contents && contents[c.nval] == c && Represents(rest, contents - {c.nval})
  {
    assert c in cells && cells[c] == rest[c] + 1;
    forall x | x in rest ensures rest[x] == 1 && x.nval in contents - {c.nval} && contents[x.nval] == x {
      assert x in cells && cells[x] >= rest[x];
    }
  }

  lemma {:induction false} FreeCell(tab: seq<seq<Cell>>, nelem: nat, contents: map<string, Cell>, h: nat, j: nat)
    requires Stands(tab, nelem, contents) && h < |tab| && j < |tab[h]|
    ensures nelem > 0 && Stands(tab[h := tab[h][..j] + tab[h][j + 1..]], nelem - 1, contents - {tab[h][j].nval})
  {
    TakenOut(tab, h, j);
    WithoutCell(tab, nelem, contents, tab[h := tab[h][..j] + tab[h][j + 1..]], tab[h][j]);
  }

  lemma {:induction false} WithoutCell(
    tab: seq<seq<Cell>>, nelem: nat, contents: map<string, Cell>, new_: seq<seq<Cell>>, c: Cell)
    requires Stands(tab, nelem, contents) && new_ != [] && Placed(new_) && CellsOf(tab) == CellsOf(new_) + multiset{c}
    ensures nelem > 0 && Stands(new_, nelem - 1, contents - {c.nval})
  {
    Less(CellsOf(new_), CellsOf(tab), contents, c);
    MapLess(contents, c.nval);
  }

  lemma {:induction false} Moved(tab: seq<seq<Cell>>, nelem: nat, contents: map<string, Cell>, new_: seq<seq<Cell>>)
    requires Stands(tab, nelem, contents) && new_ != [] && Placed(new_) && CellsOf(new_) == CellsOf(tab)
    ensures Stands(new_, nelem, contents)
  {
  }

  lemma {:induction false} LooksUp(tab: seq<seq<Cell>>, nelem: nat, contents: map<string, Cell>, s: string)
    requires Stands(tab, nelem, contents)
    ensures tab != [] && forall c :: c in tab[Slot(s, |tab|)] ==> c.nval in contents && contents[c.nval] == c
    ensures s in contents ==> contents[s] in tab[Slot(s, |tab|)] && contents[s].nval == s
  {
    ChainHas(tab, contents, s, Slot(s, |tab|));
  }

  /** The cells of some chains, moved one by one into another table. */
  method MoveChain(np: seq<seq<Cell>>, chain: seq<Cell>) returns (r: seq<seq<Cell>>)
    requires np != [] && Placed(np)
    ensures |r| == |np| && Placed(r) && CellsOf(r) == CellsOf(np) + multiset(chain)
  {
    r := np;
    for j := 0 to |chain|
      invariant |r| == |np| && Placed(r) && CellsOf(r) == CellsOf(np) + multiset(chain[..j])
    {
      var cp := chain[j];
      InFrontPlaced(r, cp);
      InFrontAdds(r, cp);
      var nh := Hash(cp.nval, |r|);
      r := r[nh := [cp] + r[nh]];
      assert chain[..j + 1] == chain[..j] + [cp];
    }
    assert chain[..|chain|] == chain;
  }

  /** All cells, moved into a table four times as big. */
  method MoveAll(all: seq<seq<Cell>>) returns (np: seq<seq<Cell>>)
    requires all != []
    ensures |np| == GROWTAB * |all| && Placed(np) && CellsOf(np) == CellsOf(all)
  {
    np := Blank(GROWTAB * |all|);
    BlankHasNone(GROWTAB * |all|);
    for i := 0 to |all|
      invariant |np| == GROWTAB * |all| && Placed(np) && CellsOf(np) == CellsOf(all[..i])
    {
      assert all[..i + 1][..i] == all[..i];
      np := MoveChain(np, all[i]);
    }
    assert all[..|all|] == all;
  }

  /** The place of a name in a chain; behind the chain when it is not there. */
  method Search(chain: seq<Cell>, s: string) returns (j: nat)
    ensures j <= |chain| && (j < |chain| ==> chain[j].nval == s) && forall k :: 0 <= k < j ==> chain[k].nval != s
  {
    j := 0;
    while j < |chain| && chain[j].nval != s
      invariant 0 <= j <= |chain| && forall k :: 0 <= k < j ==> chain[k].nval != s
    {
      j := j + 1;
    }
  }

  // ----- the table -----

  class Array {
    var nelem: nat
    var tab: seq<seq<Cell>>
    ghost var contents: map<string, Cell>

    ghost predicate Valid()
      reads this
    {
      Stands(tab, nelem, contents) && nelem <= FULLTAB * |tab|
    }

    constructor (n: nat)
      requires n > 0
      ensures Valid() && contents == map[] && |tab| == n
    {
      BlankHasNone(n);
      nelem, tab, contents := 0, Blank(n), map[];
    }

    method Lookup(s: string) returns (p: Option<Cell>)
      requires Stands(tab, nelem, contents)
      ensures p == if s in contents then Some(contents[s]) else None
    {
      LooksUp(tab, nelem, contents, s);
      var h := Hash(s, |tab|);
      var j := Search(tab[h], s);
      return if j < |tab[h]| then Some(tab[h][j]) else None;
    }

    /** Moves the cells into a table four times as big: the map stays the same. */
    method Rehash()
      requires Stands(tab, nelem, contents)
      modifies this`tab
      ensures Stands(tab, nelem, contents) && |tab| == GROWTAB * old(|tab|)
    {
      LooksUp(tab, nelem, contents, "");
      var np := MoveAll(tab);
      Moved(tab, nelem, contents, np);
      tab := np;
    }

    /** The cell of a name; a new one when there is none. */
    method Setsymtab(n: string, s: string, f: real, t: int) returns (p: Cell)
      requires Valid()
      modifies this
      ensures Valid() && n in contents && contents[n] == p
      ensures n in old(contents) ==> contents == old(contents) && tab == old(tab)
      ensures n !in old(contents) ==>
                && fresh(p) && p.sval == s && p.fval == f && p.tval == t
                && contents == old(contents)[n := p] && nelem == old(nelem) + 1
    {
      hide Represents, Placed, CellsOf;
      var found := Lookup(n);
      if found.Some? {
        return found.value;
      }
      p := new Cell(n, s, f, t);
      if nelem + 1 > FULLTAB * |tab| {
        Rehash();
      }
      LooksUp(tab, nelem, contents, n);
      AddCell(tab, nelem, contents, p);
      var h := Hash(n, |tab|);
      tab := tab[h := [p] + tab[h]];
      nelem := nelem + 1;
      contents := contents[n := p];
    }

    /** Takes a name out of the table. */
    method Freeelem(s: string)
      requires Valid()
      modifies this
      ensures Valid() && contents == old(contents) - {s} && |tab| == old(|tab|)
    {
      hide Represents, Placed, CellsOf, Slot;
      LooksUp(tab, nelem, contents, s);
      var h := Hash(s, |tab|);
      var chain := tab[h];
      var j := Search(chain, s);
      if j < |chain| {
        FreeCell(tab, nelem, contents, h, j);
        tab := tab[h := chain[..j] + chain[j + 1..]];
        contents := contents - {s};
        nelem := nelem - 1;
      } else {
        assert contents - {s} == contents;
      }
    }
  }
}
