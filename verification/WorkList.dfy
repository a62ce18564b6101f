/**
 The list of work files (cmd/bnu/anlwrk.c: bldflst, insert): a bounded insertion sort of names through
 pointers into a table of text slots.
 */
module WorkList {
  import opened Strcmp

  const LLEN := 50

  /** MAXBASENAME - 2 - SYSNSIZE */
  const SUFSIZE := 14 - 2 - 7

  ghost predicate Sorted(names: seq<string>) {
    forall i, j :: 0 <= i < j < |names| ==> !Less(names[j], names[i])
  }

  // ----- the reference: the 50 smallest of what was offered -----

  /** `names` are the smallest of the offered names, in order, at most 50. */
  ghost predicate Smallest(names: seq<string>, offered: multiset<string>) {
    && Sorted(names) && multiset(names) <= offered
    && |names| == (if |offered| <= LLEN then |offered| else LLEN)
    && (forall x, y :: x in offered - multiset(names) && y in names ==> !Less(x, y))
  }

  /** Where a name goes: behind the last one that is smaller. */
  predicate GoesAt(names: seq<string>, file: string, i: nat) {
    i <= |names| && (i > 0 ==> Less(names[i - 1], file)) && forall k :: i <= k < |names| ==> !Less(names[k], file)
  }

  function Inserted(names: seq<string>, file: string, i: nat): seq<string>
    requires i <= |names|
  {
    var longer := names[..i] + [file] + names[i..];
    if |longer| <= LLEN then longer else longer[..LLEN]
  }

  lemma {:induction false} InsertedRest(names: seq<string>, file: string, i: nat, n: nat)
    requires i <= n == (if |names| == LLEN then LLEN - 1 else |names|) < LLEN
    ensures Inserted(names, file, i) == names[..n][..i] + [file] + names[..n][i..]
  {
  }

  lemma {:induction false} InsertSorts(names: seq<string>, file: string, i: nat)
    requires Sorted(names) && GoesAt(names, file, i)
    ensures Sorted(names[..i] + [file] + names[i..])
  {
    var longer := names[..i] + [file] + names[i..];
    forall a, b | 0 <= a < b < |longer| ensures !Less(longer[b], longer[a]) {
      if a < i && b == i {
        LessTotal(names[i - 1], file);
        if a < i - 1 { LessTransitive(names[a], names[i - 1], file); }
      }
    }
  }

  lemma {:induction false} InsertCounts(names: seq<string>, file: string, i: nat)
    requires i <= |names|
    ensures multiset(names[..i] + [file] + names[i..]) == multiset(names) + multiset{file}
  {
    assert names == names[..i] + names[i..];
  }

  /** What is left over grows by the name that falls off the end. */
  lemma {:induction false} LeftOver(
    offered: multiset<string>, names: multiset<string>, kept: multiset<string>, file: string, last: string)
    requires names <= offered && kept + multiset{last} == names + multiset{file}
    ensures kept <= offered + multiset{file}
    ensures offered + multiset{file} - kept == offered - names + multiset{last}
  {
    forall x
      ensures kept[x] <= (offered + multiset{file})[x]
      ensures (offered + multiset{file} - kept)[x] == (offered - names + multiset{last})[x]
    {
      assert (kept + multiset{last})[x] == (names + multiset{file})[x];
    }
  }

  /** A full list: the largest of the 51 names is dropped. */
  lemma {:induction false} FullInsertKeepsSmallest(names: seq<string>, offered: multiset<string>, file: string, i: nat)
    requires Smallest(names, offered) && |names| == LLEN && GoesAt(names, file, i)
    ensures Smallest((names[..i] + [file] + names[i..])[..LLEN], offered + multiset{file})
  {
    var longer := names[..i] + [file] + names[i..];
    var kept, last := longer[..LLEN], longer[LLEN];
    InsertSorts(names, file, i);
    assert longer == kept + [last];
    assert multiset(kept) + multiset{last} == multiset(names) + multiset{file} by { InsertCounts(names, file, i); }
    LeftOver(offered, multiset(names), multiset(kept), file, last);
    forall x, y | x in offered + multiset{file} - multiset(kept) && y in kept ensures !Less(x, y) {
      DroppedIsLarger(names, offered, file, i, x, y);
    }
    assert |offered + multiset{file}| > LLEN by {
      assert |multiset(names)| <= |offered| by { Fewer(multiset(names), offered); }
    }
  }

  lemma {:induction false} DroppedIsLarger(
    names: seq<string>, offered: multiset<string>, file: string, i: nat, x: string, y: string)
    requires Smallest(names, offered) && |names| == LLEN && GoesAt(names, file, i)
    requires y in (names[..i] + [file] + names[i..])[..LLEN]
    requires x == (names[..i] + [file] + names[i..])[LLEN] || x in offered - multiset(names)
    ensures !Less(x, y)
  {
    var longer := names[..i] + [file] + names[i..];
    InsertSorts(names, file, i);
    var k :| 0 <= k < LLEN && longer[k] == y;
    if x == longer[LLEN] {
    } else if k < i {
      assert y == names[k];
    } else if k > i {
      assert y == names[k - 1];
    } else {
      assert names[LLEN - 1] in names;
      LessTransitive(file, names[LLEN - 1], x);
    }
  }

  lemma {:induction false} Fewer(a: multiset<string>, b: multiset<string>)
    requires a <= b
    ensures |a| <= |b|
  {
    assert b == a + (b - a);
  }

  /** Offering one more name keeps the list the smallest of all offered. */
  lemma {:induction false} InsertKeepsSmallest(names: seq<string>, offered: multiset<string>, file: string, i: nat)
    requires Smallest(names, offered) && |names| <= LLEN && GoesAt(names, file, i)
    ensures Smallest(Inserted(names, file, i), offered + multiset{file})
  {
    if |names| < LLEN {
      InsertSorts(names, file, i);
      InsertCounts(names, file, i);
      assert |multiset(names)| == |names|;
      assert offered == multiset(names) by { SameSize(multiset(names), offered); }
    } else {
      FullInsertKeepsSmallest(names, offered, file, i);
    }
  }

  lemma {:induction false} SameSize(a: multiset<string>, b: multiset<string>)
    requires a <= b && |a| == |b|
    ensures a == b
  {
    assert b == a + (b - a);
    assert |b - a| == 0;
  }

  /** There is only one such list. */
  lemma {:induction false} SmallestIsUnique(p: seq<string>, q: seq<string>, offered: multiset<string>, n: nat)
    requires Smallest(p, offered) && Smallest(q, offered) && n <= |p|
    ensures |p| == |q| && p[..n] == q[..n]
  {
    if n > 0 {
      SmallestIsUnique(p, q, offered, n - 1);
      NotSmaller(p, q, offered, n - 1);
      NotSmaller(q, p, offered, n - 1);
      LessTotal(p[n - 1], q[n - 1]);
      assert p[..n] == p[..n - 1] + [p[n - 1]] && q[..n] == q[..n - 1] + [q[n - 1]];
    }
  }

  /** From place `k` on a sorted list holds nothing below its entry there. */
  lemma {:induction false} NothingBelow(q: seq<string>, k: nat, x: string)
    requires Sorted(q) && k < |q| && Less(x, q[k])
    ensures multiset(q)[x] == multiset(q[..k])[x]
  {
    var tail := q[k..];
    forall j | 0 <= j < |tail| ensures tail[j] != x {
      LessTotal(q[k], q[k]);
      assert !Less(q[k + j], q[k]);
    }
    assert x !in multiset(tail);
    assert q == q[..k] + tail;
  }

  /** Two such lists that agree up to `k` do not differ there in the one direction. */
  lemma {:induction false} NotSmaller(p: seq<string>, q: seq<string>, offered: multiset<string>, k: nat)
    requires Smallest(p, offered) && Smallest(q, offered) && k < |p| == |q| && p[..k] == q[..k]
    ensures !Less(p[k], q[k])
  {
    var x := p[k];
    assert p == p[..k] + ([x] + p[k + 1..]);
    assert multiset(p)[x] > multiset(p[..k])[x];
    assert q[k] in q;
    if Less(x, q[k]) { NothingBelow(q, k, x); }
  }

  // ----- the list -----

  /** The pointers are a permutation of the first `n` text slots. */
  ghost predicate Permutation(slots: seq<nat>, n: nat) {
    && |slots| == n
    && (forall k :: 0 <= k < n ==> slots[k] < n)
    && (forall j, k :: 0 <= j < k < n ==> slots[j] != slots[k])
  }

  /** With slot `p` the pointers would be a permutation of the first `n + 1` text slots. */
  ghost predicate Free(slots: seq<nat>, n: nat, p: nat) {
    && |slots| == n && p <= n && p !in slots
    && (forall k :: 0 <= k < n ==> slots[k] <= n)
    && (forall j, k :: 0 <= j < k < n ==> slots[j] != slots[k])
  }

  /** The names that pointers `slots` show in the text `texts`. */
  ghost predicate Shows(texts: seq<string>, slots: seq<nat>, names: seq<string>) {
    |slots| == |names| && forall k :: 0 <= k < |slots| ==> slots[k] < |texts| && texts[slots[k]] == names[k]
  }

  /** Entering slot `p`, which no other pointer names, among the pointers. */
  lemma {:induction false} EnterSlot(slots: seq<nat>, n: nat, i: nat, p: nat, texts: seq<string>, names: seq<string>,
                                     file: string)
    requires i <= n && Free(slots, n, p)
    requires Shows(texts, slots, names) && p < |texts| && texts[p] == file
    ensures Permutation(slots[..i] + [p] + slots[i..], n + 1)
    ensures Shows(texts, slots[..i] + [p] + slots[i..], names[..i] + [file] + names[i..])
  {
  }

  /** The work files among the entries of a directory: the prefix is right, and so is the length of the suffix. */
  ghost function Accepted(prefix: string, directory: seq<string>): multiset<string> {
    if directory == [] then multiset{}
    else
      var d := |directory| - 1;
      var filename := directory[d];
      Accepted(prefix, directory[..d])
      + if prefix <= filename && |filename| - |prefix| == SUFSIZE then multiset{filename} else multiset{}
  }

  /** Accepted are the names that start with the prefix and have five more characters, as often as they come. */
  lemma {:induction false} AcceptedExactly(prefix: string, directory: seq<string>, x: string)
    ensures Accepted(prefix, directory)[x] ==
            if |x| == |prefix| + 5 && x[..|prefix|] == prefix then multiset(directory)[x] else 0
  {
    if directory != [] {
      var d := |directory| - 1;
      AcceptedExactly(prefix, directory[..d], x);
      assert directory == directory[..d] + [directory[d]];
    }
  }

  /**
   In terms of characters: at most fifty names are listed, each in front of those that come later by their first
   differing character, and those left out come later than all that are listed, or are the same.
   */
  lemma {:induction false} SmallestByChars(names: seq<string>, offered: multiset<string>)
    requires Smallest(names, offered)
    ensures |names| == if |offered| <= 50 then |offered| else 50
    ensures forall i, j :: 0 <= i < j < |names| ==> names[i] == names[j] || FirstByChars(names[i], names[j])
    ensures forall x, y :: x in offered - multiset(names) && y in names ==> x == y || FirstByChars(y, x)
  {
    forall a, b ensures !Less(a, b) ==> a == b || FirstByChars(b, a) {
      LessTotal(a, b);
      LessExactly(b, a);
    }
  }

  /** Of two names of work files that differ in the last digit the smaller one is listed first. */
  lemma {:induction false} FirstName(names: seq<string>, p: string, c: char, d: char)
    requires c < d && Smallest(names, multiset{p + [d], p + [c]})
    ensures names == [p + [c], p + [d]]
  {
    var x, y := p + [c], p + [d];
    assert x[..|p|] == y[..|p|] && DifferAt(x, y, |p|);
    LessExactly(x, y);
    LessTotal(x, y);
    TwoNames(names, x, y);
  }

  lemma {:induction false} TwoNames(names: seq<string>, x: string, y: string)
    requires Less(x, y) && x != y && |names| == 2 && multiset(names) <= multiset{y, x}
    requires Sorted(names)
    ensures names == [x, y]
  {
    assert names == [names[0]] + [names[1]];
    assert multiset(names) == multiset{names[0], names[1]};
    assert names[0] in multiset(names) && names[1] in multiset(names);
    assert multiset{y, x}[x] == 1 && multiset{y, x}[y] == 1;
    assert multiset(names)[x] <= 1 && multiset(names)[y] <= 1;
  }

  class List {
    /** Text of the names. */
    const filent: array<string>
    /** Pointers to names: indices of text slots. */
    const fptr: array<nat>
    var nfiles: nat

    ghost predicate Valid()
      reads this, fptr
    {
      filent.Length == LLEN && fptr.Length == LLEN && nfiles <= LLEN && Permutation(fptr[..nfiles], nfiles)
    }

    ghost function Names(): (names: seq<string>)
      requires Valid()
      reads this, fptr, filent
      ensures Shows(filent[..], fptr[..nfiles], names)
    {
      assert forall k :: 0 <= k < nfiles ==> fptr[..nfiles][k] < nfiles;
      seq(nfiles, k requires 0 <= k < nfiles && Valid() reads this, fptr, filent => filent[fptr[..nfiles][k]])
    }

    constructor ()
      ensures Valid() && nfiles == 0 && fresh(filent) && fresh(fptr)
    {
      filent := new string[LLEN](_ => "");
      fptr := new nat[LLEN](_ => 0);
      nfiles := 0;
    }

    /** Where the file goes, looking from the end of the list. */
    method FindPlace(file: string) returns (i: nat)
      requires Valid() && Sorted(Names())
      ensures GoesAt(Names(), file, i)
    {
      i := nfiles;
      assert forall k :: 0 <= k < nfiles ==> fptr[..nfiles][k] == fptr[k];
      while i > 0 && !Less(filent[fptr[i - 1]], file)
        invariant 0 <= i <= nfiles
        invariant forall k :: i <= k < nfiles ==> !Less(Names()[k], file)
      {
        i := i - 1;
      }
    }

    /** Makes a hole for a new entry and points it to slot `p`. */
    method PlacePointer(i: nat, last: nat, p: nat)
      requires i <= last < fptr.Length
      modifies fptr
      ensures fptr[..last + 1] == old(fptr[..i]) + [p] + old(fptr[i..last])
    {
      var j := last;
      while j > i
        invariant i <= j <= last
        invariant forall k :: 0 <= k < j ==> fptr[k] == old(fptr[k])
        invariant forall k :: j < k <= last ==> fptr[k] == old(fptr[k - 1])
      {
        fptr[j] := fptr[j - 1];
        j := j - 1;
      }
      fptr[i] := p;
    }

    /** Copies the text of the name to the next free slot; when there is none, to the slot of the last name. */
    method PlaceText(file: string) returns (p: nat)
      requires Valid()
      modifies this`nfiles, filent
      ensures nfiles == (if old(nfiles) == LLEN then LLEN - 1 else old(nfiles))
      ensures Free(fptr[..nfiles], nfiles, p) && filent[p] == file
      ensures Shows(filent[..], fptr[..nfiles], old(Names())[..nfiles])
    {
      ghost var slots := fptr[..nfiles];
      assert forall k :: 0 <= k < nfiles ==> slots[k] == fptr[k];
      if nfiles == LLEN {
        nfiles := nfiles - 1;
        p := fptr[nfiles];
      } else {
        p := nfiles;
      }
      filent[p] := file;
      assert fptr[..nfiles] == slots[..nfiles];
    }

    /** Enters slot `p`, which holds the text of the new name, as pointer `i`. */
    method Enter(i: nat, p: nat, ghost names: seq<string>)
      requires filent.Length == LLEN && fptr.Length == LLEN && i <= nfiles < LLEN
      requires Free(fptr[..nfiles], nfiles, p) && Shows(filent[..], fptr[..nfiles], names)
      modifies this`nfiles, fptr
      ensures Valid() && Names() == names[..i] + [filent[p]] + names[i..]
    {
      ghost var slots := fptr[..nfiles];
      PlacePointer(i, nfiles, p);
      nfiles := nfiles + 1;
      EnterSlot(slots, |slots|, i, p, filent[..], names, filent[p]);
      assert fptr[..nfiles] == slots[..i] + [p] + slots[i..];
    }

    /** Puts `file` into the list behind the names that are smaller. */
    method Insert(file: string) returns (ghost i: nat)
      requires Valid() && Sorted(Names())
      modifies this`nfiles, fptr, filent
      ensures Valid() && GoesAt(old(Names()), file, i) && Names() == Inserted(old(Names()), file, i)
    {
      ghost var names := Names();
      var at := FindPlace(file);
      i := at;
      if at == LLEN {
        assert Inserted(names, file, at) == names;
        return;
      }
      var p := PlaceText(file);
      InsertedRest(names, file, at, nfiles);
      Enter(at, p, names[..nfiles]);
    }

    /** Reads a directory: the accepted names that come first, at most 50 of them, in order. */
    method Bldflst(prefix: string, directory: seq<string>)
      requires Valid()
      modifies this`nfiles, fptr, filent
      ensures Valid() && Smallest(Names(), Accepted(prefix, directory))
    {
      nfiles := 0;
      assert fptr[..0] == [] && Valid() && Names() == [];
      for k := 0 to |directory|
        invariant Valid() && Smallest(Names(), Accepted(prefix, directory[..k]))
      {
        ghost var before := directory[..k];
        assert directory[..k + 1] == before + [directory[k]];
        var filename := directory[k];
        if prefix <= filename && |filename| - |prefix| == SUFSIZE {
          ghost var names := Names();
          ghost var i := Insert(filename);
          InsertKeepsSmallest(names, Accepted(prefix, before), filename, i);
        }
        assert (before + [filename])[..k] == before;
      }
      assert directory[..|directory|] == directory;
    }
  }
}
