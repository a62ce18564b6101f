/**
 Merging accounting files (cmd/acct/acctmerg.c: getleast, sumcurr, tacctadd, getnext): records with the same key are
 added up. Amounts are integers.
 */
module AcctMerge {
  import opened Strcmp

  datatype Record = Record(
    uid: int, name: string,
    cpu0: int, cpu1: int, kcore0: int, kcore1: int, con0: int, con1: int, du: int, pc: int, sc: int, dc: int, fee: int)

  datatype Field = Cpu0 | Cpu1 | Kcore0 | Kcore1 | Con0 | Con1 | Du | Pc | Sc | Dc | Fee

  function Amount(r: Record, f: Field): int {
    match f
    case Cpu0 => r.cpu0
    case Cpu1 => r.cpu1
    case Kcore0 => r.kcore0
    case Kcore1 => r.kcore1
    case Con0 => r.con0
    case Con1 => r.con1
    case Du => r.du
    case Pc => r.pc
    case Sc => r.sc
    case Dc => r.dc
    case Fee => r.fee
  }

  /** Adds the amounts of the second record to the first. */
  function TacctAdd(t1: Record, t2: Record): (r: Record)
    ensures r.uid == t1.uid && r.name == t1.name && forall f :: Amount(r, f) == Amount(t1, f) + Amount(t2, f)
  {
    t1.(cpu0 := t1.cpu0 + t2.cpu0, cpu1 := t1.cpu1 + t2.cpu1, kcore0 := t1.kcore0 + t2.kcore0,
        kcore1 := t1.kcore1 + t2.kcore1,
        con0 := t1.con0 + t2.con0, con1 := t1.con1 + t2.con1, du := t1.du + t2.du, pc := t1.pc + t2.pc,
        sc := t1.sc + t2.sc,
        dc := t1.dc + t2.dc, fee := t1.fee + t2.fee)
  }

  // ----- keys -----

  /** The name counts only when records are not summed by user id alone. */
  datatype Key = Key(uid: int, name: string)

  function KeyOf(r: Record, uidsum: bool): Key {
    Key(r.uid, if uidsum then "" else r.name)
  }

  predicate Before(a: Key, b: Key) {
    a.uid < b.uid || (a.uid == b.uid && Less(a.name, b.name))
  }

  lemma {:induction false} BeforeTotal(a: Key, b: Key)
    ensures Before(a, b) || Before(b, a) || a == b
    ensures !(Before(a, b) && Before(b, a)) && !Before(a, a)
  {
    LessTotal(a.name, b.name);
  }

  lemma {:induction false} BeforeTransitive(a: Key, b: Key, c: Key)
    requires !Before(b, a) && !Before(c, b)
    ensures !Before(c, a)
  {
    LessTotal(a.name, b.name);
    LessTotal(b.name, c.name);
    if !Less(b.name, a.name) && !Less(c.name, b.name) { LessTransitive(a.name, b.name, c.name); }
  }

  /** In terms of users and characters: user ids come first, and names only when they count. */
  lemma {:induction false} BeforeExactly(r: Record, q: Record, uidsum: bool)
    ensures Before(KeyOf(r, uidsum), KeyOf(q, uidsum)) <==>
            r.uid < q.uid || (r.uid == q.uid && !uidsum && FirstByChars(r.name, q.name))
    ensures KeyOf(r, uidsum) == KeyOf(q, uidsum) <==> r.uid == q.uid && (uidsum || r.name == q.name)
  {
    LessExactly(r.name, q.name);
    LessTotal("", "");
  }

  /** The fields tell all amounts: records that agree in user, name and every field are the same. */
  lemma {:induction false} FieldsTellAll(r: Record, q: Record)
    requires r.uid == q.uid && r.name == q.name && forall f :: Amount(r, f) == Amount(q, f)
    ensures r == q
  {
    assert Amount(r, Cpu0) == Amount(q, Cpu0) && Amount(r, Cpu1) == Amount(q, Cpu1);
    assert Amount(r, Kcore0) == Amount(q, Kcore0) && Amount(r, Kcore1) == Amount(q, Kcore1);
    assert Amount(r, Con0) == Amount(q, Con0) && Amount(r, Con1) == Amount(q, Con1);
    assert Amount(r, Du) == Amount(q, Du) && Amount(r, Pc) == Amount(q, Pc) && Amount(r, Sc) == Amount(q, Sc);
    assert Amount(r, Dc) == Amount(q, Dc) && Amount(r, Fee) == Amount(q, Fee);
  }

  /** The file is sorted. */
  ghost predicate InOrder(file: seq<Record>, uidsum: bool) {
    forall i, j :: 0 <= i < j < |file| ==> !Before(KeyOf(file[j], uidsum), KeyOf(file[i], uidsum))
  }

  // ----- sums -----

  function FileSum(file: seq<Record>, k: Key, uidsum: bool, f: Field): int {
    if file == [] then 0
    else (if KeyOf(file[0], uidsum) == k then Amount(file[0], f) else 0) + FileSum(file[1..], k, uidsum, f)
  }

  /** What the records of a key have in a field, over all files. */
  function KeySum(files: seq<seq<Record>>, k: Key, uidsum: bool, f: Field): int {
    if files == [] then 0
    else KeySum(files[..|files| - 1], k, uidsum, f) + FileSum(files[|files| - 1], k, uidsum, f)
  }

  function FileTotal(file: seq<Record>, f: Field): int {
    if file == [] then 0 else Amount(file[0], f) + FileTotal(file[1..], f)
  }

  /** What all records have in a field. */
  function GrandTotal(files: seq<seq<Record>>, f: Field): int {
    if files == [] then 0 else GrandTotal(files[..|files| - 1], f) + FileTotal(files[|files| - 1], f)
  }

  /** Reading the first record of a file takes it out of the sums. */
  lemma {:induction false} SumsAdvance(files: seq<seq<Record>>, i: nat, k: Key, uidsum: bool, f: Field)
    requires i < |files| && files[i] != []
    ensures var r, rest := files[i][0], files[i := files[i][1..]];
            && KeySum(files, k, uidsum, f) ==
              (if KeyOf(r, uidsum) == k then Amount(r, f) else 0) + KeySum(rest, k, uidsum, f)
            && GrandTotal(files, f) == Amount(r, f) + GrandTotal(rest, f)
  {
    var n := |files| - 1;
    var rest := files[i := files[i][1..]];
    if i < n {
      SumsAdvance(files[..n], i, k, uidsum, f);
      assert rest[..n] == files[..n][i := files[i][1..]] && rest[n] == files[n];
    } else {
      assert rest[..n] == files[..n];
    }
  }

  lemma {:induction false} NoneInFile(file: seq<Record>, k: Key, uidsum: bool, f: Field)
    requires forall j :: 0 <= j < |file| ==> KeyOf(file[j], uidsum) != k
    ensures FileSum(file, k, uidsum, f) == 0
  {
    if file != [] { NoneInFile(file[1..], k, uidsum, f); }
  }

  lemma {:induction false} NoneLeft(files: seq<seq<Record>>, k: Key, uidsum: bool, f: Field)
    requires forall i, j :: 0 <= i < |files| && 0 <= j < |files[i]| ==> KeyOf(files[i][j], uidsum) != k
    ensures KeySum(files, k, uidsum, f) == 0
  {
    if files != [] {
      var n := |files| - 1;
      NoneLeft(files[..n], k, uidsum, f);
      NoneInFile(files[n], k, uidsum, f);
    }
  }

  lemma {:induction false} AllRead(files: seq<seq<Record>>, k: Key, uidsum: bool, f: Field)
    requires forall i :: 0 <= i < |files| ==> files[i] == []
    ensures KeySum(files, k, uidsum, f) == 0 && GrandTotal(files, f) == 0
  {
    if files != [] { AllRead(files[..|files| - 1], k, uidsum, f); }
  }

  // ----- summing one key -----

  ghost predicate HasKey(files: seq<seq<Record>>, k: Key, uidsum: bool) {
    exists i, j :: 0 <= i < |files| && 0 <= j < |files[i]| && KeyOf(files[i][j], uidsum) == k
  }

  /** All files are sorted, and no key comes before `k`. */
  ghost predicate From(files: seq<seq<Record>>, k: Key, uidsum: bool) {
    && (forall i :: 0 <= i < |files| ==> InOrder(files[i], uidsum))
    && (forall i, j :: 0 <= i < |files| && 0 <= j < |files[i]| ==> !Before(KeyOf(files[i][j], uidsum), k))
  }

  /** Records of key `k` have been moved from `files` into `tc`, which leaves `rest`. */
  ghost predicate Summing(files: seq<seq<Record>>, rest: seq<seq<Record>>, k: Key, tc: Record, uidsum: bool) {
    && |rest| == |files| && From(rest, k, uidsum) && KeyOf(tc, uidsum) == k
    && (forall f :: Amount(tc, f) + KeySum(rest, k, uidsum, f) == KeySum(files, k, uidsum, f))
    && (forall x, f :: x != k ==> KeySum(rest, x, uidsum, f) == KeySum(files, x, uidsum, f))
    && (forall x :: x != k ==> (HasKey(rest, x, uidsum) <==> HasKey(files, x, uidsum)))
  }

  ghost function Sums(files: seq<seq<Record>>, k: Key, uidsum: bool): iset<(seq<seq<Record>>, Record)> {
    iset x: (seq<seq<Record>>, Record) | Summing(files, x.0, k, x.1, uidsum)
  }

  function Next(files: seq<seq<Record>>, i: nat): seq<seq<Record>>
    requires i < |files| && files[i] != []
  {
    files[i := files[i][1..]]
  }

  lemma {:induction false} FromNext(files: seq<seq<Record>>, i: nat, k: Key, uidsum: bool)
    requires i < |files| && files[i] != [] && From(files, k, uidsum)
    ensures From(Next(files, i), k, uidsum)
  {
    var rest := Next(files, i);
    forall a, b | 0 <= a < |rest| && 0 <= b < |rest[a]| ensures !Before(KeyOf(rest[a][b], uidsum), k) {
      assert rest[a][b] == files[a][if a == i then b + 1 else b];
    }
  }

  lemma {:induction false} KeysNext(files: seq<seq<Record>>, i: nat, x: Key, uidsum: bool)
    requires i < |files| && files[i] != [] && KeyOf(files[i][0], uidsum) != x
    ensures HasKey(Next(files, i), x, uidsum) <==> HasKey(files, x, uidsum)
  {
    var rest := Next(files, i);
    if HasKey(files, x, uidsum) {
      var a, b :| 0 <= a < |files| && 0 <= b < |files[a]| && KeyOf(files[a][b], uidsum) == x;
      assert rest[a][if a == i then b - 1 else b] == files[a][b];
    }
    if HasKey(rest, x, uidsum) {
      var a, b :| 0 <= a < |rest| && 0 <= b < |rest[a]| && KeyOf(rest[a][b], uidsum) == x;
      assert rest[a][b] == files[a][if a == i then b + 1 else b];
    }
  }

  /** One more record of the key. */
  lemma {:induction false} SumOne(files: seq<seq<Record>>, rest: seq<seq<Record>>, k: Key, tc: Record, uidsum: bool,
                                  i: nat)
    requires (rest, tc) in Sums(files, k, uidsum) && i < |rest| && rest[i] != [] && KeyOf(rest[i][0], uidsum) == k
    ensures (Next(rest, i), TacctAdd(tc, rest[i][0])) in Sums(files, k, uidsum)
  {
    var new_, tc' := Next(rest, i), TacctAdd(tc, rest[i][0]);
    FromNext(rest, i, k, uidsum);
    forall f ensures Amount(tc', f) + KeySum(new_, k, uidsum, f) == KeySum(files, k, uidsum, f) {
      SumsAdvance(rest, i, k, uidsum, f);
    }
    forall x, f | x != k ensures KeySum(new_, x, uidsum, f) == KeySum(files, x, uidsum, f) {
      SumsAdvance(rest, i, x, uidsum, f);
    }
    forall x | x != k ensures HasKey(new_, x, uidsum) <==> HasKey(files, x, uidsum) {
      KeysNext(rest, i, x, uidsum);
    }
  }

  lemma {:induction false} SumFirst(files: seq<seq<Record>>, k: Key, uidsum: bool, i: nat)
    requires From(files, k, uidsum) && i < |files| && files[i] != [] && KeyOf(files[i][0], uidsum) == k
    ensures (Next(files, i), files[i][0]) in Sums(files, k, uidsum)
  {
    var new_ := Next(files, i);
    FromNext(files, i, k, uidsum);
    forall f ensures Amount(files[i][0], f) + KeySum(new_, k, uidsum, f) == KeySum(files, k, uidsum, f) {
      SumsAdvance(files, i, k, uidsum, f);
    }
    forall x, f | x != k ensures KeySum(new_, x, uidsum, f) == KeySum(files, x, uidsum, f) {
      SumsAdvance(files, i, x, uidsum, f);
    }
    forall x | x != k ensures HasKey(new_, x, uidsum) <==> HasKey(files, x, uidsum) {
      KeysNext(files, i, x, uidsum);
    }
  }

  /** When no file has the key in front, all of it has been summed. */
  lemma {:induction false} SumDone(files: seq<seq<Record>>, rest: seq<seq<Record>>, k: Key, tc: Record, uidsum: bool)
    requires (rest, tc) in Sums(files, k, uidsum)
    requires forall i :: 0 <= i < |rest| && rest[i] != [] ==> KeyOf(rest[i][0], uidsum) != k
    ensures !HasKey(rest, k, uidsum) && forall f :: Amount(tc, f) == KeySum(files, k, uidsum, f)
    ensures forall i, j :: 0 <= i < |rest| && 0 <= j < |rest[i]| ==> Before(k, KeyOf(rest[i][j], uidsum))
  {
    forall i, j | 0 <= i < |rest| && 0 <= j < |rest[i]|
      ensures KeyOf(rest[i][j], uidsum) != k && Before(k, KeyOf(rest[i][j], uidsum))
    {
      var head, x := KeyOf(rest[i][0], uidsum), KeyOf(rest[i][j], uidsum);
      assert InOrder(rest[i], uidsum) && !Before(head, k);
      BeforeTotal(head, k);
      BeforeTotal(x, k);
      BeforeTotal(x, head);
    }
    forall f ensures Amount(tc, f) == KeySum(files, k, uidsum, f) {
      NoneLeft(rest, k, uidsum, f);
    }
  }

  // ----- merging -----

  lemma {:induction false} FileSumAdd(file: seq<Record>, r: Record, k: Key, uidsum: bool, f: Field)
    ensures FileSum(file + [r], k, uidsum, f) ==
            FileSum(file, k, uidsum, f) + if KeyOf(r, uidsum) == k then Amount(r, f) else 0
  {
    if file == [] {
      assert file + [r] == [r] && [r][1..] == [];
    } else {
      FileSumAdd(file[1..], r, k, uidsum, f);
      assert (file + [r])[1..] == file[1..] + [r];
    }
  }

  ghost predicate StrictlyIncreasing(out: seq<Record>, uidsum: bool) {
    forall i, j :: 0 <= i < j < |out| ==> Before(KeyOf(out[i], uidsum), KeyOf(out[j], uidsum))
  }

  /** The records written so far come before those that are left. */
  ghost predicate Ahead(out: seq<Record>, rest: seq<seq<Record>>, uidsum: bool) {
    forall o, i, j :: 0 <= o < |out| && 0 <= i < |rest| && 0 <= j < |rest[i]| ==>
      Before(KeyOf(out[o], uidsum), KeyOf(rest[i][j], uidsum))
  }

  /** What was written and what is left together are what was given, for every key. */
  ghost predicate Balanced(files: seq<seq<Record>>, rest: seq<seq<Record>>, out: seq<Record>, uidsum: bool) {
    && (forall x, f :: KeySum(files, x, uidsum, f) == FileSum(out, x, uidsum, f) + KeySum(rest, x, uidsum, f))
    && (forall x :: HasKey(files, x, uidsum) <==> Written(out, x, uidsum) || HasKey(rest, x, uidsum))
  }

  ghost predicate Written(out: seq<Record>, x: Key, uidsum: bool) {
    exists o :: 0 <= o < |out| && KeyOf(out[o], uidsum) == x
  }

  ghost predicate AllInOrder(files: seq<seq<Record>>, uidsum: bool) {
    forall i :: 0 <= i < |files| ==> InOrder(files[i], uidsum)
  }

  ghost predicate Merging(files: seq<seq<Record>>, rest: seq<seq<Record>>, out: seq<Record>, uidsum: bool) {
    AllInOrder(rest, uidsum) && StrictlyIncreasing(out, uidsum) && Ahead(out, rest, uidsum)
      && Balanced(files, rest, out, uidsum)
  }

  ghost function Merges(files: seq<seq<Record>>, uidsum: bool): iset<(seq<seq<Record>>, seq<Record>)> {
    iset x: (seq<seq<Record>>, seq<Record>) | Merging(files, x.0, x.1, uidsum)
  }

  lemma {:induction false} WrittenAdd(out: seq<Record>, r: Record, x: Key, uidsum: bool)
    ensures Written(out + [r], x, uidsum) <==> Written(out, x, uidsum) || KeyOf(r, uidsum) == x
  {
    var longer := out + [r];
    if Written(out, x, uidsum) {
      var o :| 0 <= o < |out| && KeyOf(out[o], uidsum) == x;
      assert longer[o] == out[o];
    }
    assert longer[|out|] == r;
  }

  lemma {:induction false} BalancedStep(
    files: seq<seq<Record>>, rest: seq<seq<Record>>, out: seq<Record>, uidsum: bool, k: Key, rest': seq<seq<Record>>,
    tc: Record)
    requires Balanced(files, rest, out, uidsum) && (rest', tc) in Sums(rest, k, uidsum) && HasKey(rest, k, uidsum)
    requires !HasKey(rest', k, uidsum) && forall f :: Amount(tc, f) == KeySum(rest, k, uidsum, f)
    requires !Written(out, k, uidsum)
    ensures Balanced(files, rest', out + [tc], uidsum)
  {
    forall x, f ensures KeySum(files, x, uidsum, f) == FileSum(out + [tc], x, uidsum, f) + KeySum(rest', x, uidsum, f) {
      FileSumAdd(out, tc, x, uidsum, f);
    }
    forall x ensures HasKey(files, x, uidsum) <==> Written(out + [tc], x, uidsum) || HasKey(rest', x, uidsum) {
      WrittenAdd(out, tc, x, uidsum);
    }
  }

  /** One key has been summed and is written. */
  lemma {:induction false} MergeStep(
    files: seq<seq<Record>>, rest: seq<seq<Record>>, out: seq<Record>, uidsum: bool, k: Key, rest': seq<seq<Record>>,
    tc: Record)
    requires (rest, out) in Merges(files, uidsum) && (rest', tc) in Sums(rest, k, uidsum) && HasKey(rest, k, uidsum)
    requires !HasKey(rest', k, uidsum) && forall f :: Amount(tc, f) == KeySum(rest, k, uidsum, f)
    requires forall i, j :: 0 <= i < |rest'| && 0 <= j < |rest'[i]| ==> Before(k, KeyOf(rest'[i][j], uidsum))
    ensures (rest', out + [tc]) in Merges(files, uidsum)
  {
    var i, j :| 0 <= i < |rest| && 0 <= j < |rest[i]| && KeyOf(rest[i][j], uidsum) == k;
    assert forall o :: 0 <= o < |out| ==> Before(KeyOf(out[o], uidsum), k);
    BeforeTotal(k, k);
    assert !Written(out, k, uidsum);
    BalancedStep(files, rest, out, uidsum, k, rest', tc);
    assert Ahead(out + [tc], rest', uidsum) by {
      forall o, a, b | 0 <= o < |out| + 1 && 0 <= a < |rest'| && 0 <= b < |rest'[a]|
        ensures Before(KeyOf((out + [tc])[o], uidsum), KeyOf(rest'[a][b], uidsum))
      {
        if o < |out| { BeforeBefore(KeyOf(out[o], uidsum), k, KeyOf(rest'[a][b], uidsum)); }
      }
    }
  }

  lemma {:induction false} BeforeBefore(a: Key, b: Key, c: Key)
    requires Before(a, b) && Before(b, c)
    ensures Before(a, c)
  {
    BeforeTotal(a, b);
    BeforeTotal(b, c);
    BeforeTotal(a, c);
    BeforeTransitive(a, b, c);
    if a == c { assert false; }
  }

  /** A record among records with strictly increasing keys is the sum for its key. */
  lemma {:induction false} OnlyOne(out: seq<Record>, o: nat, uidsum: bool, f: Field)
    requires StrictlyIncreasing(out, uidsum) && o < |out|
    ensures FileSum(out, KeyOf(out[o], uidsum), uidsum, f) == Amount(out[o], f)
  {
    var k := KeyOf(out[o], uidsum);
    if o == 0 {
      forall j | 0 <= j < |out[1..]| ensures KeyOf(out[1..][j], uidsum) != k {
        BeforeTotal(k, k);
        assert Before(KeyOf(out[0], uidsum), KeyOf(out[j + 1], uidsum));
      }
      NoneInFile(out[1..], k, uidsum, f);
    } else {
      BeforeTotal(k, k);
      assert Before(KeyOf(out[0], uidsum), k);
      OnlyOne(out[1..], o - 1, uidsum, f);
    }
  }

  // ----- the program -----

  const nobody := Record(0, "", 0, 0, 0, 0, 0, 0, 0, 0, 0, 0, 0)
  const nothing := Record(0, "TOTAL", 0, 0, 0, 0, 0, 0, 0, 0, 0, 0, 0)

  /** What is left of a file: the current record, unless it has no name, and what has not been read. */
  function Left(current: Record, unread: seq<Record>): seq<Record> {
    if current.name == "" then [] else [current] + unread
  }

  ghost predicate AllNamed(file: seq<Record>) {
    forall j :: 0 <= j < |file| ==> file[j].name != ""
  }

  class Merger {
    const uidsum: bool
    /** The current record of each file. */
    const tb: array<Record>
    /** The unread part of each file. */
    var fl: seq<seq<Record>>
    var tt: Record

    ghost predicate Valid()
      reads this, tb
    {
      && |fl| == tb.Length && (forall i :: 0 <= i < |fl| ==> AllNamed(fl[i]))
      && forall i :: 0 <= i < |fl| && tb[i].name == "" ==> fl[i] == []
    }

    ghost function Rest(): (rest: seq<seq<Record>>)
      requires |fl| == tb.Length
      reads this, tb
      ensures |rest| == tb.Length && forall i :: 0 <= i < |rest| ==> rest[i] == Left(tb[i], fl[i])
    {
      seq(tb.Length, i requires 0 <= i < tb.Length && |fl| == tb.Length reads this, tb => Left(tb[i], fl[i]))
    }

    constructor (files: seq<seq<Record>>, uidsum: bool)
      ensures fresh(tb) && this.uidsum == uidsum && fl == files && tb.Length == |files| && tt == nothing
      ensures forall i :: 0 <= i < tb.Length ==> tb[i] == nobody
    {
      this.uidsum, fl, tt := uidsum, files, nothing;
      tb := new Record[|files|](_ => nobody);
    }

    /** Reads the next record of a file. */
    method GetNext(i: nat)
      requires i < tb.Length == |fl| && AllNamed(fl[i])
      modifies this`fl, tb
      ensures |fl| == tb.Length
              && (forall j :: 0 <= j < tb.Length && j != i ==> tb[j] == old(tb[j]) && fl[j] == old(fl[j]))
      ensures AllNamed(fl[i]) && Left(tb[i], fl[i]) == old(fl[i]) && (tb[i].name == "" ==> fl[i] == [])
    {
      tb[i] := tb[i].(name := "");
      if fl[i] != [] {
        tb[i] := fl[i][0];
        fl := fl[i := fl[i][1..]];
      }
    }

    /** The first of the files whose current record has the least key; the number of files when none is left. */
    method GetLeast() returns (t: nat)
      requires Valid()
      ensures t <= tb.Length && (t == tb.Length <==> forall i :: 0 <= i < tb.Length ==> tb[i].name == "")
      ensures t < tb.Length ==> tb[t].name != ""
      ensures t < tb.Length ==> forall i :: 0 <= i < tb.Length && tb[i].name != "" ==>
                !Before(KeyOf(tb[i], uidsum), KeyOf(tb[t], uidsum))
                  && (i < t ==> KeyOf(tb[i], uidsum) != KeyOf(tb[t], uidsum))
    {
      t := tb.Length;
      for i := 0 to tb.Length
        invariant t == tb.Length ==> forall j :: 0 <= j < i ==> tb[j].name == ""
        invariant t < tb.Length ==> t < i && tb[t].name != ""
        invariant t <= tb.Length
        invariant t < tb.Length ==> forall j :: 0 <= j < i && tb[j].name != "" ==>
                    !Before(KeyOf(tb[j], uidsum), KeyOf(tb[t], uidsum))
                      && (j < t ==> KeyOf(tb[j], uidsum) != KeyOf(tb[t], uidsum))
      {
        if tb[i].name != "" {
          if t < tb.Length { LeastStep(tb[..i], t, tb[i], uidsum); }
          BeforeTotal(KeyOf(tb[i], uidsum), KeyOf(tb[i], uidsum));
          if t == tb.Length || tb[i].uid < tb[t].uid
            || (tb[i].uid == tb[t].uid && !uidsum && Less(tb[i].name, tb[t].name)) {
            t := i;
          }
        }
      }
    }

    /** Adds the current record of a file to the total and reads the next one. */
    method Take(i: nat) returns (r: Record)
      requires Valid() && i < tb.Length && tb[i].name != ""
      modifies this`fl, this`tt, tb
      ensures Valid() && r == old(tb[i]) && old(Rest())[i] != [] && old(Rest())[i][0] == r && tt == TacctAdd(old(tt), r)
      ensures Rest() == Next(old(Rest()), i) && forall j :: 0 <= j < tb.Length && j != i ==> tb[j] == old(tb[j])
    {
      ghost var rest := Rest();
      r := tb[i];
      tt := TacctAdd(tt, r);
      GetNext(i);
      assert Rest()[i] == rest[i][1..];
    }

    /** Adds the current record of a file, which has the key, to the sum. */
    method TakeInto(tp: nat, tc: Record, ghost k: Key, ghost s: Steps) returns (sum: Record)
      requires Valid() && tp < tb.Length && tb[tp].name != "" && KeyOf(tb[tp], uidsum) == k
      requires s.right(Books(Rest(), tc, tt)) && KeepsSums(s, k, uidsum)
      modifies this`fl, this`tt, tb
      ensures Valid() && Size(Rest()) < old(Size(Rest())) && KeyOf(sum, uidsum) == KeyOf(tc, uidsum)
      ensures s.right(Books(Rest(), sum, tt)) && forall j :: 0 <= j < tb.Length && j != tp ==> tb[j] == old(tb[j])
    {
      ghost var b := Books(Rest(), tc, tt);
      SizeNext(Rest(), tp);
      var r := Take(tp);
      sum := TacctAdd(tc, r);
      assert Books(Rest(), sum, tt) == Took(b, tp);
    }

    /** No file before `tp` has the key in its current record. */
    ghost predicate Passed(tp: nat, k: Key)
      requires tp <= tb.Length
      reads this, tb
    {
      forall i :: 0 <= i < tp ==> tb[i].name == "" || KeyOf(tb[i], uidsum) != k
    }

    /** Adds the current record of a file when it has the key; otherwise goes on to the next file. */
    method Visit(tp: nat, tc: Record, ghost k: Key, ghost s: Steps) returns (tp': nat, sum: Record)
      requires Valid() && tp < tb.Length && KeyOf(tc, uidsum) == k && s.right(Books(Rest(), tc, tt))
               && KeepsSums(s, k, uidsum)
      requires Passed(tp, k)
      modifies this`fl, this`tt, tb
      ensures Valid() && tp' <= tb.Length && Passed(tp', k) && KeyOf(sum, uidsum) == k
              && s.right(Books(Rest(), sum, tt))
      ensures Size(Rest()) < old(Size(Rest())) || (Size(Rest()) == old(Size(Rest())) && tp' == tp + 1)
    {
      tp', sum := tp, tc;
      if tb[tp].name != "" && tb[tp].uid == tc.uid && (uidsum || tb[tp].name == tc.name) {
        sum := TakeInto(tp, tc, k, s);
      } else {
        tp' := tp + 1;
      }
    }

    /** Goes through the files from `t` on and adds up the records with the key of `first`. */
    method SumFrom(t: nat, first: Record, ghost k: Key, ghost s: Steps) returns (tc: Record)
      requires Valid() && t <= tb.Length && KeyOf(first, uidsum) == k && s.right(Books(Rest(), first, tt))
               && KeepsSums(s, k, uidsum)
      requires Passed(t, k)
      modifies this`fl, this`tt, tb
      ensures Valid() && Size(Rest()) <= old(Size(Rest())) && s.right(Books(Rest(), tc, tt)) && Passed(tb.Length, k)
    {
      tc := first;
      var tp: nat := t;
      while tp < tb.Length
        invariant tp <= tb.Length && Valid() && s.right(Books(Rest(), tc, tt)) && Passed(tp, k)
        invariant KeyOf(tc, uidsum) == k && Size(Rest()) <= old(Size(Rest()))
        decreases Size(Rest()), tb.Length - tp
      {
        tp, tc := Visit(tp, tc, k, s);
      }
    }

    /** Sums all records with the key of the current record of file `t`. */
    method SumCurr(t: nat, ghost files: seq<seq<Record>>) returns (tc: Record)
      requires Valid() && t < tb.Length && tb[t].name != "" && tt in Totals(files, Rest())
      requires From(Rest(), KeyOf(tb[t], uidsum), uidsum)
      requires forall i :: 0 <= i < t && tb[i].name != "" ==> KeyOf(tb[i], uidsum) != KeyOf(tb[t], uidsum)
      modifies this`fl, this`tt, tb
      ensures Valid() && tt in Totals(files, Rest()) && Size(Rest()) < old(Size(Rest()))
      ensures (Rest(), tc) in Sums(old(Rest()), old(KeyOf(tb[t], uidsum)), uidsum)
      ensures forall i :: 0 <= i < tb.Length ==> tb[i].name == "" || KeyOf(tb[i], uidsum) != old(KeyOf(tb[t], uidsum))
    {
      ghost var all, k := Rest(), KeyOf(tb[t], uidsum);
      SumFirst(all, k, uidsum, t);
      SizeNext(all, t);
      TotalStep(files, all, tt, t);
      ghost var s := Steps((b: Books) => b.tt in Totals(files, b.rest) && (b.rest, b.tc) in Sums(all, k, uidsum));
      SumsKept(files, all, k, uidsum, s);
      var first := Take(t);
      tc := SumFrom(t, first, k, s);
    }

    /** Sums the records of the least key. */
    method OneKey(t: nat, out: seq<Record>, ghost files: seq<seq<Record>>) returns (more: seq<Record>)
      requires Valid() && t < tb.Length && tb[t].name != "" && tt in Totals(files, Rest())
               && (Rest(), out) in Merges(files, uidsum)
      requires forall i :: 0 <= i < tb.Length && tb[i].name != "" ==>
                 !Before(KeyOf(tb[i], uidsum), KeyOf(tb[t], uidsum))
                   && (i < t ==> KeyOf(tb[i], uidsum) != KeyOf(tb[t], uidsum))
      modifies this`fl, this`tt, tb
      ensures Valid() && tt in Totals(files, Rest()) && (Rest(), more) in Merges(files, uidsum)
              && Size(Rest()) < old(Size(Rest()))
    {
      ghost var rest, k := Rest(), KeyOf(tb[t], uidsum);
      LeastOfAll(rest, k, uidsum);
      var tc := SumCurr(t, files);
      MergeKey(files, rest, out, uidsum, t, Rest(), tc);
      more := out + [tc];
    }

    /** Merges all files into records with strictly increasing keys. */
    method MergeAll(ghost files: seq<seq<Record>>) returns (out: seq<Record>)
      requires Valid() && tt in Totals(files, Rest()) && (Rest(), []) in Merges(files, uidsum)
      modifies this`fl, this`tt, tb
      ensures Valid() && tt in Totals(files, Rest()) && (Rest(), out) in Merges(files, uidsum)
      ensures forall i :: 0 <= i < |Rest()| ==> Rest()[i] == []
    {
      out := [];
      while true
        invariant Valid() && tt in Totals(files, Rest()) && (Rest(), out) in Merges(files, uidsum)
        decreases Size(Rest())
      {
        var t := GetLeast();
        if t == tb.Length {
          return;
        }
        out := OneKey(t, out, files);
      }
    }
  }

  // ----- the steps of a sum -----

  datatype Books = Books(rest: seq<seq<Record>>, tc: Record, tt: Record)

  datatype Steps = Steps(right: Books -> bool)

  /** The current record of file `i` is added to the sum and to the total. */
  function Took(b: Books, i: nat): Books
    requires i < |b.rest| && b.rest[i] != []
  {
    Books(Next(b.rest, i), TacctAdd(b.tc, b.rest[i][0]), TacctAdd(b.tt, b.rest[i][0]))
  }

  ghost predicate KeepsSums(s: Steps, k: Key, uidsum: bool) {
    forall b, i: nat {:trigger Took(b, i)} ::
      s.right(b) && i < |b.rest| && b.rest[i] != [] && KeyOf(b.rest[i][0], uidsum) == k ==> s.right(Took(b, i))
  }

  lemma {:induction false} SumsKept(files: seq<seq<Record>>, all: seq<seq<Record>>, k: Key, uidsum: bool, s: Steps)
    requires s == Steps((b: Books) => b.tt in Totals(files, b.rest) && (b.rest, b.tc) in Sums(all, k, uidsum))
    ensures KeepsSums(s, k, uidsum)
  {
    forall b, i: nat {:trigger Took(b, i)} | s.right(b) && i < |b.rest| && b.rest[i] != []
      && KeyOf(b.rest[i][0], uidsum) == k
      ensures s.right(Took(b, i))
    {
      TotalStep(files, b.rest, b.tt, i);
      SumOne(all, b.rest, k, b.tc, uidsum, i);
    }
  }

  /** All records of the least key have been summed and are written. */
  lemma {:induction false} MergeKey(
    files: seq<seq<Record>>, rest: seq<seq<Record>>, out: seq<Record>, uidsum: bool, t: nat, rest': seq<seq<Record>>,
    tc: Record)
    requires (rest, out) in Merges(files, uidsum) && t < |rest| && rest[t] != []
    requires (rest', tc) in Sums(rest, KeyOf(rest[t][0], uidsum), uidsum)
    requires forall i :: 0 <= i < |rest'| && rest'[i] != [] ==> KeyOf(rest'[i][0], uidsum) != KeyOf(rest[t][0], uidsum)
    ensures (rest', out + [tc]) in Merges(files, uidsum)
  {
    var k := KeyOf(rest[t][0], uidsum);
    SumDone(rest, rest', k, tc, uidsum);
    assert HasKey(rest, k, uidsum);
    MergeStep(files, rest, out, uidsum, k, rest', tc);
  }

  /** The total and what is left together are what was given. */
  ghost predicate TotalOk(files: seq<seq<Record>>, rest: seq<seq<Record>>, tt: Record) {
    forall f :: Amount(tt, f) + GrandTotal(rest, f) == GrandTotal(files, f)
  }

  ghost function Totals(files: seq<seq<Record>>, rest: seq<seq<Record>>): iset<Record> {
    iset tt: Record | TotalOk(files, rest, tt)
  }

  lemma {:induction false} TotalStep(files: seq<seq<Record>>, rest: seq<seq<Record>>, tt: Record, i: nat)
    requires tt in Totals(files, rest) && i < |rest| && rest[i] != []
    ensures TacctAdd(tt, rest[i][0]) in Totals(files, Next(rest, i))
  {
    forall f ensures Amount(TacctAdd(tt, rest[i][0]), f) + GrandTotal(Next(rest, i), f) == GrandTotal(files, f) {
      SumsAdvance(rest, i, Key(0, ""), true, f);
    }
  }

  /** The least of the first keys of sorted files is the least of all keys. */
  lemma {:induction false} LeastOfAll(rest: seq<seq<Record>>, k: Key, uidsum: bool)
    requires AllInOrder(rest, uidsum)
    requires forall i :: 0 <= i < |rest| && rest[i] != [] ==> !Before(KeyOf(rest[i][0], uidsum), k)
    ensures From(rest, k, uidsum)
  {
    forall i, j | 0 <= i < |rest| && 0 <= j < |rest[i]| ensures !Before(KeyOf(rest[i][j], uidsum), k) {
      if j > 0 {
        assert InOrder(rest[i], uidsum);
        BeforeTransitive(k, KeyOf(rest[i][0], uidsum), KeyOf(rest[i][j], uidsum));
      }
    }
  }

  ghost function Size(rest: seq<seq<Record>>): nat {
    if rest == [] then 0 else Size(rest[..|rest| - 1]) + |rest[|rest| - 1]|
  }

  lemma {:induction false} SizeNext(rest: seq<seq<Record>>, i: nat)
    requires i < |rest| && rest[i] != []
    ensures Size(Next(rest, i)) == Size(rest) - 1
  {
    var n := |rest| - 1;
    if i < n {
      SizeNext(rest[..n], i);
      assert Next(rest, i)[..n] == Next(rest[..n], i);
    } else {
      assert Next(rest, i)[..n] == rest[..n];
    }
  }

  /** A record that comes before the least so far comes before all of them. */
  lemma {:induction false} LeastStep(tb: seq<Record>, t: nat, r: Record, uidsum: bool)
    requires t < |tb|
             && forall j :: 0 <= j < |tb| && tb[j].name != "" ==> !Before(KeyOf(tb[j], uidsum), KeyOf(tb[t], uidsum))
    ensures Before(KeyOf(r, uidsum), KeyOf(tb[t], uidsum)) ==>
              forall j :: 0 <= j < |tb| && tb[j].name != "" ==>
                !Before(KeyOf(tb[j], uidsum), KeyOf(r, uidsum)) && KeyOf(tb[j], uidsum) != KeyOf(r, uidsum)
    ensures Before(KeyOf(r, uidsum), KeyOf(tb[t], uidsum)) <==>
              r.uid < tb[t].uid || (r.uid == tb[t].uid && !uidsum && Less(r.name, tb[t].name))
  {
    var a, b := KeyOf(r, uidsum), KeyOf(tb[t], uidsum);
    BeforeTotal(a, b);
    forall j | 0 <= j < |tb| && tb[j].name != "" && Before(a, b)
      ensures !Before(KeyOf(tb[j], uidsum), a) && KeyOf(tb[j], uidsum) != a
    {
      BeforeTransitive(a, b, KeyOf(tb[j], uidsum));
    }
  }

  /** A record of each file has been read, and nothing is written yet. */
  lemma {:induction false} NothingWritten(files: seq<seq<Record>>, uidsum: bool)
    requires AllInOrder(files, uidsum)
    ensures (files, []) in Merges(files, uidsum) && nothing in Totals(files, files)
  {
  }

  /**
   Merges sorted files of records with names: the keys that are written are strictly increasing and are just the keys
   of the files, each record is the sum of all records with its key, and the total is the sum of all records.
   */
  method Acctmerg(files: seq<seq<Record>>, uidsum: bool) returns (out: seq<Record>, total: Record)
    requires AllInOrder(files, uidsum) && forall i :: 0 <= i < |files| ==> AllNamed(files[i])
    ensures StrictlyIncreasing(out, uidsum)
    ensures forall k :: Written(out, k, uidsum) <==> HasKey(files, k, uidsum)
    ensures forall o, f :: 0 <= o < |out| ==> Amount(out[o], f) == KeySum(files, KeyOf(out[o], uidsum), uidsum, f)
    ensures forall f :: Amount(total, f) == GrandTotal(files, f)
  {
    var m := new Merger(files, uidsum);
    for i := 0 to |files|
      invariant m.tb.Length == |m.fl| == |files| && m.tt == nothing
                && forall j :: 0 <= j < |files| ==> AllNamed(m.fl[j])
      invariant forall j :: 0 <= j < i ==> Left(m.tb[j], m.fl[j]) == files[j] && (m.tb[j].name == "" ==> m.fl[j] == [])
      invariant forall j :: i <= j < |files| ==> m.fl[j] == files[j]
    {
      m.GetNext(i);
    }
    assert m.Rest() == files;
    NothingWritten(files, uidsum);
    out := m.MergeAll(files);
    total := m.tt;
    Finished(files, m.Rest(), out, total, uidsum);
  }

  lemma {:induction false} Finished(files: seq<seq<Record>>, rest: seq<seq<Record>>, out: seq<Record>, tt: Record,
                                    uidsum: bool)
    requires (rest, out) in Merges(files, uidsum) && tt in Totals(files, rest)
             && forall i :: 0 <= i < |rest| ==> rest[i] == []
    ensures StrictlyIncreasing(out, uidsum) && forall k :: Written(out, k, uidsum) <==> HasKey(files, k, uidsum)
    ensures forall o, f :: 0 <= o < |out| ==> Amount(out[o], f) == KeySum(files, KeyOf(out[o], uidsum), uidsum, f)
    ensures forall f :: Amount(tt, f) == GrandTotal(files, f)
  {
    assert forall k :: !HasKey(rest, k, uidsum);
    forall o, f | 0 <= o < |out| ensures Amount(out[o], f) == KeySum(files, KeyOf(out[o], uidsum), uidsum, f) {
      OnlyOne(out, o, uidsum, f);
      AllRead(rest, KeyOf(out[o], uidsum), uidsum, f);
    }
    forall f ensures Amount(tt, f) == GrandTotal(files, f) {
      AllRead(rest, Key(0, ""), uidsum, f);
    }
  }
}
