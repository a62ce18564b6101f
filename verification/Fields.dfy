/**
 Splitting a record into fields and building it again (cmd/awk/lib.c: fldbld, cleanfld, recbld).
 */
module Fields {

  const MAXFLD := 200

  // ----- one separator -----

  /** A newline always separates. */
  predicate Separates(sep: char, c: char) { c == sep || c == '\n' }

  /** The fields of a record that is not empty: the texts between separators. */
  function Pieces(r: string, sep: char): (fs: seq<string>)
    ensures fs != []
  {
    if r == "" then [""]
    else
      var n := |r| - 1;
      var fs := Pieces(r[..n], sep);
      if Separates(sep, r[n]) then fs + [""] else fs[..|fs| - 1] + [fs[|fs| - 1] + [r[n]]]
  }

  function Join(fs: seq<string>, ofs: string): string {
    if fs == [] then "" else if |fs| == 1 then fs[0] else Join(fs[..|fs| - 1], ofs) + ofs + fs[|fs| - 1]
  }

  lemma {:induction false} JoinMore(fs: seq<string>, ofs: string, x: string)
    requires fs != []
    ensures Join(fs + [x], ofs) == Join(fs, ofs) + ofs + x
  {
    assert (fs + [x])[..|fs|] == fs;
  }

  lemma {:induction false} JoinLonger(fs: seq<string>, ofs: string, c: char)
    requires fs != []
    ensures Join(fs[..|fs| - 1] + [fs[|fs| - 1] + [c]], ofs) == Join(fs, ofs) + [c]
  {
    var n := |fs| - 1;
    var gs := fs[..n] + [fs[n] + [c]];
    assert gs[..n] == fs[..n];
    if n > 0 {
      assert Join(fs[..n], ofs) + ofs + (fs[n] + [c]) == Join(fs[..n], ofs) + ofs + fs[n] + [c];
    }
  }

  /** Joining the fields with their separator gives the record back. */
  lemma {:induction false} JoinPieces(r: string, sep: char)
    requires '\n' !in r
    ensures Join(Pieces(r, sep), [sep]) == r
  {
    if r != "" {
      var n := |r| - 1;
      JoinPieces(r[..n], sep);
      var fs := Pieces(r[..n], sep);
      assert r == r[..n] + [r[n]];
      if Separates(sep, r[n]) {
        JoinMore(fs, [sep], "");
        assert r[..n] + [sep] + "" == r[..n] + [sep];
      } else {
        JoinLonger(fs, [sep], r[n]);
      }
    }
  }

  ghost predicate Clean(x: string, sep: char) {
    forall i :: 0 <= i < |x| ==> !Separates(sep, x[i])
  }

  ghost predicate AllClean(fs: seq<string>, sep: char) {
    forall i :: 0 <= i < |fs| ==> Clean(fs[i], sep)
  }

  /** No field contains a separator. */
  lemma {:induction false} PiecesClean(r: string, sep: char)
    ensures AllClean(Pieces(r, sep), sep)
  {
    if r != "" {
      var fs := Pieces(r[..|r| - 1], sep);
      PiecesClean(r[..|r| - 1], sep);
      assert Clean(fs[|fs| - 1], sep);
    }
  }

  /** In terms of characters: no field contains the separator or a newline. */
  lemma {:induction false} PiecesWithout(r: string, sep: char, i: nat)
    requires i < |Pieces(r, sep)|
    ensures sep !in Pieces(r, sep)[i] && '\n' !in Pieces(r, sep)[i]
  {
    PiecesClean(r, sep);
    assert Clean(Pieces(r, sep)[i], sep);
  }

  /** There is one field more than there are separators and newlines. */
  lemma {:induction false} PiecesCount(r: string, sep: char)
    ensures sep != '\n' ==> |Pieces(r, sep)| == 1 + multiset(r)[sep] + multiset(r)['\n']
    ensures sep == '\n' ==> |Pieces(r, sep)| == 1 + multiset(r)['\n']
  {
    if r != "" {
      var n := |r| - 1;
      PiecesCount(r[..n], sep);
      assert r == r[..n] + [r[n]];
    }
  }

  /** Joining lists of fields one behind the other puts one separator between them. */
  lemma {:induction false} JoinAppend(a: seq<string>, b: seq<string>, ofs: string)
    requires a != [] && b != []
    ensures Join(a + b, ofs) == Join(a, ofs) + ofs + Join(b, ofs)
    decreases |b|
  {
    var n := |b| - 1;
    if n == 0 {
      assert b == [b[0]];
      JoinMore(a, ofs, b[0]);
    } else {
      JoinAppend(a, b[..n], ofs);
      JoinMore(b[..n], ofs, b[n]);
      JoinMore(a + b[..n], ofs, b[n]);
      assert b == b[..n] + [b[n]] && a + b == a + b[..n] + [b[n]];
      Regroup(Join(a, ofs) + ofs, Join(b[..n], ofs), ofs, b[n]);
    }
  }

  lemma {:induction false} Regroup(a: string, b: string, c: string, d: string)
    ensures a + b + c + d == a + (b + c + d)
  {
  }

  lemma {:induction false} PiecesText(r: string, x: string, sep: char)
    requires Clean(x, sep)
    ensures var fs := Pieces(r, sep);
            Pieces(r + x, sep) == fs[..|fs| - 1] + [fs[|fs| - 1] + x]
  {
    var fs := Pieces(r, sep);
    if x == "" {
      assert r + x == r && fs[|fs| - 1] + x == fs[|fs| - 1];
    } else {
      var n := |x| - 1;
      PiecesText(r, x[..n], sep);
      assert (r + x)[..|r| + n] == r + x[..n] && (r + x)[|r| + n] == x[n];
      assert fs[|fs| - 1] + x[..n] + [x[n]] == fs[|fs| - 1] + x;
    }
  }

  lemma {:induction false} PiecesNext(r: string, sep: char, x: string)
    requires Clean(x, sep)
    ensures Pieces(r + [sep] + x, sep) == Pieces(r, sep) + [x]
  {
    assert (r + [sep])[..|r|] == r;
    PiecesText(r + [sep], x, sep);
    assert "" + x == x;
  }

  /** The other way round: splitting joined fields gives the fields back. */
  lemma {:induction false} PiecesJoin(fs: seq<string>, sep: char)
    requires fs != [] && AllClean(fs, sep)
    ensures Pieces(Join(fs, [sep]), sep) == fs
  {
    var n := |fs| - 1;
    assert Clean(fs[n], sep);
    if n == 0 {
      PiecesText("", fs[0], sep);
      assert "" + fs[0] == fs[0];
    } else {
      var init := fs[..n];
      assert AllClean(init, sep);
      PiecesJoin(init, sep);
      PiecesNext(Join(init, [sep]), sep, fs[n]);
      assert fs == init + [fs[n]];
    }
  }

  // ----- blanks -----

  predicate IsBlank(c: char) { c == ' ' || c == '\t' || c == '\n' }

  /** A stretch of the record without blanks that cannot be made longer. */
  ghost predicate MaximalRun(r: string, a: int, b: int) {
    && 0 <= a < b <= |r| && (forall i :: a <= i < b ==> !IsBlank(r[i]))
    && (a == 0 || IsBlank(r[a - 1])) && (b == |r| || IsBlank(r[b]))
  }

  /** The runs of a record, from the left. */
  function RunsOf(r: string): seq<(nat, nat)> {
    if r == "" then []
    else
      var n := |r| - 1;
      var runs := RunsOf(r[..n]);
      if IsBlank(r[n]) then runs
      else if runs != [] && runs[|runs| - 1].1 == n then runs[..|runs| - 1] + [(runs[|runs| - 1].0, |r|)]
      else runs + [(n, |r|)]
  }

  ghost predicate RunsExact(r: string, runs: seq<(nat, nat)>) {
    && (forall a: nat, b: nat :: (a, b) in runs <==> MaximalRun(r, a, b))
    && (forall i, j :: 0 <= i < j < |runs| ==> runs[i].1 < runs[j].0)
    && (forall i :: 0 <= i < |runs| ==> runs[i].0 < runs[i].1 <= |r|)
  }

  lemma {:induction false} RunBefore(r: string, n: nat, a: nat, b: nat)
    requires n == |r| - 1 && b < n
    ensures MaximalRun(r, a, b) <==> MaximalRun(r[..n], a, b)
  {
    var q := r[..n];
    assert forall i :: 0 <= i < n ==> q[i] == r[i];
  }

  lemma {:induction false} RunAtEnd(r: string, n: nat, a: nat)
    requires n == |r| - 1
    ensures IsBlank(r[n]) ==> (MaximalRun(r, a, n) <==> MaximalRun(r[..n], a, n)) && !MaximalRun(r, a, n + 1)
    ensures !IsBlank(r[n]) ==>
              && !MaximalRun(r, a, n)
              && (MaximalRun(r, a, n + 1) <==> MaximalRun(r[..n], a, n) || (a == n && (n == 0 || IsBlank(r[n - 1]))))
  {
    var q := r[..n];
    assert forall i :: 0 <= i < n ==> q[i] == r[i];
    if MaximalRun(r, a, n + 1) && a < n { assert MaximalRun(q, a, n); }
    if !IsBlank(r[n]) && MaximalRun(q, a, n) { assert MaximalRun(r, a, n + 1); }
  }

  lemma {:induction false} ReachesEnd(r: string)
    requires r != ""
    ensures !IsBlank(r[|r| - 1]) ==> RunsOf(r) != [] && RunsOf(r)[|RunsOf(r)| - 1].1 == |r|
  {
  }

  lemma {:induction false} ExactBlank(r: string, n: nat, runs: seq<(nat, nat)>)
    requires n == |r| - 1 && IsBlank(r[n]) && RunsExact(r[..n], runs)
    ensures RunsExact(r, runs)
  {
    forall a: nat, b: nat ensures (a, b) in runs <==> MaximalRun(r, a, b) {
      RunAtEnd(r, n, a);
      if b < n { RunBefore(r, n, a, b); }
    }
  }

  lemma {:induction false} ExactLonger(r: string, n: nat, runs: seq<(nat, nat)>, new_: seq<(nat, nat)>)
    requires n == |r| - 1 && !IsBlank(r[n]) && RunsExact(r[..n], runs) && runs != [] && runs[|runs| - 1].1 == n
    requires new_ == runs[..|runs| - 1] + [(runs[|runs| - 1].0, |r|)]
    ensures RunsExact(r, new_)
  {
    hide IsBlank;
    var m := |runs| - 1;
    var x := runs[m].0;
    assert (x, n) in runs;
    assert MaximalRun(r[..n], x, n) && !IsBlank(r[..n][n - 1]);
    forall a: nat, b: nat ensures (a, b) in new_ <==> MaximalRun(r, a, b) {
      RunAtEnd(r, n, a);
      if b < n {
        RunBefore(r, n, a, b);
        assert (a, b) in runs <==> (a, b) in new_;
      } else {
        assert (a, n) in runs <==> a == x;
      }
    }
  }

  lemma {:induction false} ExactNew(r: string, n: nat, runs: seq<(nat, nat)>)
    requires n == |r| - 1 && !IsBlank(r[n]) && RunsExact(r[..n], runs) && (n == 0 || IsBlank(r[n - 1]))
    ensures RunsExact(r, runs + [(n, |r|)])
  {
    forall a: nat, b: nat ensures (a, b) in runs + [(n, |r|)] <==> MaximalRun(r, a, b) {
      RunAtEnd(r, n, a);
      if b < n { RunBefore(r, n, a, b); }
    }
    forall i | 0 <= i < |runs| ensures runs[i].1 < n {
      assert (runs[i].0, runs[i].1) in runs;
    }
  }

  /** These are exactly the maximal stretches without blanks, in order. */
  lemma {:induction false} RunsOfExact(r: string)
    ensures RunsExact(r, RunsOf(r))
  {
    if r != "" {
      var n := |r| - 1;
      var runs := RunsOf(r[..n]);
      RunsOfExact(r[..n]);
      if n > 0 { ReachesEnd(r[..n]); }
      if IsBlank(r[n]) {
        ExactBlank(r, n, runs);
      } else if runs != [] && runs[|runs| - 1].1 == n {
        ExactLonger(r, n, runs, RunsOf(r));
      } else {
        ExactNew(r, n, runs);
      }
    }
  }

  function TextsOf(r: string, runs: seq<(nat, nat)>): seq<string> {
    seq(|runs|, i requires 0 <= i < |runs| => if runs[i].0 <= runs[i].1 <= |r| then r[runs[i].0..runs[i].1] else "")
  }

  /** The record without blanks, tabs and newlines. */
  function Unblanked(r: string): string {
    if r == "" then ""
    else
      var c := r[|r| - 1];
      Unblanked(r[..|r| - 1]) + if c == ' ' || c == '\t' || c == '\n' then "" else [c]
  }

  function Together(fs: seq<string>): string {
    if fs == [] then "" else Together(fs[..|fs| - 1]) + fs[|fs| - 1]
  }

  lemma {:induction false} TogetherLast(fs: seq<string>, x: string)
    ensures Together(fs + [x]) == Together(fs) + x
  {
    assert (fs + [x])[..|fs|] == fs;
  }

  lemma {:induction false} UnblankedLast(r: string)
    requires r != ""
    ensures Unblanked(r) == Unblanked(r[..|r| - 1]) + if IsBlank(r[|r| - 1]) then "" else [r[|r| - 1]]
  {
  }

  lemma {:induction false} TextGrows(r: string, runs: seq<(nat, nat)>)
    requires r != "" && runs != [] && runs[|runs| - 1].0 < runs[|runs| - 1].1 == |r| - 1
    ensures var m, n := |runs| - 1, |r| - 1;
            Together(TextsOf(r, runs[..m] + [(runs[m].0, |r|)])) == Together(TextsOf(r, runs)) + [r[n]]
  {
    var m, n := |runs| - 1, |r| - 1;
    var fs, x := TextsOf(r, runs[..m]), r[runs[m].0..n];
    assert runs == runs[..m] + [(runs[m].0, n)];
    TextsMore(r, runs[..m], runs[m].0, n);
    TextsMore(r, runs[..m], runs[m].0, |r|);
    assert r[runs[m].0..|r|] == x + [r[n]];
    TogetherLast(fs, x);
    TogetherLast(fs, x + [r[n]]);
    assert Together(fs) + (x + [r[n]]) == Together(fs) + x + [r[n]];
  }

  lemma {:induction false} TextBegins(r: string, runs: seq<(nat, nat)>)
    requires r != ""
    ensures Together(TextsOf(r, runs + [(|r| - 1, |r|)])) == Together(TextsOf(r, runs)) + [r[|r| - 1]]
  {
    TextsMore(r, runs, |r| - 1, |r|);
    assert r[|r| - 1..|r|] == [r[|r| - 1]];
    TogetherLast(TextsOf(r, runs), [r[|r| - 1]]);
  }

  /** The fields together are the record without blanks, tabs and newlines. */
  lemma {:induction false} RunsKeepText(r: string)
    ensures Together(TextsOf(r, RunsOf(r))) == Unblanked(r)
  {
    hide Together, TextsOf, Unblanked, MaximalRun;
    if r != "" {
      var n := |r| - 1;
      var q, runs := r[..n], RunsOf(r[..n]);
      RunsKeepText(q);
      RunsOfExact(q);
      TextsWithin(r, n, runs);
      UnblankedLast(r);
      if !IsBlank(r[n]) {
        if runs != [] && runs[|runs| - 1].1 == n { TextGrows(r, runs); } else { TextBegins(r, runs); }
      }
    } else {
      NothingThere();
    }
  }

  lemma {:induction false} NothingThere()
    ensures Together(TextsOf("", RunsOf(""))) == Unblanked("")
  {
  }

  lemma {:induction false} TextsWithin(r: string, n: nat, runs: seq<(nat, nat)>)
    requires n <= |r| && forall i :: 0 <= i < |runs| ==> runs[i].0 < runs[i].1 <= n
    ensures TextsOf(r, runs) == TextsOf(r[..n], runs)
  {
    forall i | 0 <= i < |runs| ensures r[runs[i].0..runs[i].1] == r[..n][runs[i].0..runs[i].1] {
    }
  }

  /** No field is empty or contains a blank, a tab or a newline. */
  lemma {:induction false} RunsWithout(r: string, k: nat)
    requires k < |RunsOf(r)|
    ensures var x := TextsOf(r, RunsOf(r))[k]; x != "" && ' ' !in x && '\t' !in x && '\n' !in x
  {
    RunsOfExact(r);
    var a, b := RunsOf(r)[k].0, RunsOf(r)[k].1;
    assert (a, b) in RunsOf(r) && MaximalRun(r, a, b);
    assert forall i :: 0 <= i < b - a ==> r[a..b][i] == r[a + i];
  }

  lemma {:induction false} TextsMore(r: string, runs: seq<(nat, nat)>, p: nat, q: nat)
    requires p <= q <= |r|
    ensures TextsOf(r, runs + [(p, q)]) == TextsOf(r, runs) + [r[p..q]]
  {
  }

  lemma {:induction false} RunsSkip(r: string, p: nat)
    requires p < |r| && IsBlank(r[p])
    ensures RunsOf(r[..p + 1]) == RunsOf(r[..p])
  {
    assert r[..p + 1][..p] == r[..p];
  }

  /** The runs while one is being read from `p` on. */
  lemma {:induction false} RunsRead(r: string, p: nat, q: nat, runs: seq<(nat, nat)>)
    requires p < q < |r| && !IsBlank(r[q]) && RunsOf(r[..q]) == runs + [(p, q)]
    ensures RunsOf(r[..q + 1]) == runs + [(p, q + 1)]
  {
    assert r[..q + 1][..q] == r[..q];
    assert (runs + [(p, q)])[..|runs|] == runs;
  }

  lemma {:induction false} RunsBegin(r: string, p: nat)
    requires p < |r| && !IsBlank(r[p]) && (p == 0 || IsBlank(r[p - 1]))
    ensures RunsOf(r[..p + 1]) == RunsOf(r[..p]) + [(p, p + 1)]
  {
    assert r[..p + 1][..p] == r[..p];
    LastRun(r[..p]);
  }

  lemma {:induction false} LastRun(r: string)
    ensures RunsOf(r) != [] ==> var b := RunsOf(r)[|RunsOf(r)| - 1].1; 0 < b <= |r| && !IsBlank(r[b - 1])
  {
    RunsOfExact(r);
    var runs := RunsOf(r);
    if runs != [] {
      var e := runs[|runs| - 1];
      assert (e.0, e.1) in runs;
    }
  }

  /** One more run begins. */
  lemma {:induction false} TooManyRuns(r: string, p: nat)
    requires p < |r| && !IsBlank(r[p]) && (p == 0 || IsBlank(r[p - 1]))
    ensures |RunsOf(r)| > |RunsOf(r[..p])|
  {
    RunsBegin(r, p);
    MoreRuns(r, p + 1);
  }

  lemma {:induction false} MoreRuns(r: string, p: nat)
    requires p <= |r|
    ensures |RunsOf(r[..p])| <= |RunsOf(r)|
    decreases |r| - p
  {
    if p == |r| {
      assert r[..p] == r;
    } else {
      assert r[..p + 1][..p] == r[..p];
      MoreRuns(r, p + 1);
    }
  }

  // ----- the fields of a record -----

  /** With one separator: none when the record is empty. */
  function FieldsOf(r: string, sep: char): seq<string> {
    if r == "" then [] else Pieces(r, sep)
  }

  /** Building the record from its fields with the same separator gives the record back. */
  lemma {:induction false} RecordComesBack(r: string, sep: char)
    requires '\n' !in r
    ensures Join(FieldsOf(r, sep), [sep]) == r
  {
    JoinPieces(r, sep);
  }

  lemma {:induction false} MorePieces(r: string, p: nat, sep: char)
    requires p <= |r|
    ensures |Pieces(r[..p], sep)| <= |Pieces(r, sep)|
    decreases |r| - p
  {
    if p == |r| {
      assert r[..p] == r;
    } else {
      assert r[..p + 1][..p] == r[..p];
      MorePieces(r, p + 1, sep);
    }
  }

  /** One more field: the text up to the next separator. */
  lemma {:induction false} PieceEnds(r: string, p: nat, q: nat, sep: char, before: seq<string>)
    requires p <= q <= |r| && Pieces(r[..p], sep) == before + [""] && Clean(r[p..q], sep)
    ensures Pieces(r[..q], sep) == before + [r[p..q]]
    ensures q < |r| && Separates(sep, r[q]) ==> Pieces(r[..q + 1], sep) == before + [r[p..q]] + [""]
  {
    var x := r[p..q];
    PiecesText(r[..p], x, sep);
    assert r[..p] + x == r[..q];
    LastReplaced(before, x);
    if q < |r| { assert r[..q + 1][..q] == r[..q]; }
  }

  lemma {:induction false} NoPieces(sep: char)
    ensures Pieces("", sep) == [""]
  {
  }

  lemma {:induction false} LastReplaced(before: seq<string>, x: string)
    ensures var fs := before + [""]; fs[..|fs| - 1] + [fs[|fs| - 1] + x] == before + [x]
  {
    assert "" + x == x;
  }

  /** The end of the text of a field. */
  method CopyField(r: string, p: nat, sep: char) returns (q: nat)
    requires p <= |r|
    ensures p <= q <= |r| && Clean(r[p..q], sep) && (q < |r| ==> Separates(sep, r[q]))
  {
    q := p;
    while q < |r| && !Separates(sep, r[q])
      invariant p <= q <= |r| && Clean(r[p..q], sep)
    {
      assert r[p..q + 1] == r[p..q] + [r[q]];
      q := q + 1;
    }
  }

  /** The end of a run that begins at `p`. */
  method CopyRun(r: string, p: nat) returns (q: nat)
    requires p < |r| && !IsBlank(r[p]) && (p == 0 || IsBlank(r[p - 1]))
    ensures p < q <= |r| && (q == |r| || IsBlank(r[q])) && RunsOf(r[..q]) == RunsOf(r[..p]) + [(p, q)]
  {
    ghost var runs := RunsOf(r[..p]);
    RunsBegin(r, p);
    q := p + 1;
    while q < |r| && !IsBlank(r[q])
      invariant p < q <= |r| && RunsOf(r[..q]) == runs + [(p, q)]
    {
      RunsRead(r, p, q, runs);
      q := q + 1;
    }
  }

  class Table {
    const fldtab: array<string>
    var record: string
    var maxfld: nat
    var donefld: bool
    var donerec: bool

    ghost predicate Valid()
      reads this, fldtab
    {
      fldtab.Length == MAXFLD && maxfld < MAXFLD && forall i :: maxfld < i < MAXFLD ==> fldtab[i] == ""
    }

    constructor ()
      ensures Valid() && fresh(fldtab)
    {
      fldtab := new string[MAXFLD](_ => "");
      record, maxfld, donefld, donerec := "", 0, true, true;
    }

    /** Copies the text from `p` up to the next separator into field `i`. */
    method PutField(i: nat, p: nat, sep: char) returns (q: nat)
      requires fldtab.Length == MAXFLD && 0 < i < MAXFLD && p <= |record|
               && Pieces(record[..p], sep) == fldtab[1..i] + [""]
      modifies fldtab
      ensures p <= q <= |record| && Pieces(record[..q], sep) == fldtab[1..i + 1]
      ensures q < |record| ==> Pieces(record[..q + 1], sep) == fldtab[1..i + 1] + [""]
      ensures forall k :: 0 <= k < MAXFLD && k != i ==> fldtab[k] == old(fldtab[k])
    {
      ghost var before := fldtab[1..i];
      q := CopyField(record, p, sep);
      PieceEnds(record, p, q, sep, before);
      fldtab[i] := record[p..q];
      assert fldtab[1..i + 1] == before + [record[p..q]];
    }

    /** Fills the table from the record; the result is the number of fields, at most MAXFLD. */
    method SplitChar(sep: char) returns (i: nat)
      requires fldtab.Length == MAXFLD
      modifies fldtab
      ensures i <= MAXFLD && (i < MAXFLD <==> |FieldsOf(record, sep)| < MAXFLD)
      ensures i < MAXFLD ==>
                && fldtab[1..i + 1] == FieldsOf(record, sep)
                && forall k :: i < k < MAXFLD ==> fldtab[k] == old(fldtab[k])
    {
      i := 0;
      if record != "" {
        i := SplitPieces(sep);
      }
    }

    /** Fields `1` to `i` are the pieces of the first `p` characters, up to a separator. */
    ghost predicate Filled(i: nat, p: nat, sep: char)
      requires fldtab.Length == MAXFLD
      reads this, fldtab
    {
      i < MAXFLD && p <= |record| && Pieces(record[..p], sep) == fldtab[1..i + 1] + [""]
    }

    method SplitPieces(sep: char) returns (i: nat)
      requires fldtab.Length == MAXFLD
      modifies fldtab
      ensures i <= MAXFLD && (i < MAXFLD <==> |Pieces(record, sep)| < MAXFLD)
      ensures i < MAXFLD ==>
                && fldtab[1..i + 1] == Pieces(record, sep)
                && forall k :: i < k < MAXFLD ==> fldtab[k] == old(fldtab[k])
    {
      hide Pieces;
      NoPieces(sep);
      i := 0;
      var p: nat := 0;
      assert record[..0] == "";
      while true
        invariant Filled(i, p, sep)
        invariant forall k :: i < k < MAXFLD ==> fldtab[k] == old(fldtab[k])
        decreases |record| - p
      {
        i := i + 1;
        if i >= MAXFLD {
          MorePieces(record, p, sep);
          return;
        }
        var q := PutField(i, p, sep);
        if q == |record| {
          assert record[..q] == record;
          return;
        }
        p := q + 1;
      }
    }

    /** Copies a run without blanks into field `i`. */
    method PutRun(i: nat, p: nat) returns (q: nat)
      requires fldtab.Length == MAXFLD && 0 < i < MAXFLD && p < |record| && !IsBlank(record[p])
               && (p == 0 || IsBlank(record[p - 1]))
      requires Holds(i - 1, p)
      modifies fldtab
      ensures p < q <= |record| && (q == |record| || IsBlank(record[q])) && Holds(i, q)
      ensures forall k :: 0 <= k < MAXFLD && k != i ==> fldtab[k] == old(fldtab[k])
    {
      ghost var runs, before := RunsOf(record[..p]), fldtab[1..i];
      q := CopyRun(record, p);
      fldtab[i] := record[p..q];
      assert fldtab[1..i + 1] == before + [record[p..q]];
      TextsMore(record, runs, p, q);
    }

    /** The first `i` fields are the runs of the first `p` characters. */
    ghost predicate Holds(i: nat, p: nat)
      requires fldtab.Length == MAXFLD
      reads this, fldtab
    {
      i < MAXFLD && p <= |record| && |RunsOf(record[..p])| == i
        && fldtab[1..i + 1] == TextsOf(record, RunsOf(record[..p]))
    }

    /** Fills the table with the runs of the record; the result is their number, at most MAXFLD. */
    method SplitBlank() returns (i: nat)
      requires fldtab.Length == MAXFLD
      modifies fldtab
      ensures i <= MAXFLD && (i < MAXFLD <==> |RunsOf(record)| < MAXFLD)
      ensures i < MAXFLD ==>
                && fldtab[1..i + 1] == TextsOf(record, RunsOf(record))
                && forall k :: i < k < MAXFLD ==> fldtab[k] == old(fldtab[k])
    {
      i := 0;
      var p: nat := 0;
      assert record[..0] == "";
      while true
        invariant Holds(i, p) && (p == 0 || p == |record| || IsBlank(record[p]))
        invariant forall k :: i < k < MAXFLD ==> fldtab[k] == old(fldtab[k])
        decreases |record| - p
      {
        p := SkipBlanks(i, p);
        if p == |record| {
          assert record[..p] == record;
          return;
        }
        i := i + 1;
        if i >= MAXFLD {
          TooManyRuns(record, p);
          return;
        }
        p := PutRun(i, p);
      }
    }

    method SkipBlanks(ghost i: nat, from: nat) returns (p: nat)
      requires fldtab.Length == MAXFLD && Holds(i, from) && (from == 0 || from == |record| || IsBlank(record[from]))
      ensures from <= p && Holds(i, p) && (p == |record| || (!IsBlank(record[p]) && (p == 0 || IsBlank(record[p - 1]))))
    {
      p := from;
      while p < |record| && IsBlank(record[p])
        invariant from <= p && Holds(i, p) && (p == from || IsBlank(record[p - 1]))
      {
        RunsSkip(record, p);
        p := p + 1;
      }
    }

    /** Splits the record at blanks; fails when there are too many fields. */
    method FldbldBlank() returns (ok: bool)
      requires Valid() && !donefld
      modifies this`maxfld, this`donefld, fldtab
      ensures ok <==> |RunsOf(record)| < MAXFLD
      ensures ok ==>
                && Valid() && donefld && maxfld == |RunsOf(record)|
                && fldtab[1..maxfld + 1] == TextsOf(record, RunsOf(record))
    {
      var i := SplitBlank();
      if i >= MAXFLD {
        return false;
      }
      ghost var fs := fldtab[1..i + 1];
      CleanFld(i, maxfld);
      maxfld := i;
      donefld := true;
      assert fldtab[1..i + 1] == fs;
      return true;
    }

    /** Empties the fields behind `n1` up to `n2`. */
    method CleanFld(n1: nat, n2: nat)
      requires fldtab.Length == MAXFLD && n2 < MAXFLD
      modifies fldtab
      ensures forall k :: 0 <= k < MAXFLD ==> fldtab[k] == if n1 < k <= n2 then "" else old(fldtab[k])
    {
      var p := n2;
      while p > n1
        invariant n1 <= p || p == n2
        invariant 0 <= p <= n2
        invariant forall k :: 0 <= k < MAXFLD ==> fldtab[k] == if p < k <= n2 then "" else old(fldtab[k])
      {
        fldtab[p] := "";
        p := p - 1;
      }
    }

    /** Splits the record with one separator that is not a blank; fails when there are too many fields. */
    method FldbldChar(sep: char) returns (ok: bool)
      requires Valid() && !donefld
      modifies this`maxfld, this`donefld, fldtab
      ensures ok <==> |FieldsOf(record, sep)| < MAXFLD
      ensures ok ==>
              Valid() && donefld && maxfld == |FieldsOf(record, sep)| && fldtab[1..maxfld + 1] == FieldsOf(record, sep)
    {
      var i := SplitChar(sep);
      if i >= MAXFLD {
        return false;
      }
      ghost var fs := fldtab[1..i + 1];
      CleanFld(i, maxfld);
      maxfld := i;
      donefld := true;
      assert fldtab[1..i + 1] == fs;
      return true;
    }

    /** Builds the record from the fields. */
    method Recbld(ofs: string)
      requires Valid()
      modifies this`record, this`donerec
      ensures donerec && record == if old(donerec) then old(record) else Join(fldtab[1..maxfld + 1], ofs)
    {
      if donerec {
        return;
      }
      var r := "";
      for i := 1 to maxfld + 1
        invariant r == (if i == 1 || i == maxfld + 1 then Join(fldtab[1..i], ofs) else Join(fldtab[1..i], ofs) + ofs)
      {
        ghost var before := fldtab[1..i];
        assert fldtab[1..i + 1] == before + [fldtab[i]];
        if i > 1 { JoinMore(before, ofs, fldtab[i]); }
        r := r + fldtab[i];
        if i < maxfld {
          r := r + ofs;
        }
      }
      record := r;
      donerec := true;
    }
  }
}
