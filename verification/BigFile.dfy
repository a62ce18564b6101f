/**
 The line index of the big file scanner (cmd/bfs/bfs.c: bigopen, bigread).  Lines are numbered from 1; the
 reference for where line `l` starts is a scan from the beginning of the file.
 */
module BigFile {
  import opened ShortIntegers

  const BLOCK := 512
  const BFSLIM := 511
  const MAXLINES := 32767

  // ----- the reference: scanning from the start -----

  /** The place behind the first newline at or after `p`. */
  function NextLine(f: seq<char>, p: nat): (q: nat)
    requires p <= |f|
    ensures p <= q <= |f| && (p < |f| ==> p < q)
    decreases |f| - p
  {
    if p == |f| then p else if f[p] == '\n' then p + 1 else NextLine(f, p + 1)
  }

  /** Where line `l` starts; lines past the last start at the end. */
  function StartOf(f: seq<char>, l: nat): (p: nat)
    ensures p <= |f|
  {
    if l <= 1 then 0 else NextLine(f, StartOf(f, l - 1))
  }

  ghost predicate FitsShort(f: seq<char>, l: nat) {
    StartOf(f, l + 1) - StartOf(f, l) <= SHORTMAX
  }

  /** No line is too long for a short count. */
  ghost predicate LinesFit(f: seq<char>) {
    forall l: nat :: l >= 1 ==> FitsShort(f, l)
  }

  /** The number of lines: line `n` is the last that starts before the end. */
  ghost predicate HasLines(f: seq<char>, n: nat) {
    StartOf(f, n + 1) == |f| && (n >= 1 ==> StartOf(f, n) < |f|)
  }

  /** What is between the start of line `l` and its newline, or the end of the file. */
  function LineText(f: seq<char>, l: nat): seq<char>
    requires l >= 1 && StartOf(f, l) < StartOf(f, l + 1)
  {
    var p, q := StartOf(f, l), StartOf(f, l + 1);
    if f[q - 1] == '\n' then f[p..q - 1] else f[p..q]
  }

  ghost predicate TooManyLines(f: seq<char>) {
    exists l: nat :: l > MAXLINES && StartOf(f, l) < |f|
  }

  lemma {:induction false} StartsGrow(f: seq<char>, l: nat, m: nat)
    requires 1 <= l <= m
    ensures StartOf(f, l) <= StartOf(f, m)
    decreases m
  {
    if l < m { StartsGrow(f, l, m - 1); }
  }

  /** The character before the next line is a newline, unless the file ends, and there is none before it. */
  lemma {:induction false} LineEnds(f: seq<char>, p: nat)
    requires p < |f|
    ensures var q := NextLine(f, p); (f[q - 1] == '\n' || q == |f|) && forall k :: p <= k < q - 1 ==> f[k] != '\n'
    decreases |f| - p
  {
    if f[p] != '\n' && p + 1 < |f| { LineEnds(f, p + 1); }
  }

  /** Where a line lies: only the last one may lack its newline. */
  lemma {:induction false} LineLies(f: seq<char>, n: nat, l: nat)
    requires HasLines(f, n) && 1 <= l <= n
    ensures var p, q := StartOf(f, l), StartOf(f, l + 1);
            && p < q <= |f| && (f[q - 1] != '\n' ==> l == n && q == |f|)
            && forall k :: p <= k < q - 1 ==> f[k] != '\n'
  {
    StartsGrow(f, l, n);
    LineEnds(f, StartOf(f, l));
    if l < n { StartsGrow(f, l + 1, n); }
  }

  lemma {:induction false} TakeOfSlice(f: seq<char>, p: nat, q: nat, n: nat)
    requires p + n <= q <= |f|
    ensures f[p..q][..n] == f[p..p + n]
  {
  }

  lemma {:induction false} NotTooMany(f: seq<char>, n: nat)
    requires StartOf(f, n + 1) == |f| && n <= MAXLINES
    ensures !TooManyLines(f)
  {
    forall l: nat | l > MAXLINES ensures StartOf(f, l) == |f| { StartsGrow(f, n + 1, l); }
  }

  // ----- the index -----

  /** Line `l` starts at offset `off` of block `blk`. */
  ghost predicate IsStart(f: seq<char>, blk: int, off: int, l: nat) {
    BLOCK * blk + off == StartOf(f, l)
  }

  function LengthOf(f: seq<char>, l: nat): int {
    StartOf(f, l + 1) - StartOf(f, l)
  }

  /**
   `lincnt[k]` is the length of line `k` as a short, and every 64th line has its block and offset in the segment
   table.
   */
  ghost predicate Indexed(f: seq<char>, n: nat, lincnt: seq<int>, segblk: seq<int>, segoff: seq<int>) {
    && |lincnt| == n + 1
    && (forall k :: 1 <= k <= n ==> lincnt[k] == Short(LengthOf(f, k)))
    && |segblk| == |segoff| && 64 * |segblk| >= n
    && (forall s :: 0 <= s < |segblk| ==> IsStart(f, segblk[s], segoff[s], 64 * s + 1))
  }

  /** Lines past the last are empty. */
  lemma {:induction false} PastTheEnd(f: seq<char>, n: nat, l: nat)
    requires HasLines(f, n) && n < l
    ensures StartOf(f, l) == |f|
    decreases l
  {
    if l > n + 1 { PastTheEnd(f, n, l - 1); }
  }

  /** The index holds the lengths themselves if and only if no line is too long for a short. */
  lemma {:induction false} LengthsExactly(f: seq<char>, n: nat, lincnt: seq<int>, segblk: seq<int>, segoff: seq<int>)
    requires HasLines(f, n) && Indexed(f, n, lincnt, segblk, segoff)
    ensures LinesFit(f) <==> forall k :: 1 <= k <= n ==> lincnt[k] == LengthOf(f, k)
  {
    forall l: nat | l > n ensures LengthOf(f, l) == 0 {
      PastTheEnd(f, n, l);
      PastTheEnd(f, n, l + 1);
    }
    if forall k :: 1 <= k <= n ==> lincnt[k] == LengthOf(f, k) {
      forall l: nat | l >= 1 ensures FitsShort(f, l) {
        if l <= n { assert lincnt[l] == LengthOf(f, l); } else { assert LengthOf(f, l) == 0; }
      }
    } else {
      var k :| 1 <= k <= n && lincnt[k] != LengthOf(f, k);
      assert StartOf(f, k + 1) == NextLine(f, StartOf(f, k));
      assert !FitsShort(f, k);
    }
  }

  /** What bigopen notes about the lines. */
  datatype Index = Index(lincnt: seq<int>, segblk: seq<int>, segoff: seq<int>)

  /** The state of the scan of bigopen before the character at `pos`: inside line `l`, or in front of line `l + 1`. */
  ghost predicate ScanOk(file: seq<char>, pos: nat, l: nat, cnt: int, newline: bool, x: Index) {
    && pos <= |file| && |x.lincnt| == l && (l >= 1 ==> x.lincnt[0] == 0)
    && (forall k :: 1 <= k < l ==> x.lincnt[k] == Short(LengthOf(file, k)))
    && |x.segblk| == |x.segoff| == (l + 63) / 64
    && (forall s :: 0 <= s < |x.segblk| ==> IsStart(file, x.segblk[s], x.segoff[s], 64 * s + 1))
    && (l == 0 ==> newline && pos == 0 && cnt == 0)
    && (l >= 1 ==>
          && StartOf(file, l) < pos && cnt == pos - StartOf(file, l)
          && StartOf(file, l + 1) == (if newline then pos else NextLine(file, pos)))
  }

  ghost function Scans(file: seq<char>, pos: nat, l: nat, cnt: int, newline: bool): iset<Index> {
    iset x: Index | ScanOk(file, pos, l, cnt, newline, x)
  }

  // ----- what the loop of bigread sees -----

  /** The buffer after block `blk` is read over `old_`: behind the end of the file it stays as it was. */
  function Over(f: seq<char>, blk: nat, old_: seq<char>): (s: seq<char>)
    requires |old_| == BLOCK
    ensures |s| == BLOCK
  {
    seq(BLOCK, k requires 0 <= k < BLOCK => if BLOCK * blk + k < |f| then f[BLOCK * blk + k] else old_[k])
  }

  /** The buffer when the loop has come to block `blk`; before it started the buffer held `old_`. */
  function BufferAt(f: seq<char>, first: nat, old_: seq<char>, blk: nat): (s: seq<char>)
    requires |old_| == BLOCK && first <= blk
    ensures |s| == BLOCK
    decreases blk
  {
    Over(f, blk, if blk == first then old_ else BufferAt(f, first, old_, blk - 1))
  }

  /** The character that the loop finds at place `pos`, when it has started in block `first`. */
  function Seen(f: seq<char>, first: nat, old_: seq<char>, pos: nat): char
    requires |old_| == BLOCK && BLOCK * first <= pos
  {
    BufferAt(f, first, old_, pos / BLOCK)[pos % BLOCK]
  }

  /** What the loop copies from place `pos` on while there is room: all up to a newline. */
  function Copied(f: seq<char>, first: nat, old_: seq<char>, pos: nat, room: nat): (r: seq<char>)
    requires |old_| == BLOCK && BLOCK * first <= pos
    ensures |r| <= room
    decreases room
  {
    if room == 0 || Seen(f, first, old_, pos) == '\n' then []
    else [Seen(f, first, old_, pos)] + Copied(f, first, old_, pos + 1, room - 1)
  }

  lemma {:induction false} FirstBuffer(f: seq<char>, first: nat, old_: seq<char>)
    requires |old_| == BLOCK
    ensures BufferAt(f, first, old_, first) == Over(f, first, old_)
  {
  }

  lemma {:induction false} NextBuffer(f: seq<char>, first: nat, old_: seq<char>, blk: nat)
    requires |old_| == BLOCK && first < blk
    ensures BufferAt(f, first, old_, blk) == Over(f, blk, BufferAt(f, first, old_, blk - 1))
  {
  }

  lemma {:induction false} StartFrom(f: seq<char>, first: nat, old_: seq<char>, start: nat)
    requires |old_| == BLOCK && BLOCK * first <= start
    ensures Copied(f, first, old_, start, BFSLIM + 1) == [] + Copied(f, first, old_, start, BFSLIM + 1)
  {
  }

  lemma {:induction false} SeenInside(f: seq<char>, first: nat, old_: seq<char>, pos: nat)
    requires |old_| == BLOCK && BLOCK * first <= pos < |f|
    ensures Seen(f, first, old_, pos) == f[pos]
  {
    assert BLOCK * (pos / BLOCK) + pos % BLOCK == pos;
  }

  /** What is behind the end of the file: the character one block before, or what the buffer held. */
  function BehindEnd(f: seq<char>, start: nat, old_: seq<char>): char
    requires |old_| == BLOCK && start < |f|
  {
    if start / BLOCK < |f| / BLOCK then f[|f| - BLOCK] else old_[|f| % BLOCK]
  }

  lemma {:induction false} SeenBehindEnd(f: seq<char>, start: nat, old_: seq<char>)
    requires |old_| == BLOCK && start < |f|
    ensures Seen(f, start / BLOCK, old_, |f|) == BehindEnd(f, start, old_)
  {
    var first, blk, k := start / BLOCK, |f| / BLOCK, |f| % BLOCK;
    assert BLOCK * blk + k == |f|;
    if first < blk { assert BufferAt(f, first, old_, blk)[k] == BufferAt(f, first, old_, blk - 1)[k]; }
  }

  lemma {:induction false} SeenHere(f: seq<char>, first: nat, old_: seq<char>, blk: nat, off: nat)
    requires |old_| == BLOCK && first <= blk && off < BLOCK
    ensures Seen(f, first, old_, BLOCK * blk + off) == BufferAt(f, first, old_, blk)[off]
  {
    assert (BLOCK * blk + off) / BLOCK == blk && (BLOCK * blk + off) % BLOCK == off;
  }

  /** One character is copied, or the loop stops. */
  lemma {:induction false} CopiesOne(f: seq<char>, first: nat, old_: seq<char>, pos: nat, room: nat, rec: seq<char>)
    requires |old_| == BLOCK && BLOCK * first <= pos && room > 0
    ensures var c := Seen(f, first, old_, pos);
            rec + Copied(f, first, old_, pos, room) ==
            if c == '\n' then rec else rec + [c] + Copied(f, first, old_, pos + 1, room - 1)
  {
    hide Seen;
    var c, more := Seen(f, first, old_, pos), Copied(f, first, old_, pos + 1, room - 1);
    assert rec + ([c] + more) == rec + [c] + more;
  }

  /** A stretch of the file without newline is copied. */
  lemma {:induction false} CopiesStretch(f: seq<char>, first: nat, old_: seq<char>, p: nat, m: nat, room: nat)
    requires |old_| == BLOCK && BLOCK * first <= p && p + m <= |f| && m <= room
    requires forall k :: p <= k < p + m ==> f[k] != '\n'
    ensures Copied(f, first, old_, p, room) == f[p..p + m] + Copied(f, first, old_, p + m, room - m)
    decreases m
  {
    hide Copied, Seen;
    if m > 0 {
      CopiesStretch(f, first, old_, p, m - 1, room);
      SeenInside(f, first, old_, p + m - 1);
      CopiesOne(f, first, old_, p + m - 1, room - (m - 1), f[p..p + m - 1]);
      assert f[p..p + m] == f[p..p + m - 1] + [f[p + m - 1]];
    } else {
      assert f[p..p] == [];
    }
  }

  /** What bigread should return for a line: all of it, or its first 512 characters if it is longer than the record. */
  function Record(text: seq<char>): seq<char> {
    if |text| <= BFSLIM then text else text[..BFSLIM + 1]
  }

  /** The line ends in a newline, or before that the record is full. */
  ghost predicate Readable(f: seq<char>, l: nat)
    requires l >= 1
  {
    StartOf(f, l) < StartOf(f, l + 1) ==> f[StartOf(f, l + 1) - 1] == '\n' || LengthOf(f, l) > BFSLIM
  }

  /** In a file that ends in a newline every line can be read. */
  lemma {:induction false} EveryLineReadable(f: seq<char>, n: nat, l: nat)
    requires HasLines(f, n) && 1 <= l <= n && f[|f| - 1] == '\n'
    ensures Readable(f, l)
  {
    LineLies(f, n, l);
  }

  /** The loop copies the line if and only if it can be read, or a newline happens to be behind the end of the file. */
  lemma {:induction false} ReadsExactly(f: seq<char>, n: nat, l: nat, old_: seq<char>)
    requires HasLines(f, n) && 1 <= l <= n && |old_| == BLOCK
    ensures StartOf(f, l) < StartOf(f, l + 1) && StartOf(f, l) < |f|
    ensures var p := StartOf(f, l);
            Copied(f, p / BLOCK, old_, p, BFSLIM + 1) == Record(LineText(f, l)) <==>
            Readable(f, l) || BehindEnd(f, p, old_) == '\n'
  {
    hide Copied, Seen, StartOf, BehindEnd;
    LineLies(f, n, l);
    var p, text := StartOf(f, l), LineText(f, l);
    var m := if |text| <= BFSLIM then |text| else BFSLIM + 1;
    CopiesStretch(f, p / BLOCK, old_, p, m, BFSLIM + 1);
    TakeOfSlice(f, p, p + |text|, m);
    if |text| <= BFSLIM {
      SeenNext(f, l, p, old_);
      CopiesOne(f, p / BLOCK, old_, p + m, BFSLIM + 1 - m, []);
    } else {
      CopiesNone(f, p / BLOCK, old_, p + m);
    }
  }

  lemma {:induction false} CopiesNone(f: seq<char>, first: nat, old_: seq<char>, pos: nat)
    requires |old_| == BLOCK && BLOCK * first <= pos
    ensures Copied(f, first, old_, pos, 0) == []
  {
  }

  /** Behind a line there is its newline, or what is behind the end of the file. */
  lemma {:induction false} SeenNext(f: seq<char>, l: nat, p: nat, old_: seq<char>)
    requires l >= 1 && |old_| == BLOCK && p == StartOf(f, l) < StartOf(f, l + 1)
    requires f[StartOf(f, l + 1) - 1] != '\n' ==> StartOf(f, l + 1) == |f|
    ensures Seen(f, p / BLOCK, old_, p + |LineText(f, l)|) ==
            if f[StartOf(f, l + 1) - 1] == '\n' then '\n' else BehindEnd(f, p, old_)
  {
    hide Seen, StartOf, BehindEnd;
    var q := StartOf(f, l + 1);
    if f[q - 1] == '\n' { SeenInside(f, p / BLOCK, old_, q - 1); } else { SeenBehindEnd(f, p, old_); }
  }

  lemma {:induction false} NoNewline(f: seq<char>, p: nat)
    requires p <= |f| && forall k :: p <= k < |f| ==> f[k] != '\n'
    ensures NextLine(f, p) == |f|
    decreases |f| - p
  {
    if p < |f| { NoNewline(f, p + 1); }
  }

  /** A file whose last line lacks its newline and is returned with a character from the first one behind it. */
  lemma {:induction false} UnfinishedLineGrows(f: seq<char>, old_: seq<char>)
    requires |f| == BLOCK + 1 && f[..3] == "xx\n" && |old_| == BLOCK && forall k :: 3 <= k < |f| ==> f[k] == 'y'
    ensures HasLines(f, 2) && LinesFit(f) && StartOf(f, 2) == 3
    ensures Copied(f, 0, old_, 3, BFSLIM + 1) == LineText(f, 2) + "x"
  {
    hide Copied, Seen, StartOf;
    UnfinishedLines(f);
    var n := |f| - 3;
    CopiesStretch(f, 0, old_, 3, n, BFSLIM + 1);
    SeenBehindEnd(f, 3, old_);
    SeenHere(f, 0, old_, 1, 2);
    assert BufferAt(f, 0, old_, 1)[2] == BufferAt(f, 0, old_, 0)[2];
    CopiesTwo(f, old_, |f|, BFSLIM + 1 - n);
  }

  lemma {:induction false} UnfinishedLines(f: seq<char>)
    requires |f| == BLOCK + 1 && f[..3] == "xx\n" && forall k :: 3 <= k < |f| ==> f[k] == 'y'
    ensures f[1] == 'x' && f[2] == '\n'
    ensures HasLines(f, 2) && LinesFit(f) && StartOf(f, 2) == 3 && StartOf(f, 3) == |f|
  {
    assert f[0] == f[..3][0] && f[1] == f[..3][1] && f[2] == f[..3][2];
    assert NextLine(f, 2) == 3 && NextLine(f, 1) == 3 && NextLine(f, 0) == 3;
    assert StartOf(f, 1) == 0;
    NoNewline(f, 3);
  }

  lemma {:induction false} CopiesTwo(f: seq<char>, old_: seq<char>, pos: nat, room: nat)
    requires |old_| == BLOCK && room >= 2
    requires Seen(f, 0, old_, pos) == 'x' && Seen(f, 0, old_, pos + 1) == '\n'
    ensures Copied(f, 0, old_, pos, room) == "x"
  {
    assert Copied(f, 0, old_, pos + 1, room - 1) == [];
  }

  class Scanner {
    const file: seq<char>
    var lincnt: seq<int>
    var segblk: seq<int>
    var segoff: seq<int>
    var dollar: nat

    var lprev: nat
    var prevblk: int
    var prevoff: int
    var saveblk: int
    const savetxt: array<char>
    /** Where the next read of the open file starts. */
    var fdpos: nat

    ghost predicate Opened()
      reads this`lincnt, this`segblk, this`segoff, this`dollar
    {
      HasLines(file, dollar) && Indexed(file, dollar, lincnt, segblk, segoff)
    }

    /** The saved pair is the start of line `lprev`. */
    ghost predicate Placed()
      reads this`lprev, this`prevblk, this`prevoff, this`dollar
    {
      lprev >= 1 && (dollar >= 1 ==> lprev <= dollar) && 0 <= prevoff < BLOCK && prevblk >= 0
        && BLOCK * prevblk + prevoff == StartOf(file, lprev)
    }

    /** savetxt is block `saveblk`, and the file stands behind that block. */
    ghost predicate Saved()
      reads this`saveblk, this`fdpos, savetxt
    {
      && savetxt.Length == BLOCK && saveblk >= -1
      && (saveblk >= 0 ==>
            && fdpos == (if BLOCK * (saveblk + 1) <= |file| then BLOCK * (saveblk + 1) else |file|)
            && (forall k :: 0 <= k < BLOCK && BLOCK * saveblk + k < |file| ==> savetxt[k] == file[BLOCK * saveblk + k]))
    }

    ghost predicate Valid()
      reads this, savetxt
    {
      Opened() && Placed() && Saved()
    }

    constructor (f: seq<char>)
      ensures file == f && lprev == 1 && prevblk == 0 && prevoff == 0 && saveblk == -1 && fdpos == 0
      ensures savetxt.Length == BLOCK && fresh(savetxt)
    {
      file := f;
      lincnt, segblk, segoff, dollar := [], [], [], 0;
      lprev, prevblk, prevoff, saveblk, fdpos := 1, 0, 0, -1, 0;
      savetxt := new char[BLOCK](_ => '\0');
    }

    ghost predicate Scanning(pos: nat, l: nat, cnt: int, newline: bool)
      reads this
    {
      Index(lincnt, segblk, segoff) in Scans(file, pos, l, cnt, newline)
    }

    /** A line starts here: the length of the one before is noted, and every 64th start goes into the segment table. */
    method NoteLine(blk: nat, off: nat, l: nat, cnt: int)
      requires BLOCK * blk + off < |file| && Scanning(BLOCK * blk + off, l, cnt, true)
      modifies this`lincnt, this`segblk, this`segoff
      ensures |lincnt| == l + 1 && lincnt[0] == 0
      ensures forall k :: 1 <= k <= l ==> lincnt[k] == Short(LengthOf(file, k))
      ensures |segblk| == |segoff| == (l + 64) / 64
      ensures forall s :: 0 <= s < |segblk| ==> IsStart(file, segblk[s], segoff[s], 64 * s + 1)
      ensures StartOf(file, l + 1) == BLOCK * blk + off
    {
      lincnt := lincnt + [Short(cnt)];
      if l % 64 == 0 {
        assert l == 64 * |segblk|;
        segblk := segblk + [blk];
        segoff := segoff + [off];
      }
    }

    /** One character of bigopen's scan, at offset `off` of block `blk`. */
    method ScanChar(blk: nat, off: nat, l: nat, cnt: int, newline: bool) returns (l': nat, cnt': int, newline': bool)
      requires BLOCK * blk + off < |file| && Scanning(BLOCK * blk + off, l, cnt, newline)
      modifies this`lincnt, this`segblk, this`segoff
      ensures Scanning(BLOCK * blk + off + 1, l', cnt', newline')
      ensures l' == if newline then l + 1 else l
    {
      l', cnt', newline' := l, cnt, newline;
      if newline {
        newline' := false;
        NoteLine(blk, off, l, cnt);
        cnt', l' := 0, l + 1;
      }
      if file[BLOCK * blk + off] == '\n' {
        newline' := true;
      }
      cnt' := cnt' + 1;
    }

    /** One step of bigopen's scan of a block; stops at a line past the limit. */
    method ScanStep(blk: nat, off: nat, l: nat, cnt: int, newline: bool)
      returns (ok: bool, l': nat, cnt': int, newline': bool)
      requires BLOCK * blk + off < |file| && Scanning(BLOCK * blk + off, l, cnt, newline)
               && l <= MAXLINES
      modifies this`lincnt, this`segblk, this`segoff
      ensures ok ==> Scanning(BLOCK * blk + off + 1, l', cnt', newline') && l' <= MAXLINES
      ensures !ok ==> TooManyLines(file)
    {
      l', cnt', newline', ok := l, cnt, newline, true;
      if newline && l == MAXLINES {
        assert StartOf(file, l + 1) < |file|;
        ok := false;
      } else {
        l', cnt', newline' := ScanChar(blk, off, l, cnt, newline);
      }
    }

    /** One block of bigopen's scan. */
    method ScanBlock(blk: nat, n: nat, l: nat, cnt: int, newline: bool)
      returns (ok: bool, l': nat, cnt': int, newline': bool)
      requires n <= BLOCK && BLOCK * blk + n <= |file| && Scanning(BLOCK * blk, l, cnt, newline)
               && l <= MAXLINES
      modifies this`lincnt, this`segblk, this`segoff
      ensures ok ==> Scanning(BLOCK * blk + n, l', cnt', newline') && l' <= MAXLINES
      ensures !ok ==> TooManyLines(file)
    {
      hide Scanning, TooManyLines;
      l', cnt', newline', ok := l, cnt, newline, true;
      var off: nat := 0;
      ghost var pos := BLOCK * blk;
      while off < n
        invariant off <= n && ok && pos == BLOCK * blk + off && Scanning(pos, l', cnt', newline') && l' <= MAXLINES
      {
        ok, l', cnt', newline' := ScanStep(blk, off, l', cnt', newline');
        if !ok {
          return;
        }
        off := off + 1;
        pos := pos + 1;
      }
    }

    /** Reads the file block by block. */
    method ScanAll() returns (ok: bool, l: nat, cnt: int, newline: bool)
      modifies this`lincnt, this`segblk, this`segoff, this`fdpos
      ensures ok ==> Scanning(|file|, l, cnt, newline) && l <= MAXLINES && fdpos == |file|
      ensures !ok ==> TooManyLines(file)
    {
      var blk := -1;
      l, cnt, newline, ok := 0, 0, true, true;
      lincnt, segblk, segoff, fdpos := [], [], [], 0;
      while fdpos < |file|
        invariant fdpos <= |file| && (fdpos < |file| ==> fdpos == BLOCK * (blk + 1)) && blk >= -1
        invariant Scanning(fdpos, l, cnt, newline) && l <= MAXLINES && ok
        decreases |file| - fdpos
      {
        var n := if |file| - fdpos < BLOCK then |file| - fdpos else BLOCK;
        blk := blk + 1;
        ok, l, cnt, newline := ScanBlock(blk, n, l, cnt, newline);
        if !ok {
          return;
        }
        fdpos := fdpos + n;
      }
    }

    /** Builds the index; fails when there are too many lines. */
    method Bigopen() returns (ok: bool)
      requires lprev == 1 && prevblk == 0 && prevoff == 0 && saveblk == -1 && savetxt.Length == BLOCK
      modifies this`lincnt, this`segblk, this`segoff, this`dollar, this`fdpos
      ensures ok <==> !TooManyLines(file)
      ensures ok ==> Valid() && dollar <= MAXLINES
    {
      var l, cnt, newline;
      ok, l, cnt, newline := ScanAll();
      if ok {
        NotTooMany(file, l);
        NoteEnd(l, cnt, newline);
      }
    }

    /** The end of the file is reached: the length of the last line is noted. */
    method NoteEnd(l: nat, cnt: int, newline: bool)
      requires Scanning(|file|, l, cnt, newline)
      modifies this`lincnt, this`dollar
      ensures Opened() && dollar == l
    {
      lincnt := lincnt + [Short(cnt)];
      dollar := l;
    }

    /** Fills savetxt from where the file stands. */
    method ReadBlock()
      requires savetxt.Length == BLOCK && fdpos <= |file|
      modifies this`fdpos, savetxt
      ensures fdpos == if old(fdpos) + BLOCK <= |file| then old(fdpos) + BLOCK else |file|
      ensures forall k :: 0 <= k < BLOCK ==>
                savetxt[k] == if old(fdpos) + k < |file| then file[old(fdpos) + k] else old(savetxt[k])
    {
      var n := if |file| - fdpos < BLOCK then |file| - fdpos else BLOCK;
      for k := 0 to n
        invariant fdpos == old(fdpos) && forall j :: 0 <= j < k ==> savetxt[j] == file[fdpos + j]
        invariant forall j :: k <= j < BLOCK ==> savetxt[j] == old(savetxt[j])
      {
        savetxt[k] := file[fdpos + k];
      }
      fdpos := fdpos + n;
    }

    /** Moves the saved pair to line `l`: step by step when it is near, else from its segment. */
    method Seek(l: nat)
      requires Opened() && LinesFit(file) && Placed() && 1 <= l <= dollar && lprev <= dollar
      modifies this`prevblk, this`prevoff, this`lprev
      ensures Placed() && lprev == l
    {
      var d := l - lprev;
      if d == 1 {
        assert FitsShort(file, lprev);
        prevoff := prevoff + lincnt[lprev];
      } else if 0 <= d <= 32 {
        AddUp(lprev, l);
      } else if -32 <= d < 0 {
        TakeOff(lprev, l);
      } else {
        FromSegment(l);
      }
      assert IsStart(file, prevblk, prevoff, l);
      prevblk := prevblk + prevoff / BLOCK;
      prevoff := prevoff % BLOCK;
      lprev := l;
    }

    method FromSegment(l: nat)
      requires Opened() && LinesFit(file) && 1 <= l <= dollar
      modifies this`prevblk, this`prevoff
      ensures IsStart(file, prevblk, prevoff, l)
    {
      var s := (l - 1) / 64;
      prevblk := segblk[s];
      prevoff := segoff[s];
      AddUp(64 * s + 1, l);
    }

    /** Takes the lengths of the lines from `l` up to `from` off the saved offset, which may make it negative. */
    method TakeOff(from: nat, l: nat)
      requires Opened() && LinesFit(file) && 1 <= l <= from <= dollar && IsStart(file, prevblk, prevoff, from)
      modifies this`prevoff
      ensures IsStart(file, prevblk, prevoff, l)
    {
      for i := from downto l
        invariant IsStart(file, prevblk, prevoff, i)
      {
        assert FitsShort(file, i);
        prevoff := prevoff - lincnt[i];
      }
    }

    /** Adds the lengths of the lines from `from` up to `l` to the saved offset. */
    method AddUp(from: nat, l: nat)
      requires Opened() && LinesFit(file) && 1 <= from <= l <= dollar && IsStart(file, prevblk, prevoff, from)
      modifies this`prevoff
      ensures IsStart(file, prevblk, prevoff, l)
    {
      for i := from to l
        invariant IsStart(file, prevblk, prevoff, i)
      {
        assert FitsShort(file, i);
        prevoff := prevoff + lincnt[i];
      }
    }

    /** Makes savetxt the block of the saved pair. */
    method Load()
      requires Placed() && Saved() && StartOf(file, lprev) < |file|
      modifies this`saveblk, this`fdpos, savetxt
      ensures Saved() && saveblk == prevblk && savetxt[..] == Over(file, prevblk, old(savetxt[..]))
    {
      if prevblk != saveblk {
        saveblk := prevblk;
        fdpos := BLOCK * saveblk;
        ReadBlock();
      }
    }

    /** The next block; at the end of the file nothing is read. */
    method LoadNext()
      requires Saved() && saveblk >= 0
      modifies this`saveblk, this`fdpos, savetxt
      ensures Saved() && saveblk == old(saveblk) + 1 && savetxt[..] == Over(file, saveblk, old(savetxt[..]))
    {
      ReadBlock();
      saveblk := saveblk + 1;
    }

    /** Returns line `l`, exactly if it can be read or a newline happens to be behind the end of the file. */
    method Bigread(l: nat) returns (rec: seq<char>)
      requires Valid() && LinesFit(file) && 1 <= l <= dollar
      modifies this`prevblk, this`prevoff, this`lprev, this`saveblk, this`fdpos, savetxt
      ensures Valid() && lprev == l && StartOf(file, l) < StartOf(file, l + 1) && StartOf(file, l) < |file|
      ensures rec == Copied(file, StartOf(file, l) / BLOCK, old(savetxt[..]), StartOf(file, l), BFSLIM + 1)
      ensures rec == Record(LineText(file, l)) <==>
              Readable(file, l) || BehindEnd(file, StartOf(file, l), old(savetxt[..])) == '\n'
    {
      hide Copied, StartOf, Record, BehindEnd, Indexed, LineText, LinesFit;
      ReadsExactly(file, dollar, l, savetxt[..]);
      Seek(l);
      rec := ReadLine();
    }

    /** Copies from the saved pair on up to a newline. */
    method ReadLine() returns (rec: seq<char>)
      requires Placed() && Saved() && StartOf(file, lprev) < |file|
      modifies this`saveblk, this`fdpos, savetxt
      ensures Saved()
      ensures rec == Copied(file, prevblk, old(savetxt[..]), BLOCK * prevblk + prevoff, BFSLIM + 1)
    {
      hide Copied, StartOf, Seen, BufferAt, Over;
      ghost var first: nat, before, start := prevblk, savetxt[..], BLOCK * prevblk + prevoff;
      FirstBuffer(file, first, before);
      StartFrom(file, first, before, start);
      Load();
      rec := [];
      var off := prevoff;
      while true
        invariant Saved() && saveblk >= first && 0 <= off <= BLOCK && |rec| <= BFSLIM
        invariant savetxt[..] == BufferAt(file, first, before, saveblk) && BLOCK * saveblk + off == start + |rec|
        invariant Copied(file, first, before, start, BFSLIM + 1) ==
                  rec + Copied(file, first, before, start + |rec|, BFSLIM + 1 - |rec|)
        decreases BFSLIM + 1 - |rec|, off
      {
        if off == BLOCK {
          LoadNext();
          NextBuffer(file, first, before, saveblk);
          off := 0;
        } else {
          ghost var pos := BLOCK * saveblk + off;
          var c := savetxt[off];
          SeenHere(file, first, before, saveblk, off);
          CopiesOne(file, first, before, pos, BFSLIM + 1 - |rec|, rec);
          assert c == Seen(file, first, before, pos);
          if c == '\n' {
            return;
          }
          rec := rec + [c];
          off := off + 1;
          if |rec| > BFSLIM {
            CopiesNone(file, first, before, pos + 1);
            return;
          }
        }
      }
    }
  }
}
