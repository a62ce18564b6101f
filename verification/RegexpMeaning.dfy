/**
 The meaning of the patterns of head/regexp.h. A pattern is a sequence of elements; group positions are
 kept in registers. `Follow` is the plain meaning: a way through the pattern for given repetition counts.
 `Search` is the order in which the matcher tries them: longest repetitions first.
 */
module RegexpMeaning {
  import opened Options

  const NUL := '\0'

  /** Number of groups. */
  const NBRA := 9

  /** The members of a class are character codes. */
  datatype Atom = Char(c: char) | Any | Class(neg: bool, members: set<int>)

  /** `size`: how many more than `low` a range takes at most; 20000 when the upper bound is left open. */
  datatype Elem =
    | One(atom: Atom)
    | Many(atom: Atom)
    | Range(atom: Atom, low: nat, size: nat)
    | Open(k: nat)
    | Close(k: nat)
    | Back(k: nat)
    | BackMany(k: nat)
    | EndOfLine

  /** Start and end positions of the groups. */
  datatype Regs = Regs(bras: seq<int>, brae: seq<int>)

  ghost predicate IsRegs(r: Regs) {
    |r.bras| == NBRA && |r.brae| == NBRA
  }

  datatype Found = Found(end: nat, regs: Regs)

  /** A line with its terminating NUL. */
  ghost predicate IsText(t: string) {
    |t| > 0 && t[|t| - 1] == NUL && forall i :: 0 <= i < |t| - 1 ==> t[i] != NUL
  }

  predicate Takes(a: Atom, c: char) {
    && c != NUL
    && match a
       case Char(d) => c == d
       case Any => true
       case Class(neg, members) => (c as int in members) != neg
  }

  /** How many characters from `i` on the atom takes in a row. */
  function Streak(a: Atom, t: string, i: nat): (n: nat)
    requires i < |t|
    ensures i + n <= |t|
    decreases |t| - i
  {
    if !Takes(a, t[i]) then 0 else if i + 1 < |t| then 1 + Streak(a, t, i + 1) else 1
  }

  /** The text of group `k`. */
  function GroupText(t: string, r: Regs, k: nat): string {
    if k < |r.bras| && k < |r.brae| && 0 <= r.bras[k] <= r.brae[k] <= |t| then t[r.bras[k]..r.brae[k]] else ""
  }

  /** How many times in a row `w` stands at `i`. */
  function Copies(w: string, t: string, i: nat): (n: nat)
    requires i <= |t|
    ensures i + n * |w| <= |t|
    decreases |t| - i
  {
    if w != "" && w <= t[i..] then 1 + Copies(w, t, i + |w|) else 0
  }

  // ----- scoping -----

  /**
   Which groups are open and closed at some place of a pattern; `grown`: open groups that cannot be empty any
   more; `solid`: closed groups that cannot be empty.
   */
  datatype Scope = Scope(open: set<nat>, grown: set<nat>, closed: set<nat>, solid: set<nat>)

  const outside := Scope({}, {}, {}, {})

  /** Back-references want a group that is closed. */
  predicate Allowed(e: Elem, s: Scope) {
    match e
    case Range(_, low, size) => low < 255 && (size == 20000 || low + size < 255)
    case Open(k) => k < NBRA && k !in s.open && k !in s.closed
    case Close(k) => k in s.open
    case Back(k) => k in s.closed
    case BackMany(k) => k in s.closed
    case _ => true
  }

  function Behind(e: Elem, s: Scope): Scope {
    match e
    case One(_) => s.(grown := s.open)
    case Range(_, low, _) => if low > 0 then s.(grown := s.open) else s
    case Open(k) => s.(open := s.open + {k})
    case Close(k) =>
      Scope(s.open - {k}, s.grown - {k}, s.closed + {k}, if k in s.grown then s.solid + {k} else s.solid)
    case Back(k) => if k in s.solid then s.(grown := s.open) else s
    case _ => s
  }

  predicate WellScoped(es: seq<Elem>, s: Scope) {
    es == [] || (Allowed(es[0], s) && WellScoped(es[1..], Behind(es[0], s)))
  }

  function Final(es: seq<Elem>, s: Scope): Scope {
    if es == [] then s else Final(es[1..], Behind(es[0], s))
  }

  // ----- one element -----

  /** The place after an element that is repeated `n` times, when it can stand at `i`. */
  function Pass(e: Elem, t: string, i: nat, r: Regs, n: nat): Option<nat>
    requires i < |t|
  {
    match e
    case One(a) => if n == 1 && Takes(a, t[i]) then Some(i + 1) else None
    case Many(a) => if n <= Streak(a, t, i) then Some(i + n) else None
    case Range(a, low, size) => if low <= n <= low + size && n <= Streak(a, t, i) then Some(i + n) else None
    case Open(_) => if n == 1 then Some(i) else None
    case Close(_) => if n == 1 then Some(i) else None
    case Back(k) => if n == 1 && GroupText(t, r, k) <= t[i..] then Some(i + |GroupText(t, r, k)|) else None
    case BackMany(k) => if n <= Copies(GroupText(t, r, k), t, i) then Some(i + n * |GroupText(t, r, k)|) else None
    case EndOfLine => if n == 1 && t[i] == NUL then Some(i) else None
  }

  /** The registers after an element. */
  function Set(e: Elem, i: nat, r: Regs): Regs {
    match e
    case Open(k) => if k < |r.bras| then r.(bras := r.bras[k := i]) else r
    case Close(k) => if k < |r.brae| then r.(brae := r.brae[k := i]) else r
    case _ => r
  }

  /** The least and the greatest count the element can have at `i`: an empty interval when it cannot stand there. */
  function Least(e: Elem): nat {
    match e
    case Many(_) => 0
    case BackMany(_) => 0
    case Range(_, low, _) => low
    case _ => 1
  }

  function Greatest(e: Elem, t: string, i: nat, r: Regs): int
    requires i < |t|
  {
    match e
    case Many(a) => Streak(a, t, i)
    case Range(a, low, size) => if Streak(a, t, i) < low + size then Streak(a, t, i) else low + size
    case BackMany(k) => Copies(GroupText(t, r, k), t, i)
    case _ => if Pass(e, t, i, r, 1).Some? then 1 else 0
  }

  lemma {:induction false} PassInterval(e: Elem, t: string, i: nat, r: Regs, n: nat)
    requires i < |t|
    ensures Pass(e, t, i, r, n).Some? <==> Least(e) <= n <= Greatest(e, t, i, r)
  {
  }

  /** A range without upper bound is one exactly as long as its run of characters is not more than 20000 too long. */
  lemma {:induction false} OpenRangeExact(a: Atom, low: nat, t: string, i: nat, r: Regs)
    requires i < |t|
    ensures (forall n: nat :: Pass(Range(a, low, 20000), t, i, r, n).Some? <==> low <= n <= Streak(a, t, i))
       <==> Streak(a, t, i) <= low + 20000
  {
    if Streak(a, t, i) > low + 20000 {
      assert Pass(Range(a, low, 20000), t, i, r, Streak(a, t, i)).None?;
    }
  }

  // ----- the meaning -----

  /** A way through the elements, repeating them `ns` times; where it ends, and the registers then. */
  function Follow(es: seq<Elem>, t: string, i: nat, r: Regs, ns: seq<nat>): Option<Found>
    requires i < |t|
  {
    if es == [] then (if ns == [] then Some(Found(i, r)) else None)
    else if ns == [] then None
    else
      match Pass(es[0], t, i, r, ns[0])
      case None => None
      case Some(j) => if j < |t| then Follow(es[1..], t, j, Set(es[0], i, r), ns[1..]) else None
  }

  /** The first way that is found when longer repetitions are tried first. */
  function Search(es: seq<Elem>, t: string, i: nat, r: Regs): Option<Found>
    requires i < |t|
    decreases |es|, 0
  {
    if es == [] then Some(Found(i, r))
    else Attempts(es, t, i, r, Greatest(es[0], t, i, r))
  }

  /** Tries `n` repetitions of the first element, then fewer. */
  function Attempts(es: seq<Elem>, t: string, i: nat, r: Regs, n: int): Option<Found>
    requires i < |t| && es != [] && n <= Greatest(es[0], t, i, r)
    decreases |es|, 0, n + 1
  {
    if n < Least(es[0]) then None
    else
      var j := (PassInterval(es[0], t, i, r, n); Pass(es[0], t, i, r, n).value);
      var found := if j < |t| then Search(es[1..], t, j, Set(es[0], i, r)) else None;
      if found.Some? then found else Attempts(es, t, i, r, n - 1)
  }

  // ----- endless repetitions -----

  /** The search repeats no back-reference to a group whose text is empty: the matcher would do so forever. */
  ghost predicate Ends(es: seq<Elem>, t: string, i: nat, r: Regs)
    requires i < |t|
    decreases |es|, 0
  {
    es == [] ||
    ((es[0].BackMany? ==> GroupText(t, r, es[0].k) != "") && EndsDown(es, t, i, r, Greatest(es[0], t, i, r)))
  }

  /** The same from the attempt with `n` repetitions of the first element on. */
  ghost predicate EndsDown(es: seq<Elem>, t: string, i: nat, r: Regs, n: int)
    requires i < |t| && es != [] && n <= Greatest(es[0], t, i, r)
    decreases |es|, 0, n + 1
  {
    n < Least(es[0]) ||
    var j := (PassInterval(es[0], t, i, r, n); Pass(es[0], t, i, r, n).value);
    if j < |t| then
      && Ends(es[1..], t, j, Set(es[0], i, r))
      && (Search(es[1..], t, j, Set(es[0], i, r)).None? ==> EndsDown(es, t, i, r, n - 1))
    else
      EndsDown(es, t, i, r, n - 1)
  }

  /** `ms` comes after `ns` in the order of the attempts, or is the same. */
  predicate NotBefore(ns: seq<nat>, ms: seq<nat>) {
    if ns == [] || ms == [] then true
    else ns[0] > ms[0] || (ns[0] == ms[0] && NotBefore(ns[1..], ms[1..]))
  }

  /** One attempt: the rest of the pattern after `n` repetitions of the first element. */
  function Attempt(es: seq<Elem>, t: string, i: nat, r: Regs, n: nat): Option<Found>
    requires i < |t| && es != []
    decreases |es|, 0, 0
  {
    match Pass(es[0], t, i, r, n)
    case None => None
    case Some(j) => if j < |t| then Search(es[1..], t, j, Set(es[0], i, r)) else None
  }

  lemma {:induction false} AttemptsNext(es: seq<Elem>, t: string, i: nat, r: Regs, n: int)
    requires i < |t| && es != [] && Least(es[0]) <= n <= Greatest(es[0], t, i, r)
    ensures Attempts(es, t, i, r, n)
         == if Attempt(es, t, i, r, n).Some? then Attempt(es, t, i, r, n) else Attempts(es, t, i, r, n - 1)
  {
    PassInterval(es[0], t, i, r, n);
  }

  /** What is found is found by following some way. */
  lemma {:induction false} SearchFollows(es: seq<Elem>, t: string, i: nat, r: Regs) returns (ns: seq<nat>)
    requires i < |t| && Search(es, t, i, r).Some?
    ensures Follow(es, t, i, r, ns) == Search(es, t, i, r)
    ensures forall ms :: Follow(es, t, i, r, ms).Some? ==> NotBefore(ns, ms)
    decreases |es|, 0
  {
    if es == [] {
      ns := [];
    } else {
      var n := Greatest(es[0], t, i, r);
      ns := AttemptsFollow(es, t, i, r, n);
      forall ms | Follow(es, t, i, r, ms).Some? ensures NotBefore(ns, ms) {
        PassInterval(es[0], t, i, r, ms[0]);
      }
    }
  }

  lemma {:induction false} AttemptsFollow(es: seq<Elem>, t: string, i: nat, r: Regs, n: int) returns (ns: seq<nat>)
    requires i < |t| && es != [] && n <= Greatest(es[0], t, i, r) && Attempts(es, t, i, r, n).Some?
    ensures Follow(es, t, i, r, ns) == Attempts(es, t, i, r, n)
    ensures forall ms :: Follow(es, t, i, r, ms).Some? && ms[0] <= n ==> NotBefore(ns, ms)
    decreases |es|, 0, n + 1
  {
    AttemptsNext(es, t, i, r, n);
    if Attempt(es, t, i, r, n).Some? {
      var j := Pass(es[0], t, i, r, n).value;
      var ns' := SearchFollows(es[1..], t, j, Set(es[0], i, r));
      ns := [n] + ns';
      assert ns[1..] == ns';
    } else {
      ns := AttemptsFollow(es, t, i, r, n - 1);
      forall ms | Follow(es, t, i, r, ms).Some? && ms[0] <= n ensures NotBefore(ns, ms) {
        if ms[0] == n { FollowAttempt(es, t, i, r, ms); }
      }
    }
  }

  lemma {:induction false} FollowAttempt(es: seq<Elem>, t: string, i: nat, r: Regs, ms: seq<nat>)
    requires i < |t| && es != [] && Follow(es, t, i, r, ms).Some?
    ensures Attempt(es, t, i, r, ms[0]).Some?
    decreases |es|, 0, 0
  {
    var j := Pass(es[0], t, i, r, ms[0]).value;
    FollowSearch(es[1..], t, j, Set(es[0], i, r), ms[1..]);
  }

  /** Where there is a way, something is found. */
  lemma {:induction false} FollowSearch(es: seq<Elem>, t: string, i: nat, r: Regs, ms: seq<nat>)
    requires i < |t| && Follow(es, t, i, r, ms).Some?
    ensures Search(es, t, i, r).Some?
    decreases |es|, 1
  {
    if es != [] {
      FollowAttempt(es, t, i, r, ms);
      PassInterval(es[0], t, i, r, ms[0]);
      AttemptsReach(es, t, i, r, Greatest(es[0], t, i, r), ms[0]);
    }
  }

  lemma {:induction false} AttemptsReach(es: seq<Elem>, t: string, i: nat, r: Regs, n: int, m: nat)
    requires i < |t| && es != [] && Least(es[0]) <= m <= n <= Greatest(es[0], t, i, r) && Attempt(es, t, i, r, m).Some?
    ensures Attempts(es, t, i, r, n).Some?
    decreases n
  {
    hide Pass, Greatest, Least, Attempt, Attempts;
    AttemptsNext(es, t, i, r, n);
    if m < n { AttemptsReach(es, t, i, r, n - 1, m); }
  }
}
