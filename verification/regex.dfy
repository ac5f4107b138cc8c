/**
 The two regular expressions the git resolver applies to command output are anchored
 sequences of literals and greedy single-class repetitions (`\s*`, `\d+`, `[a-fA-F0-9]+`,
 `.+`). For such a pattern Python's backtracking engine tries the repetition lengths of
 the first atom from longest to shortest, and for each one matches the rest the same way.
 `MatchAt` is that search. It returns the end position of every atom, and the result is
 the lexicographically greatest way of cutting the input into pieces the atoms accept.
 */
module Regex {
  import opened Strs

  /** `\s`, `\d` (ASCII digits), `[a-fA-F0-9]` and `.` (anything but `\n`). */
  datatype CharClass = Space | Digit | Hex | Any

  predicate InClass(c: char, cls: CharClass) {
    match cls
    case Space => IsSpace(c)
    case Digit => IsDigit(c)
    case Hex => IsHex(c)
    case Any => c != '\n'
  }

  /** A literal, or a greedy repetition of one class with a minimum count (`*` is 0, `+` is 1). */
  datatype Atom = Lit(text: string) | Rep(cls: CharClass, min: nat)

  predicate AllIn(s: string, cls: CharClass) {
    forall j :: 0 <= j < |s| ==> InClass(s[j], cls)
  }

  /** The piece of input an atom consumed is one it accepts. */
  predicate Accepts(a: Atom, piece: string) {
    match a
    case Lit(t) => piece == t
    case Rep(cls, min) => |piece| >= min && AllIn(piece, cls)
  }

  /**
   `bs` cuts `s[pos..]` into one accepted piece per atom: the pieces are consecutive, the
   last one ends at the end of the input (the pattern ends in `$`), and each atom accepts
   its piece.
   */
  predicate Fits(atoms: seq<Atom>, s: string, pos: nat, bs: seq<nat>)
    decreases |atoms|
  {
    && pos <= |s|
    && |bs| == |atoms|
    && if |atoms| == 0 then pos == |s|
       else
         && pos <= bs[0] <= |s|
         && Accepts(atoms[0], s[pos..bs[0]])
         && Fits(atoms[1..], s, bs[0], bs[1..])
  }

  /** A cut of `[a] + atoms` is an accepted first piece followed by a cut of `atoms`. */
  lemma FitsPrepend(a: Atom, atoms: seq<Atom>, s: string, pos: nat, b0: nat, bs: seq<nat>)
    requires pos <= b0 <= |s| && Accepts(a, s[pos..b0]) && Fits(atoms, s, b0, bs)
    ensures Fits([a] + atoms, s, pos, [b0] + bs)
  {
    assert ([a] + atoms)[1..] == atoms && ([b0] + bs)[1..] == bs;
  }

  /** The length of the longest run of `cls` characters starting at `pos`. */
  function Run(s: string, pos: nat, cls: CharClass): (n: nat)
    requires pos <= |s|
    ensures pos + n <= |s|
    ensures forall j :: pos <= j < pos + n ==> InClass(s[j], cls)
    ensures pos + n == |s| || !InClass(s[pos + n], cls)
    decreases |s| - pos
  {
    if pos < |s| && InClass(s[pos], cls) then 1 + Run(s, pos + 1, cls) else 0
  }

  /** The backtracking search: atoms in order, repetition lengths longest first. */
  function MatchAt(atoms: seq<Atom>, s: string, pos: nat): (r: Option<seq<nat>>)
    requires pos <= |s|
    ensures r.Some? ==> Fits(atoms, s, pos, r.value)
    decreases |atoms|, |s| - pos + 2
  {
    if |atoms| == 0 then
      if pos == |s| then Some([]) else None
    else
      match atoms[0]
      case Lit(t) =>
        if StartsWith(s[pos..], t) then
          match MatchAt(atoms[1..], s, pos + |t|)
          case None => None
          case Some(bs) =>
            assert s[pos..pos + |t|] == s[pos..][..|t|];
            var r := [pos + |t|] + bs;
            assert r[1..] == bs;
            Some(r)
        else None
      case Rep(cls, _) => TryLengths(atoms, s, pos, Run(s, pos, cls))
  }

  /** Try the first atom (a repetition) with `n`, `n - 1`, ... characters. */
  function TryLengths(atoms: seq<Atom>, s: string, pos: nat, n: nat): (r: Option<seq<nat>>)
    requires |atoms| > 0 && atoms[0].Rep?
    requires pos + n <= |s|
    requires forall j :: pos <= j < pos + n ==> InClass(s[j], atoms[0].cls)
    ensures r.Some? ==> Fits(atoms, s, pos, r.value) && r.value[0] <= pos + n
    decreases |atoms|, n + 1
  {
    if n < atoms[0].min then None
    else
      match MatchAt(atoms[1..], s, pos + n)
      case Some(bs) =>
        assert AllIn(s[pos..pos + n], atoms[0].cls);
        var r := [pos + n] + bs;
        assert r[1..] == bs;
        Some(r)
      case None =>
        if n == 0 then None else TryLengths(atoms, s, pos, n - 1)
  }

  // ---------------------------------------------------------------------------
  // The search finds the greatest cut
  // ---------------------------------------------------------------------------

  /** Lexicographic order on equally long cuts. */
  predicate LexLe(a: seq<nat>, b: seq<nat>)
    requires |a| == |b|
    decreases |a|
  {
    |a| == 0 || a[0] < b[0] || (a[0] == b[0] && LexLe(a[1..], b[1..]))
  }

  /** Two cuts in lexicographic order that agree before `i` are ordered at `i`. */
  lemma {:induction false} LexLeAt(a: seq<nat>, b: seq<nat>, i: nat)
    requires |a| == |b| && LexLe(a, b)
    requires i < |a| && forall j :: 0 <= j < i ==> a[j] == b[j]
    ensures a[i] <= b[i]
    decreases i
  {
    if i > 0 {
      assert a[0] == b[0];
      LexLeAt(a[1..], b[1..], i - 1);
    }
  }

  /** A slice in a class, seen position by position in the whole string. */
  lemma AllInSlice(s: string, lo: nat, hi: nat, cls: CharClass)
    requires lo <= hi <= |s| && AllIn(s[lo..hi], cls)
    ensures forall j :: lo <= j < hi ==> InClass(s[j], cls)
  {
    forall j | lo <= j < hi ensures InClass(s[j], cls) {
      assert s[lo..hi][j - lo] == s[j];
    }
  }

  lemma RunCovers(s: string, pos: nat, cls: CharClass, k: nat)
    requires pos + k <= |s|
    requires forall j :: pos <= j < pos + k ==> InClass(s[j], cls)
    ensures k <= Run(s, pos, cls)
  {
  }

  /**
   Whenever the pattern accepts the input, the search succeeds, and no other cut is
   greater than the one it returns: the result is Python's match.
   */
  lemma {:induction false} MatchGreatest(atoms: seq<Atom>, s: string, pos: nat, bs: seq<nat>)
    requires Fits(atoms, s, pos, bs)
    ensures MatchAt(atoms, s, pos).Some?
    ensures LexLe(bs, MatchAt(atoms, s, pos).value)
    decreases |atoms|, |s| - pos + 2
  {
    if |atoms| > 0 {
      if atoms[0].Lit? {
        MatchGreatest(atoms[1..], s, bs[0], bs[1..]);
        GreatestLit(atoms, s, pos, bs);
      } else {
        var cls := atoms[0].cls;
        AllInSlice(s, pos, bs[0], cls);
        RunCovers(s, pos, cls, bs[0] - pos);
        TryGreatest(atoms, s, pos, Run(s, pos, cls), bs);
      }
    }
  }

  lemma GreatestLit(atoms: seq<Atom>, s: string, pos: nat, bs: seq<nat>)
    requires |atoms| > 0 && atoms[0].Lit? && Fits(atoms, s, pos, bs)
    requires MatchAt(atoms[1..], s, bs[0]).Some?
    requires LexLe(bs[1..], MatchAt(atoms[1..], s, bs[0]).value)
    ensures MatchAt(atoms, s, pos).Some?
    ensures LexLe(bs, MatchAt(atoms, s, pos).value)
  {
    var t := atoms[0].text;
    assert s[pos..][..|t|] == s[pos..bs[0]];
    var r := [bs[0]] + MatchAt(atoms[1..], s, bs[0]).value;
    assert MatchAt(atoms, s, pos) == Some(r);
    assert r[1..] == MatchAt(atoms[1..], s, bs[0]).value;
  }

  lemma {:induction false} TryGreatest(atoms: seq<Atom>, s: string, pos: nat, n: nat, bs: seq<nat>)
    requires |atoms| > 0 && atoms[0].Rep?
    requires pos + n <= |s|
    requires forall j :: pos <= j < pos + n ==> InClass(s[j], atoms[0].cls)
    requires Fits(atoms, s, pos, bs) && bs[0] <= pos + n
    ensures TryLengths(atoms, s, pos, n).Some?
    ensures LexLe(bs, TryLengths(atoms, s, pos, n).value)
    decreases |atoms|, n + 1
  {
    var rest := MatchAt(atoms[1..], s, pos + n);
    if pos + n == bs[0] {
      MatchGreatest(atoms[1..], s, bs[0], bs[1..]);
      TryHit(atoms, s, pos, n, bs);
    } else if rest.None? {
      TryGreatest(atoms, s, pos, n - 1, bs);
      TryMiss(atoms, s, pos, n);
    } else {
      TryHit(atoms, s, pos, n, bs);
    }
  }

  /** The length `n` is tried first and the rest matches there. */
  lemma TryHit(atoms: seq<Atom>, s: string, pos: nat, n: nat, bs: seq<nat>)
    requires |atoms| > 0 && atoms[0].Rep?
    requires pos + n <= |s|
    requires forall j :: pos <= j < pos + n ==> InClass(s[j], atoms[0].cls)
    requires Fits(atoms, s, pos, bs) && bs[0] <= pos + n
    requires MatchAt(atoms[1..], s, pos + n).Some?
    requires pos + n == bs[0] ==> LexLe(bs[1..], MatchAt(atoms[1..], s, pos + n).value)
    ensures TryLengths(atoms, s, pos, n).Some?
    ensures LexLe(bs, TryLengths(atoms, s, pos, n).value)
  {
    var r := [pos + n] + MatchAt(atoms[1..], s, pos + n).value;
    assert n >= atoms[0].min;
    assert TryLengths(atoms, s, pos, n) == Some(r);
    assert r[1..] == MatchAt(atoms[1..], s, pos + n).value;
  }

  /** The rest does not match after `n` characters, so the search moves on to `n - 1`. */
  lemma TryMiss(atoms: seq<Atom>, s: string, pos: nat, n: nat)
    requires |atoms| > 0 && atoms[0].Rep? && n > 0
    requires pos + n <= |s|
    requires forall j :: pos <= j < pos + n ==> InClass(s[j], atoms[0].cls)
    requires MatchAt(atoms[1..], s, pos + n).None?
    ensures TryLengths(atoms, s, pos, n) == TryLengths(atoms, s, pos, n - 1)
  {
  }

  // ---------------------------------------------------------------------------
  // A cut whose repetitions cannot grow is found on the first try
  // ---------------------------------------------------------------------------

  /** Every repetition's piece is followed by the end of the input or a character outside its class. */
  predicate Maximal(atoms: seq<Atom>, s: string, pos: nat, bs: seq<nat>)
    requires Fits(atoms, s, pos, bs)
    decreases |atoms|
  {
    |atoms| == 0 ||
      ((atoms[0].Rep? ==> bs[0] == |s| || !InClass(s[bs[0]], atoms[0].cls))
       && Maximal(atoms[1..], s, bs[0], bs[1..]))
  }

  lemma MaximalPrepend(a: Atom, atoms: seq<Atom>, s: string, pos: nat, b0: nat, bs: seq<nat>)
    requires pos <= b0 <= |s| && Accepts(a, s[pos..b0]) && Fits(atoms, s, b0, bs)
    requires a.Rep? ==> b0 == |s| || !InClass(s[b0], a.cls)
    requires Maximal(atoms, s, b0, bs)
    ensures Fits([a] + atoms, s, pos, [b0] + bs) && Maximal([a] + atoms, s, pos, [b0] + bs)
  {
    FitsPrepend(a, atoms, s, pos, b0, bs);
    assert ([a] + atoms)[1..] == atoms && ([b0] + bs)[1..] == bs;
  }

  lemma {:induction false} RunExact(s: string, pos: nat, cls: CharClass, k: nat)
    requires pos + k <= |s|
    requires forall j :: pos <= j < pos + k ==> InClass(s[j], cls)
    requires pos + k == |s| || !InClass(s[pos + k], cls)
    ensures Run(s, pos, cls) == k
    decreases k
  {
    if k > 0 {
      RunExact(s, pos + 1, cls, k - 1);
    }
  }

  /**
   When no repetition of a cut could take one more character, the backtracking search
   returns exactly that cut.
   */
  lemma {:induction false} GreedyCut(atoms: seq<Atom>, s: string, pos: nat, bs: seq<nat>)
    requires Fits(atoms, s, pos, bs) && Maximal(atoms, s, pos, bs)
    ensures MatchAt(atoms, s, pos) == Some(bs)
    decreases |atoms|
  {
    if |atoms| > 0 {
      GreedyCut(atoms[1..], s, bs[0], bs[1..]);
      if atoms[0].Lit? {
        GreedyLit(atoms, s, pos, bs);
      } else {
        GreedyRep(atoms, s, pos, bs);
      }
    }
  }

  lemma GreedyLit(atoms: seq<Atom>, s: string, pos: nat, bs: seq<nat>)
    requires |atoms| > 0 && atoms[0].Lit? && Fits(atoms, s, pos, bs)
    requires MatchAt(atoms[1..], s, bs[0]) == Some(bs[1..])
    ensures MatchAt(atoms, s, pos) == Some(bs)
  {
    var t := atoms[0].text;
    assert s[pos..][..|t|] == s[pos..bs[0]];
    assert bs == [bs[0]] + bs[1..];
  }

  lemma GreedyRep(atoms: seq<Atom>, s: string, pos: nat, bs: seq<nat>)
    requires |atoms| > 0 && atoms[0].Rep? && Fits(atoms, s, pos, bs)
    requires bs[0] == |s| || !InClass(s[bs[0]], atoms[0].cls)
    requires MatchAt(atoms[1..], s, bs[0]) == Some(bs[1..])
    ensures MatchAt(atoms, s, pos) == Some(bs)
  {
    var cls := atoms[0].cls;
    AllInSlice(s, pos, bs[0], cls);
    RunExact(s, pos, cls, bs[0] - pos);
    assert bs == [bs[0]] + bs[1..];
    assert TryLengths(atoms, s, pos, bs[0] - pos) == Some(bs);
  }
}
