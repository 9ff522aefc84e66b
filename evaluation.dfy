/**
  How a complete guess is scored (`get_order_of_letters` and `color_change` in Wordy.py).

  `h` is the hidden word and `g` the lower-cased guess; `raw` is the guess as typed (the key
  names, which are also the keys of the keyboard colour map). Only the first `|h|` positions
  are scored, as the source loops over `range(len(hidden_word))`.

  The module gives an independent reference definition of the verdicts (`Verdict`) and of the
  keyboard colours (`KeyboardAfter`), a ghost replay of the source's loop (`Run` of `Step`),
  and the theorem `ColourChangeMeetsReference` that the loop, run over `Order`, produces the
  reference.
 */
module Evaluation {
  import opened Wrappers
  import opened Text

  /** The colour a scored letter box, and the key of its letter, is painted. */
  datatype Colour = Grey | Orange | Green

  function Min(a: int, b: int): int {
    if a <= b then a else b
  }

  // ---------------------------------------------------------------------------
  // The visiting order built by get_order_of_letters
  // ---------------------------------------------------------------------------

  /** Exact-match positions below `i`, highest first (each one is inserted at the front). */
  function ExactsDesc(h: string, g: string, i: nat): (r: seq<nat>)
    requires i <= |h| && i <= |g|
    ensures forall k :: 0 <= k < |r| ==> r[k] < i
  {
    if i == 0 then []
    else if h[i - 1] == g[i - 1] then [i - 1] + ExactsDesc(h, g, i - 1)
    else ExactsDesc(h, g, i - 1)
  }

  /** Non-matching positions below `i`, lowest first (each one is appended at the back). */
  function MissesAsc(h: string, g: string, i: nat): (r: seq<nat>)
    requires i <= |h| && i <= |g|
    ensures forall k :: 0 <= k < |r| ==> r[k] < i
  {
    if i == 0 then []
    else if h[i - 1] == g[i - 1] then MissesAsc(h, g, i - 1)
    else MissesAsc(h, g, i - 1) + [i - 1]
  }

  /** The exact matches below `i`, each listed once, in decreasing order. */
  lemma {:induction false} ExactsShape(h: string, g: string, i: nat)
    requires i <= |h| && i <= |g|
    ensures var e := ExactsDesc(h, g, i);
      && (forall k :: 0 <= k < |e| ==> h[e[k]] == g[e[k]])
      && (forall a, b :: 0 <= a < b < |e| ==> e[a] > e[b])
      && (forall j :: 0 <= j < i && h[j] == g[j] ==> j in e)
  {
    if i > 0 {
      ExactsShape(h, g, i - 1);
      var e := ExactsDesc(h, g, i - 1);
      if h[i - 1] == g[i - 1] {
        var e' := [i - 1] + e;
        assert ExactsDesc(h, g, i) == e';
        assert forall k :: 1 <= k < |e'| ==> e'[k] == e[k - 1];
      }
    }
  }

  /** The other positions below `i`, each listed once, in increasing order. */
  lemma {:induction false} MissesShape(h: string, g: string, i: nat)
    requires i <= |h| && i <= |g|
    ensures var m := MissesAsc(h, g, i);
      && (forall k :: 0 <= k < |m| ==> h[m[k]] != g[m[k]])
      && (forall a, b :: 0 <= a < b < |m| ==> m[a] < m[b])
      && (forall j :: 0 <= j < i && h[j] != g[j] ==> j in m)
  {
    if i > 0 {
      MissesShape(h, g, i - 1);
      var m := MissesAsc(h, g, i - 1);
      if h[i - 1] != g[i - 1] {
        var m' := m + [i - 1];
        assert MissesAsc(h, g, i) == m';
        assert forall k :: 0 <= k < |m| ==> m'[k] == m[k];
      }
    }
  }

  lemma {:induction false} SplitLength(h: string, g: string, i: nat)
    requires i <= |h| && i <= |g|
    ensures |ExactsDesc(h, g, i)| + |MissesAsc(h, g, i)| == i
  {
    if i > 0 {
      SplitLength(h, g, i - 1);
    }
  }

  /** The list get_order_of_letters returns: the exact matches first, then the other positions. */
  function Order(h: string, g: string): (o: seq<nat>)
    requires |h| <= |g|
    ensures |o| == |h|
    ensures forall k :: 0 <= k < |o| ==> o[k] < |h|
  {
    OrderShape(h, g);
    ExactsDesc(h, g, |h|) + MissesAsc(h, g, |h|)
  }

  /**
    The order is a permutation of the positions of `h` in which every exact match comes
    before every other position, the exact matches in decreasing and the others in
    increasing order.
   */
  lemma OrderIsPermutation(h: string, g: string)
    requires |h| <= |g|
    ensures var o := Order(h, g);
      && (forall j :: 0 <= j < |h| ==> j in o)
      && (forall a, b :: 0 <= a < b < |o| ==> o[a] != o[b])
      && (forall a, b :: 0 <= a < b < |o| && h[o[b]] == g[o[b]] ==> h[o[a]] == g[o[a]])
      && (forall a, b :: 0 <= a < b < |o| && h[o[a]] == g[o[a]] && h[o[b]] == g[o[b]] ==> o[a] > o[b])
      && (forall a, b :: 0 <= a < b < |o| && h[o[a]] != g[o[a]] && h[o[b]] != g[o[b]] ==> o[a] < o[b])
  {
    OrderShape(h, g);
  }

  lemma OrderShape(h: string, g: string)
    requires |h| <= |g|
    ensures var o := ExactsDesc(h, g, |h|) + MissesAsc(h, g, |h|);
      && |o| == |h|
      && (forall k :: 0 <= k < |o| ==> o[k] < |h|)
      && (forall j :: 0 <= j < |h| ==> j in o)
      && (forall a, b :: 0 <= a < b < |o| ==> o[a] != o[b])
      && (forall a, b :: 0 <= a < b < |o| && h[o[b]] == g[o[b]] ==> h[o[a]] == g[o[a]])
      && (forall a, b :: 0 <= a < b < |o| && h[o[a]] == g[o[a]] && h[o[b]] == g[o[b]] ==> o[a] > o[b])
      && (forall a, b :: 0 <= a < b < |o| && h[o[a]] != g[o[a]] && h[o[b]] != g[o[b]] ==> o[a] < o[b])
  {
    var e := ExactsDesc(h, g, |h|);
    var m := MissesAsc(h, g, |h|);
    var o := e + m;
    OrderPositions(h, g);
    ExactsShape(h, g, |h|);
    MissesShape(h, g, |h|);
    forall a, b | 0 <= a < b < |o|
      ensures o[a] != o[b]
      ensures h[o[b]] == g[o[b]] ==> h[o[a]] == g[o[a]]
      ensures h[o[a]] == g[o[a]] && h[o[b]] == g[o[b]] ==> o[a] > o[b]
      ensures h[o[a]] != g[o[a]] && h[o[b]] != g[o[b]] ==> o[a] < o[b]
    {
      if b < |e| {
        assert o[a] == e[a] && o[b] == e[b];
      } else if a < |e| {
        assert h[o[a]] == g[o[a]] && h[o[b]] != g[o[b]];
      } else {
        assert o[a] == m[a - |e|] && o[b] == m[b - |e|];
      }
    }
  }

  /** Where each position lands in the order: the exact matches, then the other positions. */
  lemma OrderPositions(h: string, g: string)
    requires |h| <= |g|
    ensures var e, m := ExactsDesc(h, g, |h|), MissesAsc(h, g, |h|);
      && |e + m| == |h|
      && (forall j :: 0 <= j < |h| ==> j in e + m)
      && (forall k :: 0 <= k < |e| ==> (e + m)[k] == e[k] && h[e[k]] == g[e[k]])
      && (forall k :: |e| <= k < |e + m| ==> (e + m)[k] == m[k - |e|] && h[m[k - |e|]] != g[m[k - |e|]])
  {
    var e := ExactsDesc(h, g, |h|);
    var m := MissesAsc(h, g, |h|);
    ExactsShape(h, g, |h|);
    MissesShape(h, g, |h|);
    SplitLength(h, g, |h|);
    forall j | 0 <= j < |h|
      ensures j in e + m
    {
      if h[j] == g[j] {
        assert j in e;
      } else {
        assert j in m;
      }
    }
  }

  // ---------------------------------------------------------------------------
  // Reference verdicts
  // ---------------------------------------------------------------------------

  /** The number of exact-match positions below `i` that hold the letter `c`. */
  function ExactCount(h: string, g: string, c: char, i: nat): nat
    requires i <= |h| && i <= |g|
  {
    if i == 0 then 0
    else ExactCount(h, g, c, i - 1) + (if h[i - 1] == g[i - 1] && g[i - 1] == c then 1 else 0)
  }

  /** The number of non-matching positions below `i` whose guessed letter is `c`. */
  function MissCount(h: string, g: string, c: char, i: nat): nat
    requires i <= |h| && i <= |g|
  {
    if i == 0 then 0
    else MissCount(h, g, c, i - 1) + (if h[i - 1] != g[i - 1] && g[i - 1] == c then 1 else 0)
  }

  /** The copies of `c` in the hidden word that exact matches have not used up. */
  function Available(h: string, g: string, c: char): int
    requires |h| <= |g|
  {
    multiset(h)[c] - ExactCount(h, g, c, |h|)
  }

  /**
    The verdict for position `j`: green for an exact match; otherwise orange exactly when
    fewer earlier non-matching positions hold the same letter than there are copies of it
    left over by the exact matches; otherwise grey.
   */
  function Verdict(h: string, g: string, j: nat): Colour
    requires j < |h| <= |g|
  {
    if g[j] == h[j] then Green
    else if MissCount(h, g, g[j], j) < Available(h, g, g[j]) then Orange
    else Grey
  }

  function Verdicts(h: string, g: string): (r: seq<Colour>)
    requires |h| <= |g|
  {
    seq(|h|, j requires 0 <= j < |h| => Verdict(h, g, j))
  }

  /** `colours` with its first `|vs|` boxes painted with the verdicts `vs`. */
  function Painted(colours: seq<Option<Colour>>, vs: seq<Colour>): seq<Option<Colour>> {
    seq(|colours|, k requires 0 <= k < |colours| => if k < |vs| then Some(vs[k]) else colours[k])
  }

  /** The highest non-matching position below `i` at which the key `key` was typed. */
  function LastMiss(h: string, raw: string, key: char, i: nat): (r: Option<nat>)
    requires i <= |h| <= |raw|
    ensures r.Some? ==> r.value < i
  {
    if i == 0 then None
    else if raw[i - 1] == key && Lower(raw[i - 1]) != h[i - 1] then Some(i - 1)
    else LastMiss(h, raw, key, i - 1)
  }

  /** `LastMiss` finds a non-matching position of the key with none after it, or reports there is none. */
  lemma {:induction false} LastMissIsLast(h: string, raw: string, key: char, i: nat)
    requires i <= |h| <= |raw|
    ensures var r := LastMiss(h, raw, key, i);
      r.Some? ==> raw[r.value] == key && Lower(raw[r.value]) != h[r.value]
    ensures var r := LastMiss(h, raw, key, i);
      r.Some? ==> forall j :: r.value < j < i ==> !(raw[j] == key && Lower(raw[j]) != h[j])
    ensures LastMiss(h, raw, key, i).None? ==> forall j :: 0 <= j < i ==> !(raw[j] == key && Lower(raw[j]) != h[j])
  {
    if i > 0 && !(raw[i - 1] == key && Lower(raw[i - 1]) != h[i - 1]) {
      LastMissIsLast(h, raw, key, i - 1);
    }
  }

  /**
    The keyboard colour a key typed in the guess ends with: the verdict of its last
    non-matching position if it has one, and green otherwise (all its positions match).
   */
  function KeyColour(h: string, raw: string, key: char): Colour
    requires |h| <= |raw|
  {
    match LastMiss(h, raw, key, |h|)
    case Some(j) => Verdict(h, LowerString(raw), j)
    case None => Green
  }

  /** The keyboard colours after a guess: typed keys get `KeyColour`, the others keep theirs. */
  function KeyboardAfter(h: string, raw: string, kb: map<char, Colour>): map<char, Colour>
    requires |h| <= |raw|
  {
    map key | key in kb.Keys + (set c | c in raw[..|h|]) ::
      if key in raw[..|h|] then KeyColour(h, raw, key) else kb[key]
  }

  // ---------------------------------------------------------------------------
  // Properties of the reference verdicts
  // ---------------------------------------------------------------------------

  lemma {:induction false} ExactCountBound(h: string, g: string, c: char, i: nat)
    requires i <= |h| && i <= |g|
    ensures ExactCount(h, g, c, i) <= multiset(h[..i])[c]
  {
    if i > 0 {
      ExactCountBound(h, g, c, i - 1);
      assert h[..i] == h[..i - 1] + [h[i - 1]];
    }
  }

  /** Exact matches never use more copies of a letter than the hidden word has. */
  lemma AvailableNonNegative(h: string, g: string, c: char)
    requires |h| <= |g|
    ensures 0 <= Available(h, g, c)
  {
    ExactCountBound(h, g, c, |h|);
    assert h[..|h|] == h;
  }

  /** A letter that does not occur in the hidden word is always grey. */
  lemma AbsentLetterIsGrey(h: string, g: string, j: nat)
    requires j < |h| <= |g| && g[j] !in h
    ensures Verdict(h, g, j) == Grey
  {
    assert multiset(h)[g[j]] == 0;
  }

  /** The number of positions below `i` holding `c` that are orange. */
  function OrangeCount(h: string, g: string, c: char, i: nat): nat
    requires i <= |h| <= |g|
  {
    if i == 0 then 0
    else OrangeCount(h, g, c, i - 1) + (if g[i - 1] == c && Verdict(h, g, i - 1) == Orange then 1 else 0)
  }

  /** The number of positions below `i` holding `c` that are green or orange. */
  function MarkedCount(h: string, g: string, c: char, i: nat): nat
    requires i <= |h| <= |g|
  {
    if i == 0 then 0
    else MarkedCount(h, g, c, i - 1) + (if g[i - 1] == c && Verdict(h, g, i - 1) != Grey then 1 else 0)
  }

  /** The first non-matching occurrences of `c` are orange until the leftover copies run out. */
  lemma {:induction false} OrangeCountIsCapped(h: string, g: string, c: char, i: nat)
    requires i <= |h| <= |g|
    ensures OrangeCount(h, g, c, i) == Min(MissCount(h, g, c, i), Available(h, g, c))
  {
    AvailableNonNegative(h, g, c);
    if i > 0 {
      OrangeCountIsCapped(h, g, c, i - 1);
    }
  }

  /**
    For every letter, the green and orange positions holding it number exactly the exact
    matches plus as many non-matching occurrences as the leftover copies allow, hence at
    most the copies of it in the hidden word.
   */
  lemma {:induction false} LetterBudget(h: string, g: string, c: char)
    requires |h| <= |g|
    ensures MarkedCount(h, g, c, |h|) == ExactCount(h, g, c, |h|) + Min(MissCount(h, g, c, |h|), Available(h, g, c))
    ensures MarkedCount(h, g, c, |h|) <= multiset(h)[c]
  {
    MarkedSplits(h, g, c, |h|);
    OrangeCountIsCapped(h, g, c, |h|);
  }

  lemma {:induction false} MarkedSplits(h: string, g: string, c: char, i: nat)
    requires i <= |h| <= |g|
    ensures MarkedCount(h, g, c, i) == ExactCount(h, g, c, i) + OrangeCount(h, g, c, i)
  {
    if i > 0 {
      MarkedSplits(h, g, c, i - 1);
    }
  }

  /** The number of green positions below `i`. */
  function GreenCount(h: string, g: string, i: nat): nat
    requires i <= |h| <= |g|
  {
    if i == 0 then 0 else GreenCount(h, g, i - 1) + (if Verdict(h, g, i - 1) == Green then 1 else 0)
  }

  /** The number of positions below `i` where guess and hidden word agree. */
  function MatchCount(h: string, g: string, i: nat): nat
    requires i <= |h| && i <= |g|
  {
    if i == 0 then 0 else MatchCount(h, g, i - 1) + (if h[i - 1] == g[i - 1] then 1 else 0)
  }

  /** There are exactly as many green boxes as exact matches. */
  lemma {:induction false} GreensAreMatches(h: string, g: string, i: nat)
    requires i <= |h| <= |g|
    ensures GreenCount(h, g, i) == MatchCount(h, g, i)
  {
    if i > 0 {
      GreensAreMatches(h, g, i - 1);
    }
  }

  /** Guessing the hidden word itself makes every box green. */
  lemma HiddenWordIsAllGreen(h: string)
    ensures Verdicts(h, h) == seq(|h|, _ => Green)
  {
  }

  // ---------------------------------------------------------------------------
  // A ghost replay of the loop in color_change
  // ---------------------------------------------------------------------------

  /**
    What one pass of color_change has produced so far: the colours of the row's boxes, the
    keyboard colour map, and the running list `letters_guessed`.
   */
  datatype Pass = Pass(colours: seq<Option<Colour>>, keys: map<char, Colour>, lettersGuessed: seq<char>)

  /**
    The branch that turns a repeated letter grey and skips appending it: position `p` does
    not match, its letter occurs in the hidden word, and `letters_guessed` already holds
    as many copies of it as the hidden word does.
   */
  predicate Exhausted(h: string, raw: string, lg: seq<char>, p: nat)
    requires p < |h| <= |raw|
  {
    var cur := Lower(raw[p]);
    cur != h[p] && cur in h && cur in lg && multiset(lg)[cur] >= multiset(h)[cur]
  }

  /** The colour the loop gives position `p` with `letters_guessed` equal to `lg`. */
  function StepColour(h: string, raw: string, lg: seq<char>, p: nat): Colour
    requires p < |h| <= |raw|
  {
    var cur := Lower(raw[p]);
    if cur == h[p] then Green
    else if Exhausted(h, raw, lg, p) then Grey
    else if cur in h then Orange
    else Grey
  }

  /**
    One iteration of the loop, at position `p`. This replays the loop body that
    `Game.Wordy.PaintBox` executes; it is not the specification of scoring, which is
    `Verdict` and `KeyboardAfter`. `ColourChangeMeetsReference` ties `Run` of `Step` to them.
   */
  ghost function Step(h: string, raw: string, st: Pass, p: nat): (r: Pass)
    requires p < |h| <= |raw| == |st.colours|
    ensures |r.colours| == |st.colours|
  {
    var v := StepColour(h, raw, st.lettersGuessed, p);
    Pass(st.colours[p := Some(v)], st.keys[raw[p] := v],
         if Exhausted(h, raw, st.lettersGuessed, p) then st.lettersGuessed
         else st.lettersGuessed + [Lower(raw[p])])
  }

  /** The loop run over the positions `ps`, in that order, from `st`. */
  ghost function Run(h: string, raw: string, st: Pass, ps: seq<nat>): (r: Pass)
    requires |h| <= |raw| == |st.colours|
    requires forall k :: 0 <= k < |ps| ==> ps[k] < |h|
    ensures |r.colours| == |st.colours|
    decreases |ps|
  {
    if ps == [] then st else Step(h, raw, Run(h, raw, st, ps[..|ps| - 1]), ps[|ps| - 1])
  }

  lemma RunSnoc(h: string, raw: string, st: Pass, xs: seq<nat>, p: nat)
    requires |h| <= |raw| == |st.colours| && p < |h|
    requires forall k :: 0 <= k < |xs| ==> xs[k] < |h|
    ensures Run(h, raw, st, xs + [p]) == Step(h, raw, Run(h, raw, st, xs), p)
  {
    assert (xs + [p])[..|xs|] == xs;
  }

  lemma {:induction false} RunAppend(h: string, raw: string, st: Pass, xs: seq<nat>, ys: seq<nat>)
    requires |h| <= |raw| == |st.colours|
    requires forall k :: 0 <= k < |xs| ==> xs[k] < |h|
    requires forall k :: 0 <= k < |ys| ==> ys[k] < |h|
    ensures Run(h, raw, st, xs + ys) == Run(h, raw, Run(h, raw, st, xs), ys)
    decreases |ys|
  {
    if ys == [] {
      assert xs + ys == xs;
    } else {
      var front, p := ys[..|ys| - 1], ys[|ys| - 1];
      assert ys == front + [p];
      assert xs + ys == (xs + front) + [p];
      RunAppend(h, raw, st, xs, front);
      RunSnoc(h, raw, st, xs + front, p);
      RunSnoc(h, raw, Run(h, raw, st, xs), front, p);
    }
  }

  /** The guessed letters at the positions `ps`. */
  function At(g: string, ps: seq<nat>): string
    requires forall k :: 0 <= k < |ps| ==> ps[k] < |g|
  {
    seq(|ps|, k requires 0 <= k < |ps| => g[ps[k]])
  }

  /** Visiting exact matches only paints them green and appends their letters. */
  lemma {:induction false} ExactPhase(h: string, raw: string, st: Pass, ps: seq<nat>)
    requires |h| <= |raw| == |st.colours|
    requires forall k :: 0 <= k < |ps| ==> ps[k] < |h| && Lower(raw[ps[k]]) == h[ps[k]]
    ensures forall j :: 0 <= j < |raw| ==>
      Run(h, raw, st, ps).colours[j] == if j in ps then Some(Green) else st.colours[j]
    ensures Run(h, raw, st, ps).lettersGuessed == st.lettersGuessed + At(LowerString(raw), ps)
    decreases |ps|
  {
    var g := LowerString(raw);
    if ps == [] {
      assert At(g, ps) == [];
    } else {
      var front, p := ps[..|ps| - 1], ps[|ps| - 1];
      ExactPhase(h, raw, st, front);
      assert At(g, ps) == At(g, front) + [g[p]];
      forall j | 0 <= j < |raw|
        ensures (j in ps) == (j in front || j == p)
      {
        assert ps == front + [p];
      }
    }
  }

  /** The letters of the exact matches hold each letter as often as it matches exactly. */
  lemma {:induction false} ExactLetters(h: string, g: string, c: char, i: nat)
    requires i <= |h| && i <= |g|
    ensures multiset(At(g, ExactsDesc(h, g, i)))[c] == ExactCount(h, g, c, i)
  {
    if i > 0 {
      ExactLetters(h, g, c, i - 1);
      var e := ExactsDesc(h, g, i - 1);
      if h[i - 1] == g[i - 1] {
        assert ExactsDesc(h, g, i) == [i - 1] + e;
        AtCons(g, i - 1, e, c);
      } else {
        assert ExactsDesc(h, g, i) == e;
      }
    }
  }

  lemma AtCons(g: string, x: nat, e: seq<nat>, c: char)
    requires x < |g| && forall k :: 0 <= k < |e| ==> e[k] < |g|
    ensures multiset(At(g, [x] + e))[c] == multiset(At(g, e))[c] + (if g[x] == c then 1 else 0)
  {
    var before := At(g, e);
    assert At(g, [x] + e) == [g[x]] + before;
    assert multiset([g[x]] + before) == multiset{g[x]} + multiset(before);
  }

  /**
    Visiting the non-matching positions below `i` in increasing order, once the exact matches
    have been visited, gives each of them its reference verdict; `letters_guessed` then holds
    each letter of the hidden word once per exact match and once per orange box.
   */
  lemma {:induction false} MissPhase(h: string, raw: string, st: Pass, i: nat)
    requires |h| <= |raw| == |st.colours| && i <= |h|
    requires forall c :: c in h ==>
      multiset(st.lettersGuessed)[c] == ExactCount(h, LowerString(raw), c, |h|)
    ensures var g := LowerString(raw);
      var r := Run(h, raw, st, MissesAsc(h, g, i));
      (forall j :: 0 <= j < |raw| ==>
        r.colours[j] == if j < i && h[j] != g[j] then Some(Verdict(h, g, j)) else st.colours[j])
      && (forall c :: c in h ==>
        multiset(r.lettersGuessed)[c] == ExactCount(h, g, c, |h|) + Min(MissCount(h, g, c, i), Available(h, g, c)))
  {
    var g := LowerString(raw);
    if i > 0 {
      MissPhase(h, raw, st, i - 1);
      var j := i - 1;
      var ms := MissesAsc(h, g, j);
      var t := Run(h, raw, st, ms);
      if h[j] != g[j] {
        RunSnoc(h, raw, st, ms, j);
        assert MissesAsc(h, g, i) == ms + [j];
        var r := Step(h, raw, t, j);
        assert Run(h, raw, st, MissesAsc(h, g, i)) == r;
        forall c | c in h
          ensures multiset(r.lettersGuessed)[c]
            == ExactCount(h, g, c, |h|) + Min(MissCount(h, g, c, i), Available(h, g, c))
        {
          MissCountStep(h, raw, g, t.lettersGuessed, j, c);
        }
        MissColourStep(h, raw, g, t.lettersGuessed, j);
        assert r.colours == t.colours[j := Some(Verdict(h, g, j))];
        forall j' | 0 <= j' < |raw|
          ensures r.colours[j'] == if j' < i && h[j'] != g[j'] then Some(Verdict(h, g, j')) else st.colours[j']
        {
          if j' != j {
            assert r.colours[j'] == t.colours[j'];
          }
        }
      } else {
        assert MissesAsc(h, g, i) == ms;
        forall c | c in h
          ensures MissCount(h, g, c, i) == MissCount(h, g, c, j)
        {
        }
      }
    } else {
      assert Run(h, raw, st, MissesAsc(h, g, 0)) == st;
      forall c | c in h
        ensures Min(MissCount(h, g, c, 0), Available(h, g, c)) == 0
      {
        AvailableNonNegative(h, g, c);
      }
    }
  }

  /**
    Visiting a non-matching position keeps `letters_guessed` holding each letter of the hidden
    word once per exact match and once per orange box so far.
   */
  lemma MissCountStep(h: string, raw: string, g: string, lg: seq<char>, j: nat, c: char)
    requires j < |h| <= |raw| && g == LowerString(raw) && h[j] != g[j] && c in h
    requires multiset(lg)[c] == ExactCount(h, g, c, |h|) + Min(MissCount(h, g, c, j), Available(h, g, c))
    ensures var lg' := if Exhausted(h, raw, lg, j) then lg else lg + [Lower(raw[j])];
      multiset(lg')[c] == ExactCount(h, g, c, |h|) + Min(MissCount(h, g, c, j + 1), Available(h, g, c))
  {
    AvailableNonNegative(h, g, c);
    assert g[j] == Lower(raw[j]);
    if g[j] == c && MissCount(h, g, c, j) >= Available(h, g, c) {
      assert multiset(lg)[c] == multiset(h)[c];
      assert c in multiset(lg);
    }
    if !Exhausted(h, raw, lg, j) {
      assert multiset(lg + [g[j]]) == multiset(lg) + multiset{g[j]};
    }
  }

  /** A non-matching position is painted with its verdict, given the counts so far. */
  lemma MissColourStep(h: string, raw: string, g: string, lg: seq<char>, j: nat)
    requires j < |h| <= |raw| && g == LowerString(raw) && h[j] != g[j]
    requires g[j] in h ==>
      multiset(lg)[g[j]] == ExactCount(h, g, g[j], |h|) + Min(MissCount(h, g, g[j], j), Available(h, g, g[j]))
    ensures StepColour(h, raw, lg, j) == Verdict(h, g, j)
  {
    var c := g[j];
    assert c == Lower(raw[j]);
    if c in h {
      AvailableNonNegative(h, g, c);
      assert multiset(h)[c] >= 1;
      if MissCount(h, g, c, j) >= Available(h, g, c) {
        assert multiset(lg)[c] == multiset(h)[c];
        assert c in multiset(lg);
      }
    } else {
      AbsentLetterIsGrey(h, g, j);
    }
  }

  /** A key typed at none of the visited positions keeps its colour, or its absence. */
  lemma {:induction false} UntypedKeysKept(h: string, raw: string, st: Pass, ps: seq<nat>, key: char)
    requires |h| <= |raw| == |st.colours|
    requires forall k :: 0 <= k < |ps| ==> ps[k] < |h|
    requires forall k :: 0 <= k < |ps| ==> raw[ps[k]] != key
    ensures var r := Run(h, raw, st, ps);
      (key in r.keys <==> key in st.keys) && (key in st.keys ==> r.keys[key] == st.keys[key])
    decreases |ps|
  {
    if ps != [] {
      var front, p := ps[..|ps| - 1], ps[|ps| - 1];
      assert forall k :: 0 <= k < |front| ==> raw[front[k]] != key;
      UntypedKeysKept(h, raw, st, front, key);
      assert raw[p] != key;
    }
  }

  /** A key not typed in the scored part of the guess keeps its colour, or its absence. */
  lemma UntypedKeyKept(h: string, raw: string, st: Pass, o: seq<nat>, key: char)
    requires |h| <= |raw| == |st.colours|
    requires forall k :: 0 <= k < |o| ==> o[k] < |h|
    requires key !in raw[..|h|]
    ensures var r := Run(h, raw, st, o);
      (key in r.keys <==> key in st.keys) && (key in st.keys ==> r.keys[key] == st.keys[key])
  {
    forall k | 0 <= k < |o|
      ensures raw[o[k]] != key
    {
      assert raw[o[k]] in raw[..|h|];
    }
    UntypedKeysKept(h, raw, st, o, key);
  }

  /** The keyboard colour of every visited key is the colour of the last box visited for it. */
  lemma {:induction false} KeysFollowLastWrite(h: string, raw: string, st: Pass, ps: seq<nat>)
    requires |h| <= |raw| == |st.colours|
    requires forall k :: 0 <= k < |ps| ==> ps[k] < |h|
    requires forall a, b :: 0 <= a < b < |ps| ==> ps[a] != ps[b]
    ensures var r := Run(h, raw, st, ps);
      forall k :: 0 <= k < |ps| && (forall k' :: k < k' < |ps| ==> raw[ps[k']] != raw[ps[k]]) ==>
        raw[ps[k]] in r.keys && r.colours[ps[k]] == Some(r.keys[raw[ps[k]]])
    decreases |ps|
  {
    if ps != [] {
      var front, p := ps[..|ps| - 1], ps[|ps| - 1];
      assert ps == front + [p];
      KeysFollowLastWrite(h, raw, st, front);
      var t := Run(h, raw, st, front);
      var r := Run(h, raw, st, ps);
      var v := StepColour(h, raw, t.lettersGuessed, p);
      assert r.keys == t.keys[raw[p] := v] && r.colours == t.colours[p := Some(v)];
      forall k | 0 <= k < |ps| && (forall k' :: k < k' < |ps| ==> raw[ps[k']] != raw[ps[k]])
        ensures raw[ps[k]] in r.keys && r.colours[ps[k]] == Some(r.keys[raw[ps[k]]])
      {
        LastWriteStep(raw, front, p, ps, t.colours, t.keys, v, k);
      }
    }
  }

  /**
    The step of `KeysFollowLastWrite`: painting the last position of `ps` with `v` keeps
    the link between each key and the box of its last visit.
   */
  lemma LastWriteStep(raw: string, front: seq<nat>, p: nat, ps: seq<nat>,
                      colours: seq<Option<Colour>>, keys: map<char, Colour>, v: Colour, k: nat)
    requires ps == front + [p] && p < |raw| == |colours|
    requires forall i :: 0 <= i < |front| ==> front[i] < |raw|
    requires forall a, b :: 0 <= a < b < |ps| ==> ps[a] != ps[b]
    requires forall i :: 0 <= i < |front| && (forall i' :: i < i' < |front| ==> raw[front[i']] != raw[front[i]]) ==>
      raw[front[i]] in keys && colours[front[i]] == Some(keys[raw[front[i]]])
    requires k < |ps| && forall k' :: k < k' < |ps| ==> raw[ps[k']] != raw[ps[k]]
    ensures var keys', colours' := keys[raw[p] := v], colours[p := Some(v)];
      raw[ps[k]] in keys' && colours'[ps[k]] == Some(keys'[raw[ps[k]]])
  {
    if k < |front| {
      assert ps[|front|] == p && front[k] == ps[k];
      assert raw[p] != raw[ps[k]];
      assert ps[k] != p;
      forall k' | k < k' < |front|
        ensures raw[front[k']] != raw[front[k]]
      {
        assert front[k'] == ps[k'];
      }
    }
  }

  /**
    The loop of color_change, run over the order get_order_of_letters builds, paints the
    first `|h|` boxes with the reference verdicts and leaves the keyboard as `KeyboardAfter`
    says.
   */
  lemma ColourChangeMeetsReference(h: string, raw: string, colours: seq<Option<Colour>>, kb: map<char, Colour>)
    requires |h| <= |raw| == |colours|
    ensures Run(h, raw, Pass(colours, kb, []), Order(h, LowerString(raw))).colours
      == Painted(colours, Verdicts(h, LowerString(raw)))
    ensures Run(h, raw, Pass(colours, kb, []), Order(h, LowerString(raw))).keys
      == KeyboardAfter(h, raw, kb)
  {
    var g := LowerString(raw);
    assert Order(h, g) == ExactsDesc(h, g, |h|) + MissesAsc(h, g, |h|);
    BoxesMeetReference(h, raw, colours, kb);
    KeysMeetReference(h, raw, colours, kb);
  }

  lemma BoxesMeetReference(h: string, raw: string, colours: seq<Option<Colour>>, kb: map<char, Colour>)
    requires |h| <= |raw| == |colours|
    ensures var g := LowerString(raw);
      Run(h, raw, Pass(colours, kb, []), ExactsDesc(h, g, |h|) + MissesAsc(h, g, |h|)).colours
      == Painted(colours, Verdicts(h, g))
  {
    var g := LowerString(raw);
    var n := |h|;
    var e, m := ExactsDesc(h, g, n), MissesAsc(h, g, n);
    var st0 := Pass(colours, kb, []);
    RunAppend(h, raw, st0, e, m);
    ExactsPaintGreen(h, raw, st0);
    var s := Run(h, raw, st0, e);
    MissPhase(h, raw, s, n);
    PhasesPaint(h, g, colours, s.colours, Run(h, raw, s, m).colours);
  }

  /** The first phase paints exactly the exact matches green and counts their letters. */
  lemma ExactsPaintGreen(h: string, raw: string, st: Pass)
    requires |h| <= |raw| == |st.colours| && st.lettersGuessed == []
    ensures var g := LowerString(raw);
      var s := Run(h, raw, st, ExactsDesc(h, g, |h|));
      && (forall j :: 0 <= j < |raw| ==>
        s.colours[j] == if j < |h| && h[j] == g[j] then Some(Green) else st.colours[j])
      && (forall c :: c in h ==> multiset(s.lettersGuessed)[c] == ExactCount(h, g, c, |h|))
  {
    var g := LowerString(raw);
    var n := |h|;
    var e := ExactsDesc(h, g, n);
    ExactsShape(h, g, n);
    ExactPhase(h, raw, st, e);
    var s := Run(h, raw, st, e);
    assert s.lettersGuessed == At(g, e);
    forall c | c in h
      ensures multiset(s.lettersGuessed)[c] == ExactCount(h, g, c, n)
    {
      ExactLetters(h, g, c, n);
    }
    forall j | 0 <= j < |raw|
      ensures (j in e) == (j < n && h[j] == g[j])
    {
    }
  }

  /** The two phases together paint every scored box with its verdict. */
  lemma PhasesPaint(h: string, g: string, colours: seq<Option<Colour>>, mid: seq<Option<Colour>>,
                    last: seq<Option<Colour>>)
    requires |h| <= |g| == |colours| == |mid| == |last|
    requires forall j :: 0 <= j < |g| ==>
      mid[j] == if j < |h| && h[j] == g[j] then Some(Green) else colours[j]
    requires forall j :: 0 <= j < |g| ==>
      last[j] == if j < |h| && h[j] != g[j] then Some(Verdict(h, g, j)) else mid[j]
    ensures last == Painted(colours, Verdicts(h, g))
  {
  }

  lemma KeysMeetReference(h: string, raw: string, colours: seq<Option<Colour>>, kb: map<char, Colour>)
    requires |h| <= |raw| == |colours|
    ensures var g := LowerString(raw);
      Run(h, raw, Pass(colours, kb, []), ExactsDesc(h, g, |h|) + MissesAsc(h, g, |h|)).keys
      == KeyboardAfter(h, raw, kb)
  {
    var g := LowerString(raw);
    var r := Run(h, raw, Pass(colours, kb, []), ExactsDesc(h, g, |h|) + MissesAsc(h, g, |h|));
    var ka := KeyboardAfter(h, raw, kb);
    forall key
      ensures (key in r.keys <==> key in ka) && (key in r.keys ==> r.keys[key] == ka[key])
    {
      KeyMeetsReference(h, raw, colours, kb, key);
    }
    assert r.keys.Keys == ka.Keys;
  }

  /** The step of `KeysMeetReference` for one key. */
  lemma KeyMeetsReference(h: string, raw: string, colours: seq<Option<Colour>>, kb: map<char, Colour>, key: char)
    requires |h| <= |raw| == |colours|
    ensures var g := LowerString(raw);
      var keys := Run(h, raw, Pass(colours, kb, []), ExactsDesc(h, g, |h|) + MissesAsc(h, g, |h|)).keys;
      var ka := KeyboardAfter(h, raw, kb);
      (key in keys <==> key in ka) && (key in keys ==> keys[key] == ka[key])
  {
    var g := LowerString(raw);
    var st0 := Pass(colours, kb, []);
    var o := ExactsDesc(h, g, |h|) + MissesAsc(h, g, |h|);
    var r := Run(h, raw, st0, o);
    KeyboardAfterAt(h, raw, kb, key);
    if key in raw[..|h|] {
      TypedKeyMeetsReference(h, raw, colours, kb, key);
    } else {
      OrderShape(h, g);
      UntypedKeyKept(h, raw, st0, o, key);
    }
  }

  /** A key typed in the scored part of the guess ends with its reference colour. */
  lemma TypedKeyMeetsReference(h: string, raw: string, colours: seq<Option<Colour>>, kb: map<char, Colour>, key: char)
    requires |h| <= |raw| == |colours| && key in raw[..|h|]
    ensures var g := LowerString(raw);
      var keys := Run(h, raw, Pass(colours, kb, []), ExactsDesc(h, g, |h|) + MissesAsc(h, g, |h|)).keys;
      key in keys && keys[key] == KeyColour(h, raw, key)
  {
    var g := LowerString(raw);
    var st0 := Pass(colours, kb, []);
    var o := ExactsDesc(h, g, |h|) + MissesAsc(h, g, |h|);
    var r := Run(h, raw, st0, o);
    OrderShape(h, g);
    BoxesMeetReference(h, raw, colours, kb);
    KeysFollowLastWrite(h, raw, st0, o);
    var k := LastTyped(h, raw, o, key);
    LastWriteIsKeyColour(h, raw, g, o, key, k);
    assert r.colours[o[k]] == Some(Verdict(h, g, o[k]));
  }

  /** A key typed in the scored part of the guess gets `KeyColour`; any other key keeps its colour. */
  lemma KeyboardAfterAt(h: string, raw: string, kb: map<char, Colour>, key: char)
    requires |h| <= |raw|
    ensures var ka := KeyboardAfter(h, raw, kb);
      key in raw[..|h|] ==> key in ka && ka[key] == KeyColour(h, raw, key)
    ensures var ka := KeyboardAfter(h, raw, kb);
      key !in raw[..|h|] ==> (key in ka <==> key in kb) && (key in kb ==> ka[key] == kb[key])
  {
  }

  /** A key typed in the scored part of the guess has a last place in a visiting order of all positions. */
  lemma LastTyped(h: string, raw: string, o: seq<nat>, key: char) returns (k: nat)
    requires |h| <= |raw| && forall i :: 0 <= i < |o| ==> o[i] < |h|
    requires forall j :: 0 <= j < |h| ==> j in o
    requires key in raw[..|h|]
    ensures k < |o| && raw[o[k]] == key
    ensures forall k' :: k < k' < |o| ==> raw[o[k']] != raw[o[k]]
  {
    var j0 :| 0 <= j0 < |h| && raw[j0] == key;
    assert j0 in o;
    var k0 :| 0 <= k0 < |o| && o[k0] == j0;
    k := LastOccurrence(raw, o, key, k0);
  }

  /**
    When `o[k]` is the last position of the visiting order at which `key` was typed, its
    verdict is the key colour of the reference.
   */
  lemma LastWriteIsKeyColour(h: string, raw: string, g: string, o: seq<nat>, key: char, k: nat)
    requires |h| <= |raw| && g == LowerString(raw)
    requires k < |o| && forall i :: 0 <= i < |o| ==> o[i] < |h|
    requires forall j :: 0 <= j < |h| ==> j in o
    requires forall a, b :: 0 <= a < b < |o| && h[o[b]] == g[o[b]] ==> h[o[a]] == g[o[a]]
    requires forall a, b :: 0 <= a < b < |o| && h[o[a]] != g[o[a]] && h[o[b]] != g[o[b]] ==> o[a] < o[b]
    requires raw[o[k]] == key && forall k' :: k < k' < |o| ==> raw[o[k']] != key
    ensures KeyColour(h, raw, key) == Verdict(h, g, o[k])
  {
    assert g[o[k]] == Lower(raw[o[k]]);
    LastMissIsLast(h, raw, key, |h|);
    match LastMiss(h, raw, key, |h|)
    case Some(j) =>
      assert j in o;
      var kj :| 0 <= kj < |o| && o[kj] == j;
      assert raw[o[kj]] == key;
      if kj < k {
        assert false;
      }
    case None =>
      assert h[o[k]] == g[o[k]];
  }

  /** The last index of `ps` at or after `k0` at which `key` was typed. */
  lemma {:induction false} LastOccurrence(raw: string, ps: seq<nat>, key: char, k0: nat) returns (k: nat)
    requires k0 < |ps| && forall i :: 0 <= i < |ps| ==> ps[i] < |raw|
    requires raw[ps[k0]] == key
    ensures k0 <= k < |ps| && raw[ps[k]] == key
    ensures forall k' :: k < k' < |ps| ==> raw[ps[k']] != key
    decreases |ps| - k0
  {
    if exists k1 :: k0 < k1 < |ps| && raw[ps[k1]] == key {
      var k1 :| k0 < k1 < |ps| && raw[ps[k1]] == key;
      k := LastOccurrence(raw, ps, key, k1);
    } else {
      k := k0;
    }
  }

  // ---------------------------------------------------------------------------
  // Worked examples
  // ---------------------------------------------------------------------------

  /** A second `a` gets no orange once the only `a` of the hidden word matched exactly. */
  lemma AppleAppla()
    ensures Verdicts("apple", "appla") == [Green, Green, Green, Green, Grey]
  {
    var h, g := "apple", "appla";
    assert multiset(h)['a'] == 1;
    assert ExactCount(h, g, 'a', 5) == 1;
    assert MissCount(h, g, 'a', 4) == 0;
    assert Verdict(h, g, 4) == Grey;
  }

  /** Repeated letters on both sides: `speed` against `deeds`. */
  lemma SpeedDeeds()
    ensures Verdicts("speed", "deeds") == [Orange, Orange, Green, Grey, Orange]
  {
    var h, g := "speed", "deeds";
    assert multiset(h)['d'] == 1 && multiset(h)['e'] == 2 && multiset(h)['s'] == 1;
    assert ExactCount(h, g, 'd', 5) == 0 && ExactCount(h, g, 'e', 5) == 1 && ExactCount(h, g, 's', 5) == 0;
    assert MissCount(h, g, 'd', 0) == 0 && MissCount(h, g, 'e', 1) == 0;
    assert MissCount(h, g, 'd', 3) == 1 && MissCount(h, g, 's', 4) == 0;
    assert Verdict(h, g, 0) == Orange && Verdict(h, g, 1) == Orange && Verdict(h, g, 2) == Green;
    assert Verdict(h, g, 3) == Grey && Verdict(h, g, 4) == Orange;
  }

  /** A key whose first box is green ends grey when a later box of it is grey. */
  lemma KeyboardDowngrades()
    ensures Verdicts("abcde", "aaxyz")[0] == Green
    ensures var kb := KeyboardAfter("abcde", "AAXYZ", map[]); 'A' in kb && kb['A'] == Grey
  {
    var h, raw := "abcde", "AAXYZ";
    var g := LowerString(raw);
    assert g == "aaxyz";
    assert raw[..5] == raw && raw[0] == 'A';
    KeyboardAfterAt(h, raw, map[], 'A');
    assert LastMiss(h, raw, 'A', 2) == Some(1);
    assert LastMiss(h, raw, 'A', 5) == Some(1);
    assert multiset(h)['a'] == 1;
    assert ExactCount(h, g, 'a', 5) == 1;
    assert MissCount(h, g, 'a', 1) == 0;
    assert Verdict(h, g, 1) == Grey;
  }
}
