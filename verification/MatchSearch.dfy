/** Searching and substituting: `str_find_aux`, `lmemfind` and `str_gsub`. */
module MatchSearch {
  import opened MatchModel
  import opened MatchMeaning
  import opened MatchOrder
  import opened MatchHeap

  // ---- the depth limit ----

  lemma {:induction false} NoDepthFault(m: Subject, p: nat, s: nat, caps: seq<Cap>)
    ensures Fault(TooComplex) !in Results(m, p, s, caps)
    decreases |m.pat| - p, 1
  {
    if p >= |m.pat| {
    } else if m.pat[p] == '(' {
      var position := At(m.pat, p + 1) == ')';
      NoDepthFault(m, if position then p + 2 else p + 1, s, caps + [Cap(s, if position then CAP_POSITION else CAP_UNFINISHED)]);
    } else if m.pat[p] == ')' {
      var l := ToClose(caps, |caps|);
      if l >= 0 { NoDepthFault(m, p + 1, s, caps[l := Cap(caps[l].init, s - caps[l].init)]); }
    } else if m.pat[p] == '$' && p + 1 == |m.pat| {
    } else if IsItem(m, p) {
      var ep := ClassEnd(m.pat, p);
      ItemResults(m, p, s, caps);
      if ep >= 0 { NoDepthAlong(m, p, Counts(At(m.pat, ep), Run(m.src, s, m.pat, p, ep)), s, AfterItem(m.pat, ep), caps); }
    } else if At(m.pat, p + 1) == 'b' {
      if p + 3 < |m.pat| && BalanceEnd(m.src, s, m.pat[p + 2], m.pat[p + 3]) >= 0 {
        NoDepthFault(m, p + 4, BalanceEnd(m.src, s, m.pat[p + 2], m.pat[p + 3]), caps);
      }
    } else if At(m.pat, p + 1) == 'f' {
      if At(m.pat, p + 2) == '[' && ClassEnd(m.pat, p + 2) >= 0 { NoDepthFault(m, ClassEnd(m.pat, p + 2), s, caps); }
    } else {
      var l := CaptureIndex(caps, m.pat[p + 1]);
      if l >= 0 && Repeats(m.src, s, caps[l]) { NoDepthFault(m, p + 2, s + caps[l].len, caps); }
    }
  }

  lemma {:induction false} NoDepthAlong(m: Subject, p: nat, cs: seq<nat>, s: nat, next: nat, caps: seq<Cap>)
    requires p < next && p < |m.pat|
    ensures Fault(TooComplex) !in Along(m, p, cs, s, next, caps)
    decreases |m.pat| - p, 0, |cs|
  {
    if cs != [] {
      NoDepthFault(m, next, s + cs[0], caps);
      NoDepthAlong(m, p, cs[1..], s, next, caps);
    }
  }

  // ---- find ----

  /** One attempt, from a fresh state, as the callers of `match` make it. */
  method Attempt(ms: MatchState, s: nat) returns (r: Res)
    requires ms.Valid() && ms.matchdepth == MAXCCALLS && s <= |ms.m.src|
    modifies ms, ms.capture
    ensures ms.Valid() && (!r.Error? ==> ms.matchdepth == MAXCCALLS) && (r.Found? ==> r.e <= |ms.m.src|)
    ensures Meets(r, ms.m, 0, s, [], ms.Caps(), MAXCCALLS <= |ms.m.pat|)
    ensures |ms.m.pat| < MAXCCALLS ==> r != Error(TooComplex)
  {
    hide First, Nothing, Results;
    ms.level := 0;
    assert ms.Caps() == [];
    r := ms.Match(s, 0);
    NoDepthFault(ms.m, 0, s, []);
  }

  datatype Place = NotFound | Place(start: nat, end: nat, caps: seq<Cap>) | Failed(err: Err)

  /** No match starts at any of these places. */
  ghost predicate NoneFrom(m: Subject, from: nat, to: nat) {
    forall s: nat | from <= s < to :: Nothing(m, 0, s, [])
  }

  /** The search gets as far as `s` and there the pattern itself is at fault, or
      is long enough to be refused as too complex. */
  ghost predicate FailsAt(m: Subject, from: nat, s: nat, err: Err) {
    NoneFrom(m, from, s) && (FaultAt(m, s, err) || (err == TooComplex && |m.pat| >= MAXCCALLS))
  }

  ghost predicate FaultAt(m: Subject, s: nat, err: Err) {
    First(m, 0, s, [], Fault(err))
  }

  /** `str_find_aux` with a pattern: the leftmost match, and at that place the
      first in the order of trial. `pat` is the pattern without its anchor. */
  method Find(src: string, pat: string, init: nat, anchor: bool) returns (r: Place)
    requires init <= |src|
    ensures var m := Subject(src, pat);
      && (r.Place? ==> init <= r.start <= |src| && r.end <= |src| && (anchor ==> r.start == init) && NoneFrom(m, init, r.start)
                       && First(m, 0, r.start, [], Done(r.end, r.caps)) && Derives(m, 0, r.start, [], r.end, r.caps))
      && (r.NotFound? ==> NoneFrom(m, init, if anchor then init + 1 else |src| + 1))
    ensures r.Failed? ==> exists s: nat :: init <= s <= |src| && (anchor ==> s == init) && FailsAt(Subject(src, pat), init, s, r.err)
  {
    var m := Subject(src, pat);
    var ms := new MatchState(m);
    var s1 := init;
    while true
      invariant init <= s1 <= |src| && ms.m == m && ms.Valid() && ms.matchdepth == MAXCCALLS && fresh(ms) && fresh(ms.capture)
      invariant NoneFrom(m, init, s1) && (anchor ==> s1 == init)
      decreases |src| - s1
    {
      hide First, Derives;
      var a := Attempt(ms, s1);
      match a {
        case Found(e) =>
          FirstDerives(m, 0, s1, [], e, ms.Caps());
          return Place(s1, e, ms.capture[..ms.level]);
        case Error(err) =>
          assert FailsAt(m, init, s1, err);
          return Failed(err);
        case Fail =>
      }
      if s1 == |src| || anchor { return NotFound; }
      s1 := s1 + 1;
    }
  }

  predicate OccursAt(src: string, pat: string, i: nat) {
    i + |pat| <= |src| && src[i..i + |pat|] == pat
  }

  lemma OccursSplit(src: string, pat: string, i: nat)
    requires pat != ""
    ensures OccursAt(src, pat, i) <==> i + |pat| <= |src| && src[i] == pat[0] && src[i + 1..i + |pat|] == pat[1..]
  {
    if i + |pat| <= |src| {
      assert src[i..i + |pat|] == [src[i]] + src[i + 1..i + |pat|];
      assert pat == [pat[0]] + pat[1..];
    }
  }

  /** `lmemfind`: the leftmost occurrence of a plain string, -1 without one. */
  method LMemFind(src: string, pat: string) returns (i: int)
    ensures i >= 0 ==> OccursAt(src, pat, i)
    ensures forall j: nat | OccursAt(src, pat, j) :: 0 <= i <= j
  {
    if |pat| == 0 { return 0; }
    if |pat| > |src| { return -1; }
    var l2 := |pat| - 1;
    var s1, l1 := 0, |src| - l2;
    while l1 > 0
      invariant 0 <= s1 && 0 <= l1 && s1 + l1 == |src| - l2
      invariant forall j: nat | OccursAt(src, pat, j) :: s1 <= j
      decreases l1
    {
      var init := MemChr(src, s1, pat[0], l1);
      forall j: nat { OccursSplit(src, pat, j); }
      if init < 0 { return -1; }
      if src[init + 1..init + |pat|] == pat[1..] { return init; }
      l1, s1 := l1 - (init + 1 - s1), init + 1;
    }
    return -1;
  }

  /** `memchr`. */
  method MemChr(src: string, from: nat, c: char, n: nat) returns (i: int)
    requires from + n <= |src|
    ensures i >= 0 ==> from <= i < from + n && src[i] == c && forall j | from <= j < i :: src[j] != c
    ensures i < 0 ==> forall j | from <= j < from + n :: src[j] != c
  {
    var k := from;
    while k < from + n
      invariant from <= k <= from + n && forall j | from <= j < k :: src[j] != c
    {
      if src[k] == c { return k; }
      k := k + 1;
    }
    return -1;
  }

  // ---- gsub ----

  /** A piece of the subject in the order `str_gsub` comes to it. */
  datatype Piece = Copied(start: nat) | Matched(start: nat, end: nat, caps: seq<Cap>) | Tail(start: nat)

  function PieceEnd(p: Piece, len: nat): nat {
    match p
    case Copied(s) => s + 1
    case Matched(_, e, _) => e
    case Tail(_) => len
  }

  /** The pieces follow each other from `from` to `to`. */
  ghost predicate Tiles(ps: seq<Piece>, from: nat, to: nat, len: nat) {
    if ps == [] then from == to
    else ps[0].start == from <= PieceEnd(ps[0], len) <= len && Tiles(ps[1..], PieceEnd(ps[0], len), to, len)
  }

  /** The text a piece is replaced by when every match is replaced by itself. */
  function Text(src: string, ps: seq<Piece>): string {
    if ps == [] then ""
    else
      var s, e := ps[0].start, PieceEnd(ps[0], |src|);
      (if s <= e <= |src| then src[s..e] else "") + Text(src, ps[1..])
  }

  lemma {:induction false} TilesText(src: string, ps: seq<Piece>, from: nat, to: nat)
    requires Tiles(ps, from, to, |src|) && from <= |src|
    ensures from <= to <= |src| && Text(src, ps) == src[from..to]
    decreases |ps|
  {
    if ps != [] {
      var e := PieceEnd(ps[0], |src|);
      TilesText(src, ps[1..], e, to);
      assert src[from..to] == src[from..e] + src[e..to];
    }
  }

  lemma {:induction false} TilesMore(ps: seq<Piece>, p: Piece, from: nat, at: nat, len: nat)
    requires Tiles(ps, from, at, len) && p.start == at <= PieceEnd(p, len) <= len
    ensures Tiles(ps + [p], from, PieceEnd(p, len), len)
    decreases |ps|
  {
    if ps == [] {
      assert [p][1..] == [];
    } else {
      TilesMore(ps[1..], p, PieceEnd(ps[0], len), at, len);
      assert (ps + [p])[1..] == ps[1..] + [p];
    }
  }

  function CountMatched(ps: seq<Piece>): nat {
    if ps == [] then 0 else CountMatched(ps[..|ps| - 1]) + if ps[|ps| - 1].Matched? then 1 else 0
  }

  /** Every match that was substituted is the first at its place. */
  ghost predicate AllFirst(m: Subject, ps: seq<Piece>) {
    forall i | 0 <= i < |ps| && ps[i].Matched? :: FirstAt(m, ps[i])
  }

  ghost predicate FirstAt(m: Subject, p: Piece)
    requires p.Matched?
  {
    First(m, 0, p.start, [], Done(p.end, p.caps))
  }

  /** Characters are copied only where nothing (or the empty string) matches. */
  ghost predicate CopiedRight(m: Subject, p: Piece)
    requires p.Copied?
  {
    Nothing(m, 0, p.start, []) || exists e: nat, caps :: e <= p.start && First(m, 0, p.start, [], Done(e, caps))
  }

  lemma {:induction false} MatchesForward(m: Subject, p: nat, s: nat, caps: seq<Cap>, e: nat, out: seq<Cap>)
    requires Derives(m, p, s, caps, e, out)
    ensures s <= e
    decreases |m.pat| - p
  {
    if p >= |m.pat| {
    } else if m.pat[p] == '(' {
      var position := At(m.pat, p + 1) == ')';
      MatchesForward(m, if position then p + 2 else p + 1, s, caps + [Cap(s, if position then CAP_POSITION else CAP_UNFINISHED)], e, out);
    } else if m.pat[p] == ')' {
      var l: nat :| Innermost(caps, l) && Derives(m, p + 1, s, caps[l := Cap(caps[l].init, s - caps[l].init)], e, out);
      MatchesForward(m, p + 1, s, caps[l := Cap(caps[l].init, s - caps[l].init)], e, out);
    } else if m.pat[p] == '$' && p + 1 == |m.pat| {
    } else if IsItem(m, p) {
      var ep := ClassEnd(m.pat, p);
      var k: nat :| DerivesItem(m, p, ep, s, k) && Derives(m, AfterItem(m.pat, ep), s + k, caps, e, out);
      MatchesForward(m, AfterItem(m.pat, ep), s + k, caps, e, out);
    } else if At(m.pat, p + 1) == 'b' {
      var k: nat :| DerivesBalance(m, p, s, k) && Derives(m, p + 4, k, caps, e, out);
      MatchesForward(m, p + 4, k, caps, e, out);
    } else if At(m.pat, p + 1) == 'f' {
      MatchesForward(m, ClassEnd(m.pat, p + 2), s, caps, e, out);
    } else {
      var l := CaptureIndex(caps, m.pat[p + 1]);
      MatchesForward(m, p + 2, s + caps[l].len, caps, e, out);
    }
  }

  /** The subject up to `at` has been cut as `str_gsub` promises. */
  ghost predicate CutUp(m: Subject, ps: seq<Piece>, at: nat, n: nat) {
    Tiles(ps, 0, at, |m.src|) && n == CountMatched(ps) && AllFirst(m, ps) && forall i | 0 <= i < |ps| && ps[i].Copied? :: CopiedRight(m, ps[i])
  }

  ghost predicate Faulty(m: Subject, s: nat) {
    exists err :: FaultAt(m, s, err)
  }

  lemma FoundForward(m: Subject, s: nat, e: nat, caps: seq<Cap>)
    requires First(m, 0, s, [], Done(e, caps))
    ensures s <= e
  {
    hide First, Derives;
    FirstDerives(m, 0, s, [], e, caps);
    MatchesForward(m, 0, s, [], e, caps);
  }

  lemma AddPiece(m: Subject, ps: seq<Piece>, p: Piece, at: nat, n: nat)
    requires CutUp(m, ps, at, n) && p.start == at <= PieceEnd(p, |m.src|) <= |m.src|
    requires p.Matched? ==> FirstAt(m, p)
    requires p.Copied? ==> CopiedRight(m, p)
    ensures CutUp(m, ps + [p], PieceEnd(p, |m.src|), n + if p.Matched? then 1 else 0)
  {
    hide FirstAt, CopiedRight;
    TilesMore(ps, p, 0, at, |m.src|);
    assert (ps + [p])[..|ps|] == ps;
  }

  // ---- nothing is skipped ----

  ghost predicate EmptyMatch(p: Piece) {
    p.Matched? && p.end == p.start
  }

  /** Piece `i` is what `str_gsub` comes to after the pieces before it. After an
      empty match it copies a character, or is at the end. Otherwise a round
      begins: it stops when there were enough matches, when the pattern is
      anchored and has had its round, or when the end of the subject does not
      match; if not, it takes the first match here, and copies a character if
      there is none. */
  ghost predicate Follows(m: Subject, ps: seq<Piece>, i: nat, max: nat, anchor: bool)
    requires i < |ps|
  {
    && (i > 0 ==> !ps[i - 1].Tail?)
    && var s := ps[i].start;
      if i > 0 && EmptyMatch(ps[i - 1]) then ps[i] == if s < |m.src| then Copied(s) else Tail(s)
      else
        var stop := CountMatched(ps[..i]) == max || (anchor && i > 0);
        match ps[i]
        case Tail(_) => stop || (s == |m.src| && Nothing(m, 0, s, []))
        case Copied(_) => !stop && Nothing(m, 0, s, [])
        case Matched(_, _, _) => !stop && FirstAt(m, ps[i])
  }

  /** All pieces so far are those of `str_gsub`. */
  ghost predicate Rounds(m: Subject, ps: seq<Piece>, max: nat, anchor: bool) {
    forall i | 0 <= i < |ps| :: Follows(m, ps, i, max, anchor)
  }

  /** The pieces of a whole run. */
  ghost predicate Substitution(m: Subject, ps: seq<Piece>, max: nat, anchor: bool) {
    Tiles(ps, 0, |m.src|, |m.src|) && ps != [] && ps[|ps| - 1].Tail? && Rounds(m, ps, max, anchor)
  }

  lemma RoundsMore(m: Subject, ps: seq<Piece>, p: Piece, max: nat, anchor: bool)
    requires Rounds(m, ps, max, anchor) && Follows(m, ps + [p], |ps|, max, anchor)
    ensures Rounds(m, ps + [p], max, anchor)
  {
    var qs := ps + [p];
    forall i | 0 <= i < |qs| ensures Follows(m, qs, i, max, anchor) {
      if i < |ps| {
        assert Follows(m, ps, i, max, anchor);
        assert qs[..i] == ps[..i];
      }
    }
  }

  lemma {:induction false} TilesStart(ps: seq<Piece>, from: nat, to: nat, len: nat, i: nat)
    requires Tiles(ps, from, to, len) && i < |ps|
    ensures ps[i].start == if i == 0 then from else PieceEnd(ps[i - 1], len)
    ensures PieceEnd(ps[i], len) <= len
    decreases i
  {
    if i > 0 { TilesStart(ps[1..], PieceEnd(ps[0], len), to, len, i - 1); }
  }

  /** Which piece comes next is determined. */
  lemma NextPiece(m: Subject, ps: seq<Piece>, qs: seq<Piece>, i: nat, max: nat, anchor: bool)
    requires Substitution(m, ps, max, anchor) && Substitution(m, qs, max, anchor)
    requires i < |ps| && i < |qs| && ps[..i] == qs[..i]
    ensures ps[i] == qs[i]
  {
    hide First, CountMatched;
    TilesStart(ps, 0, |m.src|, |m.src|, i);
    TilesStart(qs, 0, |m.src|, |m.src|, i);
    assert Follows(m, ps, i, max, anchor) && Follows(m, qs, i, max, anchor);
    if i > 0 { assert ps[i - 1] == ps[..i][i - 1] == qs[..i][i - 1] == qs[i - 1]; }
    if ps[i].Matched? && qs[i].Matched? {
      FirstIsOne(m, 0, ps[i].start, [], Done(ps[i].end, ps[i].caps), Done(qs[i].end, qs[i].caps));
    }
  }

  /** There is one way only to cut the subject so. */
  lemma {:induction false} SubstitutionPrefix(m: Subject, ps: seq<Piece>, qs: seq<Piece>, max: nat, anchor: bool, i: nat)
    requires Substitution(m, ps, max, anchor) && Substitution(m, qs, max, anchor) && i <= |ps|
    ensures i <= |qs| && ps[..i] == qs[..i]
    decreases i
  {
    hide Follows, Tiles;
    if i > 0 {
      SubstitutionPrefix(m, ps, qs, max, anchor, i - 1);
      GoesOn(m, ps, qs, max, anchor, i - 1);
      NextPiece(m, ps, qs, i - 1, max, anchor);
      assert ps[..i] == ps[..i - 1] + [ps[i - 1]] && qs[..i] == qs[..i - 1] + [qs[i - 1]];
    }
  }

  /** Only a tail ends the pieces. */
  lemma GoesOn(m: Subject, ps: seq<Piece>, qs: seq<Piece>, max: nat, anchor: bool, i: nat)
    requires Substitution(m, ps, max, anchor) && Substitution(m, qs, max, anchor)
    requires i < |ps| && i <= |qs| && ps[..i] == qs[..i]
    ensures i < |qs|
  {
    hide First, CountMatched, Tiles;
    assert Follows(m, ps, i, max, anchor);
    if i > 0 { assert qs[i - 1] == qs[..i][i - 1] == ps[i - 1]; }
  }

  lemma SubstitutionIsOne(m: Subject, ps: seq<Piece>, qs: seq<Piece>, max: nat, anchor: bool)
    requires Substitution(m, ps, max, anchor) && Substitution(m, qs, max, anchor)
    ensures ps == qs
  {
    SubstitutionPrefix(m, ps, qs, max, anchor, |ps|);
    SubstitutionPrefix(m, qs, ps, max, anchor, |qs|);
  }

  /** The state of `str_gsub` between two rounds. */
  ghost predicate Between(m: Subject, ps: seq<Piece>, s: nat, n: nat, max: nat, anchor: bool) {
    CutUp(m, ps, s, n) && Rounds(m, ps, max, anchor) && n <= max && (ps != [] ==> !ps[|ps| - 1].Tail? && !EmptyMatch(ps[|ps| - 1]))
  }

  lemma LastOf(ps: seq<Piece>, p: Piece)
    ensures (ps + [p])[..|ps|] == ps && (ps + [p])[|ps|] == p
  {
  }

  /** A round that finds a match. */
  lemma MatchRound(m: Subject, ps: seq<Piece>, s: nat, n: nat, max: nat, anchor: bool, p: Piece)
    requires Between(m, ps, s, n, max, anchor) && n < max && (anchor ==> ps == [])
    requires p.Matched? && p.start == s <= p.end <= |m.src| && FirstAt(m, p)
    ensures CutUp(m, ps + [p], p.end, n + 1) && Rounds(m, ps + [p], max, anchor)
    ensures p.end > s ==> Between(m, ps + [p], p.end, n + 1, max, anchor)
  {
    hide First, Nothing, Tiles, FirstAt, CopiedRight, Rounds;
    LastOf(ps, p);
    AddPiece(m, ps, p, s, n);
    RoundsMore(m, ps, p, max, anchor);
  }

  /** A character is copied: there is no match here, or an empty one just now. */
  lemma CopyRound(m: Subject, ps: seq<Piece>, s: nat, n: nat, max: nat, anchor: bool)
    requires CutUp(m, ps, s, n) && Rounds(m, ps, max, anchor) && n <= max && s < |m.src|
    requires CopiedRight(m, Copied(s))
    requires if ps != [] && EmptyMatch(ps[|ps| - 1]) then ps[|ps| - 1].start == s
      else Between(m, ps, s, n, max, anchor) && n < max && (anchor ==> ps == []) && Nothing(m, 0, s, [])
    ensures Between(m, ps + [Copied(s)], s + 1, n, max, anchor)
  {
    hide First, Nothing, Tiles, FirstAt, CopiedRight, Rounds;
    LastOf(ps, Copied(s));
    AddPiece(m, ps, Copied(s), s, n);
    RoundsMore(m, ps, Copied(s), max, anchor);
  }

  /** The rest is added: no further match is wanted, or there is none. */
  lemma TailRound(m: Subject, ps: seq<Piece>, s: nat, n: nat, max: nat, anchor: bool)
    requires CutUp(m, ps, s, n) && Rounds(m, ps, max, anchor) && s <= |m.src|
    requires if ps != [] && EmptyMatch(ps[|ps| - 1]) then ps[|ps| - 1].start == s == |m.src|
      else Between(m, ps, s, n, max, anchor) && (n == max || (anchor && ps != []) || (s == |m.src| && Nothing(m, 0, s, [])))
    ensures CutUp(m, ps + [Tail(s)], |m.src|, n) && Substitution(m, ps + [Tail(s)], max, anchor)
  {
    hide First, Nothing, Tiles, FirstAt, CopiedRight, Rounds;
    LastOf(ps, Tail(s));
    AddPiece(m, ps, Tail(s), s, n);
    RoundsMore(m, ps, Tail(s), max, anchor);
  }

  /** `str_gsub`, without the replacement values: the subject is cut into pieces
      that cover it once, `n` of them matches, each the first at its place; so
      replacing every match by itself changes nothing. Nothing is skipped: the
      pieces are those of `Substitution`, and those only (`SubstitutionIsOne`). */
  method GSub(src: string, pat: string, max: nat, anchor: bool) returns (ok: bool, ps: seq<Piece>, n: nat)
    ensures ok ==> n <= max && CutUp(Subject(src, pat), ps, |src|, n) && Text(src, ps) == src
    ensures ok ==> Substitution(Subject(src, pat), ps, max, anchor)
    ensures !ok ==> |pat| >= MAXCCALLS || exists s: nat :: s <= |src| && Faulty(Subject(src, pat), s)
  {
    hide First, Nothing;
    var m := Subject(src, pat);
    var ms := new MatchState(m);
    var s := 0;
    ps, n, ok := [], 0, true;
    assert Between(m, ps, 0, 0, max, anchor);
    hide First, Nothing, CutUp, Meets, Between, Rounds, Substitution;
    while n < max
      invariant 0 <= s <= |src| && ms.m == m && ms.Valid() && ms.matchdepth == MAXCCALLS && fresh(ms) && fresh(ms.capture)
      invariant Between(m, ps, s, n, max, anchor) && n <= max && ok && (anchor ==> ps == [])
      decreases |src| - s
    {
      var a := Attempt(ms, s);
      GSubAnswer(m, s, a, ms.Caps());
      if a.Error? { return false, ps, n; }
      var nonempty := false;
      if a.Found? {
        MatchRound(m, ps, s, n, max, anchor, Matched(s, a.e, ms.Caps()));
        n := n + 1;
        ps := ps + [Matched(s, a.e, ms.capture[..ms.level])];
        nonempty := a.e > s;
      }
      if nonempty {
        s := a.e;
      } else if s < |src| {
        CopyRound(m, ps, s, n, max, anchor);
        ps := ps + [Copied(s)];
        s := s + 1;
      } else {
        break;
      }
      if anchor { break; }
    }
    TailRound(m, ps, s, n, max, anchor);
    ps := ps + [Tail(s)];
    CutText(m, ps, n);
  }

  lemma CutText(m: Subject, ps: seq<Piece>, n: nat)
    requires CutUp(m, ps, |m.src|, n)
    ensures Text(m.src, ps) == m.src
  {
    TilesText(m.src, ps, 0, |m.src|);
  }

  /** What an attempt says about the next pieces. */
  lemma GSubAnswer(m: Subject, s: nat, a: Res, caps: seq<Cap>)
    requires Meets(a, m, 0, s, [], caps, MAXCCALLS <= |m.pat|)
    ensures a.Found? ==> s <= a.e && FirstAt(m, Matched(s, a.e, caps)) && (a.e <= s ==> CopiedRight(m, Copied(s)))
    ensures a == Fail ==> CopiedRight(m, Copied(s))
    ensures a.Error? ==> |m.pat| >= MAXCCALLS || Faulty(m, s)
  {
    hide First, Nothing;
    if a.Found? { FoundForward(m, s, a.e, caps); }
    if a.Error? { assert FaultAt(m, s, a.err) || |m.pat| >= MAXCCALLS; }
  }
}
