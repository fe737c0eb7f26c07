/** The matcher of `lstrlib.c`: one `MatchState` whose captures, level and depth
  are changed while matching and put back when a branch fails. */
module MatchHeap {
  import opened MatchModel
  import opened MatchMeaning
  import opened MatchOrder

  datatype Res = Fail | Found(e: nat) | Error(err: Err)

  /** `r` is the first of the results `R`, with the captures that belong to it;
      without any, the captures are what they were. Only where the pattern is
      `deep` may the depth limit have cut the search short. */
  predicate Answers(r: Res, R: seq<Outcome>, c0: seq<Cap>, c1: seq<Cap>, deep: bool) {
    match r
    case Found(e) => R != [] && R[0] == Done(e, c1)
    case Fail => R == [] && c1 == c0
    case Error(err) => (deep && err == TooComplex) || (R != [] && R[0] == Fault(err))
  }

  /** `r` is what the search meets by the order of preference, with the captures that
      belong to it; if that is nothing, the captures are what they were. Only where the
      pattern is `deep` may the depth limit have cut the search short. */
  ghost predicate Meets(r: Res, m: Subject, p: nat, s: nat, c0: seq<Cap>, c1: seq<Cap>, deep: bool) {
    match r
    case Found(e) => First(m, p, s, c0, Done(e, c1))
    case Fail => Nothing(m, p, s, c0) && c1 == c0
    case Error(err) => (deep && err == TooComplex) || First(m, p, s, c0, Fault(err))
  }

  lemma AnswersMeets(r: Res, m: Subject, p: nat, s: nat, c0: seq<Cap>, c1: seq<Cap>, deep: bool)
    requires Answers(r, Results(m, p, s, c0), c0, c1, deep)
    ensures Meets(r, m, p, s, c0, c1, deep)
  {
    hide Results, First, Nothing;
    match r
    case Found(e) => FirstIs(m, p, s, c0, Done(e, c1));
    case Fail => NothingIs(m, p, s, c0);
    case Error(err) => FirstIs(m, p, s, c0, Fault(err));
  }

  lemma {:induction false} DownShift(m: Subject, p: nat, n: nat, s: nat, next: nat, caps: seq<Cap>)
    requires p < next && p < |m.pat| && n >= 1
    ensures Along(m, p, Down(n, 1), s, next, caps) == Along(m, p, Down(n - 1, 0), s + 1, next, caps)
    decreases n
  {
    hide Results;
    assert Down(n, 1)[1..] == if n == 1 then [] else Down(n - 1, 1);
    assert Down(n - 1, 0)[1..] == if n == 1 then [] else Down(n - 2, 0);
    if n > 1 { DownShift(m, p, n - 1, s, next, caps); }
  }

  lemma AlongDown(m: Subject, p: nat, n: nat, s: nat, next: nat, caps: seq<Cap>)
    requires p < next && p < |m.pat|
    ensures Along(m, p, Down(n, 0), s, next, caps) ==
      Results(m, next, s + n, caps) + (if n == 0 then [] else Along(m, p, Down(n - 1, 0), s, next, caps))
  {
    hide Results;
    assert Down(n, 0)[1..] == if n == 0 then [] else Down(n - 1, 0);
  }

  lemma AlongUp(m: Subject, p: nat, k: nat, n: nat, s: nat, next: nat, caps: seq<Cap>)
    requires p < next && p < |m.pat| && k <= n
    ensures Along(m, p, Up(k, n), s, next, caps) == Results(m, next, s + k, caps) + Along(m, p, Up(k + 1, n), s, next, caps)
  {
    hide Results;
    assert Up(k, n)[1..] == Up(k + 1, n);
  }

  lemma AlongOne(m: Subject, p: nat, s: nat, next: nat, caps: seq<Cap>)
    requires p < next && p < |m.pat|
    ensures Along(m, p, [0], s, next, caps) == Results(m, next, s, caps)
    ensures Along(m, p, Down(0, 0), s, next, caps) == Results(m, next, s, caps)
    ensures Along(m, p, Up(0, 0), s, next, caps) == Results(m, next, s, caps)
  {
    hide Results;
    assert Down(0, 0) == [0] && Up(0, 0) == [0] && [0][1..] == [];
  }

  lemma AlongTwo(m: Subject, p: nat, s: nat, next: nat, caps: seq<Cap>)
    requires p < next && p < |m.pat|
    ensures Along(m, p, [1, 0], s, next, caps) == Results(m, next, s + 1, caps) + Results(m, next, s, caps)
  {
    hide Results;
    AlongOne(m, p, s, next, caps);
    assert [1, 0][1..] == [0];
  }

  lemma AlongJust(m: Subject, p: nat, s: nat, next: nat, caps: seq<Cap>)
    requires p < next && p < |m.pat|
    ensures Along(m, p, [1], s, next, caps) == Results(m, next, s + 1, caps)
  {
    hide Results;
    assert [1][1..] == [];
  }

  lemma ItemResults(m: Subject, p: nat, s: nat, caps: seq<Cap>)
    requires IsItem(m, p)
    ensures var ep := ClassEnd(m.pat, p);
      if ep < 0 then Results(m, p, s, caps) == [Fault(ClassError(m.pat, p))]
      else Results(m, p, s, caps) == Along(m, p, Counts(At(m.pat, ep), Run(m.src, s, m.pat, p, ep)), s, AfterItem(m.pat, ep), caps)
  {
  }

  lemma AlongNone(m: Subject, p: nat, k: nat, n: nat, s: nat, next: nat, caps: seq<Cap>)
    requires p < next && p < |m.pat| && k > n
    ensures Along(m, p, Up(k, n), s, next, caps) == []
  {
  }

  lemma RunOnce(m: Subject, s: nat, p: nat, ep: nat)
    requires p < |m.pat| && 0 < ep && Single(m.src, s, m.pat, p, ep)
    ensures Run(m.src, s, m.pat, p, ep) == Run(m.src, s + 1, m.pat, p, ep) + 1
  {
  }

  lemma RunNever(m: Subject, s: nat, p: nat, ep: nat)
    requires p < |m.pat| && 0 < ep && !Single(m.src, s, m.pat, p, ep)
    ensures Run(m.src, s, m.pat, p, ep) == 0
  {
  }

  lemma SingleInside(m: Subject, s: nat, p: nat, ep: nat)
    requires p < |m.pat| && 0 < ep && Single(m.src, s, m.pat, p, ep)
    ensures s < |m.src|
  {
  }

  lemma AlongNever(m: Subject, p: nat, suffix: char, s: nat, ep: nat, caps: seq<Cap>)
    requires p < ep && p < |m.pat| && suffix == At(m.pat, ep) && suffix != '*' && suffix != '?' && suffix != '-'
    ensures Along(m, p, Counts(suffix, 0), s, AfterItem(m.pat, ep), caps) == []
  {
  }

  class MatchState {
    const m: Subject
    var matchdepth: nat
    var level: nat
    const capture: array<Cap>

    ghost predicate Valid()
      reads this
    {
      capture.Length == LUA_MAXCAPTURES && level <= LUA_MAXCAPTURES
    }

    ghost function Caps(): seq<Cap>
      requires Valid()
      reads this, capture
    {
      capture[..level]
    }

    constructor (m: Subject)
      ensures this.m == m && Valid() && fresh(capture) && level == 0 && matchdepth == MAXCCALLS
    {
      this.m := m;
      matchdepth, level := MAXCCALLS, 0;
      capture := new Cap[LUA_MAXCAPTURES](_ => Cap(0, 0));
    }

    // ---- single characters ----

    /** `classend`. */
    method FindClassEnd(p: nat) returns (e: int)
      requires p < |m.pat|
      ensures e == ClassEnd(m.pat, p)
    {
      if m.pat[p] == L_ESC { return if p + 1 == |m.pat| then -1 else p + 2; }
      if m.pat[p] != '[' { return p + 1; }
      var q := if At(m.pat, p + 1) == '^' then p + 2 else p + 1;
      while true
        invariant q > p && ClassEnd(m.pat, p) == BracketEnd(m.pat, q)
        decreases |m.pat| + 1 - q
      {
        if q >= |m.pat| { return -1; }
        var c := m.pat[q];
        q := q + 1;
        if c == L_ESC && q < |m.pat| { q := q + 1; }
        if At(m.pat, q) == ']' { return q + 1; }
      }
    }

    /** `matchbracketclass`. */
    method MatchBracketClass(c: char, p0: nat, ec: nat) returns (b: bool)
      ensures b == InSet(c, m.pat, p0, ec)
    {
      var p, sig := p0, true;
      if At(m.pat, p + 1) == '^' { sig, p := false, p + 1; }
      p := p + 1;
      while p < ec
        invariant InSet(c, m.pat, p0, ec) == (if sig then Member(c, m.pat, p, ec) else !Member(c, m.pat, p, ec))
        decreases ec - p
      {
        if At(m.pat, p) == L_ESC {
          p := p + 1;
          if MatchClass(c, At(m.pat, p)) { return sig; }
        } else if At(m.pat, p + 1) == '-' && p + 2 < ec {
          p := p + 2;
          if At(m.pat, p - 2) <= c <= At(m.pat, p) { return sig; }
        } else if At(m.pat, p) == c {
          return sig;
        }
        p := p + 1;
      }
      return !sig;
    }

    /** `singlematch`. */
    method SingleMatch(s: nat, p: nat, ep: nat) returns (b: bool)
      requires p < |m.pat| && 0 < ep
      ensures b == Single(m.src, s, m.pat, p, ep)
    {
      if s >= |m.src| { return false; }
      var c := m.src[s];
      match m.pat[p]
      case '.' => b := true;
      case '%' => b := MatchClass(c, At(m.pat, p + 1));
      case '[' => b := MatchBracketClass(c, p, ep - 1);
      case _ => b := m.pat[p] == c;
    }

    /** `matchbalance`: `-1` for no match. */
    method MatchBalance(s0: nat, p: nat) returns (e: int)
      requires s0 <= |m.src| && p + 1 < |m.pat|
      ensures e == BalanceEnd(m.src, s0, m.pat[p], m.pat[p + 1])
    {
      if At(m.src, s0) != m.pat[p] { return -1; }
      var b, x, cont, s := m.pat[p], m.pat[p + 1], 1, s0 + 1;
      while s < |m.src|
        invariant s0 < |m.src| ==> s0 < s <= |m.src| && cont == Depth(m.src, s0, s, b, x)
        invariant s0 < |m.src| ==> BalanceFrom(m.src, s0, s0 + 1, b, x) == BalanceFrom(m.src, s0, s, b, x)
      {
        if m.src[s] == x {
          cont := cont - 1;
          if cont == 0 { return s + 1; }
        } else if m.src[s] == b {
          cont := cont + 1;
        }
        s := s + 1;
      }
      return -1;
    }

    /** `capture_to_close`: -1 for the error. */
    method CaptureToClose() returns (l: int)
      requires Valid()
      ensures l == ToClose(Caps(), level)
    {
      l := level - 1;
      while l >= 0
        invariant -1 <= l < level && ToClose(Caps(), level) == ToClose(Caps(), l + 1)
      {
        if capture[l].len == CAP_UNFINISHED { return; }
        l := l - 1;
      }
    }

    // ---- the recursion ----

    /** The results of matching from here. */
    ghost function Here(s: nat, p: nat): seq<Outcome>
      requires Valid()
      reads this, capture
    {
      Results(m, p, s, Caps())
    }

    /** `start_capture`. */
    method StartCapture(s: nat, p: nat, what: int) returns (r: Res)
      requires Valid() && p <= |m.pat| && s <= |m.src|
      modifies this`matchdepth, this`level, capture
      ensures Valid() && (!r.Error? ==> matchdepth == old(matchdepth)) && (r.Found? ==> r.e <= |m.src|)
      ensures old(level) >= LUA_MAXCAPTURES ==> r == Error(TooManyCaptures)
      ensures old(level) < LUA_MAXCAPTURES ==>
        Answers(r, Results(m, p, s, old(Caps()) + [Cap(s, what)]), old(Caps()), Caps(), old(matchdepth) <= |m.pat| - p)
      decreases |m.pat| - p, 9
    {
      hide Meets;
      if level >= LUA_MAXCAPTURES { return Error(TooManyCaptures); }
      ghost var c0 := Caps();
      capture[level] := Cap(s, what);
      level := level + 1;
      assert Caps() == c0 + [Cap(s, what)];
      r := Match(s, p);
      if r == Fail {
        level := level - 1;
        assert Caps() == (c0 + [Cap(s, what)])[..|c0|] == c0;
      }
    }

    /** `end_capture`. */
    method EndCapture(s: nat, p: nat) returns (r: Res)
      requires Valid() && p <= |m.pat| && s <= |m.src|
      modifies this`matchdepth, this`level, capture
      ensures Valid() && (!r.Error? ==> matchdepth == old(matchdepth)) && (r.Found? ==> r.e <= |m.src|)
      ensures var c := old(Caps()); var l := ToClose(c, |c|);
        if l < 0 then r == Error(BadClose)
        else Answers(r, Results(m, p, s, c[l := Cap(c[l].init, s - c[l].init)]), c, Caps(), old(matchdepth) <= |m.pat| - p)
      decreases |m.pat| - p, 9
    {
      hide Meets;
      ghost var c0 := Caps();
      var l := CaptureToClose();
      if l < 0 { return Error(BadClose); }
      capture[l] := Cap(capture[l].init, s - capture[l].init);
      ghost var c1 := Caps();
      assert c1 == c0[l := Cap(c0[l].init, s - c0[l].init)];
      r := Match(s, p);
      if r == Fail {
        assert capture[l] == c1[l] && level == |c1|;
        capture[l] := Cap(capture[l].init, CAP_UNFINISHED);
        assert Caps() == c1[l := Cap(c1[l].init, CAP_UNFINISHED)] == c0;
      }
    }

    /** `max_expand`: the longest run first, then shorter ones. */
    method MaxExpand(s: nat, p: nat, ep: nat) returns (r: Res)
      requires Valid() && p < |m.pat| && p < ep < |m.pat| && s <= |m.src|
      modifies this`matchdepth, this`level, capture
      ensures Valid() && (!r.Error? ==> matchdepth == old(matchdepth)) && (r.Found? ==> r.e <= |m.src|)
      ensures Answers(r, Along(m, p, Down(Run(m.src, s, m.pat, p, ep), 0), s, ep + 1, old(Caps())), old(Caps()), Caps(), old(matchdepth) < |m.pat| - p)
      decreases |m.pat| - p, 4
    {
      hide Results, Run, Single, Along, Down, Up, Counts, First, Nothing, Meets;
      ghost var c0, n := Caps(), Run(m.src, s, m.pat, p, ep);
      ghost var R := Along(m, p, Down(n, 0), s, ep + 1, c0);
      var i := CountRun(s, p, ep);
      while true
        invariant 0 <= i && Valid() && matchdepth == old(matchdepth) && Caps() == c0 && s + i <= |m.src|
        invariant R == Along(m, p, Down(i, 0), s, ep + 1, c0)
        decreases i
      {
        AlongDown(m, p, i, s, ep + 1, c0);
        r := Match(s + i, ep + 1);
        if r != Fail || i == 0 { return; }
        i := i - 1;
      }
    }

    method CountRun(s: nat, p: nat, ep: nat) returns (i: nat)
      requires p < |m.pat| && 0 < ep && s <= |m.src|
      ensures i == Run(m.src, s, m.pat, p, ep) && s + i <= |m.src|
    {
      i := 0;
      var b := SingleMatch(s + i, p, ep);
      while b
        invariant s + i <= |m.src| && b == Single(m.src, s + i, m.pat, p, ep)
        invariant i + Run(m.src, s + i, m.pat, p, ep) == Run(m.src, s, m.pat, p, ep)
        decreases |m.src| - (s + i)
      {
        i := i + 1;
        b := SingleMatch(s + i, p, ep);
      }
    }

    /** `min_expand`: no repetition first, then one more each time. */
    method MinExpand(s0: nat, p: nat, ep: nat) returns (r: Res)
      requires Valid() && p < |m.pat| && p < ep < |m.pat| && s0 <= |m.src|
      modifies this`matchdepth, this`level, capture
      ensures Valid() && (!r.Error? ==> matchdepth == old(matchdepth)) && (r.Found? ==> r.e <= |m.src|)
      ensures Answers(r, Along(m, p, Up(0, Run(m.src, s0, m.pat, p, ep)), s0, ep + 1, old(Caps())), old(Caps()), Caps(), old(matchdepth) < |m.pat| - p)
      decreases |m.pat| - p, 4
    {
      hide Results, Single, Along, Up, Meets;
      ghost var c0, n := Caps(), Run(m.src, s0, m.pat, p, ep);
      ghost var R := Along(m, p, Up(0, n), s0, ep + 1, c0);
      var s := s0;
      while true
        invariant s0 <= s <= |m.src| && Valid() && matchdepth == old(matchdepth) && Caps() == c0
        invariant s - s0 <= n && n == s - s0 + Run(m.src, s, m.pat, p, ep)
        invariant R == Along(m, p, Up(s - s0, n), s0, ep + 1, c0)
        decreases |m.src| - s
      {
        AlongUp(m, p, s - s0, n, s0, ep + 1, c0);
        r := Match(s, ep + 1);
        if r != Fail { return; }
        var b := SingleMatch(s, p, ep);
        if !b {
          AlongNone(m, p, s - s0 + 1, n, s0, ep + 1, c0);
          return Fail;
        }
        s := s + 1;
      }
    }

    /** What an item of `match` is to find, its class ending at `ep`. */
    ghost function ItemGoal(s: nat, p: nat, ep: nat, c0: seq<Cap>): seq<Outcome>
      requires p < ep <= |m.pat|
    {
      Along(m, p, Counts(At(m.pat, ep), Run(m.src, s, m.pat, p, ep)), s, AfterItem(m.pat, ep), c0)
    }

    /** The default case of `match`, when the class matches at least once. */
    method StepOnce(s: nat, p: nat, ep: nat) returns (done: bool, r: Res, s1: nat, p1: nat)
      requires Valid() && p < ep <= |m.pat| && s < |m.src| && Single(m.src, s, m.pat, p, ep)
      modifies this`matchdepth, this`level, capture
      ensures Valid() && (!r.Error? ==> matchdepth == old(matchdepth)) && (r.Found? ==> r.e <= |m.src|)
      ensures done ==> Answers(r, ItemGoal(s, p, ep, old(Caps())), old(Caps()), Caps(), old(matchdepth) < |m.pat| - p)
      ensures !done ==> r == Fail && Caps() == old(Caps()) && p < p1 && Results(m, p1, s1, old(Caps())) == ItemGoal(s, p, ep, old(Caps()))
      ensures p <= p1 <= |m.pat| && s1 <= |m.src|
      decreases |m.pat| - p, 5
    {
      hide Results, Along, Single, Down, Up, Meets;
      ghost var c0 := Caps();
      r, s1, p1, done := Fail, s, p, true;
      RunOnce(m, s, p, ep);
      var suffix := At(m.pat, ep);
      if suffix == '?' {
        AlongTwo(m, p, s, ep + 1, c0);
        r := Match(s + 1, ep + 1);
        if r == Fail { done, p1 := false, ep + 1; }
      } else if suffix == '+' {
        DownShift(m, p, Run(m.src, s, m.pat, p, ep), s, ep + 1, c0);
        r := MaxExpand(s + 1, p, ep);
      } else if suffix == '*' {
        r := MaxExpand(s, p, ep);
      } else if suffix == '-' {
        r := MinExpand(s, p, ep);
      } else {
        AlongJust(m, p, s, ep, c0);
        done, s1, p1 := false, s + 1, ep;
      }
    }

    /** The default case of `match`. */
    method StepItem(s: nat, p: nat) returns (done: bool, r: Res, s1: nat, p1: nat)
      requires Valid() && IsItem(m, p) && s <= |m.src|
      modifies this`matchdepth, this`level, capture
      ensures Valid() && (!r.Error? ==> matchdepth == old(matchdepth)) && (r.Found? ==> r.e <= |m.src|)
      ensures done ==> Answers(r, Results(m, p, s, old(Caps())), old(Caps()), Caps(), old(matchdepth) < |m.pat| - p)
      ensures !done ==> r == Fail && Continues(s, p, s1, p1, old(Caps()))
      ensures p <= p1 <= |m.pat| && s1 <= |m.src|
      decreases |m.pat| - p, 6
    {
      hide Results, Along, Single, Run, Down, Up, Meets;
      ghost var c0 := Caps();
      var ep := FindClassEnd(p);
      ItemResults(m, p, s, c0);
      if ep < 0 { return true, Error(ClassError(m.pat, p)), s, p; }
      var once := SingleMatch(s, p, ep);
      if !once {
        RunNever(m, s, p, ep);
        var suffix := At(m.pat, ep);
        if suffix == '*' || suffix == '?' || suffix == '-' {
          AlongOne(m, p, s, ep + 1, c0);
          return false, Fail, s, ep + 1;
        }
        AlongNever(m, p, suffix, s, ep, c0);
        return true, Fail, s, p;
      }
      SingleInside(m, s, p, ep);
      done, r, s1, p1 := StepOnce(s, p, ep);
    }

    /** Matching goes on at `s1` and `p1` with the same results. */
    ghost predicate Continues(s: nat, p: nat, s1: nat, p1: nat, c0: seq<Cap>)
      requires Valid()
      reads this, capture
    {
      Caps() == c0 && p < p1 <= |m.pat| && s1 <= |m.src| && Results(m, p1, s1, c0) == Results(m, p, s, c0)
    }

    /** `%b` */
    method StepBalance(s: nat, p: nat) returns (done: bool, r: Res, s1: nat, p1: nat)
      requires Valid() && p < |m.pat| && m.pat[p] == L_ESC && At(m.pat, p + 1) == 'b' && s <= |m.src|
      ensures done ==> Answers(r, Here(s, p), Caps(), Caps(), false) && !r.Found?
      ensures !done ==> r == Fail && Continues(s, p, s1, p1, Caps())
      ensures p <= p1 <= |m.pat| && s1 <= |m.src|
    {
      if p + 3 >= |m.pat| { return true, Error(MissingBalance), s, p; }
      var e := MatchBalance(s, p + 2);
      if e < 0 { return true, Fail, s, p; }
      return false, Fail, e, p + 4;
    }

    /** `%f` */
    method StepFrontier(s: nat, p: nat) returns (done: bool, r: Res, s1: nat, p1: nat)
      requires Valid() && p < |m.pat| && m.pat[p] == L_ESC && At(m.pat, p + 1) == 'f' && s <= |m.src|
      ensures done ==> Answers(r, Here(s, p), Caps(), Caps(), false) && !r.Found?
      ensures !done ==> r == Fail && Continues(s, p, s1, p1, Caps())
      ensures p <= p1 <= |m.pat| && s1 <= |m.src|
    {
      if At(m.pat, p + 2) != '[' { return true, Error(MissingFrontier), s, p; }
      var ep := FindClassEnd(p + 2);
      if ep < 0 { return true, Error(MissingBracket), s, p; }
      var previous := if s == 0 then '\0' else At(m.src, s - 1);
      var before := MatchBracketClass(previous, p + 2, ep - 1);
      var after := MatchBracketClass(At(m.src, s), p + 2, ep - 1);
      if !before && after { return false, Fail, s, ep; }
      return true, Fail, s, p;
    }

    /** The escapes that are not classes. */
    method StepEscape(s: nat, p: nat) returns (done: bool, r: Res, s1: nat, p1: nat)
      requires Valid() && p < |m.pat| && m.pat[p] == L_ESC && !IsItem(m, p) && s <= |m.src|
      ensures done ==> Answers(r, Here(s, p), Caps(), Caps(), false) && !r.Found?
      ensures !done ==> r == Fail && Continues(s, p, s1, p1, Caps())
      ensures p <= p1 <= |m.pat| && s1 <= |m.src|
    {
      r, s1, p1 := Fail, s, p;
      var c := At(m.pat, p + 1);
      if c == 'b' {
        done, r, s1, p1 := StepBalance(s, p);
      } else if c == 'f' {
        done, r, s1, p1 := StepFrontier(s, p);
      } else {
        var l := CaptureIndex(capture[..level], c);
        if l < 0 { return true, Error(BadIndex), s, p; }
        if Repeats(m.src, s, capture[l]) { return false, Fail, s + capture[l].len, p + 2; }
        return true, Fail, s, p;
      }
    }

    /** One turn of `match`: an answer, or another place to go on from. */
    method Step(s: nat, p: nat) returns (done: bool, r: Res, s1: nat, p1: nat)
      requires Valid() && p < |m.pat| && s <= |m.src|
      modifies this`matchdepth, this`level, capture
      ensures Valid() && (!r.Error? ==> matchdepth == old(matchdepth)) && (r.Found? ==> r.e <= |m.src|)
      ensures done ==> Answers(r, Results(m, p, s, old(Caps())), old(Caps()), Caps(), old(matchdepth) < |m.pat| - p)
      ensures !done ==> r == Fail && Continues(s, p, s1, p1, old(Caps()))
      ensures p <= p1 <= |m.pat| && s1 <= |m.src|
      decreases |m.pat| - p, 7
    {
      hide Meets;
      s1, p1 := s, p;
      if m.pat[p] == '(' {
        done := true;
        if At(m.pat, p + 1) == ')' {
          r := StartCapture(s, p + 2, CAP_POSITION);
        } else {
          r := StartCapture(s, p + 1, CAP_UNFINISHED);
        }
      } else if m.pat[p] == ')' {
        done := true;
        r := EndCapture(s, p + 1);
      } else if m.pat[p] == '$' && p + 1 == |m.pat| {
        done := true;
        r := if s == |m.src| then Found(s) else Fail;
      } else if IsItem(m, p) {
        done, r, s1, p1 := StepItem(s, p);
      } else {
        done, r, s1, p1 := StepEscape(s, p);
      }
    }

    /** `match`: the first result there is, by the order of preference (`Meets`); none
        is left out. The depth is put back on every return, level and captures on every
        failure. */
    method Match(s0: nat, p0: nat) returns (r: Res)
      requires Valid() && p0 <= |m.pat| && s0 <= |m.src|
      modifies this`matchdepth, this`level, capture
      ensures Valid() && (!r.Error? ==> matchdepth == old(matchdepth)) && (r.Found? ==> r.e <= |m.src|)
      ensures Answers(r, Results(m, p0, s0, old(Caps())), old(Caps()), Caps(), old(matchdepth) <= |m.pat| - p0)
      ensures Meets(r, m, p0, s0, old(Caps()), Caps(), old(matchdepth) <= |m.pat| - p0)
      decreases |m.pat| - p0, 8
    {
      hide First, Nothing;
      if matchdepth == 0 { return Error(TooComplex); }
      matchdepth := matchdepth - 1;
      ghost var c0 := Caps();
      ghost var R := Results(m, p0, s0, c0);
      var s: nat, p: nat, done := s0, p0, false;
      r := Fail;
      while !done && p != |m.pat|
        invariant p0 <= p <= |m.pat| && s <= |m.src| && Valid() && (r.Found? ==> r.e <= |m.src|)
        invariant !r.Error? ==> matchdepth == old(matchdepth) - 1
        invariant done ==> Answers(r, R, c0, Caps(), old(matchdepth) <= |m.pat| - p0)
        invariant !done ==> r == Fail && Caps() == c0 && Results(m, p, s, c0) == R
        decreases !done, |m.pat| - p
      {
        hide Results;
        done, r, s, p := Step(s, p);
      }
      if !done { r := Found(s); }
      if !r.Error? { matchdepth := matchdepth + 1; }
      AnswersMeets(r, m, p0, s0, c0, Caps(), old(matchdepth) <= |m.pat| - p0);
    }
  }
}
