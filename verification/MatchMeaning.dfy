/** The meaning of a pattern without any order of trial: a relation between the
  places where a match begins and ends and the captures before and after. */
module MatchMeaning {
  import opened MatchModel

  /** How often an item may match, by its suffix. */
  predicate Allowed(suffix: char, k: nat) {
    if suffix == '*' || suffix == '-' then true
    else if suffix == '+' then k >= 1
    else if suffix == '?' then k <= 1
    else k == 1
  }

  predicate AllSingle(m: Subject, p: nat, ep: nat, s: nat, k: nat)
    requires p < |m.pat| && 0 < ep
  {
    forall i: nat | s <= i < s + k :: Single(m.src, i, m.pat, p, ep)
  }

  /** The pattern from `p` on takes the subject from `s` to `e`. */
  ghost predicate Derives(m: Subject, p: nat, s: nat, caps: seq<Cap>, e: nat, out: seq<Cap>)
    decreases |m.pat| - p
  {
    if p >= |m.pat| then s == e && caps == out
    else if m.pat[p] == '(' then
      var position := At(m.pat, p + 1) == ')';
      |caps| < LUA_MAXCAPTURES
      && Derives(m, if position then p + 2 else p + 1, s, caps + [Cap(s, if position then CAP_POSITION else CAP_UNFINISHED)], e, out)
    else if m.pat[p] == ')' then
      exists l: nat :: Innermost(caps, l) && Derives(m, p + 1, s, caps[l := Cap(caps[l].init, s - caps[l].init)], e, out)
    else if m.pat[p] == '$' && p + 1 == |m.pat| then
      s == |m.src| && s == e && caps == out
    else if m.pat[p] == L_ESC && At(m.pat, p + 1) == 'b' then
      exists k: nat :: DerivesBalance(m, p, s, k) && Derives(m, p + 4, k, caps, e, out)
    else if m.pat[p] == L_ESC && At(m.pat, p + 1) == 'f' then
      At(m.pat, p + 2) == '[' && ClassEnd(m.pat, p + 2) >= 0
      && Frontier(m, p + 2, ClassEnd(m.pat, p + 2), s) && Derives(m, ClassEnd(m.pat, p + 2), s, caps, e, out)
    else if m.pat[p] == L_ESC && IsDigit(At(m.pat, p + 1)) then
      var l := CaptureIndex(caps, m.pat[p + 1]);
      l >= 0 && Repeats(m.src, s, caps[l]) && Derives(m, p + 2, s + caps[l].len, caps, e, out)
    else
      ClassEnd(m.pat, p) >= 0
      && exists k: nat :: DerivesItem(m, p, ClassEnd(m.pat, p), s, k)
           && Derives(m, AfterItem(m.pat, ClassEnd(m.pat, p)), s + k, caps, e, out)
  }

  /** A balanced piece, its delimiters being arguments of the `%b` at `p`. */
  predicate DerivesBalance(m: Subject, p: nat, s: nat, k: nat) {
    p + 3 < |m.pat| && Balances(m.src, s, k, m.pat[p + 2], m.pat[p + 3])
  }

  predicate DerivesItem(m: Subject, p: nat, ep: nat, s: nat, k: nat)
    requires p < |m.pat| && 0 < ep
  {
    Allowed(At(m.pat, ep), k) && AllSingle(m, p, ep, s, k)
  }

  /** The innermost open capture. */
  predicate Innermost(caps: seq<Cap>, l: nat) {
    l < |caps| && caps[l].len == CAP_UNFINISHED && forall i | l < i < |caps| :: caps[i].len != CAP_UNFINISHED
  }

  // ---- the pieces ----

  lemma {:induction false} ToCloseIs(caps: seq<Cap>, n: nat)
    requires n <= |caps|
    ensures forall i | ToClose(caps, n) < i < n && i >= 0 :: caps[i].len != CAP_UNFINISHED
  {
    if n > 0 && caps[n - 1].len != CAP_UNFINISHED { ToCloseIs(caps, n - 1); }
  }

  /** `capture_to_close` finds the innermost open capture, if there is one. */
  lemma ToCloseInnermost(caps: seq<Cap>, l: nat)
    ensures Innermost(caps, l) <==> ToClose(caps, |caps|) == l
  {
    ToCloseIs(caps, |caps|);
  }

  /** `BalanceFrom` stops at the first place where the depth is zero. */
  lemma {:induction false} BalanceFromIs(src: string, s: nat, k: nat, b: char, e: char)
    requires s < k <= |src| && src[s] == b && forall i | s < i <= k :: Depth(src, s, i, b, e) > 0
    ensures var r := BalanceFrom(src, s, k, b, e);
      if r < 0 then forall i | s < i <= |src| :: Depth(src, s, i, b, e) > 0 else Balances(src, s, r, b, e)
    decreases |src| - k
  {
    if k < |src| && Depth(src, s, k + 1, b, e) != 0 {
      assert Depth(src, s, k + 1, b, e) > 0;
      BalanceFromIs(src, s, k + 1, b, e);
    }
  }

  lemma BalanceEndIs(src: string, s: nat, b: char, e: char, k: nat)
    ensures Balances(src, s, k, b, e) <==> BalanceEnd(src, s, b, e) == k
  {
    if s < |src| && src[s] == b {
      BalanceFromIs(src, s, s + 1, b, e);
      var r := BalanceFrom(src, s, s + 1, b, e);
    }
  }

  /** `Run` is the longest run. */
  lemma {:induction false} RunIs(m: Subject, p: nat, ep: nat, s: nat, k: nat)
    requires p < |m.pat| && 0 < ep
    ensures AllSingle(m, p, ep, s, k) <==> k <= Run(m.src, s, m.pat, p, ep)
    decreases |m.src| - s, k
  {
    if k > 0 && Single(m.src, s, m.pat, p, ep) { RunIs(m, p, ep, s + 1, k - 1); }
  }

  lemma {:induction false} DownHas(n: nat, low: nat, k: nat)
    ensures k in Down(n, low) <==> low <= k <= n
  {
    if n < low {
      assert Down(n, low) == [];
    } else if n == 0 {
      assert Down(n, low) == [0];
    } else {
      DownHas(n - 1, low, k);
      assert Down(n, low) == [n] + Down(n - 1, low);
      assert k in Down(n, low) <==> k == n || k in Down(n - 1, low);
    }
  }

  lemma {:induction false} UpHas(j: nat, n: nat, k: nat)
    ensures k in Up(j, n) <==> j <= k <= n
    decreases n + 1 - j
  {
    if j <= n { UpHas(j + 1, n, k); }
  }

  /** The counts that are tried are those allowed and possible. */
  lemma CountsAre(suffix: char, n: nat, k: nat)
    ensures k in Counts(suffix, n) <==> Allowed(suffix, k) && k <= n
  {
    DownHas(n, 0, k);
    DownHas(n, 1, k);
    UpHas(0, n, k);
  }

  // ---- every derivation is tried, and nothing else ----

  lemma {:induction false} AlongHas(m: Subject, p: nat, cs: seq<nat>, s: nat, next: nat, caps: seq<Cap>, x: Outcome)
    requires p < next && p < |m.pat|
    ensures x in Along(m, p, cs, s, next, caps) <==> exists k: nat :: k in cs && x in Results(m, next, s + k, caps)
    decreases |cs|
  {
    hide Results;
    if cs != [] {
      AlongHas(m, p, cs[1..], s, next, caps, x);
      forall k: nat ensures k in cs <==> k == cs[0] || k in cs[1..] {}
      if x in Results(m, next, s + cs[0], caps) { assert cs[0] in cs; }
    }
  }

  lemma {:induction false} ResultsAreDerivations(m: Subject, p: nat, s: nat, caps: seq<Cap>, e: nat, out: seq<Cap>)
    ensures Done(e, out) in Results(m, p, s, caps) <==> Derives(m, p, s, caps, e, out)
    decreases |m.pat| - p
  {
    if p >= |m.pat| {
    } else if m.pat[p] == '(' {
      var position := At(m.pat, p + 1) == ')';
      ResultsAreDerivations(m, if position then p + 2 else p + 1, s, caps + [Cap(s, if position then CAP_POSITION else CAP_UNFINISHED)], e, out);
    } else if m.pat[p] == ')' {
      CloseDerives(m, p, s, caps, e, out);
    } else if m.pat[p] == '$' && p + 1 == |m.pat| {
    } else if m.pat[p] == L_ESC && At(m.pat, p + 1) == 'b' {
      if p + 3 < |m.pat| { BalanceDerives(m, p, s, caps, e, out); }
    } else if m.pat[p] == L_ESC && At(m.pat, p + 1) == 'f' {
      if At(m.pat, p + 2) == '[' && ClassEnd(m.pat, p + 2) >= 0 { ResultsAreDerivations(m, ClassEnd(m.pat, p + 2), s, caps, e, out); }
    } else if m.pat[p] == L_ESC && IsDigit(At(m.pat, p + 1)) {
      var l := CaptureIndex(caps, m.pat[p + 1]);
      if l >= 0 && Repeats(m.src, s, caps[l]) { ResultsAreDerivations(m, p + 2, s + caps[l].len, caps, e, out); }
    } else if ClassEnd(m.pat, p) >= 0 {
      ItemDerives(m, p, s, caps, e, out);
    }
  }

  lemma {:induction false} CloseDerives(m: Subject, p: nat, s: nat, caps: seq<Cap>, e: nat, out: seq<Cap>)
    requires p < |m.pat| && m.pat[p] == ')'
    ensures Done(e, out) in Results(m, p, s, caps) <==> Derives(m, p, s, caps, e, out)
    decreases |m.pat| - p, 0
  {
    var l := ToClose(caps, |caps|);
    if l >= 0 {
      ToCloseInnermost(caps, l);
      ResultsAreDerivations(m, p + 1, s, caps[l := Cap(caps[l].init, s - caps[l].init)], e, out);
    }
    forall i: nat ensures Innermost(caps, i) <==> l == i { ToCloseInnermost(caps, i); }
  }

  lemma {:induction false} BalanceDerives(m: Subject, p: nat, s: nat, caps: seq<Cap>, e: nat, out: seq<Cap>)
    requires p + 3 < |m.pat| && m.pat[p] == L_ESC && m.pat[p + 1] == 'b'
    ensures Done(e, out) in Results(m, p, s, caps) <==> Derives(m, p, s, caps, e, out)
    decreases |m.pat| - p, 0
  {
    var b, x := m.pat[p + 2], m.pat[p + 3];
    var r := BalanceEnd(m.src, s, b, x);
    if r >= 0 { ResultsAreDerivations(m, p + 4, r, caps, e, out); }
    forall k: nat ensures DerivesBalance(m, p, s, k) <==> r == k { BalanceEndIs(m.src, s, b, x, k); }
    assert At(m.pat, p + 1) == 'b';
    if r >= 0 {
      assert DerivesBalance(m, p, s, r);
      assert Results(m, p, s, caps) == Results(m, p + 4, r, caps);
    }
    assert Derives(m, p, s, caps, e, out) <==> exists k: nat :: DerivesBalance(m, p, s, k) && Derives(m, p + 4, k, caps, e, out);
  }

  /** The last case of `match`: a class with an optional suffix. */
  predicate IsItem(m: Subject, p: nat) {
    p < |m.pat| && m.pat[p] != '(' && m.pat[p] != ')' && !(m.pat[p] == '$' && p + 1 == |m.pat|)
    && !(m.pat[p] == L_ESC && (At(m.pat, p + 1) == 'b' || At(m.pat, p + 1) == 'f' || IsDigit(At(m.pat, p + 1))))
  }

  lemma {:induction false} ItemDerives(m: Subject, p: nat, s: nat, caps: seq<Cap>, e: nat, out: seq<Cap>)
    requires IsItem(m, p) && ClassEnd(m.pat, p) >= 0
    ensures Done(e, out) in Results(m, p, s, caps) <==> Derives(m, p, s, caps, e, out)
    decreases |m.pat| - p, 0
  {
    var ep := ClassEnd(m.pat, p);
    var next := AfterItem(m.pat, ep);
    var n := Run(m.src, s, m.pat, p, ep);
    var cs := Counts(At(m.pat, ep), n);
    assert Results(m, p, s, caps) == Along(m, p, cs, s, next, caps);
    AlongHas(m, p, cs, s, next, caps, Done(e, out));
    forall k: nat
      ensures k in cs <==> DerivesItem(m, p, ep, s, k)
      ensures Done(e, out) in Results(m, next, s + k, caps) <==> Derives(m, next, s + k, caps, e, out)
    {
      CountsAre(At(m.pat, ep), n, k);
      RunIs(m, p, ep, s, k);
      ResultsAreDerivations(m, next, s + k, caps, e, out);
    }
  }
}
