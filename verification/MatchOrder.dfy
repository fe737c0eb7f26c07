/** Which match is the one found: at every item the pattern takes the longest
  repetition (with `-` the shortest) after which the rest finds something, as
  section 6.4.1 of the Lua 5.3 manual says. No list of results is mentioned. */
module MatchOrder {
  import opened MatchModel
  import opened MatchMeaning

  /** `j` repetitions are preferred to `k`. */
  predicate Preferred(suffix: char, j: nat, k: nat) {
    if suffix == '-' then j < k else j > k
  }

  /** The search that goes on with the pattern from `p` at `s` ends with `x`, a match
      or an error of the pattern. */
  ghost predicate First(m: Subject, p: nat, s: nat, caps: seq<Cap>, x: Outcome)
    decreases |m.pat| - p, 1
  {
    if p >= |m.pat| then x == Done(s, caps)
    else if m.pat[p] == '(' then
      var position := At(m.pat, p + 1) == ')';
      if |caps| >= LUA_MAXCAPTURES then x == Fault(TooManyCaptures)
      else First(m, if position then p + 2 else p + 1, s, caps + [Cap(s, if position then CAP_POSITION else CAP_UNFINISHED)], x)
    else if m.pat[p] == ')' then
      if !(exists l: nat :: Innermost(caps, l)) then x == Fault(BadClose)
      else exists l: nat :: Innermost(caps, l) && First(m, p + 1, s, caps[l := Cap(caps[l].init, s - caps[l].init)], x)
    else if m.pat[p] == '$' && p + 1 == |m.pat| then
      s == |m.src| && x == Done(s, caps)
    else if m.pat[p] == L_ESC && At(m.pat, p + 1) == 'b' then
      if p + 3 >= |m.pat| then x == Fault(MissingBalance)
      else exists k: nat :: DerivesBalance(m, p, s, k) && First(m, p + 4, k, caps, x)
    else if m.pat[p] == L_ESC && At(m.pat, p + 1) == 'f' then
      if At(m.pat, p + 2) != '[' then x == Fault(MissingFrontier)
      else if ClassEnd(m.pat, p + 2) < 0 then x == Fault(MissingBracket)
      else Frontier(m, p + 2, ClassEnd(m.pat, p + 2), s) && First(m, ClassEnd(m.pat, p + 2), s, caps, x)
    else if m.pat[p] == L_ESC && IsDigit(At(m.pat, p + 1)) then
      var l := CaptureIndex(caps, m.pat[p + 1]);
      if l < 0 then x == Fault(BadIndex)
      else Repeats(m.src, s, caps[l]) && First(m, p + 2, s + caps[l].len, caps, x)
    else
      var ep := ClassEnd(m.pat, p);
      if ep < 0 then x == Fault(ClassError(m.pat, p))
      else exists k: nat :: Picks(m, p, ep, s, caps, k, x)
  }

  /** An item that ends at `ep` is repeated `k` times, and nothing comes of any count
      that is preferred. */
  ghost predicate Picks(m: Subject, p: nat, ep: nat, s: nat, caps: seq<Cap>, k: nat, x: Outcome)
    requires p < |m.pat| && p < ep
    decreases |m.pat| - p, 0
  {
    && DerivesItem(m, p, ep, s, k) && First(m, AfterItem(m.pat, ep), s + k, caps, x)
    && forall j: nat | DerivesItem(m, p, ep, s, j) && Preferred(At(m.pat, ep), j, k) :: Nothing(m, AfterItem(m.pat, ep), s + j, caps)
  }

  /** The search finds nothing and meets no error. */
  ghost predicate Nothing(m: Subject, p: nat, s: nat, caps: seq<Cap>)
    decreases |m.pat| - p, 2
  {
    forall x :: !First(m, p, s, caps, x)
  }

  // ---- the counts come in the order of preference ----

  lemma DownIs(n: nat, low: nat)
    requires low <= n
    ensures Down(n, low) == [n] + if n == 0 then [] else Down(n - 1, low)
  {
  }

  lemma {:induction false} DownFalls(n: nat, low: nat, i: nat, j: nat)
    requires i < j < |Down(n, low)|
    ensures Down(n, low)[i] > Down(n, low)[j]
    decreases n
  {
    hide Down;
    var d := Down(n, low);
    if n < low || n == 0 { DownShort(n, low); assert false; }
    DownIs(n, low);
    var e := Down(n - 1, low);
    assert d[j] == e[j - 1];
    if i > 0 {
      assert d[i] == e[i - 1];
      DownFalls(n - 1, low, i - 1, j - 1);
    } else {
      assert e[j - 1] in e;
      DownHas(n - 1, low, e[j - 1]);
    }
  }

  lemma DownShort(n: nat, low: nat)
    requires n < low || n == 0
    ensures |Down(n, low)| <= 1
  {
  }

  lemma {:induction false} UpRises(k: nat, n: nat, i: nat, j: nat)
    requires i < j < |Up(k, n)|
    ensures Up(k, n)[i] < Up(k, n)[j]
    decreases n + 1 - k
  {
    var u := Up(k, n);
    UpHas(k + 1, n, u[j]);
    assert u == [k] + Up(k + 1, n);
    assert u[j] == Up(k + 1, n)[j - 1];
    assert u[j] in Up(k + 1, n);
    if i > 0 { UpRises(k + 1, n, i - 1, j - 1); }
  }

  lemma CountsOrder(suffix: char, n: nat, i: nat, j: nat)
    requires i < j < |Counts(suffix, n)|
    ensures Preferred(suffix, Counts(suffix, n)[i], Counts(suffix, n)[j])
  {
    if suffix == '*' { DownFalls(n, 0, i, j); }
    else if suffix == '+' { DownFalls(n, 1, i, j); }
    else if suffix == '-' { UpRises(0, n, i, j); }
  }

  // ---- the first result ----

  predicate Leads(R: seq<Outcome>, x: Outcome) { R != [] && R[0] == x }

  /** At the `i`-th count comes the first result. */
  predicate LeadsAt(m: Subject, cs: seq<nat>, s: nat, next: nat, caps: seq<Cap>, i: nat, x: Outcome) {
    && i < |cs| && Leads(Results(m, next, s + cs[i], caps), x)
    && forall j | 0 <= j < i :: Results(m, next, s + cs[j], caps) == []
  }

  lemma LeadsLater(m: Subject, cs: seq<nat>, s: nat, next: nat, caps: seq<Cap>, i: nat, x: Outcome)
    requires cs != [] && Results(m, next, s + cs[0], caps) == []
    ensures LeadsAt(m, cs[1..], s, next, caps, i, x) <==> LeadsAt(m, cs, s, next, caps, i + 1, x)
    ensures !LeadsAt(m, cs, s, next, caps, 0, x)
  {
    hide Results;
    var ds := cs[1..];
    if LeadsAt(m, ds, s, next, caps, i, x) {
      forall j | 0 <= j < i + 1 ensures Results(m, next, s + cs[j], caps) == [] { if j > 0 { assert cs[j] == ds[j - 1]; } }
    }
    if LeadsAt(m, cs, s, next, caps, i + 1, x) {
      forall j | 0 <= j < i ensures Results(m, next, s + ds[j], caps) == [] { assert ds[j] == cs[j + 1]; }
    }
  }

  /** The first count after which there is a result decides. */
  lemma {:induction false} AlongLeads(m: Subject, p: nat, cs: seq<nat>, s: nat, next: nat, caps: seq<Cap>, x: Outcome)
    requires p < next && p < |m.pat|
    ensures Leads(Along(m, p, cs, s, next, caps), x) <==> exists i: nat :: LeadsAt(m, cs, s, next, caps, i, x)
    decreases |cs|
  {
    hide Results, LeadsAt;
    if cs == [] {
      forall i: nat ensures !LeadsAt(m, cs, s, next, caps, i, x) { NoneIn(m, s, next, caps, i, x); }
    } else if Results(m, next, s + cs[0], caps) == [] {
      AlongLeads(m, p, cs[1..], s, next, caps, x);
      forall i: nat ensures LeadsAt(m, cs[1..], s, next, caps, i, x) <==> LeadsAt(m, cs, s, next, caps, i + 1, x) {
        LeadsLater(m, cs, s, next, caps, i, x);
      }
      if i: nat :| LeadsAt(m, cs, s, next, caps, i, x) {
        LeadsLater(m, cs, s, next, caps, 0, x);
        assert LeadsAt(m, cs[1..], s, next, caps, i - 1, x);
      }
    } else {
      forall i: nat ensures LeadsAt(m, cs, s, next, caps, i, x) ==> i == 0 && Leads(Results(m, next, s + cs[0], caps), x) {
        OnlyFirst(m, cs, s, next, caps, i, x);
      }
      OnlyFirst(m, cs, s, next, caps, 0, x);
    }
  }

  lemma NoneIn(m: Subject, s: nat, next: nat, caps: seq<Cap>, i: nat, x: Outcome)
    ensures !LeadsAt(m, [], s, next, caps, i, x)
  {
  }

  lemma OnlyFirst(m: Subject, cs: seq<nat>, s: nat, next: nat, caps: seq<Cap>, i: nat, x: Outcome)
    requires cs != [] && Results(m, next, s + cs[0], caps) != []
    ensures LeadsAt(m, cs, s, next, caps, i, x) <==> i == 0 && Leads(Results(m, next, s + cs[0], caps), x)
  {
    hide Results;
  }

  /** Of the counts after which there is a result, `k` is the preferred one, and `x`
      is the first result there. */
  ghost predicate Decides(m: Subject, p: nat, ep: nat, s: nat, caps: seq<Cap>, k: nat, x: Outcome)
    requires p < |m.pat| && 0 < ep
  {
    && DerivesItem(m, p, ep, s, k) && Leads(Results(m, AfterItem(m.pat, ep), s + k, caps), x)
    && forall j: nat | DerivesItem(m, p, ep, s, j) && Preferred(At(m.pat, ep), j, k) ::
         Results(m, AfterItem(m.pat, ep), s + j, caps) == []
  }

  lemma CountIn(m: Subject, p: nat, ep: nat, s: nat, k: nat)
    requires p < |m.pat| && 0 < ep
    ensures k in Counts(At(m.pat, ep), Run(m.src, s, m.pat, p, ep)) <==> DerivesItem(m, p, ep, s, k)
  {
    CountsAre(At(m.pat, ep), Run(m.src, s, m.pat, p, ep), k);
    RunIs(m, p, ep, s, k);
  }

  lemma LeadsDecides(m: Subject, p: nat, ep: nat, s: nat, caps: seq<Cap>, i: nat, x: Outcome)
    requires p < |m.pat| && p < ep
    requires LeadsAt(m, Counts(At(m.pat, ep), Run(m.src, s, m.pat, p, ep)), s, AfterItem(m.pat, ep), caps, i, x)
    ensures Decides(m, p, ep, s, caps, Counts(At(m.pat, ep), Run(m.src, s, m.pat, p, ep))[i], x)
  {
    hide Results, DerivesItem, Counts;
    var n, next := Run(m.src, s, m.pat, p, ep), AfterItem(m.pat, ep);
    var cs := Counts(At(m.pat, ep), n);
    CountIn(m, p, ep, s, cs[i]);
    forall j: nat | DerivesItem(m, p, ep, s, j) && Preferred(At(m.pat, ep), j, cs[i]) ensures Results(m, next, s + j, caps) == [] {
      CountIn(m, p, ep, s, j);
      var b: nat :| b < |cs| && cs[b] == j;
      if i < b { CountsOrder(At(m.pat, ep), n, i, b); }
    }
  }

  lemma DecidesLeads(m: Subject, p: nat, ep: nat, s: nat, caps: seq<Cap>, k: nat, x: Outcome)
    requires p < |m.pat| && p < ep && Decides(m, p, ep, s, caps, k, x)
    ensures exists i: nat :: LeadsAt(m, Counts(At(m.pat, ep), Run(m.src, s, m.pat, p, ep)), s, AfterItem(m.pat, ep), caps, i, x)
  {
    hide Results, DerivesItem, Counts;
    var n, next := Run(m.src, s, m.pat, p, ep), AfterItem(m.pat, ep);
    var cs := Counts(At(m.pat, ep), n);
    CountIn(m, p, ep, s, k);
    var i: nat :| i < |cs| && cs[i] == k;
    forall j | 0 <= j < i ensures Results(m, next, s + cs[j], caps) == [] {
      CountIn(m, p, ep, s, cs[j]);
      CountsOrder(At(m.pat, ep), n, j, i);
    }
    assert LeadsAt(m, cs, s, next, caps, i, x);
  }

  /** What an item of the pattern finds first. */
  lemma ItemOrder(m: Subject, p: nat, s: nat, caps: seq<Cap>, x: Outcome)
    requires IsItem(m, p) && ClassEnd(m.pat, p) >= 0
    ensures Leads(Results(m, p, s, caps), x) <==> exists k: nat :: Decides(m, p, ClassEnd(m.pat, p), s, caps, k, x)
  {
    var ep := ClassEnd(m.pat, p);
    var cs := Counts(At(m.pat, ep), Run(m.src, s, m.pat, p, ep));
    assert Results(m, p, s, caps) == Along(m, p, cs, s, AfterItem(m.pat, ep), caps);
    hide Results, Along, Decides, LeadsAt, Counts;
    AlongLeads(m, p, cs, s, AfterItem(m.pat, ep), caps, x);
    if i: nat :| LeadsAt(m, cs, s, AfterItem(m.pat, ep), caps, i, x) { LeadsDecides(m, p, ep, s, caps, i, x); }
    if k: nat :| Decides(m, p, ep, s, caps, k, x) { DecidesLeads(m, p, ep, s, caps, k, x); }
  }

  // ---- the whole pattern ----

  /** The first of the results is the match the order of preference asks for. */
  lemma {:induction false} FirstIs(m: Subject, p: nat, s: nat, caps: seq<Cap>, x: Outcome)
    ensures First(m, p, s, caps, x) <==> Leads(Results(m, p, s, caps), x)
    decreases |m.pat| - p, 1
  {
    hide Picks, DerivesBalance, Innermost, Along, ToClose, Run;
    if p >= |m.pat| {
    } else if m.pat[p] == '(' {
      OpenFirst(m, p, s, caps, x);
    } else if m.pat[p] == ')' {
      CloseFirst(m, p, s, caps, x);
    } else if m.pat[p] == '$' && p + 1 == |m.pat| {
    } else if m.pat[p] == L_ESC && At(m.pat, p + 1) == 'b' {
      if p + 3 < |m.pat| { BalanceFirst(m, p, s, caps, x); }
    } else if m.pat[p] == L_ESC && At(m.pat, p + 1) == 'f' {
      if At(m.pat, p + 2) == '[' && ClassEnd(m.pat, p + 2) >= 0 { FirstIs(m, ClassEnd(m.pat, p + 2), s, caps, x); }
    } else if m.pat[p] == L_ESC && IsDigit(At(m.pat, p + 1)) {
      var l := CaptureIndex(caps, m.pat[p + 1]);
      if l >= 0 && Repeats(m.src, s, caps[l]) { FirstIs(m, p + 2, s + caps[l].len, caps, x); }
    } else if ClassEnd(m.pat, p) >= 0 {
      ItemFirst(m, p, s, caps, x);
    }
  }

  lemma {:induction false} OpenFirst(m: Subject, p: nat, s: nat, caps: seq<Cap>, x: Outcome)
    requires p < |m.pat| && m.pat[p] == '('
    ensures First(m, p, s, caps, x) <==> Leads(Results(m, p, s, caps), x)
    decreases |m.pat| - p, 0
  {
    hide Picks, DerivesBalance, Innermost, Along, ToClose, Run;
    var position := At(m.pat, p + 1) == ')';
    if |caps| < LUA_MAXCAPTURES {
      FirstIs(m, if position then p + 2 else p + 1, s, caps + [Cap(s, if position then CAP_POSITION else CAP_UNFINISHED)], x);
    }
  }

  lemma CloseUnfolds(m: Subject, p: nat, s: nat, caps: seq<Cap>, x: Outcome)
    requires p < |m.pat| && m.pat[p] == ')'
    ensures First(m, p, s, caps, x) <==>
      if !(exists l: nat :: Innermost(caps, l)) then x == Fault(BadClose)
      else exists l: nat :: Innermost(caps, l) && First(m, p + 1, s, caps[l := Cap(caps[l].init, s - caps[l].init)], x)
    ensures var l := ToClose(caps, |caps|);
      Results(m, p, s, caps) == if l < 0 then [Fault(BadClose)] else Results(m, p + 1, s, caps[l := Cap(caps[l].init, s - caps[l].init)])
  {
    hide Innermost, ToClose, Picks, DerivesBalance, ClassEnd, Along;
  }

  lemma {:induction false} CloseFirst(m: Subject, p: nat, s: nat, caps: seq<Cap>, x: Outcome)
    requires p < |m.pat| && m.pat[p] == ')'
    ensures First(m, p, s, caps, x) <==> Leads(Results(m, p, s, caps), x)
    decreases |m.pat| - p, 0
  {
    hide First, Results, ToClose;
    var l := ToClose(caps, |caps|);
    CloseUnfolds(m, p, s, caps, x);
    forall i: nat ensures Innermost(caps, i) <==> l == i { ToCloseInnermost(caps, i); }
    if l >= 0 {
      assert Innermost(caps, l);
      FirstIs(m, p + 1, s, caps[l := Cap(caps[l].init, s - caps[l].init)], x);
    }
  }

  lemma {:induction false} BalanceFirst(m: Subject, p: nat, s: nat, caps: seq<Cap>, x: Outcome)
    requires p + 3 < |m.pat| && m.pat[p] == L_ESC && m.pat[p + 1] == 'b'
    ensures First(m, p, s, caps, x) <==> Leads(Results(m, p, s, caps), x)
    decreases |m.pat| - p, 0
  {
    var r := BalanceEnd(m.src, s, m.pat[p + 2], m.pat[p + 3]);
    forall k: nat ensures DerivesBalance(m, p, s, k) <==> r == k { BalanceEndIs(m.src, s, m.pat[p + 2], m.pat[p + 3], k); }
    assert At(m.pat, p + 1) == 'b';
    if r >= 0 {
      assert DerivesBalance(m, p, s, r);
      FirstIs(m, p + 4, r, caps, x);
    }
  }

  lemma {:induction false} ItemFirst(m: Subject, p: nat, s: nat, caps: seq<Cap>, x: Outcome)
    requires IsItem(m, p) && ClassEnd(m.pat, p) >= 0
    ensures First(m, p, s, caps, x) <==> Leads(Results(m, p, s, caps), x)
    decreases |m.pat| - p, 0
  {
    var ep := ClassEnd(m.pat, p);
    var next := AfterItem(m.pat, ep);
    assert First(m, p, s, caps, x) <==> exists k: nat :: Picks(m, p, ep, s, caps, k, x);
    hide Results, First, DerivesItem;
    ItemOrder(m, p, s, caps, x);
    forall k: nat ensures Picks(m, p, ep, s, caps, k, x) <==> Decides(m, p, ep, s, caps, k, x) {
      FirstIs(m, next, s + k, caps, x);
      forall t: nat ensures Nothing(m, next, t, caps) <==> Results(m, next, t, caps) == [] { NothingIs(m, next, t, caps); }
    }
  }

  lemma {:induction false} NothingIs(m: Subject, p: nat, s: nat, caps: seq<Cap>)
    ensures Nothing(m, p, s, caps) <==> Results(m, p, s, caps) == []
    decreases |m.pat| - p, 2
  {
    hide Results, First;
    forall y: Outcome ensures First(m, p, s, caps, y) <==> Leads(Results(m, p, s, caps), y) { FirstIs(m, p, s, caps, y); }
    if Results(m, p, s, caps) != [] { assert First(m, p, s, caps, Results(m, p, s, caps)[0]); }
  }

  /** The order of preference leaves no choice. */
  lemma FirstIsOne(m: Subject, p: nat, s: nat, caps: seq<Cap>, x: Outcome, y: Outcome)
    requires First(m, p, s, caps, x) && First(m, p, s, caps, y)
    ensures x == y
  {
    hide First, Results;
    FirstIs(m, p, s, caps, x);
    FirstIs(m, p, s, caps, y);
  }

  /** What is found first is a match of the pattern. */
  lemma FirstDerives(m: Subject, p: nat, s: nat, caps: seq<Cap>, e: nat, out: seq<Cap>)
    requires First(m, p, s, caps, Done(e, out))
    ensures Derives(m, p, s, caps, e, out)
  {
    hide First, Results, Derives;
    FirstIs(m, p, s, caps, Done(e, out));
    ResultsAreDerivations(m, p, s, caps, e, out);
  }

  /** Where nothing is found, there is no match. */
  lemma NothingDerives(m: Subject, p: nat, s: nat, caps: seq<Cap>, e: nat, out: seq<Cap>)
    requires Nothing(m, p, s, caps)
    ensures !Derives(m, p, s, caps, e, out)
  {
    hide First, Results, Derives;
    NothingIs(m, p, s, caps);
    ResultsAreDerivations(m, p, s, caps, e, out);
  }
}
