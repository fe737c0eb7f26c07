/** Patterns of `lstrlib.c`: what a pattern means, as the list of all its matches
  in the order in which backtracking tries them. */
module MatchModel {

  const LUA_MAXCAPTURES := 32
  const MAXCCALLS := 200
  const CAP_UNFINISHED := -1
  const CAP_POSITION := -2
  const L_ESC := '%'

  datatype Cap = Cap(init: nat, len: int)

  datatype Err =
    | EndsWithEsc | MissingBracket | MissingBalance | MissingFrontier
    | BadIndex | BadClose | TooManyCaptures | TooComplex

  /** The character at a position; strings end in a zero. */
  function At(t: string, i: nat): char {
    if i < |t| then t[i] else '\0'
  }

  // ---- single characters ----

  function IsLower(c: char): bool { 'a' <= c <= 'z' }
  function IsUpper(c: char): bool { 'A' <= c <= 'Z' }
  function IsDigit(c: char): bool { '0' <= c <= '9' }
  function IsAlpha(c: char): bool { IsLower(c) || IsUpper(c) }
  function IsAlnum(c: char): bool { IsAlpha(c) || IsDigit(c) }
  function IsXDigit(c: char): bool { IsDigit(c) || 'a' <= c <= 'f' || 'A' <= c <= 'F' }
  function IsSpace(c: char): bool { c == ' ' || 9 as char <= c <= 13 as char }
  function IsCntrl(c: char): bool { c < ' ' || c == 127 as char }
  function IsGraph(c: char): bool { ' ' < c < 127 as char }
  function IsPunct(c: char): bool { IsGraph(c) && !IsAlnum(c) }
  function ToLower(c: char): char { if IsUpper(c) then c - 'A' + 'a' else c }

  /** `match_class`: an upper-case class letter is the complement. */
  function MatchClass(c: char, cl: char): bool {
    var l := ToLower(cl);
    if l == 'a' then IsAlpha(c) == IsLower(cl)
    else if l == 'c' then IsCntrl(c) == IsLower(cl)
    else if l == 'd' then IsDigit(c) == IsLower(cl)
    else if l == 'g' then IsGraph(c) == IsLower(cl)
    else if l == 'l' then IsLower(c) == IsLower(cl)
    else if l == 'p' then IsPunct(c) == IsLower(cl)
    else if l == 's' then IsSpace(c) == IsLower(cl)
    else if l == 'u' then IsUpper(c) == IsLower(cl)
    else if l == 'w' then IsAlnum(c) == IsLower(cl)
    else if l == 'x' then IsXDigit(c) == IsLower(cl)
    else if l == 'z' then (c == '\0') == IsLower(cl)
    else cl == c
  }

  /** Where a set ends whose next member is at `q`; nothing if it does not. */
  function BracketEnd(pat: string, q: nat): (e: int)
    ensures e < 0 || q < e <= |pat|
    decreases |pat| - q
  {
    if q >= |pat| then -1
    else
      var q1 := if pat[q] == L_ESC && q + 1 < |pat| then q + 2 else q + 1;
      if At(pat, q1) == ']' then q1 + 1 else BracketEnd(pat, q1)
  }

  /** `classend`. */
  function ClassEnd(pat: string, p: nat): (e: int)
    requires p < |pat|
    ensures e < 0 || p < e <= |pat|
  {
    if pat[p] == L_ESC then (if p + 1 == |pat| then -1 else p + 2)
    else if pat[p] == '[' then BracketEnd(pat, if At(pat, p + 1) == '^' then p + 2 else p + 1)
    else p + 1
  }

  function ClassError(pat: string, p: nat): Err
    requires p < |pat|
  {
    if pat[p] == L_ESC then EndsWithEsc else MissingBracket
  }

  /** `c` is among the members of a set from `q` to `ec`. */
  function Member(c: char, pat: string, q: nat, ec: nat): bool
    decreases ec - q
  {
    if q >= ec then false
    else if At(pat, q) == L_ESC then MatchClass(c, At(pat, q + 1)) || Member(c, pat, q + 2, ec)
    else if At(pat, q + 1) == '-' && q + 2 < ec then At(pat, q) <= c <= At(pat, q + 2) || Member(c, pat, q + 3, ec)
    else At(pat, q) == c || Member(c, pat, q + 1, ec)
  }

  /** `matchbracketclass`. */
  function InSet(c: char, pat: string, p: nat, ec: nat): bool {
    if At(pat, p + 1) == '^' then !Member(c, pat, p + 2, ec) else Member(c, pat, p + 1, ec)
  }

  /** `singlematch`. */
  function Single(src: string, s: nat, pat: string, p: nat, ep: nat): bool
    requires p < |pat| && 0 < ep
  {
    s < |src| &&
    if pat[p] == '.' then true
    else if pat[p] == L_ESC then MatchClass(src[s], At(pat, p + 1))
    else if pat[p] == '[' then InSet(src[s], pat, p, ep - 1)
    else pat[p] == src[s]
  }

  /** How many characters from `s` on match the item. */
  function Run(src: string, s: nat, pat: string, p: nat, ep: nat): (n: nat)
    requires p < |pat| && 0 < ep
    ensures n > 0 ==> s + n <= |src|
    decreases |src| - s
  {
    if Single(src, s, pat, p, ep) then 1 + Run(src, s + 1, pat, p, ep) else 0
  }

  // ---- balance ----

  /** Openings less closings in `src[s..k]`, the one at `s` being an opening. */
  function Depth(src: string, s: nat, k: nat, b: char, e: char): int
    requires s < k <= |src|
  {
    if k == s + 1 then 1
    else Depth(src, s, k - 1, b, e) + (if src[k - 1] == e then -1 else if src[k - 1] == b then 1 else 0)
  }

  /** `src[s..k]` is balanced and no shorter piece is. */
  predicate Balances(src: string, s: nat, k: nat, b: char, e: char) {
    s + 1 < k <= |src| && src[s] == b && Depth(src, s, k, b, e) == 0
    && forall i | s < i < k :: Depth(src, s, i, b, e) > 0
  }

  /** The end of the balanced piece; -1 if there is none. */
  function BalanceFrom(src: string, s: nat, k: nat, b: char, e: char): (r: int)
    requires s < k <= |src|
    ensures r < 0 || k < r <= |src|
    decreases |src| - k
  {
    if k == |src| then -1
    else if Depth(src, s, k + 1, b, e) == 0 then k + 1
    else BalanceFrom(src, s, k + 1, b, e)
  }

  function BalanceEnd(src: string, s: nat, b: char, e: char): (r: int)
    ensures r < 0 || s < r <= |src|
  {
    if At(src, s) != b || s >= |src| then -1 else BalanceFrom(src, s, s + 1, b, e)
  }

  // ---- captures ----

  /** The innermost capture still open, among the first `n`. */
  function ToClose(caps: seq<Cap>, n: nat): (l: int)
    requires n <= |caps|
    ensures l < n && (l >= 0 ==> caps[l].len == CAP_UNFINISHED)
  {
    if n == 0 then -1 else if caps[n - 1].len == CAP_UNFINISHED then n - 1 else ToClose(caps, n - 1)
  }

  /** Capture number of a digit; negative if it cannot be referred to. */
  function CaptureIndex(caps: seq<Cap>, d: char): (l: int)
    ensures l < |caps|
  {
    var l := d as int - '1' as int;
    if l < 0 || l >= |caps| || caps[l].len == CAP_UNFINISHED then -1 else l
  }

  /** The text of a capture comes again at `s`. */
  predicate Repeats(src: string, s: nat, c: Cap) {
    c.len >= 0 && c.init + c.len <= |src| && s + c.len <= |src| && src[c.init..c.init + c.len] == src[s..s + c.len]
  }

  // ---- all matches, in order ----

  datatype Outcome = Done(end: nat, caps: seq<Cap>) | Fault(err: Err)

  datatype Subject = Subject(src: string, pat: string)

  function Down(n: nat, low: nat): seq<nat> {
    if n < low then [] else [n] + (if n == 0 then [] else Down(n - 1, low))
  }

  function Up(k: nat, n: nat): seq<nat>
    decreases n + 1 - k
  {
    if k > n then [] else [k] + Up(k + 1, n)
  }

  predicate IsSuffix(c: char) {
    c == '*' || c == '+' || c == '-' || c == '?'
  }

  /** How often an item that can match up to `n` times does, best first. */
  function Counts(suffix: char, n: nat): seq<nat> {
    if suffix == '*' then Down(n, 0)
    else if suffix == '+' then Down(n, 1)
    else if suffix == '-' then Up(0, n)
    else if suffix == '?' then (if n > 0 then [1, 0] else [0])
    else if n > 0 then [1] else []
  }

  /** Every way the pattern from `p` on matches the subject at `s`. */
  function Results(m: Subject, p: nat, s: nat, caps: seq<Cap>): seq<Outcome>
    decreases |m.pat| - p, 1, 0
  {
    if p >= |m.pat| then [Done(s, caps)]
    else if m.pat[p] == '(' then
      var position := At(m.pat, p + 1) == ')';
      if |caps| >= LUA_MAXCAPTURES then [Fault(TooManyCaptures)]
      else Results(m, if position then p + 2 else p + 1, s, caps + [Cap(s, if position then CAP_POSITION else CAP_UNFINISHED)])
    else if m.pat[p] == ')' then
      var l := ToClose(caps, |caps|);
      if l < 0 then [Fault(BadClose)] else Results(m, p + 1, s, caps[l := Cap(caps[l].init, s - caps[l].init)])
    else if m.pat[p] == '$' && p + 1 == |m.pat| then
      if s == |m.src| then [Done(s, caps)] else []
    else if m.pat[p] == L_ESC && At(m.pat, p + 1) == 'b' then
      if p + 3 >= |m.pat| then [Fault(MissingBalance)]
      else
        var e := BalanceEnd(m.src, s, m.pat[p + 2], m.pat[p + 3]);
        if e < 0 then [] else Results(m, p + 4, e, caps)
    else if m.pat[p] == L_ESC && At(m.pat, p + 1) == 'f' then
      if At(m.pat, p + 2) != '[' then [Fault(MissingFrontier)]
      else
        var ep := ClassEnd(m.pat, p + 2);
        if ep < 0 then [Fault(MissingBracket)]
        else if Frontier(m, p + 2, ep, s) then Results(m, ep, s, caps)
        else []
    else if m.pat[p] == L_ESC && IsDigit(At(m.pat, p + 1)) then
      var l := CaptureIndex(caps, m.pat[p + 1]);
      if l < 0 then [Fault(BadIndex)]
      else if Repeats(m.src, s, caps[l]) then Results(m, p + 2, s + caps[l].len, caps)
      else []
    else
      var ep := ClassEnd(m.pat, p);
      if ep < 0 then [Fault(ClassError(m.pat, p))]
      else Along(m, p, Counts(At(m.pat, ep), Run(m.src, s, m.pat, p, ep)), s, AfterItem(m.pat, ep), caps)
  }

  /** Where the pattern goes on after an item that ends at `ep`. */
  function AfterItem(pat: string, ep: nat): nat {
    if IsSuffix(At(pat, ep)) then ep + 1 else ep
  }

  function Along(m: Subject, p: nat, cs: seq<nat>, s: nat, next: nat, caps: seq<Cap>): seq<Outcome>
    requires p < next && p < |m.pat|
    decreases |m.pat| - p, 0, |cs|
  {
    if cs == [] then [] else Results(m, next, s + cs[0], caps) + Along(m, p, cs[1..], s, next, caps)
  }

  /** The set changes from absent to present between the characters around `s`. */
  function Frontier(m: Subject, p: nat, ep: nat, s: nat): bool
    requires 0 < ep
  {
    var previous := if s == 0 then '\0' else At(m.src, s - 1);
    !InSet(previous, m.pat, p, ep - 1) && InSet(At(m.src, s), m.pat, p, ep - 1)
  }
}
