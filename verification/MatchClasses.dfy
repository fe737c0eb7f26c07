/** Character classes and sets, said of the alphabets they name and of sets as one
  writes them: section 6.4.1 of the Lua 5.3 manual in the C locale. */
module MatchClasses {
  import opened MatchModel

  const LOWER := "abcdefghijklmnopqrstuvwxyz"
  const UPPER := "ABCDEFGHIJKLMNOPQRSTUVWXYZ"
  const DIGITS := "0123456789"
  const PUNCTUATION := "!\"#$%&'()*+,-./" + ":;<=>?@" + "[\\]^_`" + "{|}~"

  /** The characters of a class, by its lower-case letter. */
  predicate InClass(letter: char, c: char)
    requires ClassLetter(letter)
  {
    match letter
    case 'a' => c in LOWER || c in UPPER
    case 'c' => c as int < 32 || c as int == 127
    case 'd' => c in DIGITS
    case 'g' => c in LOWER || c in UPPER || c in DIGITS || c in PUNCTUATION
    case 'l' => c in LOWER
    case 'p' => c in PUNCTUATION
    case 's' => c as int in {9, 10, 11, 12, 13, 32}
    case 'u' => c in UPPER
    case 'w' => c in LOWER || c in UPPER || c in DIGITS
    case 'x' => c in DIGITS || c in "abcdef" || c in "ABCDEF"
    case 'z' => c as int == 0
  }

  predicate ClassLetter(letter: char) { letter in {'a', 'c', 'd', 'g', 'l', 'p', 's', 'u', 'w', 'x', 'z'} }

  // ---- alphabets are ranges ----

  /** The string has the characters from `lo` on, one after the other. */
  predicate Consecutive(s: string, lo: char) {
    forall i | 0 <= i < |s| :: s[i] as int == lo as int + i
  }

  lemma InRange(s: string, lo: char, c: char)
    requires Consecutive(s, lo)
    ensures c in s <==> lo as int <= c as int < lo as int + |s|
  {
    if lo as int <= c as int < lo as int + |s| { assert s[c as int - lo as int] == c; }
  }

  lemma Letters(c: char)
    ensures c in LOWER <==> 'a' <= c <= 'z'
    ensures c in UPPER <==> 'A' <= c <= 'Z'
    ensures c in DIGITS <==> '0' <= c <= '9'
  {
    InRange(LOWER, 'a', c);
    InRange(UPPER, 'A', c);
    InRange(DIGITS, '0', c);
  }

  lemma HexLetters(c: char)
    ensures c in "abcdef" <==> 'a' <= c <= 'f'
    ensures c in "ABCDEF" <==> 'A' <= c <= 'F'
  {
    InRange("abcdef", 'a', c);
    InRange("ABCDEF", 'A', c);
  }

  lemma Punctuation(c: char)
    ensures c in PUNCTUATION <==> '!' <= c <= '/' || ':' <= c <= '@' || '[' <= c <= '`' || '{' <= c <= '~'
  {
    InRange("!\"#$%&'()*+,-./", '!', c);
    InRange(":;<=>?@", ':', c);
    InRange("[\\]^_`", '[', c);
    InRange("{|}~", '{', c);
  }

  lemma ClassesAre(c: char)
    ensures InClass('a', c) == IsAlpha(c) && InClass('c', c) == IsCntrl(c) && InClass('d', c) == IsDigit(c) && InClass('g', c) == IsGraph(c)
    ensures InClass('l', c) == IsLower(c) && InClass('p', c) == IsPunct(c) && InClass('s', c) == IsSpace(c) && InClass('u', c) == IsUpper(c)
    ensures InClass('w', c) == IsAlnum(c) && InClass('x', c) == IsXDigit(c) && InClass('z', c) == (c == '\0')
  {
    Letters(c);
    HexLetters(c);
    Punctuation(c);
  }

  /** A class letter stands for its class, the same letter in upper case for all other
      characters, and any other character for itself. */
  lemma MatchClassIs(c: char, cl: char)
    ensures MatchClass(c, cl) <==>
      if ClassLetter(cl) then InClass(cl, c) else if ClassLetter(ToLower(cl)) then !InClass(ToLower(cl), c) else c == cl
  {
    hide InClass, IsAlpha, IsCntrl, IsDigit, IsGraph, IsPunct, IsSpace, IsAlnum, IsXDigit;
    ClassesAre(c);
    LetterCase(cl);
  }

  lemma LetterCase(cl: char)
    ensures ClassLetter(cl) ==> IsLower(cl) && ToLower(cl) == cl
    ensures !ClassLetter(cl) && ClassLetter(ToLower(cl)) ==> !IsLower(cl)
  {
  }

  // ---- sets ----

  /** A member of a set: a character, a range, or a class. */
  datatype Element = One(c: char) | Range(lo: char, hi: char) | Class(letter: char)

  /** Characters are letters or digits, or else stand after a `%`; ranges are between
      letters or digits. */
  predicate Writable(e: Element) {
    match e
    case One(c) => !ClassLetter(ToLower(c)) || IsAlnum(c)
    case Range(lo, hi) => IsAlnum(lo) && IsAlnum(hi)
    case Class(l) => ClassLetter(ToLower(l))
  }

  function ElementText(e: Element): string {
    match e
    case One(c) => if IsAlnum(c) then [c] else ['%', c]
    case Range(lo, hi) => [lo, '-', hi]
    case Class(l) => ['%', l]
  }

  function SetText(es: seq<Element>): string {
    if es == [] then "" else ElementText(es[0]) + SetText(es[1..])
  }

  predicate Has(e: Element, c: char) {
    match e
    case One(d) => c == d
    case Range(lo, hi) => lo <= c <= hi
    case Class(l) => if ClassLetter(l) then InClass(l, c) else ClassLetter(ToLower(l)) && !InClass(ToLower(l), c)
  }

  predicate AllWritable(es: seq<Element>) { forall i | 0 <= i < |es| :: Writable(es[i]) }

  predicate SomeHas(es: seq<Element>, c: char) { exists i | 0 <= i < |es| :: Has(es[i], c) }

  /** At `q` of the pattern the elements are written, and then comes the bracket. */
  predicate WrittenAt(pat: string, q: nat, es: seq<Element>) {
    q + |SetText(es)| < |pat| && pat[q..q + |SetText(es)|] == SetText(es) && pat[q + |SetText(es)|] == ']'
  }

  lemma Slices(pat: string, q: nat, t: string, u: string)
    requires q + |t| + |u| <= |pat| && pat[q..q + |t| + |u|] == t + u
    ensures pat[q..q + |t|] == t && pat[q + |t|..q + |t| + |u|] == u
  {
    var s := pat[q..q + |t| + |u|];
    assert pat[q..q + |t|] == s[..|t|] && pat[q + |t|..q + |t| + |u|] == s[|t|..];
  }

  lemma TextIs(es: seq<Element>)
    requires es != []
    ensures SetText(es) == ElementText(es[0]) + SetText(es[1..])
  {
  }

  lemma WrittenNext(pat: string, q: nat, es: seq<Element>)
    requires es != [] && WrittenAt(pat, q, es)
    ensures var t := ElementText(es[0]);
      && q + |t| < |pat| && pat[q..q + |t|] == t && WrittenAt(pat, q + |t|, es[1..])
      && q + |t| + |SetText(es[1..])| == q + |SetText(es)|
  {
    hide SetText, ElementText;
    TextIs(es);
    Slices(pat, q, ElementText(es[0]), SetText(es[1..]));
  }

  lemma Alnum(c: char)
    requires IsAlnum(c)
    ensures c != '%' && c != '-' && c != ']' && c != '^' && c != '['
  {
  }

  /** A written set begins with a letter, a digit or a `%`, or it is at its end. */
  lemma Begins(pat: string, q: nat, es: seq<Element>)
    requires WrittenAt(pat, q, es) && AllWritable(es)
    ensures q < |pat| && pat[q] != '-' && pat[q] != '^' && (pat[q] == ']' <==> es == [])
  {
    if es != [] {
      assert Writable(es[0]);
      WrittenNext(pat, q, es);
      var t := ElementText(es[0]);
      assert pat[q..q + |t|][0] == pat[q];
      if t[0] != '%' { Alnum(t[0]); }
    }
  }

  lemma TextAt(pat: string, q: nat, t: string, i: nat)
    requires q + |t| <= |pat| && pat[q..q + |t|] == t && i < |t|
    ensures At(pat, q + i) == t[i]
  {
    assert pat[q..q + |t|][i] == pat[q + i];
  }

  /** One element, and the rest. */
  lemma ElementFirst(c: char, pat: string, q: nat, ec: nat, e: Element)
    requires Writable(e) && q + |ElementText(e)| <= ec <= |pat| && pat[q..q + |ElementText(e)|] == ElementText(e)
    requires At(pat, q + |ElementText(e)|) != '-'
    ensures Member(c, pat, q, ec) <==> Has(e, c) || Member(c, pat, q + |ElementText(e)|, ec)
  {
    hide InClass, MatchClass, ToLower;
    var t := ElementText(e);
    TextAt(pat, q, t, 0);
    match e
    case One(d) =>
      if IsAlnum(d) { Alnum(d); } else { TextAt(pat, q, t, 1); MatchClassIs(c, d); LetterCase(d); ClassIsAlnum(d); }
    case Range(lo, hi) =>
      Alnum(lo);
      TextAt(pat, q, t, 1);
      TextAt(pat, q, t, 2);
    case Class(l) =>
      TextAt(pat, q, t, 1);
      MatchClassIs(c, l);
  }

  lemma ClassIsAlnum(d: char)
    ensures ClassLetter(ToLower(d)) || ClassLetter(d) ==> IsAlnum(d)
  {
  }

  lemma {:induction false} MemberIs(c: char, pat: string, q: nat, es: seq<Element>)
    requires WrittenAt(pat, q, es) && AllWritable(es)
    ensures Member(c, pat, q, q + |SetText(es)|) <==> SomeHas(es, c)
    decreases |es|
  {
    hide Has, Writable, ElementText, Member;
    var ec := q + |SetText(es)|;
    if es == [] {
      NoMember(c, pat, q);
    } else {
      var t, rest := ElementText(es[0]), es[1..];
      WrittenNext(pat, q, es);
      Begins(pat, q + |t|, rest);
      ElementFirst(c, pat, q, ec, es[0]);
      MemberIs(c, pat, q + |t|, rest);
      forall i | 0 <= i < |es| ensures Has(es[i], c) ==> i == 0 || SomeHas(rest, c) { if i > 0 { assert es[i] == rest[i - 1]; } }
      if i :| 0 <= i < |rest| && Has(rest[i], c) { assert Has(es[i + 1], c); }
    }
  }

  lemma NoMember(c: char, pat: string, q: nat)
    ensures !Member(c, pat, q, q)
  {
  }

  /** Past one element. */
  lemma EndFirst(pat: string, q: nat, e: Element)
    requires Writable(e) && q + |ElementText(e)| < |pat| && pat[q..q + |ElementText(e)|] == ElementText(e)
    ensures var n := q + |ElementText(e)|;
      BracketEnd(pat, q) == if pat[n] == ']' then n + 1 else BracketEnd(pat, n)
  {
    var t := ElementText(e);
    TextAt(pat, q, t, 0);
    match e
    case One(d) => if IsAlnum(d) { Alnum(d); }
    case Range(lo, hi) =>
      Alnum(lo);
      Alnum(hi);
      TextAt(pat, q, t, 1);
      TextAt(pat, q, t, 2);
      assert BracketEnd(pat, q) == BracketEnd(pat, q + 1) == BracketEnd(pat, q + 2);
    case Class(_) =>
  }

  lemma {:induction false} EndIs(pat: string, q: nat, es: seq<Element>)
    requires es != [] && WrittenAt(pat, q, es) && AllWritable(es)
    ensures BracketEnd(pat, q) == q + |SetText(es)| + 1
    decreases |es|
  {
    hide Writable, ElementText, BracketEnd;
    var t, rest := ElementText(es[0]), es[1..];
    WrittenNext(pat, q, es);
    Begins(pat, q + |t|, rest);
    EndFirst(pat, q, es[0]);
    if rest != [] { EndIs(pat, q + |t|, rest); }
  }

  /** At `p` of the pattern a set is written. */
  predicate SetAt(pat: string, p: nat, complement: bool, es: seq<Element>) {
    && p < |pat| && pat[p] == '[' && (complement ==> At(pat, p + 1) == '^')
    && es != [] && AllWritable(es) && WrittenAt(pat, if complement then p + 2 else p + 1, es)
  }

  /** A set as one writes it, with `^` in front or without, is read to its bracket, and
      has the characters of its elements, or all others. */
  lemma SetIs(c: char, pat: string, p: nat, complement: bool, es: seq<Element>)
    requires SetAt(pat, p, complement, es)
    ensures var q := if complement then p + 2 else p + 1; ClassEnd(pat, p) == q + |SetText(es)| + 1
    ensures InSet(c, pat, p, ClassEnd(pat, p) - 1) <==> SomeHas(es, c) != complement
  {
    hide Writable, ElementText, BracketEnd, Member, Has, SetText;
    var q := if complement then p + 2 else p + 1;
    Begins(pat, q, es);
    EndIs(pat, q, es);
    MemberIs(c, pat, q, es);
  }

  /** A set matches one character, of those it has. */
  lemma SetMatches(m: Subject, p: nat, complement: bool, es: seq<Element>, s: nat)
    requires SetAt(m.pat, p, complement, es)
    ensures ClassEnd(m.pat, p) > 0
    ensures Single(m.src, s, m.pat, p, ClassEnd(m.pat, p)) <==> s < |m.src| && SomeHas(es, m.src[s]) != complement
  {
    hide AllWritable, WrittenAt, SomeHas, InSet;
    if s < |m.src| { SetIs(m.src[s], m.pat, p, complement, es); }
    SetIs('a', m.pat, p, complement, es);
  }

  /** `%f` matches between a character that is not of the set and one that is; a zero
      stands for what is before the subject and after it. */
  lemma FrontierIs(m: Subject, p: nat, complement: bool, es: seq<Element>, s: nat)
    requires SetAt(m.pat, p, complement, es) && s <= |m.src|
    ensures ClassEnd(m.pat, p) > 0
    ensures Frontier(m, p, ClassEnd(m.pat, p), s) <==>
      && SomeHas(es, if s == 0 then '\0' else m.src[s - 1]) == complement
      && SomeHas(es, if s == |m.src| then '\0' else m.src[s]) != complement
  {
    hide AllWritable, WrittenAt, SomeHas, InSet;
    SetIs(if s == 0 then '\0' else m.src[s - 1], m.pat, p, complement, es);
    SetIs(if s == |m.src| then '\0' else m.src[s], m.pat, p, complement, es);
  }
}
