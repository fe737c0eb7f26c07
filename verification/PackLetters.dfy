/** What the letters of a format say, as section 6.4.2 of the Lua 5.3 manual lists
  them, for the usual 64-bit sizes. What is in force at a place is read off the text
  before it; nothing is carried along. */
module PackLetters {
  import opened PackFormat
  import PackNumber

  // ---- numerals ----

  /** Where a run of digits from `i` on ends. */
  function DigitsEnd(fmt: string, i: nat): (j: nat)
    ensures i <= |fmt| ==> i <= j <= |fmt|
    ensures forall k | i <= k < j :: k < |fmt| && '0' <= fmt[k] <= '9'
    ensures j < |fmt| ==> !('0' <= fmt[j] <= '9')
    decreases |fmt| - i
  {
    if i < |fmt| && '0' <= fmt[i] <= '9' then DigitsEnd(fmt, i + 1) else i
  }

  /** The number that the digits `ds` stand for. */
  function Number(ds: string): int {
    if ds == "" then 0 else 10 * Number(ds[..|ds| - 1]) + (ds[|ds| - 1] as int - '0' as int)
  }

  /** The numeral at `i`, or a default if there is none. */
  function NumeralOr(fmt: string, i: nat, default: int): int
    requires i <= |fmt|
  {
    if DigitsEnd(fmt, i) == i then default else Number(fmt[i..DigitsEnd(fmt, i)])
  }

  // ---- letters ----

  /** Options of one letter. */
  predicate Letter(c: char, kind: KOption, size: nat) {
    match kind
    case Kint => (c == 'b' && size == 1) || (c == 'h' && size == 2) || (c in {'l', 'j'} && size == 8)
    case Kuint => (c == 'B' && size == 1) || (c == 'H' && size == 2) || (c in {'L', 'J', 'T'} && size == 8)
    case Kfloat => (c == 'f' && size == 4) || (c in {'d', 'n'} && size == 8)
    case Kzstr => c == 'z' && size == 0
    case Kpadding => c == 'x' && size == 1
    case Kpaddalign => c == 'X' && size == 0
    case Knop => c in {' ', '<', '>', '='} && size == 0
    case _ => false
  }

  /** Letters that may have a numeral. A size is from 1 to 16; for `c` the limit is
      that of the numeral, whose digits but the last may not exceed 214748363. */
  predicate Numbered(c: char, numeral: int -> int, kind: KOption, size: int) {
    match kind
    case Kint => c == 'i' && size == numeral(4) && 1 <= size <= 16
    case Kuint => c == 'I' && size == numeral(4) && 1 <= size <= 16
    case Kstring => c == 's' && size == numeral(8) && 1 <= size <= 16
    case Kchar => c == 'c' && size == numeral(-1) && 0 <= size && size / 10 <= 214748363
    case Knop => c == '!' && size == 0 && 1 <= numeral(8) <= 16
    case _ => false
  }

  /** The letter at `i`, with its numeral, is an option of this kind and size. */
  predicate Selects(fmt: string, i: nat, kind: KOption, size: nat) {
    i < |fmt| && (Letter(fmt[i], kind, size) || Numbered(fmt[i], df => NumeralOr(fmt, i + 1, df), kind, size))
  }

  function LetterEnd(fmt: string, i: nat): (j: nat)
    requires i < |fmt|
    ensures i < j <= |fmt|
  {
    if fmt[i] in {'i', 'I', 's', 'c', '!'} then DigitsEnd(fmt, i + 1) else i + 1
  }

  // ---- what is in force ----

  /** The last place before `i` with a character of `cs`; -1 if there is none. */
  function LastOf(fmt: string, i: nat, cs: set<char>): (k: int)
    requires i <= |fmt|
    ensures -1 <= k < i && (k >= 0 ==> fmt[k] in cs) && forall j | k < j < i :: fmt[j] !in cs
  {
    if i == 0 then -1 else if fmt[i - 1] in cs then i - 1 else LastOf(fmt, i - 1, cs)
  }

  /** The most significant byte comes first. */
  predicate Big(fmt: string, i: nat)
    requires i <= |fmt|
  {
    var k := LastOf(fmt, i, {'<', '>', '='});
    k >= 0 && fmt[k] == '>'
  }

  /** The maximum alignment. */
  function MaxAlign(fmt: string, i: nat): int
    requires i <= |fmt|
  {
    var k := LastOf(fmt, i, {'!'});
    if k < 0 then 1 else NumeralOr(fmt, k + 1, 8)
  }

  /** Something of `n` bytes is put at a multiple of `align`. */
  predicate AlignedBy(fmt: string, i: nat, n: nat, align: nat)
    requires i <= |fmt|
  {
    align == (if n <= 1 then 1 else if n <= MaxAlign(fmt, i) then n else MaxAlign(fmt, i)) && align in {1, 2, 4, 8, 16}
  }

  /** `X` is followed by an option that has an alignment, and only aligns. */
  predicate AlignsOnly(fmt: string, i: nat, k: KOption, n: nat, align: nat) {
    i + 1 < |fmt| && Selects(fmt, i + 1, k, n) && !k.Kchar? && n > 0 && AlignedBy(fmt, i, n, align)
  }

  /** The option at `i`: kind, size and alignment. */
  ghost predicate Says(fmt: string, i: nat, kind: KOption, size: nat, align: nat) {
    i < |fmt| &&
    if fmt[i] == 'X' then kind.Kpaddalign? && size == 0 && exists k, n: nat :: AlignsOnly(fmt, i, k, n, align)
    else Selects(fmt, i, kind, size) && AlignedBy(fmt, i, if kind.Kchar? then 1 else size, align)
  }

  function OptionEnd(fmt: string, i: nat): (j: nat)
    requires i < |fmt|
    ensures i < j <= |fmt|
  {
    if fmt[i] == 'X' && i + 1 < |fmt| then LetterEnd(fmt, i + 1) else LetterEnd(fmt, i)
  }

  // ---- numerals are read so ----

  lemma {:induction false} NumberGrows(fmt: string, i: nat, j: nat, k: nat)
    requires i <= j < k <= |fmt| && forall m | i <= m < k :: '0' <= fmt[m] <= '9'
    ensures 0 <= Number(fmt[i..j]) <= Number(fmt[i..k]) / 10
    decreases k
  {
    assert fmt[i..k][..k - i - 1] == fmt[i..k - 1];
    if j < k - 1 { NumberGrows(fmt, i, j, k - 1); } else { NumberPositive(fmt[i..j]); }
  }

  lemma {:induction false} NumberPositive(ds: string)
    requires forall m | 0 <= m < |ds| :: '0' <= ds[m] <= '9'
    ensures Number(ds) >= 0
  {
    if ds != "" { NumberPositive(ds[..|ds| - 1]); }
  }

  lemma NumberNext(fmt: string, i: nat, j: nat)
    requires i <= j < |fmt|
    ensures Number(fmt[i..j + 1]) == 10 * Number(fmt[i..j]) + (fmt[j] as int - '0' as int)
  {
    assert fmt[i..j + 1][..j - i] == fmt[i..j];
  }

  /** `getnum` reads on until the number might get too big. */
  lemma {:induction false} DigitsAre(fmt: string, i0: nat, i: nat, a: nat)
    requires i0 <= i < |fmt| && IsDigit(fmt[i]) && i < DigitsEnd(fmt, i0) && a == Number(fmt[i0..i]) && a <= (MAXINT - 9) / 10
    ensures var (n, j) := Digits(fmt, i, a); i < j <= DigitsEnd(fmt, i0) && n == Number(fmt[i0..j]) && n / 10 <= (MAXINT - 9) / 10
    ensures var (n, j) := Digits(fmt, i, a); j < DigitsEnd(fmt, i0) ==> n > (MAXINT - 9) / 10
    decreases |fmt| - i
  {
    hide Number, DigitsEnd;
    NumberNext(fmt, i0, i);
    var b := a * 10 + DigitOf(fmt[i]);
    if i + 1 < DigitsEnd(fmt, i0) && b <= (MAXINT - 9) / 10 { DigitsAre(fmt, i0, i + 1, b); }
  }

  /** A numeral that is not too big is read to its end. */
  lemma NumeralIs(fmt: string, i: nat, df: int)
    requires i <= |fmt| && df / 10 <= 214748363
    ensures var (n, j) := Numeral(fmt, i, df);
      if NumeralOr(fmt, i, df) / 10 <= 214748363 then n == NumeralOr(fmt, i, df) && j == DigitsEnd(fmt, i)
      else i < j < DigitsEnd(fmt, i) && n > 16
  {
    hide Number;
    if i < |fmt| && IsDigit(fmt[i]) {
      assert fmt[i..i] == "";
      NumberOfNone();
      DigitsAre(fmt, i, i, 0);
      var (n, j) := Digits(fmt, i, 0);
      if j < DigitsEnd(fmt, i) { NumberGrows(fmt, i, j, DigitsEnd(fmt, i)); }
    }
  }

  lemma NumberOfNone()
    ensures Number("") == 0
  {
  }

  // ---- options are read so ----

  /** What was read so far is in force. */
  predicate InForce(h: Header, fmt: string, i: nat)
    requires i <= |fmt|
  {
    h.little == !Big(fmt, i) && h.maxalign == MaxAlign(fmt, i)
  }

  /** The numeral of `c` was not read to its end: a digit is taken for an option. */
  predicate Stray(fmt: string, i: nat) { i < |fmt| && '0' <= fmt[i] <= '9' }

  lemma StrayFails(h: Header, fmt: string, i: nat)
    requires Stray(fmt, i) && GoodHeader(h)
    ensures GetOption(h, fmt, i) == Err(BadOption)
  {
  }

  lemma LastOfNext(fmt: string, i: nat, j: nat, cs: set<char>)
    requires i < j <= |fmt| && forall k | i < k < j :: fmt[k] !in cs
    ensures LastOf(fmt, j, cs) == if fmt[i] in cs then i else LastOf(fmt, i, cs)
  {
    if j > i + 1 { LastOfNext(fmt, i, j - 1, cs); }
  }

  /** After a letter and its numeral, that letter may have changed what is in force. */
  lemma InForceNext(fmt: string, i: nat, j: nat)
    requires i < j <= |fmt| && forall k | i < k < j :: '0' <= fmt[k] <= '9'
    ensures Big(fmt, j) == if fmt[i] in {'<', '>', '='} then fmt[i] == '>' else Big(fmt, i)
    ensures MaxAlign(fmt, j) == if fmt[i] == '!' then NumeralOr(fmt, i + 1, 8) else MaxAlign(fmt, i)
  {
    LastOfNext(fmt, i, j, {'<', '>', '='});
    LastOfNext(fmt, i, j, {'!'});
  }

  lemma LetterIs(h: Header, fmt: string, i: nat, kind: KOption, size: nat)
    requires i < |fmt| && GoodHeader(h) && fmt[i] !in {'i', 'I', 's', 'c', '!'}
    ensures GetOption(h, fmt, i).Ok? ==> GetOption(h, fmt, i).value.at == i + 1
    ensures var o := GetOption(h, fmt, i); o.Ok? && o.value.kind == kind && o.value.size == size <==> Selects(fmt, i, kind, size)
    ensures var o := GetOption(h, fmt, i);
      o.Ok? ==> o.value.h == if fmt[i] in {'<', '='} then h.(little := true) else if fmt[i] == '>' then h.(little := false) else h
  {
  }

  lemma LimitedIs(fmt: string, i: nat, df: nat)
    requires i <= |fmt| && df <= 16
    ensures LimitedNumeral(fmt, i, df).Ok? <==> 1 <= NumeralOr(fmt, i, df) <= 16
    ensures LimitedNumeral(fmt, i, df).Ok? ==> LimitedNumeral(fmt, i, df).value.0 == NumeralOr(fmt, i, df)
    ensures LimitedNumeral(fmt, i, df).Ok? ==> LimitedNumeral(fmt, i, df).value.1 == DigitsEnd(fmt, i)
  {
    hide Numeral, NumeralOr, DigitsEnd;
    NumeralIs(fmt, i, df);
  }

  lemma NumberedIs(h: Header, fmt: string, i: nat, kind: KOption, size: nat)
    requires i < |fmt| && GoodHeader(h) && fmt[i] in {'i', 'I', 's', '!'}
    ensures GetOption(h, fmt, i).Ok? ==> GetOption(h, fmt, i).value.at == DigitsEnd(fmt, i + 1)
    ensures var o := GetOption(h, fmt, i); o.Ok? && o.value.kind == kind && o.value.size == size <==> Selects(fmt, i, kind, size)
    ensures var o := GetOption(h, fmt, i);
      o.Ok? ==> o.value.h.little == h.little && o.value.h.maxalign == if fmt[i] == '!' then NumeralOr(fmt, i + 1, 8) else h.maxalign
  {
    hide LimitedNumeral, NumeralOr, DigitsEnd;
    LimitedIs(fmt, i + 1, if fmt[i] in {'s', '!'} then 8 else 4);
  }

  lemma FixedIs(h: Header, fmt: string, i: nat, kind: KOption, size: nat)
    requires i < |fmt| && GoodHeader(h) && fmt[i] == 'c'
    ensures GetOption(h, fmt, i).Ok? ==> GetOption(h, fmt, i).value.h == h && GetOption(h, fmt, i).value.kind == Kchar
    ensures GetOption(h, fmt, i).Ok? ==> var o := GetOption(h, fmt, i).value;
      if Selects(fmt, i, o.kind, o.size) then o.at == DigitsEnd(fmt, i + 1) else Stray(fmt, o.at)
    ensures Selects(fmt, i, kind, size) ==> var o := GetOption(h, fmt, i); o.Ok? && o.value.kind == kind && o.value.size == size
  {
    hide Numeral, NumeralOr;
    NumeralIs(fmt, i + 1, -1);
  }

  /** `getoption` reads the option that the text says, and keeps what is in force. */
  lemma OptionIs(h: Header, fmt: string, i: nat, kind: KOption, size: nat)
    requires i < |fmt| && GoodHeader(h) && InForce(h, fmt, i)
    ensures GetOption(h, fmt, i).Ok? ==> var o := GetOption(h, fmt, i).value;
      if Selects(fmt, i, o.kind, o.size) then o.at == LetterEnd(fmt, i) && InForce(o.h, fmt, o.at)
      else o.kind.Kchar? && Stray(fmt, o.at)
    ensures Selects(fmt, i, kind, size) ==> var o := GetOption(h, fmt, i); o.Ok? && o.value.kind == kind && o.value.size == size
    ensures GetOption(h, fmt, i).Ok? && GetOption(h, fmt, i).value.size > 0 ==> GetOption(h, fmt, i).value.h == h
  {
    var o := GetOption(h, fmt, i);
    if fmt[i] in {'i', 'I', 's', '!'} {
      NumberedIs(h, fmt, i, kind, size);
      if o.Ok? { NumberedIs(h, fmt, i, o.value.kind, o.value.size); }
    } else if fmt[i] == 'c' {
      FixedIs(h, fmt, i, kind, size);
    } else {
      LetterIs(h, fmt, i, kind, size);
      if o.Ok? { LetterIs(h, fmt, i, o.value.kind, o.value.size); }
    }
    hide Selects;
    InForceNext(fmt, i, LetterEnd(fmt, i));
  }

  // ---- alignment is so ----

  lemma PaddingIsOne(total: nat, align: nat, n: nat)
    requires align > 0
    ensures n == Padding(total, align) <==> n < align && (total + n) % align == 0
  {
    var p := Padding(total, align);
    if n < align && (total + n) % align == 0 {
      var q, r := (total + n) / align, (total + p) / align;
      assert align * q - align * r == n - p;
      PackNumber.MulNext(align, q, r);
      PackNumber.MulNext(align, r, q);
    }
  }

  lemma KindOfX(h: Header, fmt: string, i: nat)
    requires i < |fmt| && GoodHeader(h) && GetOption(h, fmt, i).Ok?
    ensures GetOption(h, fmt, i).value.kind.Kpaddalign? <==> fmt[i] == 'X'
    ensures fmt[i] == 'X' ==> GetOption(h, fmt, i).value == Option(Kpaddalign, 0, i + 1, h)
  {
    hide LimitedNumeral, Numeral;
  }

  /** The option after an `X`. */
  lemma NextSays(h: Header, total: nat, fmt: string, i: nat, d: Details) returns (align: nat)
    requires i < |fmt| && GoodHeader(h) && InForce(h, fmt, i) && fmt[i] == 'X' && GetDetails(h, total, fmt, i) == Ok(d)
    ensures Says(fmt, i, d.kind, d.size, align) && align > 0 && d.pad == Padding(total, align) && d.at == OptionEnd(fmt, i) && InForce(d.h, fmt, d.at)
  {
    hide Selects, MaxAlign, Big, LetterEnd, GetOption, AlignedBy;
    var o := GetOption(h, fmt, i).value;
    KindOfX(h, fmt, i);
    OptionIs(h, fmt, i, o.kind, o.size);
    InForceNext(fmt, i, i + 1);
    var next := GetOption(o.h, fmt, o.at).value;
    OptionIs(o.h, fmt, o.at, next.kind, next.size);
    align := AlignOf(o.(at := next.at, h := next.h), next.size, total, fmt, i);
    assert AlignsOnly(fmt, i, next.kind, next.size, align);
  }

  lemma AlignOf(o: Option, n: nat, total: nat, fmt: string, i: nat) returns (align: nat)
    requires GoodHeader(o.h) && i <= |fmt| && (n > 1 ==> o.h.maxalign == MaxAlign(fmt, i)) && Aligned(o, n, total).Ok?
    ensures AlignedBy(fmt, i, if o.kind.Kchar? then 1 else n, align) && align > 0
    ensures Aligned(o, n, total).value == Details(o.kind, o.size, Padding(total, align), o.at, o.h)
  {
    align := if n <= 1 || o.kind.Kchar? then 1 else if n > o.h.maxalign then o.h.maxalign else n;
  }

  lemma AlignedSo(o: Option, n: nat, total: nat, fmt: string, i: nat, align: nat)
    requires GoodHeader(o.h) && i <= |fmt| && (n > 1 ==> o.h.maxalign == MaxAlign(fmt, i)) && AlignedBy(fmt, i, if o.kind.Kchar? then 1 else n, align)
    ensures align > 0 && Aligned(o, n, total) == Ok(Details(o.kind, o.size, Padding(total, align), o.at, o.h))
  {
  }

  /** `getdetails` says what the text says; but for a stray digit that follows. */
  lemma DetailsSay(h: Header, total: nat, fmt: string, i: nat, d: Details) returns (align: nat)
    requires i < |fmt| && GoodHeader(h) && InForce(h, fmt, i) && GetDetails(h, total, fmt, i) == Ok(d)
    requires !(d.kind.Kchar? && Stray(fmt, d.at))
    ensures Says(fmt, i, d.kind, d.size, align) && align > 0 && d.pad == Padding(total, align) && d.at == OptionEnd(fmt, i) && InForce(d.h, fmt, d.at)
  {
    hide Selects, MaxAlign, Big, LetterEnd, GetOption, AlignedBy, Aligned;
    if fmt[i] == 'X' {
      align := NextSays(h, total, fmt, i, d);
    } else {
      var o := GetOption(h, fmt, i).value;
      OptionIs(h, fmt, i, o.kind, o.size);
      KindOfX(h, fmt, i);
      align := AlignOf(o, o.size, total, fmt, i);
    }
  }

  lemma NextDetails(h: Header, total: nat, fmt: string, i: nat, k: KOption, n: nat, align: nat)
    requires GoodHeader(h) && i < |fmt| && fmt[i] == 'X' && InForce(h, fmt, i) && AlignsOnly(fmt, i, k, n, align)
    ensures align > 0 && GetDetails(h, total, fmt, i) == Ok(Details(Kpaddalign, 0, Padding(total, align), OptionEnd(fmt, i), h)) && InForce(h, fmt, OptionEnd(fmt, i))
  {
    hide Selects, MaxAlign, Big, LetterEnd, GetOption, AlignedBy, Aligned, InForce, Padding;
    SelectsSome(fmt, i + 1, k, n);
    InForceAfterX(h, fmt, i);
    XIs(h, fmt, i);
    OptionIs(h, fmt, i + 1, k, n);
    var next := GetOption(h, fmt, i + 1).value;
    AlignedSo(Option(Kpaddalign, 0, next.at, h), n, total, fmt, i, align);
  }

  lemma InForceAfterX(h: Header, fmt: string, i: nat)
    requires i < |fmt| && fmt[i] == 'X' && InForce(h, fmt, i)
    ensures InForce(h, fmt, i + 1) && h.maxalign == MaxAlign(fmt, i)
  {
    InForceNext(fmt, i, i + 1);
  }

  lemma SelectsSome(fmt: string, i: nat, k: KOption, n: nat)
    requires Selects(fmt, i, k, n)
    ensures i < |fmt| && Cur(fmt, i) != '\0'
  {
    hide NumeralOr;
  }

  lemma XIs(h: Header, fmt: string, i: nat)
    requires i < |fmt| && GoodHeader(h) && fmt[i] == 'X'
    ensures GetOption(h, fmt, i) == Ok(Option(Kpaddalign, 0, i + 1, h))
  {
  }

  /** What the text says is what `getdetails` takes it for. */
  lemma SaysDetails(h: Header, total: nat, fmt: string, i: nat, kind: KOption, size: nat, align: nat)
    requires GoodHeader(h) && i < |fmt| && InForce(h, fmt, i) && Says(fmt, i, kind, size, align)
    ensures align > 0 && GetDetails(h, total, fmt, i).Ok?
    ensures var d := GetDetails(h, total, fmt, i).value;
      d.kind == kind && d.size == size && d.pad == Padding(total, align) && d.at == OptionEnd(fmt, i) && InForce(d.h, fmt, d.at)
  {
    hide Selects, MaxAlign, Big, LetterEnd, GetOption, AlignedBy, Aligned, AlignsOnly;
    if fmt[i] == 'X' {
      var k, n: nat :| AlignsOnly(fmt, i, k, n, align);
      NextDetails(h, total, fmt, i, k, n, align);
    } else {
      OptionIs(h, fmt, i, kind, size);
      var o := GetOption(h, fmt, i).value;
      KindOfX(h, fmt, i);
      AlignedSo(o, size, total, fmt, i, align);
    }
  }
}
