/** Numbers in decimal, padded to three digits, and the order of strings. */
module Decimal {
  predicate IsDigit(c: char) { '0' <= c <= '9' }

  predicate AllDigits(s: string) { forall i :: 0 <= i < |s| ==> IsDigit(s[i]) }

  function DigitOf(d: nat): (c: char)
    requires d < 10
    ensures IsDigit(c) && c as int == '0' as int + d
  {
    '0' + d as char
  }

  function Digits(n: nat): (s: string)
    ensures |s| >= 1 && AllDigits(s)
  {
    (if n < 10 then "" else Digits(n / 10)) + [DigitOf(n % 10)]
  }

  /** `n.toString().padStart(3, '0')`. */
  function Padded(n: nat): (s: string)
    ensures |s| >= 3 && AllDigits(s)
  {
    var s := Digits(n);
    if |s| == 1 then "00" + s else if |s| == 2 then "0" + s else s
  }

  function Value(s: string): nat
    requires AllDigits(s)
  {
    if s == "" then 0 else 10 * Value(s[..|s| - 1]) + (s[|s| - 1] as int - '0' as int)
  }

  function Pow10(n: nat): (p: nat)
    ensures p >= 1
  {
    if n == 0 then 1 else 10 * Pow10(n - 1)
  }

  lemma ValueOfMore(s: string, c: char)
    requires AllDigits(s) && IsDigit(c)
    ensures AllDigits(s + [c]) && Value(s + [c]) == 10 * Value(s) + (c as int - '0' as int)
  {
    assert (s + [c])[..|s|] == s;
  }

  lemma {:induction false} DigitsValue(n: nat)
    ensures Value(Digits(n)) == n
  {
    if n >= 10 {
      DigitsValue(n / 10);
      ValueOfMore(Digits(n / 10), DigitOf(n % 10));
    } else {
      ValueOfMore("", DigitOf(n));
    }
  }

  /** Leading zeros do not count. */
  lemma {:induction false} ZeroInFront(s: string)
    requires AllDigits(s)
    ensures Value("0" + s) == Value(s)
  {
    var z := "0" + s;
    assert AllDigits(z);
    if s == "" {
      assert z[..0] == "";
    } else {
      ZeroInFront(s[..|s| - 1]);
      assert z[..|z| - 1] == "0" + s[..|s| - 1];
    }
  }

  lemma PaddedValue(n: nat)
    ensures Value(Padded(n)) == n
  {
    var s := Digits(n);
    DigitsValue(n);
    ZeroInFront(s);
    ZeroInFront("0" + s);
    assert "00" + s == "0" + ("0" + s);
  }

  lemma {:induction false} DigitsLength(n: nat, w: nat)
    requires w >= 1
    ensures |Digits(n)| <= w <==> n < Pow10(w)
    decreases n
  {
    if n < 10 {
      assert Pow10(w) == 10 * Pow10(w - 1);
    } else if w >= 2 {
      DigitsLength(n / 10, w - 1);
    } else {
      assert Pow10(1) == 10 * Pow10(0);
    }
  }

  /** The codes of `w` characters or less are those of the numbers below 10^w. */
  lemma PaddedLength(n: nat, w: nat)
    requires w >= 3
    ensures |Padded(n)| <= w <==> n < Pow10(w)
  {
    DigitsLength(n, w);
  }

  /** Ten to the `w` starts with a one, the number before it with a nine. */
  lemma {:induction false} Heads(w: nat)
    requires w >= 1
    ensures Digits(Pow10(w))[0] == '1' && Digits(Pow10(w) - 1)[0] == '9'
  {
    if w == 1 {
      assert Pow10(1) == 10 * Pow10(0) == 10;
      assert Digits(1) == "1" && Digits(9) == "9";
    } else {
      Heads(w - 1);
      assert Pow10(w) / 10 == Pow10(w - 1) && (Pow10(w) - 1) / 10 == Pow10(w - 1) - 1;
      assert Pow10(w - 1) == 10 * Pow10(w - 2);
    }
  }

  // ---------------------------------------------------------------- string order

  predicate Less(a: string, b: string) {
    b != "" && (a == "" || a[0] < b[0] || (a[0] == b[0] && Less(a[1..], b[1..])))
  }

  lemma {:induction false} LessOrder(a: string, b: string, c: string)
    ensures !Less(a, a)
    ensures Less(a, b) && Less(b, c) ==> Less(a, c)
    ensures Less(a, b) || a == b || Less(b, a)
  {
    if a != "" {
      LessOrder(a[1..], if b == "" then "" else b[1..], if c == "" then "" else c[1..]);
      assert b != "" && a[0] == b[0] && a[1..] == b[1..] ==> a == [a[0]] + a[1..] == b;
    }
  }

  lemma {:induction false} LessAfterPrefix(p: string, a: string, b: string)
    ensures Less(p + a, p + b) <==> Less(a, b)
  {
    if p == "" {
      assert p + a == a && p + b == b;
    } else {
      LessAfterPrefix(p[1..], a, b);
      assert (p + a)[1..] == p[1..] + a && (p + b)[1..] == p[1..] + b;
    }
  }

  lemma {:induction false} LessAtEnd(a: string, b: string, x: char, y: char)
    requires |a| == |b|
    ensures Less(a + [x], b + [y]) <==> Less(a, b) || (a == b && x < y)
  {
    if a != "" {
      LessAtEnd(a[1..], b[1..], x, y);
      assert (a + [x])[1..] == a[1..] + [x] && (b + [y])[1..] == b[1..] + [y];
      assert a == [a[0]] + a[1..] && b == [b[0]] + b[1..];
    }
  }

  /** Among numbers written with the same number of digits, string order is number order. */
  lemma {:induction false} SameLengthOrder(a: string, b: string)
    requires AllDigits(a) && AllDigits(b) && |a| == |b|
    ensures Less(a, b) <==> Value(a) < Value(b)
    ensures a == b <==> Value(a) == Value(b)
  {
    if a != "" {
      var n := |a| - 1;
      SameLengthOrder(a[..n], b[..n]);
      LessAtEnd(a[..n], b[..n], a[n], b[n]);
      assert a == a[..n] + [a[n]] && b == b[..n] + [b[n]];
    }
  }

  /** Adding a digit breaks it: 10^w sorts before 10^w - 1. */
  lemma LongerSortsFirst(w: nat)
    requires w >= 3
    ensures Less(Padded(Pow10(w)), Padded(Pow10(w) - 1))
  {
    Heads(w);
    DigitsLength(Pow10(w), w);
    assert |Digits(Pow10(w))| >= 3;
    assert Pow10(w) - 1 >= Pow10(w - 1) by {
      assert Pow10(w) == 10 * Pow10(w - 1);
    }
    DigitsLength(Pow10(w) - 1, w - 1);
    assert |Digits(Pow10(w) - 1)| >= 3;
  }
}

/** The plan code backfill of src/db/migrations.ts: `AP-<year>-<number>`. */
module Numbering {
  import opened Common
  import opened Filling
  import opened Decimal

  // ---------------------------------------------------------------- the two queries

  predicate StartsWith(s: string, prefix: string) {
    |prefix| <= |s| && s[..|prefix|] == prefix
  }

  function Prefix(year: nat): (p: string)
    ensures StartsWith(p, "AP-") && p[|p| - 1] == '-'
  {
    "AP-" + Digits(year) + "-"
  }

  function Code(prefix: string, n: nat): (s: string)
    ensures StartsWith(s, prefix) && s[|prefix|..] == Padded(n)
  {
    prefix + Padded(n)
  }

  /** `plan_code IS NULL OR plan_code = '' OR plan_code NOT LIKE 'AP-%'`. */
  predicate Missing(code: Option<string>) {
    code.None? || code.value == "" || !StartsWith(code.value, "AP-")
  }

  predicate Matches(code: Option<string>, prefix: string) {
    code.Some? && StartsWith(code.value, prefix)
  }

  /** `WHERE plan_code LIKE prefix% ORDER BY plan_code DESC LIMIT 1`. */
  function Latest(codes: Codes, prefix: string): (r: Option<string>)
    ensures r.Some? ==> r in codes && Matches(r, prefix)
    ensures r.None? ==> forall i :: 0 <= i < |codes| ==> !Matches(codes[i], prefix)
  {
    if codes == [] then None
    else
      var rest := Latest(codes[1..], prefix);
      if Matches(codes[0], prefix) && (rest.None? || Less(rest.value, codes[0].value)) then codes[0] else rest
  }

  lemma {:induction false} LatestIsGreatest(codes: Codes, prefix: string)
    ensures forall i :: 0 <= i < |codes| && Matches(codes[i], prefix) ==>
              Latest(codes, prefix).Some? && !Less(Latest(codes, prefix).value, codes[i].value)
  {
    if codes != [] {
      LatestIsGreatest(codes[1..], prefix);
      var rest := Latest(codes[1..], prefix);
      forall i | 0 <= i < |codes| && Matches(codes[i], prefix)
        ensures Latest(codes, prefix).Some? && !Less(Latest(codes, prefix).value, codes[i].value)
      {
        var code := codes[i].value;
        LessOrder(code, code, code);
        if rest.Some? && codes[0].Some? {
          LessOrder(rest.value, codes[0].value, code);
        }
      }
    }
  }

  // ---------------------------------------------------------------- the number of the latest code

  /** The last of the parts between hyphens. */
  function LastPart(s: string): string {
    if s == "" || s[|s| - 1] == '-' then "" else LastPart(s[..|s| - 1]) + [s[|s| - 1]]
  }

  predicate IsSpace(c: char) {
    || c in {' ', '\t', '\n', '\r', '\U{0B}', '\U{0C}', '\U{A0}', '\U{1680}'}
    || '\U{2000}' <= c <= '\U{200A}'
    || c in {'\U{2028}', '\U{2029}', '\U{202F}', '\U{205F}', '\U{3000}', '\U{FEFF}'}
  }

  function TrimStart(s: string): (r: string)
    ensures |r| <= |s|
  {
    if s != "" && IsSpace(s[0]) then TrimStart(s[1..]) else s
  }

  function HexDigit(c: char): (d: Option<nat>)
    ensures d.Some? ==> d.value < 16
  {
    if IsDigit(c) then Some(c as int - '0' as int)
    else if 'a' <= c <= 'f' then Some(c as int - 'a' as int + 10)
    else if 'A' <= c <= 'F' then Some(c as int - 'A' as int + 10)
    else None
  }

  /** The number that the leading digits make, when there is one. */
  function LeadingNumber(s: string, radix: nat, soFar: Option<nat>): Option<nat>
    decreases |s|
  {
    if s == "" then soFar
    else
      match HexDigit(s[0])
      case Some(d) =>
        if d < radix
        then LeadingNumber(s[1..], radix, Some(radix * (match soFar case Some(n) => n case None => 0) + d))
        else soFar
      case None => soFar
  }

  /** JavaScript's `parseInt(s)`. A last part has no hyphen, so no minus sign. */
  function ParseInt(s: string): Option<nat> {
    var t := TrimStart(s);
    var u := if t != "" && t[0] == '+' then t[1..] else t;
    if |u| >= 2 && u[0] == '0' && u[1] in {'x', 'X'} then LeadingNumber(u[2..], 16, None) else LeadingNumber(u, 10, None)
  }

  lemma {:induction false} LastPartOfDigits(p: string, s: string)
    requires p != "" && p[|p| - 1] == '-' && AllDigits(s)
    ensures LastPart(p + s) == s
  {
    if s == "" {
      assert p + s == p;
    } else {
      var n := |s| - 1;
      LastPartOfDigits(p, s[..n]);
      assert (p + s)[..|p + s| - 1] == p + s[..n];
      assert s == s[..n] + [s[n]];
    }
  }

  lemma {:induction false} LeadingNumberOfDigits(s: string, t: string)
    requires AllDigits(s) && AllDigits(t) && s != ""
    ensures LeadingNumber(t, 10, Some(Value(s))) == Some(Value(s + t))
    decreases |t|
  {
    if t == "" {
      assert s + t == s;
    } else {
      var s' := s + [t[0]];
      assert s'[..|s'| - 1] == s;
      assert s' + t[1..] == s + t;
      LeadingNumberOfDigits(s', t[1..]);
    }
  }

  lemma ParseIntOfDigits(s: string)
    requires AllDigits(s) && s != ""
    ensures ParseInt(s) == Some(Value(s))
  {
    assert IsDigit(s[0]) && (|s| >= 2 ==> IsDigit(s[1]));
    assert TrimStart(s) == s;
    var first := [s[0]];
    assert first[..0] == "" && Value(first) == s[0] as int - '0' as int;
    assert first + s[1..] == s;
    LeadingNumberOfDigits(first, s[1..]);
  }

  // ---------------------------------------------------------------- the backfill

  function NextNumber(codes: Codes, prefix: string): nat {
    match Latest(codes, prefix)
    case None => 1
    case Some(latest) =>
      match ParseInt(LastPart(latest))
      case None => 1
      case Some(n) => n + 1
  }

  function NextCode(prefix: string): Codes -> string {
    (codes: Codes) => Code(prefix, NextNumber(codes, prefix))
  }

  /**
  The backfill loop over the rows that a query, in some order, found to have no valid code. An
  update that violates the unique key ends it: the `catch` is outside the loop.
  */
  method Backfill(codes: Codes, order: seq<nat>, year: nat) returns (r: Codes, completed: bool)
    requires RowsOf(order, codes)
    ensures r == Filled(codes, order, NextCode(Prefix(year)))
    ensures completed <==> CountFilled(codes, order, NextCode(Prefix(year))) == |order|
  {
    r := codes;
    ghost var next := NextCode(Prefix(year));
    for i := 0 to |order|
      invariant |r| == |codes| && RowsOf(order[i..], r)
      invariant Filled(codes, order, next) == Filled(r, order[i..], next)
      invariant CountFilled(codes, order, next) == i + CountFilled(r, order[i..], next)
    {
      var prefix := Prefix(year);
      var latest := Latest(r, prefix);
      var nextNum := 1;
      if latest.Some? {
        var lastNum := ParseInt(LastPart(latest.value));
        if lastNum.Some? {
          nextNum := lastNum.value + 1;
        }
      }
      var planCode := prefix + Padded(nextNum);
      assert planCode == next(r);
      assert order[i..][0] == order[i] && order[i..][1..] == order[i + 1..];
      if Taken(r, order[i], planCode) {
        return r, false;
      }
      r := r[order[i] := Some(planCode)];
    }
    return r, true;
  }

  // ---------------------------------------------------------------- what it issues

  ghost predicate IsPrefix(prefix: string) {
    prefix != "" && prefix[|prefix| - 1] == '-'
  }

  /**
  The codes of a prefix, of numbers of `w` characters: from 10^w on they have more, and with
  three characters they begin at zero.
  */
  function NumbersOf(prefix: string, w: nat): Numbers {
    Numbers((code: Option<string>) => Matches(code, prefix), (n: nat) => Code(prefix, n), (n: nat) => |Padded(n)| == w, Pow10(w), w == 3)
  }

  lemma NumberOfCode(prefix: string, m: nat)
    requires IsPrefix(prefix)
    ensures ParseInt(LastPart(Code(prefix, m))) == Some(m)
  {
    assert Code(prefix, m) == prefix + Padded(m);
    LastPartOfDigits(prefix, Padded(m));
    ParseIntOfDigits(Padded(m));
    PaddedValue(m);
  }

  /** The code of `top` is the last in string order. */
  lemma TopIsLast(prefix: string, w: nat, top: nat, m: nat)
    requires w >= 3 && top < Pow10(w) && |Padded(top)| == w
    requires (|Padded(m)| == w && m <= top) || (m == Pow10(w) && top + 1 == Pow10(w))
    ensures m == top || Less(Code(prefix, m), Code(prefix, top))
  {
    LessAfterPrefix(prefix, Padded(m), Padded(top));
    assert Code(prefix, m) == prefix + Padded(m) && Code(prefix, top) == prefix + Padded(top);
    if |Padded(m)| == w && m <= top {
      PaddedValue(m);
      PaddedValue(top);
      SameLengthOrder(Padded(m), Padded(top));
    } else {
      LongerSortsFirst(w);
    }
  }

  lemma LatestIsTop(codes: Codes, prefix: string, w: nat, top: nat)
    requires w >= 3 && Standing(codes, NumbersOf(prefix, w), top) && !NoneCounted(codes, NumbersOf(prefix, w))
    ensures Latest(codes, prefix) == Some(Code(prefix, top))
  {
    var p, latest := NumbersOf(prefix, w), Latest(codes, prefix);
    var i :| 0 <= i < |codes| && p.counted(codes[i]);
    assert Matches(codes[i], prefix);
    LatestIsGreatest(codes, prefix);
    var t :| 0 <= t < |codes| && codes[t] == Some(p.code(top));
    assert Matches(codes[t], prefix);
    var l :| 0 <= l < |codes| && codes[l] == latest;
    assert p.counted(codes[l]);
    var m: nat :| latest == Some(p.code(m)) && ((p.usual(m) && m <= top) || (m == p.cap && top + 1 == p.cap));
    TopIsLast(prefix, w, top, m);
  }

  lemma NextAfterTop(codes: Codes, prefix: string, w: nat, top: nat)
    requires IsPrefix(prefix) && w >= 3 && Standing(codes, NumbersOf(prefix, w), top)
    ensures NextNumber(codes, prefix) == top + 1
  {
    var p := NumbersOf(prefix, w);
    if NoneCounted(codes, p) {
      NoneLatest(codes, prefix, w);
      assert p.counted(Some(p.code(top)));
    } else {
      LatestIsTop(codes, prefix, w, top);
      NumberOfCode(prefix, top);
    }
  }

  lemma NoneLatest(codes: Codes, prefix: string, w: nat)
    requires NoneCounted(codes, NumbersOf(prefix, w))
    ensures Latest(codes, prefix) == None
  {
    assert forall i :: 0 <= i < |codes| ==> !NumbersOf(prefix, w).counted(codes[i]);
    assert forall i :: 0 <= i < |codes| ==> !Matches(codes[i], prefix);
  }

  lemma AboveZero(w: nat, top: nat)
    requires w >= 3 && top + 1 < Pow10(w) && (|Padded(top)| == w || (w == 3 && top == 0))
    ensures |Padded(top + 1)| == w
  {
    PaddedLength(top + 1, w);
    if w > 3 {
      PaddedLength(top, w - 1);
      PaddedLength(top + 1, w - 1);
    }
  }

  lemma CodeIsInjective(prefix: string, m: nat, n: nat)
    ensures Code(prefix, m) == Code(prefix, n) <==> m == n
  {
    PaddedValue(m);
    PaddedValue(n);
  }

  /** A code is its parts: `AP`, the year and the number. */
  lemma CodeShows(year: nat, m: nat) returns (y: string)
    ensures AllDigits(y) && Value(y) == year
    ensures Code(Prefix(year), m) == "AP-" + y + "-" + Padded(m)
    ensures ParseInt(LastPart(Code(Prefix(year), m))) == Some(m)
  {
    y := Digits(year);
    DigitsValue(year);
    NumberOfCode(Prefix(year), m);
  }

  /** The codes of a year are not counted in another. */
  lemma YearsApart(year: nat, other: nat, m: nat)
    ensures Matches(Some(Code(Prefix(other), m)), Prefix(year)) <==> year == other
  {
    if Matches(Some(Code(Prefix(other), m)), Prefix(year)) {
      SameDigits(Digits(year), Digits(other), Padded(m));
      DigitsValue(year);
      DigitsValue(other);
    }
  }

  /** Digits end where the hyphen stands. */
  lemma SameDigits(a: string, b: string, t: string)
    requires AllDigits(a) && AllDigits(b) && StartsWith("AP-" + b + "-" + t, "AP-" + a + "-")
    ensures a == b
  {
    var whole, front := "AP-" + b + "-" + t, "AP-" + a + "-";
    assert forall k :: 0 <= k < |front| ==> whole[k] == whole[..|front|][k] == front[k];
    assert whole[3 + |b|] == '-' && front[3 + |a|] == '-';
    assert forall k :: 0 <= k < |b| ==> whole[3 + k] == b[k] != '-';
    assert forall k :: 0 <= k < |a| ==> front[3 + k] == a[k] != '-';
    assert |a| == |b|;
    assert forall k :: 0 <= k < |a| ==> a[k] == front[3 + k] == whole[3 + k] == b[k];
  }

  function Valid(): Option<string> -> bool { (code: Option<string>) => !Missing(code) }

  /** The rows are the ones that the first query found. */
  ghost predicate MissingRows(codes: Codes, order: seq<nat>) {
    Selected(codes, order, Valid())
  }

  lemma MatchingIsNotMissing(code: Option<string>, year: nat)
    ensures Matches(code, Prefix(year)) ==> !Missing(code)
  {
    assert forall s :: StartsWith(s, Prefix(year)) ==> s[..3] == Prefix(year)[..3];
  }

  lemma MissingAreFillable(codes: Codes, order: seq<nat>, year: nat, w: nat)
    requires MissingRows(codes, order)
    ensures Fillable(codes, order, NumbersOf(Prefix(year), w))
  {
    forall k | 0 <= k < |order|
      ensures !NumbersOf(Prefix(year), w).counted(codes[order[k]])
    {
      assert order[k] in order;
      MatchingIsNotMissing(codes[order[k]], year);
    }
  }

  lemma NumbersAreLawful(prefix: string, w: nat)
    requires IsPrefix(prefix) && w >= 3
    ensures Lawful(NumbersOf(prefix, w), NextCode(prefix)) && CodesDiffer(NumbersOf(prefix, w))
  {
    var p := NumbersOf(prefix, w);
    assert p.cap >= 2 by { assert Pow10(w) == 10 * Pow10(w - 1); }
    forall j: nat, k: nat | p.code(j) == p.code(k)
      ensures j == k
    {
      CodeIsInjective(prefix, j, k);
    }
    forall m: nat | Number(m)
      ensures m + 1 < p.cap && (p.usual(m) || (p.fromZero && m == 0)) ==> p.usual(m + 1)
    {
      if m + 1 < p.cap && (p.usual(m) || (p.fromZero && m == 0)) {
        AboveZero(w, m);
      }
    }
    forall codes: Codes, top: nat | Standing(codes, p, top)
      ensures NextCode(prefix)(codes) == p.code(top + 1)
    {
      NextAfterTop(codes, prefix, w, top);
    }
  }

  /**
  When the year's codes are numbers of `w` characters up to `top`, the missing rows get the
  numbers that follow, as far as 10^w, and the rest get none.
  */
  lemma IssuedNumbers(codes: Codes, order: seq<nat>, year: nat, w: nat, top: nat)
    requires w >= 3 && Standing(codes, NumbersOf(Prefix(year), w), top) && MissingRows(codes, order)
    ensures FilledFrom(codes, order, NextCode(Prefix(year)), NumbersOf(Prefix(year), w).code, Pow10(w), top)
  {
    MissingAreFillable(codes, order, year, w);
    NumbersAreLawful(Prefix(year), w);
    FilledCodes(codes, order, top, NumbersOf(Prefix(year), w), NextCode(Prefix(year)));
  }

  lemma ThousandIsPow()
    ensures Pow10(3) == 1000
  {
    assert Pow10(0) == 1 && Pow10(1) == 10 && Pow10(2) == 100;
  }

  /** In a year without codes the first thousand rows are numbered from 1, and the rest are left without a code. */
  lemma ThousandCodes(codes: Codes, order: seq<nat>, year: nat)
    requires MissingRows(codes, order) && forall i :: 0 <= i < |codes| ==> !Matches(codes[i], Prefix(year))
    ensures NumberedFromOne(codes, order, NextCode(Prefix(year)), NumbersOf(Prefix(year), 3).code, 1000)
  {
    ThousandIsPow();
    MissingAreFillable(codes, order, year, 3);
    NumbersAreLawful(Prefix(year), 3);
    NothingCounted(codes, Prefix(year));
    FromNothing(codes, order, NumbersOf(Prefix(year), 3), NextCode(Prefix(year)));
  }

  lemma NothingCounted(codes: Codes, prefix: string)
    requires forall i :: 0 <= i < |codes| ==> !Matches(codes[i], prefix)
    ensures NoneCounted(codes, NumbersOf(prefix, 3))
  {
  }

  /** Whatever the codes were: afterwards none is missing exactly when the loop reached its end. */
  lemma NoneMissingIff(codes: Codes, order: seq<nat>, year: nat)
    requires MissingRows(codes, order)
    ensures GoodIffEnded(codes, order, NextCode(Prefix(year)), Valid())
  {
    var next := NextCode(Prefix(year));
    forall now
      ensures Valid()(Some(next(now)))
    {
      IssuedIsValid(now, year);
    }
    AllGoodIff(codes, order, next, Valid());
  }

  /** And then every row has a code that begins with `AP-`. */
  lemma AllHaveCodes(codes: Codes, order: seq<nat>, year: nat)
    requires MissingRows(codes, order) && CountFilled(codes, order, NextCode(Prefix(year))) == |order|
    ensures forall code :: code in Filled(codes, order, NextCode(Prefix(year))) ==>
              code.Some? && |code.value| >= 3 && code.value[0] == 'A' && code.value[1] == 'P' && code.value[2] == '-'
  {
    NoneMissingIff(codes, order, year);
    forall code | code in Filled(codes, order, NextCode(Prefix(year)))
      ensures code.Some? && |code.value| >= 3 && code.value[0] == 'A' && code.value[1] == 'P' && code.value[2] == '-'
    {
      assert Valid()(code);
      BeginsWithAp(code);
    }
  }

  lemma BeginsWithAp(code: Option<string>)
    requires !Missing(code)
    ensures code.Some? && |code.value| >= 3 && code.value[0] == 'A' && code.value[1] == 'P' && code.value[2] == '-'
  {
    assert code.value[..3] == "AP-";
    assert code.value[0] == code.value[..3][0] && code.value[1] == code.value[..3][1] && code.value[2] == code.value[..3][2];
  }

  lemma IssuedIsValid(now: Codes, year: nat)
    ensures Valid()(Some(NextCode(Prefix(year))(now)))
  {
    MatchingIsNotMissing(Some(Code(Prefix(year), NextNumber(now, Prefix(year)))), year);
  }
}
