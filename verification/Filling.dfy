/** Filling rows one after the other, each with a code that depends on the codes so far. */
module Filling {
  import opened Common

  type Codes = seq<Option<string>>

  ghost predicate RowsOf(order: seq<nat>, codes: Codes) {
    forall k :: 0 <= k < |order| ==> order[k] < |codes|
  }

  /** The unique key: another row has the code. */
  predicate Taken(codes: Codes, row: nat, code: string) {
    exists i :: 0 <= i < |codes| && i != row && codes[i] == Some(code)
  }

  /** How many rows are filled: the first code that another row has ends the loop. */
  function CountFilled(codes: Codes, order: seq<nat>, next: Codes -> string): (n: nat)
    requires RowsOf(order, codes)
    ensures n <= |order|
    decreases |order|
  {
    if order == [] || Taken(codes, order[0], next(codes)) then 0
    else 1 + CountFilled(codes[order[0] := Some(next(codes))], order[1..], next)
  }

  /** The codes when the loop has ended. */
  function Filled(codes: Codes, order: seq<nat>, next: Codes -> string): (r: Codes)
    requires RowsOf(order, codes)
    ensures |r| == |codes|
    decreases |order|
  {
    if order == [] || Taken(codes, order[0], next(codes)) then codes
    else Filled(codes[order[0] := Some(next(codes))], order[1..], next)
  }

  /** No two rows have one code. */
  ghost predicate UniqueCodes(codes: Codes) {
    forall i, j :: 0 <= i < j < |codes| && codes[i].Some? ==> codes[i] != codes[j]
  }

  /** Filling keeps the unique key, and rows whose turn does not come keep their code. */
  lemma {:induction false} FillingKeeps(codes: Codes, order: seq<nat>, next: Codes -> string)
    requires RowsOf(order, codes)
    ensures UniqueCodes(codes) ==> UniqueCodes(Filled(codes, order, next))
    ensures forall i :: 0 <= i < |codes| && i !in order[..CountFilled(codes, order, next)] ==> Filled(codes, order, next)[i] == codes[i]
    decreases |order|
  {
    if order != [] && !Taken(codes, order[0], next(codes)) {
      var after := codes[order[0] := Some(next(codes))];
      FillingKeeps(after, order[1..], next);
      var n := CountFilled(after, order[1..], next);
      assert order[..n + 1] == [order[0]] + order[1..][..n];
    }
  }

  /** Whatever holds of every code that `next` gives holds of the filled rows. */
  lemma {:induction false} FillingGives(codes: Codes, order: seq<nat>, next: Codes -> string, good: Option<string> -> bool)
    requires RowsOf(order, codes) && forall now :: good(Some(next(now)))
    ensures forall i :: 0 <= i < |codes| && (i in order[..CountFilled(codes, order, next)] || good(codes[i])) ==>
              good(Filled(codes, order, next)[i])
    decreases |order|
  {
    if order != [] && !Taken(codes, order[0], next(codes)) {
      var after := codes[order[0] := Some(next(codes))];
      FillingGives(after, order[1..], next, good);
      var n := CountFilled(after, order[1..], next);
      assert order[..n + 1] == [order[0]] + order[1..][..n];
    }
  }

  function Min(a: nat, b: nat): (m: nat) { if a <= b then a else b }

  // ---------------------------------------------------------------- when the codes follow each other

  /** How numbers are written: which codes are counted, the code of a number, whether it has the usual width, and the first number that has not. */
  datatype Numbers = Numbers(counted: Option<string> -> bool, code: nat -> string, usual: nat -> bool, cap: nat, fromZero: bool)

  /** A code of a number of the usual width up to `top`, or of `cap` once the number before it is taken. */
  ghost predicate Within(code: Option<string>, p: Numbers, top: nat) {
    exists m: nat :: code == Some(p.code(m)) && ((p.usual(m) && m <= top) || (m == p.cap && top + 1 == p.cap))
  }

  ghost predicate NoneCounted(codes: Codes, p: Numbers) {
    forall i :: 0 <= i < |codes| ==> !p.counted(codes[i])
  }

  /** All counted codes are within `top`, and `top` is there; or nothing is, and `top` is 0. */
  ghost predicate Standing(codes: Codes, p: Numbers, top: nat) {
    && top < p.cap
    && (forall i :: 0 <= i < |codes| && p.counted(codes[i]) ==> Within(codes[i], p, top))
    && ((Some(p.code(top)) in codes && p.usual(top)) || (p.fromZero && top == 0 && NoneCounted(codes, p)))
  }

  predicate Number(m: nat) { m >= 0 }

  /** Codes are counted, numbers below `cap` keep the usual width, and `next` is the code after `top`. */
  ghost predicate Lawful(p: Numbers, next: Codes -> string) {
    && p.cap >= 2
    && (forall m: nat {:trigger Number(m)} :: Number(m) ==> p.counted(Some(p.code(m))))
    && (forall m: nat {:trigger Number(m)} :: Number(m) && m + 1 < p.cap && (p.usual(m) || (p.fromZero && m == 0)) ==> p.usual(m + 1))
    && (forall codes, top: nat {:trigger Standing(codes, p, top)} :: Standing(codes, p, top) ==> next(codes) == p.code(top + 1))
  }

  ghost predicate CodesDiffer(p: Numbers) {
    forall j, k :: p.code(j) == p.code(k) ==> j == k
  }

  /** One issued code: `top` moves on, until it reaches the number before `cap` and stays there. */
  lemma StandingMoves(codes: Codes, p: Numbers, next: Codes -> string, top: nat, row: nat)
    requires Lawful(p, next) && Standing(codes, p, top) && row < |codes| && !p.counted(codes[row])
    ensures next(codes) == p.code(top + 1)
    ensures Standing(codes[row := Some(p.code(top + 1))], p, Min(top + 1, p.cap - 1))
  {
    var after, top' := codes[row := Some(p.code(top + 1))], Min(top + 1, p.cap - 1);
    assert Number(top);
    assert Within(after[row], p, top');
    forall i | 0 <= i < |after| && p.counted(after[i])
      ensures Within(after[i], p, top')
    {
      if i != row {
        assert Within(codes[i], p, top);
        var m: nat :| codes[i] == Some(p.code(m)) && ((p.usual(m) && m <= top) || (m == p.cap && top + 1 == p.cap));
      }
    }
    TopStays(codes, p, next, top, row);
  }

  lemma TopStays(codes: Codes, p: Numbers, next: Codes -> string, top: nat, row: nat)
    requires Lawful(p, next) && Standing(codes, p, top) && row < |codes| && !p.counted(codes[row])
    ensures var top' := Min(top + 1, p.cap - 1);
            Some(p.code(top')) in codes[row := Some(p.code(top + 1))] && p.usual(top')
  {
    var after := codes[row := Some(p.code(top + 1))];
    assert Number(top);
    if top + 1 < p.cap {
      assert after[row] == Some(p.code(top + 1));
    } else {
      var i :| 0 <= i < |codes| && codes[i] == Some(p.code(top));
      assert after[i] == codes[i];
    }
  }

  /** The rows are different ones whose codes are not counted. */
  ghost predicate Fillable(codes: Codes, order: seq<nat>, p: Numbers) {
    NoDuplicates(order) && RowsOf(order, codes) && forall k :: 0 <= k < |order| ==> !p.counted(codes[order[k]])
  }

  lemma FillableRest(codes: Codes, order: seq<nat>, p: Numbers, code: string)
    requires order != [] && Fillable(codes, order, p)
    ensures Fillable(codes[order[0] := Some(code)], order[1..], p) && order[0] !in order[1..]
  {
    var after, rest := codes[order[0] := Some(code)], order[1..];
    assert forall k :: 0 <= k < |rest| ==> rest[k] == order[k + 1] && rest[k] != order[0];
  }

  /** The numbers left from `top` on: up to `cap`, unless `cap` is there already. */
  ghost function Room(codes: Codes, p: Numbers, top: nat): (n: nat)
    requires top < p.cap
  {
    if Some(p.code(p.cap)) in codes then 0 else p.cap - top
  }

  /** The code after `top` is taken exactly when it is that of `cap` and `cap` is there already. */
  lemma TakenIffNoRoom(codes: Codes, p: Numbers, next: Codes -> string, top: nat, row: nat)
    requires Lawful(p, next) && CodesDiffer(p) && Standing(codes, p, top) && row < |codes| && !p.counted(codes[row])
    ensures Taken(codes, row, p.code(top + 1)) <==> Room(codes, p, top) == 0
  {
    assert Number(top + 1) && Number(p.cap);
    if Taken(codes, row, p.code(top + 1)) {
      var i :| 0 <= i < |codes| && i != row && codes[i] == Some(p.code(top + 1));
      assert Within(codes[i], p, top);
    }
    if Some(p.code(p.cap)) in codes {
      var i :| 0 <= i < |codes| && codes[i] == Some(p.code(p.cap));
      assert Within(codes[i], p, top);
    }
  }

  /** A filled row uses up one of them. */
  lemma RoomShrinks(codes: Codes, p: Numbers, next: Codes -> string, top: nat, row: nat)
    requires Lawful(p, next) && CodesDiffer(p) && Standing(codes, p, top) && row < |codes| && !p.counted(codes[row])
    requires Room(codes, p, top) > 0
    ensures Room(codes[row := Some(p.code(top + 1))], p, Min(top + 1, p.cap - 1)) == Room(codes, p, top) - 1
  {
    var after := codes[row := Some(p.code(top + 1))];
    assert after[row] == Some(p.code(top + 1));
    assert forall i :: 0 <= i < |after| && i != row ==> after[i] == codes[i];
  }

  lemma {:induction false} FilledInTurn(codes: Codes, order: seq<nat>, top: nat, p: Numbers, next: Codes -> string)
    requires Lawful(p, next) && CodesDiffer(p) && Standing(codes, p, top) && Fillable(codes, order, p)
    ensures CountFilled(codes, order, next) == Min(|order|, Room(codes, p, top))
    ensures forall k :: 0 <= k < CountFilled(codes, order, next) ==> Filled(codes, order, next)[order[k]] == Some(p.code(top + k + 1))
    decreases |order|
  {
    if order != [] {
      var row := order[0];
      StandingMoves(codes, p, next, top, row);
      TakenIffNoRoom(codes, p, next, top, row);
      if Room(codes, p, top) > 0 {
        var after, rest, top' := codes[row := Some(p.code(top + 1))], order[1..], Min(top + 1, p.cap - 1);
        FillableRest(codes, order, p, p.code(top + 1));
        RoomShrinks(codes, p, next, top, row);
        FilledInTurn(after, rest, top', p, next);
        FillingKeeps(after, rest, next);
        var n := CountFilled(after, rest, next);
        assert row !in rest[..n];
        forall k | 0 <= k < n + 1
          ensures Filled(codes, order, next)[order[k]] == Some(p.code(top + k + 1))
        {
          if k > 0 {
            assert order[k] == rest[k - 1];
          }
        }
      }
    }
  }

  /**
  The rows get the codes of the numbers after `top`, one after the other, up to `cap`; every
  row that gets none, and every other row, keeps what it had. So the loop reaches its end
  exactly when there is nothing to do, or `cap` is far enough and not there yet.
  */
  ghost predicate FilledFrom(codes: Codes, order: seq<nat>, next: Codes -> string, code: nat -> string, cap: nat, top: nat)
    requires RowsOf(order, codes) && top < cap
  {
    var r, n := Filled(codes, order, next), CountFilled(codes, order, next);
    && (forall k :: 0 <= k < n ==> r[order[k]] == Some(code(top + k + 1)))
    && (forall i :: 0 <= i < |r| && i !in order[..n] ==> r[i] == codes[i])
    && n == Min(|order|, if Some(code(cap)) in codes then 0 else cap - top)
    && (n == |order| <==> order == [] || (top + |order| <= cap && Some(code(cap)) !in codes))
    && (UniqueCodes(codes) ==> UniqueCodes(r))
  }

  lemma FilledCodes(codes: Codes, order: seq<nat>, top: nat, p: Numbers, next: Codes -> string)
    requires Lawful(p, next) && CodesDiffer(p) && Standing(codes, p, top) && Fillable(codes, order, p)
    ensures FilledFrom(codes, order, next, p.code, p.cap, top)
  {
    FilledInTurn(codes, order, top, p, next);
    FillingKeeps(codes, order, next);
  }

  /** The rows that need no code, and no others, are good already. */
  ghost predicate Selected(codes: Codes, order: seq<nat>, good: Option<string> -> bool) {
    && NoDuplicates(order) && RowsOf(order, codes)
    && (forall i :: 0 <= i < |codes| ==> (i in order <==> !good(codes[i])))
  }

  /** Afterwards all rows are good exactly when the loop reached its end. */
  ghost predicate GoodIffEnded(codes: Codes, order: seq<nat>, next: Codes -> string, good: Option<string> -> bool)
    requires RowsOf(order, codes)
  {
    (forall i :: 0 <= i < |codes| ==> good(Filled(codes, order, next)[i])) <==> CountFilled(codes, order, next) == |order|
  }

  lemma AllGoodIff(codes: Codes, order: seq<nat>, next: Codes -> string, good: Option<string> -> bool)
    requires Selected(codes, order, good) && forall now :: good(Some(next(now)))
    ensures GoodIffEnded(codes, order, next, good)
  {
    var n := CountFilled(codes, order, next);
    FillingKeeps(codes, order, next);
    FillingGives(codes, order, next, good);
    if n < |order| {
      assert order[n] !in order[..n] && order[n] in order;
    } else {
      assert order[..n] == order;
    }
  }

  /** The first `cap` rows are numbered from 1, the others keep what they had. */
  ghost predicate NumberedFromOne(codes: Codes, order: seq<nat>, next: Codes -> string, code: nat -> string, cap: nat)
    requires RowsOf(order, codes)
  {
    var r, n := Filled(codes, order, next), CountFilled(codes, order, next);
    && n == Min(|order|, cap)
    && (forall k :: 0 <= k < n ==> r[order[k]] == Some(code(k + 1)))
    && (forall k :: n <= k < |order| ==> r[order[k]] == codes[order[k]])
  }

  lemma FromNothing(codes: Codes, order: seq<nat>, p: Numbers, next: Codes -> string)
    requires Lawful(p, next) && CodesDiffer(p) && NoneCounted(codes, p) && p.fromZero && Fillable(codes, order, p)
    ensures NumberedFromOne(codes, order, next, p.code, p.cap)
  {
    FilledCodes(codes, order, 0, p, next);
    assert Number(p.cap);
    var n := CountFilled(codes, order, next);
    forall k | n <= k < |order|
      ensures Filled(codes, order, next)[order[k]] == codes[order[k]]
    {
      assert order[k] !in order[..n];
    }
  }
}
