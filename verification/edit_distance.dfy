/**
 * str_utf32_dist_buffer of src/base/str.cpp: the two-row table computes the least number of
 * single-element insertions, deletions and substitutions that turn one sequence into another.
 */
module EditDistance {
  import opened Base

  // ---------------------------------------------------------------- what is promised

  datatype Edit = Insert(at: nat, x: int) | Delete(at: nat) | Substitute(at: nat, x: int)

  predicate Fits(e: Edit, s: seq<int>) {
    if e.Insert? then e.at <= |s| else e.at < |s|
  }

  function Edited(e: Edit, s: seq<int>): seq<int>
    requires Fits(e, s)
  {
    match e
    case Insert(i, x) => s[..i] + [x] + s[i..]
    case Delete(i) => s[..i] + s[i + 1..]
    case Substitute(i, x) => s[i := x]
  }

  /** `es` turns `a` into `b`. */
  predicate Turns(a: seq<int>, es: seq<Edit>, b: seq<int>)
    decreases es
  {
    if es == [] then a == b else Fits(es[0], a) && Turns(Edited(es[0], a), es[1..], b)
  }

  // ---------------------------------------------------------------- the recurrence

  function Min3(a: int, b: int, c: int): int {
    Min(a, Min(b, c))
  }

  function Init(s: seq<int>): seq<int>
    requires s != []
  {
    s[..|s| - 1]
  }

  function Last(s: seq<int>): int
    requires s != []
  {
    s[|s| - 1]
  }

  function Subst(x: int, y: int): nat {
    if x != y then 1 else 0
  }

  /** The table entry for two prefixes. */
  function Dist(a: seq<int>, b: seq<int>): (d: nat)
    decreases |a| + |b|
  {
    if a == [] then |b|
    else if b == [] then |a|
    else
      Min3(Dist(Init(a), b) + 1, Dist(a, Init(b)) + 1, Dist(Init(a), Init(b)) + Subst(Last(a), Last(b)))
  }

  lemma {:induction false} DistSymmetric(a: seq<int>, b: seq<int>)
    ensures Dist(a, b) == Dist(b, a)
    decreases |a| + |b|
  {
    if a != [] && b != [] {
      DistSymmetric(Init(a), b);
      DistSymmetric(a, Init(b));
      DistSymmetric(Init(a), Init(b));
    }
  }

  lemma {:induction false} DistSelf(a: seq<int>)
    ensures Dist(a, a) == 0
    decreases |a|
  {
    if a != [] {
      DistSelf(Init(a));
    }
  }

  // ---------------------------------------------------------------- no edit script is shorter

  // Dropping or adding a last element, or changing it, moves the distance by at most one.
  lemma {:induction false} DistDropLast(a: seq<int>, b: seq<int>)
    requires b != []
    ensures Dist(a, Init(b)) <= Dist(a, b) + 1
    decreases |a|
  {
    if a != [] {
      DistDropLast(Init(a), b);
      assert Dist(a, Init(b)) <= Dist(Init(a), Init(b)) + 1;
    }
  }

  lemma {:induction false} DistChangeLast(a: seq<int>, b: seq<int>, c: seq<int>)
    requires b != [] && c != [] && Init(b) == Init(c)
    ensures Dist(a, c) <= Dist(a, b) + 1
    decreases |a|
  {
    if a != [] {
      DistChangeLast(Init(a), b, c);
    }
  }

  lemma EditedKeepsLast(e: Edit, b: seq<int>)
    requires b != [] && Fits(e, Init(b))
    ensures Fits(e, b) && Edited(e, b) == Edited(e, Init(b)) + [Last(b)]
    ensures Edited(e, b) != [] && Init(Edited(e, b)) == Edited(e, Init(b)) && Last(Edited(e, b)) == Last(b)
  {
    assert b == Init(b) + [Last(b)];
  }

  lemma {:induction false} OneEdit(a: seq<int>, e: Edit, b: seq<int>)
    requires Fits(e, b)
    ensures Dist(a, Edited(e, b)) <= Dist(a, b) + 1
    decreases |a| + |b|
  {
    var c := Edited(e, b);
    if b != [] && Fits(e, Init(b)) && !(e.Insert? && e.at == |b|) {
      EditedKeepsLast(e, b);
      OneEdit(a, e, Init(b));
      if a != [] {
        OneEdit(Init(a), e, b);
        OneEdit(Init(a), e, Init(b));
      }
    } else {
      match e {
        case Insert(i, x) =>
          assert c == b + [x];
          assert Init(c) == b;
        case Delete(i) =>
          assert c == Init(b);
          DistDropLast(a, b);
        case Substitute(i, x) =>
          assert Init(c) == Init(b);
          DistChangeLast(a, b, c);
      }
    }
  }

  lemma {:induction false} NoShorterScript(a: seq<int>, mid: seq<int>, es: seq<Edit>, b: seq<int>)
    requires Turns(mid, es, b)
    ensures Dist(a, b) <= Dist(a, mid) + |es|
    decreases es
  {
    if es != [] {
      OneEdit(a, es[0], mid);
      NoShorterScript(a, Edited(es[0], mid), es[1..], b);
    }
  }

  // ---------------------------------------------------------------- one script is that short

  lemma TurnsFirst(a: seq<int>, es: seq<Edit>, b: seq<int>)
    ensures Turns(a, [], b) <==> a == b
    ensures es != [] ==> (Turns(a, es, b) <==> Fits(es[0], a) && Turns(Edited(es[0], a), es[1..], b))
  {
    hide Fits, Edited;
  }

  lemma {:induction false} TurnsThen(a: seq<int>, es: seq<Edit>, b: seq<int>, fs: seq<Edit>, c: seq<int>)
    requires Turns(a, es, b) && Turns(b, fs, c)
    ensures Turns(a, es + fs, c)
    decreases es
  {
    hide Turns, Fits, Edited;
    TurnsFirst(a, es, b);
    if es == [] {
      assert es + fs == fs;
    } else {
      TurnsThen(Edited(es[0], a), es[1..], b, fs, c);
      var all := es + fs;
      assert all[0] == es[0] && all[1..] == es[1..] + fs;
      TurnsFirst(a, all, c);
    }
  }

  lemma {:induction false} TurnsBeforeLast(a: seq<int>, es: seq<Edit>, b: seq<int>, x: int)
    requires Turns(a, es, b)
    ensures Turns(a + [x], es, b + [x])
    decreases es
  {
    if es != [] {
      assert Init(a + [x]) == a;
      EditedKeepsLast(es[0], a + [x]);
      TurnsBeforeLast(Edited(es[0], a), es[1..], b, x);
    }
  }

  lemma TurnsOnce(e: Edit, s: seq<int>, t: seq<int>)
    requires Fits(e, s) && Edited(e, s) == t
    ensures Turns(s, [e], t)
  {
    assert Turns(t, [e][1..], t);
  }

  lemma {:induction false} ScriptExists(a: seq<int>, b: seq<int>) returns (es: seq<Edit>)
    ensures Turns(a, es, b) && |es| == Dist(a, b)
    decreases |a| + |b|
  {
    if a == [] && b == [] {
      es := [];
    } else if b == [] || (a != [] && Dist(a, b) == Dist(Init(a), b) + 1) {
      es := DeleteLastThen(a, b, Dist(Init(a), b));
    } else if a == [] || Dist(a, b) == Dist(a, Init(b)) + 1 {
      es := ThenInsertLast(a, b, Dist(a, Init(b)));
    } else {
      es := SubstituteLast(a, b, Dist(Init(a), Init(b)));
    }
  }

  lemma {:induction false} DeleteLastThen(a: seq<int>, b: seq<int>, d: nat) returns (es: seq<Edit>)
    requires a != []
    requires d == Dist(Init(a), b)
    ensures Turns(a, es, b) && |es| == d + 1
    decreases |a| + |b|, 0
  {
    var rest := ScriptExists(Init(a), b);
    es := [Delete(|a| - 1)] + rest;
    assert Edited(Delete(|a| - 1), a) == Init(a);
    TurnsOnce(Delete(|a| - 1), a, Init(a));
    TurnsThen(a, [Delete(|a| - 1)], Init(a), rest, b);
  }

  lemma {:induction false} ThenInsertLast(a: seq<int>, b: seq<int>, d: nat) returns (es: seq<Edit>)
    requires b != []
    requires d == Dist(a, Init(b))
    ensures Turns(a, es, b) && |es| == d + 1
    decreases |a| + |b|, 0
  {
    var rest := ScriptExists(a, Init(b));
    var last := Insert(|b| - 1, Last(b));
    hide Turns, Fits, Edited, Dist;
    es := rest + [last];
    InsertedLast(b);
    TurnsOnce(last, Init(b), b);
    TurnsThen(a, rest, Init(b), [last], b);
  }

  lemma InsertedLast(b: seq<int>)
    requires b != []
    ensures Fits(Insert(|b| - 1, Last(b)), Init(b)) && Edited(Insert(|b| - 1, Last(b)), Init(b)) == b
  {
  }

  lemma {:induction false} SubstituteLast(a: seq<int>, b: seq<int>, d: nat) returns (es: seq<Edit>)
    requires a != [] && b != []
    requires d == Dist(Init(a), Init(b))
    ensures Turns(a, es, b) && |es| == d + Subst(Last(a), Last(b))
    decreases |a| + |b|, 0
  {
    var rest := ScriptExists(Init(a), Init(b));
    var mid := Init(b) + [Last(a)];
    TurnsUnderLast(a, rest, Init(b), mid);
    var fs := LastBecomes(mid, b);
    es := rest + fs;
    TurnsThen(a, rest, mid, fs, b);
  }

  lemma TurnsUnderLast(a: seq<int>, es: seq<Edit>, b: seq<int>, c: seq<int>)
    requires a != [] && Turns(Init(a), es, b) && c == b + [Last(a)]
    ensures Turns(a, es, c)
  {
    hide Turns;
    TurnsBeforeLast(Init(a), es, b, Last(a));
    assert Init(a) + [Last(a)] == a;
  }

  lemma LastBecomes(s: seq<int>, b: seq<int>) returns (es: seq<Edit>)
    requires s != [] && b != [] && Init(s) == Init(b)
    ensures Turns(s, es, b) && |es| == Subst(Last(s), Last(b))
  {
    assert s == Init(s) + [Last(s)] && b == Init(b) + [Last(b)];
    if Last(s) == Last(b) {
      es := [];
    } else {
      es := [Substitute(|b| - 1, Last(b))];
      assert Edited(es[0], s) == b;
      TurnsOnce(es[0], s, b);
    }
  }

  /** The table entry is the least number of edits that turn `a` into `b`. */
  lemma DistIsLeast(a: seq<int>, b: seq<int>)
    ensures exists es :: Turns(a, es, b) && |es| == Dist(a, b)
    ensures forall es :: Turns(a, es, b) ==> |es| >= Dist(a, b)
  {
    var es := ScriptExists(a, b);
    forall fs | Turns(a, fs, b) ensures |fs| >= Dist(a, b) {
      DistSelf(a);
      NoShorterScript(a, a, fs, b);
    }
  }

  // ---------------------------------------------------------------- the two rows

  // The distances from all prefixes of `a` to `b`.
  ghost function DistRow(a: seq<int>, b: seq<int>): (r: seq<int>)
    ensures |r| == |a| + 1
  {
    seq(|a| + 1, i requires 0 <= i <= |a| => Dist(a[..i], b))
  }

  // How row j of the table, for the element `c`, comes from the row before it.
  ghost predicate Follows(prev: seq<int>, next: seq<int>, a: seq<int>, c: int, j: int) {
    && |prev| == |next| == |a| + 1 && next[0] == j
    && forall i :: 0 < i <= |a| ==>
         next[i] == Min3(next[i - 1] + 1, prev[i] + 1, prev[i - 1] + Subst(a[i - 1], c))
  }

  lemma DistStep(a: seq<int>, b: seq<int>, up: int, left: int, diagonal: int)
    requires a != [] && b != []
    requires up == Dist(Init(a), b) && left == Dist(a, Init(b)) && diagonal == Dist(Init(a), Init(b))
    ensures Dist(a, b) == Min3(up + 1, left + 1, diagonal + Subst(Last(a), Last(b)))
  {
  }

  lemma RowStep(a: seq<int>, b: seq<int>, i: nat)
    requires b != [] && 0 < i <= |a|
    ensures DistRow(a, b)[i]
         == Min3(DistRow(a, b)[i - 1] + 1, DistRow(a, Init(b))[i] + 1,
                 DistRow(a, Init(b))[i - 1] + Subst(a[i - 1], Last(b)))
  {
    var p := a[..i];
    assert Init(p) == a[..i - 1] && Last(p) == a[i - 1];
    DistStep(p, b, DistRow(a, b)[i - 1], DistRow(a, Init(b))[i], DistRow(a, Init(b))[i - 1]);
  }

  lemma RowsFollow(a: seq<int>, b: seq<int>)
    requires b != []
    ensures Follows(DistRow(a, Init(b)), DistRow(a, b), a, Last(b), |b|)
  {
    forall i | 0 < i <= |a|
      ensures DistRow(a, b)[i]
           == Min3(DistRow(a, b)[i - 1] + 1, DistRow(a, Init(b))[i] + 1,
                   DistRow(a, Init(b))[i - 1] + Subst(a[i - 1], Last(b)))
    {
      RowStep(a, b, i);
    }
    assert a[..0] == [];
  }

  // Row 0, and the entry that is the distance itself.
  lemma RowEnds(a: seq<int>, b: seq<int>)
    ensures forall i :: 0 <= i <= |a| ==> DistRow(a, [])[i] == i
    ensures DistRow(a, b)[|a|] == Dist(a, b)
  {
    assert a[..|a|] == a;
  }

  ghost predicate Table(t: seq<seq<int>>, a: seq<int>, b: seq<int>) {
    && |t| == |b| + 1 && |t[0]| == |t[|b|]| == |a| + 1
    && (forall i :: 0 <= i <= |a| ==> t[0][i] == i)
    && (forall j {:trigger t[j]} :: 0 < j <= |b| ==> Follows(t[j - 1], t[j], a, b[j - 1], j))
  }

  /** The whole table, row by row. */
  lemma DistTable(a: seq<int>, b: seq<int>) returns (t: seq<seq<int>>)
    ensures Table(t, a, b) && t[|b|][|a|] == Dist(a, b)
  {
    t := seq(|b| + 1, j requires 0 <= j <= |b| => DistRow(a, b[..j]));
    assert b[..0] == [] && b[..|b|] == b;
    RowEnds(a, b);
    forall j {:trigger t[j]} | 0 < j <= |b| ensures Follows(t[j - 1], t[j], a, b[j - 1], j) {
      assert Init(b[..j]) == b[..j - 1];
      RowsFollow(a, b[..j]);
    }
  }

  /** A stretch of an array that a write into `buf[at..at + len]` cannot reach. */
  predicate Apart(s: array<int>, from: nat, n: nat, buf: array<int>, at: nat, len: nat) {
    from + n <= s.Length && (s == buf ==> from + n <= at || at + len <= from)
  }

  /**
   * The distance between `a[aAt..aAt + aLen]` and `b[bAt..bAt + bLen]`, with the two rows kept
   * in `buf[at..at + bufLen]`. The inputs may live in the same array, outside that stretch.
   */
  method Utf32DistBuffer(a: array<int>, aAt: nat, aLen: nat, b: array<int>, bAt: nat, bLen: nat,
                         buf: array<int>, at: nat, bufLen: nat) returns (d: int)
    requires bufLen >= (aLen + 1) + (bLen + 1) && at + bufLen <= buf.Length
    requires Apart(a, aAt, aLen, buf, at, bufLen) && Apart(b, bAt, bLen, buf, at, bufLen)
    modifies buf
    ensures d == Dist(old(a[aAt..aAt + aLen]), old(b[bAt..bAt + bLen]))
    ensures Untouched(buf[..], old(buf[..]), at, bufLen)
  {
    ghost var x, y := a[aAt..aAt + aLen], b[bAt..bAt + bLen];
    if aLen > bLen {
      DistSymmetric(x, y);
      ghost var t := DistTable(y, x);
      d := ShorterFirst(b, bAt, bLen, a, aAt, aLen, buf, at, bufLen, t, y, x);
    } else {
      ghost var t := DistTable(x, y);
      d := ShorterFirst(a, aAt, aLen, b, bAt, bLen, buf, at, bufLen, t, x, y);
    }
  }

  ghost predicate Input(a: array<int>, at: nat, x: seq<int>)
    reads a
  {
    at + |x| <= a.Length && forall k :: 0 <= k < |x| ==> a[at + k] == x[k]
  }

  // Both inputs, as long as nothing was written over them.
  ghost predicate Inputs(a: array<int>, aAt: nat, x: seq<int>, b: array<int>, bAt: nat, y: seq<int>)
    reads a, b
  {
    Input(a, aAt, x) && Input(b, bAt, y)
  }

  method ShorterFirst(a: array<int>, aAt: nat, aLen: nat, b: array<int>, bAt: nat, bLen: nat,
                      buf: array<int>, at: nat, ghost bufLen: nat, ghost t: seq<seq<int>>,
                      ghost x: seq<int>, ghost y: seq<int>) returns (d: int)
    requires aLen <= bLen && |x| == aLen && |y| == bLen
    requires bufLen >= (aLen + 1) + (bLen + 1) && at + bufLen <= buf.Length
    requires Apart(a, aAt, aLen, buf, at, bufLen) && Apart(b, bAt, bLen, buf, at, bufLen)
    requires Inputs(a, aAt, x, b, bAt, y) && Table(t, x, y)
    modifies buf
    ensures d == t[bLen][aLen]
    ensures Untouched(buf[..], old(buf[..]), at, bufLen)
  {
    hide Inputs, Holds, Untouched, Apart, Table, RowAt, Follows;
    TableRows(t, x, y);
    StartRow(a, aAt, aLen, b, bAt, bLen, buf, at, bufLen, t[0], x, y);
    for j := 1 to bLen + 1
      invariant Inputs(a, aAt, x, b, bAt, y)
      invariant Holds(buf, RowAt(at, aLen, j - 1), t[j - 1], aLen + 1)
      invariant Untouched(buf[..], old(buf[..]), at, bufLen)
    {
      label Before:
      NextRow(a, aAt, aLen, b, bAt, bLen, buf, at, bufLen, t[j - 1], t[j], x, y, j);
      UntouchedStill(old(buf[..]), old@Before(buf[..]), buf[..], at, bufLen);
    }
    d := ReadLast(buf, RowAt(at, aLen, bLen), t[bLen], aLen);
  }

  lemma TableRows(t: seq<seq<int>>, x: seq<int>, y: seq<int>)
    requires Table(t, x, y)
    ensures |t| == |y| + 1 && |t[0]| == |x| + 1 && (forall i :: 0 <= i <= |x| ==> t[0][i] == i)
    ensures forall j :: 0 < j <= |y| ==> |t[j]| == |x| + 1 && Follows(t[j - 1], t[j], x, y[j - 1], j)
  {
  }

  lemma UntouchedStill(was: seq<int>, between: seq<int>, now: seq<int>, at: nat, n: nat)
    requires Untouched(between, was, at, n) && Untouched(now, between, at, n)
    ensures Untouched(now, was, at, n)
  {
  }

  method ReadLast(buf: array<int>, row: nat, ghost last: seq<int>, n: nat) returns (d: int)
    requires |last| == n + 1 && Holds(buf, row, last, n + 1)
    ensures d == last[n]
  {
    d := buf[row + n];
  }

  method StartRow(a: array<int>, ghost aAt: nat, aLen: nat, b: array<int>, ghost bAt: nat, ghost bLen: nat,
                  buf: array<int>, at: nat, ghost bufLen: nat, ghost first: seq<int>,
                  ghost x: seq<int>, ghost y: seq<int>)
    requires aLen + 1 <= bufLen && at + bufLen <= buf.Length && |x| == aLen && |y| == bLen
    requires Apart(a, aAt, aLen, buf, at, bufLen) && Apart(b, bAt, bLen, buf, at, bufLen)
    requires Inputs(a, aAt, x, b, bAt, y)
    requires |first| == aLen + 1 && forall i :: 0 <= i <= aLen ==> first[i] == i
    modifies buf
    ensures Inputs(a, aAt, x, b, bAt, y)
    ensures Holds(buf, RowAt(at, aLen, 0), first, aLen + 1)
    ensures Untouched(buf[..], old(buf[..]), at, bufLen)
  {
    FirstRow(aLen, buf, at, first);
  }

  // Where row j lives: even rows first, odd rows behind them.
  function RowAt(at: nat, aLen: nat, j: nat): (r: nat) {
    if j % 2 == 1 then at + (aLen + 1) else at
  }

  method NextRow(a: array<int>, aAt: nat, aLen: nat, b: array<int>, bAt: nat, bLen: nat,
                 buf: array<int>, at: nat, ghost bufLen: nat, ghost before: seq<int>, ghost next: seq<int>,
                 ghost x: seq<int>, ghost y: seq<int>, j: nat)
    requires 2 * (aLen + 1) <= bufLen && at + bufLen <= buf.Length && |x| == aLen && |y| == bLen
    requires Apart(a, aAt, aLen, buf, at, bufLen) && Apart(b, bAt, bLen, buf, at, bufLen)
    requires Inputs(a, aAt, x, b, bAt, y) && 0 < j <= bLen && Follows(before, next, x, y[j - 1], j)
    requires Holds(buf, RowAt(at, aLen, j - 1), before, aLen + 1)
    modifies buf
    ensures Inputs(a, aAt, x, b, bAt, y)
    ensures Holds(buf, RowAt(at, aLen, j), next, aLen + 1)
    ensures Untouched(buf[..], old(buf[..]), at, bufLen)
  {
    assert b[bAt + (j - 1)] == y[j - 1];
    FillRow(a, aAt, aLen, b[bAt + j - 1], buf, at, bufLen, RowAt(at, aLen, j), RowAt(at, aLen, j - 1),
            x, before, next, j);
  }

  // The first `n` entries of a table row, in place.
  ghost predicate Holds(buf: array<int>, at: nat, row: seq<int>, n: nat)
    reads buf
  {
    at + n <= buf.Length && n <= |row| && forall k :: 0 <= k < n ==> buf[at + k] == row[k]
  }

  predicate Untouched(now: seq<int>, was: seq<int>, at: nat, len: nat) {
    |was| == |now| && forall k :: 0 <= k < |now| && !(at <= k < at + len) ==> now[k] == was[k]
  }

  method FirstRow(aLen: nat, buf: array<int>, at: nat, ghost first: seq<int>)
    requires at + aLen + 1 <= buf.Length && |first| == aLen + 1
    requires forall i :: 0 <= i <= aLen ==> first[i] == i
    modifies buf
    ensures Holds(buf, at, first, aLen + 1)
    ensures Untouched(buf[..], old(buf[..]), at, aLen + 1)
  {
    for i := 0 to aLen + 1
      invariant Holds(buf, at, first, i)
      invariant Untouched(buf[..], old(buf[..]), at, aLen + 1)
    {
      buf[at + i] := i;
    }
  }

  // Fill row j of the table at `row` from the row before it at `prev`.
  method FillRow(a: array<int>, aAt: nat, aLen: nat, c: int, buf: array<int>, ghost at: nat, ghost bufLen: nat,
                 row: nat, prev: nat, ghost x: seq<int>, ghost before: seq<int>, ghost next: seq<int>, j: nat)
    requires Apart(a, aAt, aLen, buf, at, bufLen) && at + bufLen <= buf.Length
    requires 2 * (aLen + 1) <= bufLen
    requires (row == at && prev == at + aLen + 1) || (row == at + aLen + 1 && prev == at)
    requires |x| == aLen && Input(a, aAt, x) && Follows(before, next, x, c, j)
    requires Holds(buf, prev, before, aLen + 1)
    modifies buf
    ensures Input(a, aAt, x) && Holds(buf, row, next, aLen + 1)
    ensures Untouched(buf[..], old(buf[..]), at, bufLen)
  {
    buf[row] := j;
    for i := 1 to aLen + 1
      invariant Input(a, aAt, x) && Holds(buf, row, next, i) && Holds(buf, prev, before, aLen + 1)
      invariant Untouched(buf[..], old(buf[..]), at, bufLen)
    {
      hide Follows, Untouched;
      label Before:
      FillCell(a, aAt, aLen, c, buf, row, prev, x, before, next, i, j);
      CellWithin(old(buf[..]), old@Before(buf[..]), buf[..], row + i, at, bufLen);
    }
  }

  // Writing one cell of the rows leaves the rest of the buffer.
  lemma CellWithin(was: seq<int>, between: seq<int>, now: seq<int>, cell: nat, at: nat, n: nat)
    requires Untouched(between, was, at, n) && at <= cell < at + n && cell < |between|
    requires now == between[cell := if cell < |now| then now[cell] else 0]
    ensures Untouched(now, was, at, n)
  {
  }

  method FillCell(a: array<int>, aAt: nat, aLen: nat, c: int, buf: array<int>, row: nat, prev: nat,
                  ghost x: seq<int>, ghost before: seq<int>, ghost next: seq<int>, i: nat, ghost j: int)
    requires 0 < i <= aLen == |x| && Input(a, aAt, x) && Follows(before, next, x, c, j)
    requires Holds(buf, prev, before, aLen + 1) && Holds(buf, row, next, i) && row + aLen < buf.Length
    requires (row + aLen < prev || prev + aLen < row) && (a == buf ==> row + aLen < aAt || aAt + aLen <= row)
    modifies buf
    ensures Input(a, aAt, x) && Holds(buf, prev, before, aLen + 1) && Holds(buf, row, next, i + 1)
    ensures buf[..] == old(buf[..])[row + i := next[i]]
  {
    assert a[aAt + (i - 1)] == x[i - 1];
    assert buf[row + (i - 1)] == next[i - 1] && buf[prev + i] == before[i] && buf[prev + (i - 1)] == before[i - 1];
    var subst := if a[aAt + i - 1] != c then 1 else 0;
    buf[row + i] := Min3(buf[row + i - 1] + 1, buf[prev + i] + 1, buf[prev + i - 1] + subst);
  }
}
